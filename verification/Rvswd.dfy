/**
 * The DMI frames of RVSWD and the parity that protects them, after
 * `rvswd_template.h` and `lnbmp_parity.h`.
 */
module Rvswd {
  import opened Bytes
  import opened Bits
  import opened Serialiser

  const WRITE_RESPONSE_CLOCKS: nat := 16

  // ---- Parity -------------------------------------------------------------

  /** `lnOddParity`: fold to four bits, then look the answer up in a 16-bit constant. */
  function LnOddParity(value: u32): (p: nat) {
    var v1 := Xor(value, value / 0x1_0000);
    var v2 := Xor(v1, v1 / 0x100);
    var v3 := Xor(v2, v2 / 0x10);
    0x6996 / Pow2(v3 % 16) % 2
  }

  lemma ShrIsDivide(x: nat)
    ensures Shr(x, 4) == x / 16 && Shr(x, 8) == x / 256 && Shr(x, 16) == x / 0x1_0000
    ensures Low(x, 4) == x % 16
  {
    Pow2Values();
    ShrLow(x, 4);
    ShrLow(x, 8);
    ShrLow(x, 16);
  }

  /** Folding the upper part of the low `2 * n` bits onto the lower keeps their parity. */
  lemma Fold(v: nat, n: nat)
    ensures Parity(Low(Xor(v, Shr(v, n)), n)) == Parity(Low(v, 2 * n))
  {
    hide Xor, Low, Shr, Parity;
    XorLow(v, Shr(v, n), n);
    ParityXor(Low(v, n), Low(Shr(v, n), n));
    ParitySplit(Low(v, 2 * n), n);
    LowOfShr(v, n, n);
    LowOfLow(v, n, 2 * n);
  }

  lemma Lookup(u: nat)
    requires u < 16
    ensures 0x6996 / Pow2(u) % 2 == Parity(u)
  {
    SmallPowers();
    SmallParities();
    hide Pow2, Parity;
    if u < 8 {
      if u < 4 { assert u == 0 || u == 1 || u == 2 || u == 3; }
      else { assert u == 4 || u == 5 || u == 6 || u == 7; }
    } else if u < 12 {
      assert u == 8 || u == 9 || u == 10 || u == 11;
    } else {
      assert u == 12 || u == 13 || u == 14 || u == 15;
    }
  }

  lemma SmallPowers()
    ensures Pow2(0) == 1 && Pow2(1) == 2 && Pow2(2) == 4 && Pow2(3) == 8
    ensures Pow2(4) == 16 && Pow2(5) == 32 && Pow2(6) == 64 && Pow2(7) == 128
    ensures Pow2(8) == 256 && Pow2(9) == 512 && Pow2(10) == 1024 && Pow2(11) == 2048
    ensures Pow2(12) == 4096 && Pow2(13) == 8192 && Pow2(14) == 16384 && Pow2(15) == 32768
  {
    assert Pow2(4) == 16;
    assert Pow2(8) == 256;
    assert Pow2(12) == 4096;
  }

  lemma SmallParities()
    ensures Parity(0) == 0 && Parity(1) == 1 && Parity(2) == 1 && Parity(3) == 0
    ensures Parity(4) == 1 && Parity(5) == 0 && Parity(6) == 0 && Parity(7) == 1
    ensures Parity(8) == 1 && Parity(9) == 0 && Parity(10) == 0 && Parity(11) == 1
    ensures Parity(12) == 0 && Parity(13) == 1 && Parity(14) == 1 && Parity(15) == 0
  {
  }

  /** The folded lookup is the exclusive or of all 32 bits. */
  lemma OddParityIsXor(value: u32)
    ensures LnOddParity(value) == Parity(value)
    ensures LnOddParity(value) == 1 <==> XorAll(MsbBits(value, 32))
  {
    hide Xor, Parity, Pow2, XorAll, Low, Shr;
    Pow2Values();
    var v1 := Xor(value, value / 0x1_0000);
    var v2 := Xor(v1, v1 / 0x100);
    var v3 := Xor(v2, v2 / 0x10);
    ShrIsDivide(value);
    ShrIsDivide(v1);
    ShrIsDivide(v2);
    ShrIsDivide(v3);
    Fold(value, 16);
    Fold(v1, 8);
    Fold(v2, 4);
    LowAll(value, 32);
    Lookup(v3 % 16);
    ParityIsXorAll(value, 32);
  }

  lemma LowAll(x: nat, n: nat)
    requires x < Pow2(n)
    ensures Low(x, n) == x
  {
    LowOfSum(0, n, x);
  }

  // ---- Frames -------------------------------------------------------------

  /** `(adr << 1) + d` on 32 bits: the top bit of the address is lost. */
  function Doubled(adr: u32, d: nat): (a: u32)
    requires d < 2
    ensures a == adr * 2 % TWO32 + d
  {
    adr % 0x8000_0000 * 2 + d
  }

  function Both(b: bool): (t: nat) {
    if b then 3 else 0
  }

  /** Address, direction and the doubled parity of both. */
  function Header(adr: u32, write: bool): (h: nat)
    ensures h < 4 * TWO32
  {
    var a := Doubled(adr, if write then 1 else 0);
    a * 4 + Both(LnOddParity(a) != 0)
  }

  /** The 64-bit word `rv_dm_write` builds; its top bits may be lost. */
  function WriteFrame(adr: u32, val: u32): u64 {
    ((Header(adr, true) * 16 * TWO32 + val) % TWO64 * 4 + Both(LnOddParity(val) != 0)) % TWO64
  }

  function ReadFrame(adr: u32): u64 {
    Header(adr, false) * 16 + 1
  }

  /** The bits of a header on the wire: seven address bits, direction, doubled parity. */
  function HeaderBits(adr: u32, write: bool): (bits: seq<bool>)
    ensures |bits| == 10
  {
    var p := Parity(Doubled(adr, if write then 1 else 0)) == 1;
    MsbBits(adr, 7) + [write] + [p, p]
  }

  lemma SmallFields()
    ensures MsbBits(0, 2) == [false, false] && MsbBits(3, 2) == [true, true]
    ensures MsbBits(0, 4) == [false, false, false, false] && MsbBits(1, 4) == [false, false, false, true]
  {
  }

  /** The doubled address and direction as eight bits. */
  lemma DoubledBits(adr: u32, d: nat)
    requires d < 2
    ensures MsbBits(Doubled(adr, d), 8) == MsbBits(adr, 7) + [d == 1]
    ensures Shr(Doubled(adr, d), 8) == Shr(adr % 0x8000_0000, 7)
  {
    var b := adr % 0x8000_0000;
    SevenOf31(adr);
    MsbBitsStep(Doubled(adr, d), 8);
    hide MsbBits;
    assert Doubled(adr, d) / 2 == b && Doubled(adr, d) % 2 == d;
  }

  lemma SevenOf31(adr: u32)
    ensures MsbBits(adr % 0x8000_0000, 7) == MsbBits(adr, 7)
  {
    hide Pow2, Low, MsbBits;
    Pow2Of31();
    LowOfSum(adr / 0x8000_0000, 31, adr % 0x8000_0000);
    LowOfLow(adr, 7, 31);
    MsbLow(adr, 7);
    MsbLow(adr % 0x8000_0000, 7);
  }

  lemma Pow2Of31()
    ensures Pow2(31) == 0x8000_0000
  {
    Pow2Values();
    assert Pow2(32) == 2 * Pow2(31);
  }

  lemma HeaderOnWire(adr: u32, write: bool)
    ensures MsbBits(Header(adr, write), 10) == HeaderBits(adr, write)
  {
    hide Parity, Pow2, LnOddParity, MsbBits, Doubled;
    SmallPowers();
    var d := if write then 1 else 0;
    var a := Doubled(adr, d);
    OddParityIsXor(a);
    ParityBit(a);
    MsbJoin(a, 8, Both(LnOddParity(a) != 0), 2);
    SmallFields();
    DoubledBits(adr, d);
  }

  lemma ParityBit(x: nat)
    ensures Parity(x) == 0 || Parity(x) == 1
  {
  }

  /** Arithmetic modulo 2^64 does not disturb the 48 bits that are sent. */
  lemma SixtyFour(body: nat, p: nat)
    requires p < 4
    ensures MsbBits((body % TWO64 * 4 + p) % TWO64, 48) == MsbBits(body * 4 + p, 48)
  {
    var x, b, y := body * 4 + p, body % TWO64 * 4 + p, (body % TWO64 * 4 + p) % TWO64;
    var q1, q2 := body / TWO64, b / TWO64;
    assert body == q1 * TWO64 + body % TWO64 && b == q2 * TWO64 + y;
    SameLow48(x, 4 * q1 + q2, y);
  }

  lemma SameLow48(x: nat, q: nat, y: u64)
    requires x == q * TWO64 + y
    ensures MsbBits(y, 48) == MsbBits(x, 48)
  {
    hide MsbBits, Low;
    Pow2Values();
    LowOfSum(q, 64, y);
    LowOfLow(x, 48, 64);
    MsbLow(x, 48);
    MsbLow(y, 48);
  }

  /** A write frame on the wire, field by field. */
  lemma WriteFrameOnWire(adr: u32, val: u32)
    ensures
      var p := Parity(val) == 1;
      MsbBits(WriteFrame(adr, val), 48)
      == HeaderBits(adr, true) + [false, false, false, false] + MsbBits(val, 32) + [p, p]
  {
    hide Parity, Pow2, LnOddParity, Header, HeaderBits, MsbBits;
    Pow2Values();
    OddParityIsXor(val);
    ParityBit(val);
    var h, p := Header(adr, true), Both(LnOddParity(val) != 0);
    SixtyFour(h * 16 * TWO32 + val, p);
    SmallFields();
    MsbJoin(h * 16 * TWO32 + val, 46, p, 2);
    MsbJoin(h * 16, 14, val, 32);
    MsbJoin(h, 10, 0, 4);
    HeaderOnWire(adr, true);
  }

  lemma ReadFrameOnWire(adr: u32)
    ensures MsbBits(ReadFrame(adr), 14) == HeaderBits(adr, false) + [false, false, false, true]
  {
    hide Pow2, Header, HeaderBits, MsbBits;
    Pow2Values();
    SmallFields();
    MsbJoin(Header(adr, false), 10, 1, 4);
    HeaderOnWire(adr, false);
  }

  // ---- The receiving side -------------------------------------------------

  /** What a debug module recovers from the first ten bits of a frame. */
  datatype Request = Request(address: nat, write: bool, parityOk: bool)

  function DecodeHeader(bits: seq<bool>): Request
    requires |bits| >= 10
  {
    Request(Value(bits[..7]), bits[7], bits[8] == bits[9] == XorAll(bits[..8]))
  }

  /**
   * The receiver gets the low seven address bits and the direction; the parity
   * fits exactly when the address bits that were dropped have even parity.
   */
  lemma HeaderReceived(adr: u32, write: bool, rest: seq<bool>)
    ensures
      var r := DecodeHeader(HeaderBits(adr, write) + rest);
      && r.address == Low(adr, 7) && r.write == write
      && (r.parityOk <==> Parity(Shr(adr % 0x8000_0000, 7)) == 0)
  {
    hide Parity, XorAll, Pow2, MsbBits, Value, Doubled, Low, Shr;
    var d := if write then 1 else 0;
    var a, bits := Doubled(adr, d), HeaderBits(adr, write) + rest;
    assert bits[..7] == MsbBits(adr, 7);
    ValueOfBits(adr, 7);
    DoubledBits(adr, d);
    assert bits[..8] == MsbBits(a, 8);
    MsbLow(a, 8);
    ParityIsXorAll(Low(a, 8), 8);
    ParitySplit(a, 8);
    ParityBit(Shr(a, 8));
    ParityBit(Low(a, 8));
    ParityBit(a);
  }

  /** For every register address the driver uses (seven bits) the header checks. */
  lemma HeaderOfRegister(adr: u32, write: bool, rest: seq<bool>)
    requires adr < 128
    ensures DecodeHeader(HeaderBits(adr, write) + rest) == Request(adr, write, true)
  {
    hide HeaderBits, DecodeHeader, Low, Shr, Parity, Pow2;
    Pow2Values();
    LowOfSum(0, 7, adr);
    HeaderReceived(adr, write, rest);
    ParityOfZero();
  }

  /** The data field of a write frame arrives with a correct parity, whatever the address. */
  lemma DataReceived(adr: u32, val: u32)
    ensures
      var bits := MsbBits(WriteFrame(adr, val), 48);
      Value(bits[14..46]) == val && bits[46] == bits[47] == XorAll(bits[14..46])
  {
    hide Parity, XorAll, WriteFrame, HeaderBits, MsbBits, Value, Pow2, Low;
    Pow2Values();
    WriteFrameOnWire(adr, val);
    var bits := MsbBits(WriteFrame(adr, val), 48);
    assert bits[14..46] == MsbBits(val, 32);
    ValueOfBits(val, 32);
    LowAll(val, 32);
    ParityIsXorAll(val, 32);
    ParityBit(val);
  }

  /** A received number cut after its first `n` bits. */
  lemma CutValue(bits: seq<bool>, n: nat)
    requires n <= |bits|
    ensures Value(bits) == Value(bits[..n]) * Pow2(|bits| - n) + Value(bits[n..])
    ensures Value(bits[n..]) < Pow2(|bits| - n) && Value(bits[..n]) < Pow2(n)
  {
    hide Value, Pow2;
    assert bits == bits[..n] + bits[n..];
    ValueConcat(bits[..n], bits[n..]);
    ValueBound(bits[..n]);
    ValueBound(bits[n..]);
  }

  lemma StatusOfWrite(bits: seq<bool>)
    requires |bits| == WRITE_RESPONSE_CLOCKS
    ensures Value(bits) / 0x1000 % 16 == Value(bits[..4])
  {
    hide Value, Pow2;
    CutValue(bits, 4);
    SmallPowers();
  }

  lemma StatusOfRead(bits: seq<bool>)
    requires |bits| == 38
    ensures Value(bits) % 16 == Value(bits[34..])
  {
    hide Value, Pow2;
    CutValue(bits, 34);
    SmallPowers();
  }

  lemma DataOfRead(bits: seq<bool>)
    requires |bits| == 38
    ensures Value(bits) / 64 % TWO32 == Value(bits[..32])
  {
    hide Value, Pow2;
    CutValue(bits, 32);
    SmallPowers();
    Pow2Values();
  }

  // ---- The driver ---------------------------------------------------------

  /** `rv_dm_write`: the frame goes out, and the first four sampled bits are the status. */
  method DmWrite(tap: Tap, adr: u32, val: u32) returns (ok: bool)
    modifies tap
    ensures tap.wire == old(tap.wire) + Exchange(MsbBits(WriteFrame(adr, val), 48), WRITE_RESPONSE_CLOCKS)
    ensures Exchanged(old(tap.wire), tap.wire, MsbBits(WriteFrame(adr, val), 48), 16)
    ensures
      var status := Value(Levels(tap.level, old(tap.clock), WRITE_RESPONSE_CLOCKS)[..4]);
      ok <==> status == 3 || status == 7
  {
    hide MsbBits, Value, WriteFrame, Exchange, Exchanged;
    ghost var all := Levels(tap.level, tap.clock, WRITE_RESPONSE_CLOCKS);
    var rx := tap.WriteThenReadHalves(WriteFrame(adr, val), 48, WRITE_RESPONSE_CLOCKS);
    StatusOfWrite(all);
    var status := rx / 0x1000 % 16;
    ok := status == 3 || status == 7;
  }

  /** `rv_dm_read`: 32 data bits, two unchecked parity bits, four status bits. */
  method DmRead(tap: Tap, adr: u32) returns (ok: bool, output: u32)
    modifies tap
    ensures tap.wire == old(tap.wire) + Exchange(MsbBits(ReadFrame(adr), 14), 38)
    ensures Exchanged(old(tap.wire), tap.wire, MsbBits(ReadFrame(adr), 14), 38)
    ensures
      var reply := Levels(tap.level, old(tap.clock), 38);
      && (ok <==> Value(reply[34..]) == 3 || Value(reply[34..]) == 7)
      && output == Value(reply[..32])
  {
    hide MsbBits, Value, ReadFrame, Exchange, Exchanged;
    ghost var all := Levels(tap.level, tap.clock, 38);
    var rx := tap.WriteThenReadHalves(ReadFrame(adr), 14, 38);
    StatusOfRead(all);
    DataOfRead(all);
    var status := rx % 16;
    output := rx / 64 % TWO32;
    ok := status == 3 || status == 7;
  }
}

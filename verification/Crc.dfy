/**
 * The two ways to the CRC of target memory, after `crc.rs` and the flash stub
 * `gd32_crc32.c`, against a bit-serial definition. The polynomial is
 * 0x04c11db7, not reflected, from 0xffffffff, with no final inversion.
 */
module Crc {
  import opened Bytes

  const INIT: bv32 := 0xffff_ffff

  // ---- Register arithmetic ------------------------------------------------

  const POLY: bv32 := 0x04c1_1db7

  function Xor(a: bv32, b: bv32): bv32 { a ^ b }

  function Double(a: bv32): bv32 { a << 1 }

  function Times256(a: bv32): bv32 { a << 8 }

  predicate Top(a: bv32) { a & 0x8000_0000 != 0 }

  /** The top byte is zero. */
  predicate Clear(a: bv32) { a & 0xff00_0000 == 0 }

  lemma RawTopXor(a: bv32, b: bv32)
    ensures (a ^ b) & 0x8000_0000 != 0 <==> (a & 0x8000_0000 != 0) != (b & 0x8000_0000 != 0)
  {
  }

  lemma RawDouble(a: bv32, b: bv32)
    ensures (a ^ b) << 1 == (a << 1) ^ (b << 1)
  {
  }

  lemma RawXor(a: bv32, b: bv32, c: bv32)
    ensures (a ^ b) ^ c == a ^ (b ^ c)
    ensures a ^ b == b ^ a
    ensures a ^ (b ^ b) == a
  {
  }

  lemma XorAssoc(a: bv32, b: bv32, c: bv32)
    ensures Xor(Xor(a, b), c) == Xor(a, Xor(b, c))
    ensures Xor(a, b) == Xor(b, a) && Xor(a, Xor(b, b)) == a
  {
    RawXor(a, b, c);
  }

  lemma XorSwap(a: bv32, b: bv32, c: bv32)
    ensures Xor(Xor(a, b), c) == Xor(Xor(a, c), b)
  {
    hide Xor;
    XorAssoc(a, b, c);
    XorAssoc(a, c, b);
    XorAssoc(b, c, a);
  }

  lemma XorCancel(a: bv32, b: bv32, c: bv32)
    ensures Xor(Xor(a, c), Xor(b, c)) == Xor(a, b)
  {
    hide Xor;
    XorAssoc(a, c, Xor(b, c));
    XorAssoc(c, b, c);
    XorAssoc(b, c, c);
    XorAssoc(b, c, a);
  }

  lemma XorZero(a: bv32)
    ensures Xor(a, 0) == a
  {
  }

  lemma DoubleXor(a: bv32, b: bv32)
    ensures Double(Xor(a, b)) == Xor(Double(a), Double(b))
    ensures Top(Xor(a, b)) <==> Top(a) != Top(b)
  {
    RawDouble(a, b);
    RawTopXor(a, b);
  }

  // ---- Definition ---------------------------------------------------------

  /** One message bit into the register. */
  function BitStep(c: bv32, bit: bool): bv32 {
    if Top(c) != bit then Xor(Double(c), POLY) else Double(c)
  }

  function CrcBits(c: bv32, bits: seq<bool>): bv32
    decreases |bits|
  {
    if bits == [] then c else CrcBits(BitStep(c, bits[0]), bits[1..])
  }

  /** The bits of a byte, most significant first. */
  function ByteBits(b: bv8): (bits: seq<bool>)
    ensures |bits| == 8
  {
    [b & 0x80 != 0, b & 0x40 != 0, b & 0x20 != 0, b & 0x10 != 0,
     b & 0x08 != 0, b & 0x04 != 0, b & 0x02 != 0, b & 0x01 != 0]
  }

  function Bits(bytes: seq<bv8>): seq<bool> {
    if bytes == [] then [] else ByteBits(bytes[0]) + Bits(bytes[1..])
  }

  // ---- The register shifted on its own ------------------------------------

  function Shift1(c: bv32): bv32 {
    if Top(c) then Xor(Double(c), POLY) else Double(c)
  }

  function Shift8(c: bv32): bv32 {
    Shift1(Shift1(Shift1(Shift1(Shift1(Shift1(Shift1(Shift1(c))))))))
  }

  lemma Shift1Linear(x: bv32, y: bv32)
    ensures Shift1(Xor(x, y)) == Xor(Shift1(x), Shift1(y))
  {
    hide Xor, Double, Top;
    DoubleXor(x, y);
    XorCancel(Double(x), Double(y), POLY);
    XorSwap(Double(x), Double(y), POLY);
    XorAssoc(Double(x), Double(y), POLY);
  }

  lemma Shift8Linear(x: bv32, y: bv32)
    ensures Shift8(Xor(x, y)) == Xor(Shift8(x), Shift8(y))
  {
    hide Shift1, Xor;
    var x1, y1 := Shift1(x), Shift1(y);
    var x2, y2 := Shift1(x1), Shift1(y1);
    var x3, y3 := Shift1(x2), Shift1(y2);
    var x4, y4 := Shift1(x3), Shift1(y3);
    var x5, y5 := Shift1(x4), Shift1(y4);
    var x6, y6 := Shift1(x5), Shift1(y5);
    var x7, y7 := Shift1(x6), Shift1(y6);
    Shift1Linear(x, y);
    Shift1Linear(x1, y1);
    Shift1Linear(x2, y2);
    Shift1Linear(x3, y3);
    Shift1Linear(x4, y4);
    Shift1Linear(x5, y5);
    Shift1Linear(x6, y6);
    Shift1Linear(x7, y7);
  }

  /** With the top byte clear, eight shifts never meet the polynomial. */
  lemma Shift8Clear(y: bv32)
    requires Clear(y)
    ensures Shift8(y) == Times256(y)
  {
    assert Shift1(y) == y << 1;
    assert Shift1(y << 1) == y << 2;
    assert Shift1(y << 2) == y << 3;
    assert Shift1(y << 3) == y << 4;
    assert Shift1(y << 4) == y << 5;
    assert Shift1(y << 5) == y << 6;
    assert Shift1(y << 6) == y << 7;
    assert Shift1(y << 7) == y << 8;
  }

  /** Data for a later byte may enter the register eight shifts early. */
  lemma Early(x: bv32, y: bv32)
    requires Clear(y)
    ensures Shift8(Xor(x, y)) == Xor(Shift8(x), Times256(y))
  {
    hide Shift8, Xor, Times256, Clear;
    Shift8Linear(x, y);
    Shift8Clear(y);
  }

  // ---- The byte-wise digest -----------------------------------------------

  /** A byte in the top lane of the register. */
  function Lane(b: bv8): bv32 { b as bv32 << 24 }

  function ByteStep(c: bv32, b: bv8): bv32 {
    Shift8(Xor(c, Lane(b)))
  }

  function CrcBytes(c: bv32, bytes: seq<bv8>): bv32
    decreases |bytes|
  {
    if bytes == [] then c else CrcBytes(ByteStep(c, bytes[0]), bytes[1..])
  }

  /** The table-driven step: an entry of the table is eight shifts of its index. */
  function TableStep(c: bv32, b: bv8): bv32 {
    Xor(Shift8(TableIndex(c, b) << 24), Times256(c))
  }

  function TableIndex(c: bv32, b: bv8): bv32 {
    (c >> 24) ^ b as bv32
  }

  lemma UpperLane(c: bv32, b: bv8)
    ensures c == Xor(c & 0xff00_0000, c & 0x00ff_ffff)
    ensures TableIndex(c, b) << 24 == Xor(c & 0xff00_0000, Lane(b))
  {
  }

  lemma SplitRegister(c: bv32, b: bv8)
    ensures Xor(c, Lane(b)) == Xor(TableIndex(c, b) << 24, c & 0x00ff_ffff)
  {
    hide Xor, Lane, TableIndex;
    UpperLane(c, b);
    XorSwap(c & 0xff00_0000, c & 0x00ff_ffff, Lane(b));
  }

  lemma LowerLanes(c: bv32)
    ensures Times256(c & 0x00ff_ffff) == Times256(c) && Clear(c & 0x00ff_ffff)
  {
  }

  lemma TableIsByteStep(c: bv32, b: bv8)
    ensures TableStep(c, b) == ByteStep(c, b)
  {
    hide Shift8, Xor, Times256, TableIndex, Lane, Clear;
    SplitRegister(c, b);
    LowerLanes(c);
    Early(TableIndex(c, b) << 24, c & 0x00ff_ffff);
  }

  /** One bit: the register with pending data `y` xored in equals the bit step with the data still pending. */
  lemma OneBit(c: bv32, y: bv32)
    ensures Shift1(Xor(c, y)) == Xor(BitStep(c, Top(y)), Double(y))
  {
    hide Xor, Double, Top;
    DoubleXor(c, y);
    XorSwap(Double(c), Double(y), POLY);
  }

  lemma ByteStepIsBits(c: bv32, b: bv8)
    ensures ByteStep(c, b) == CrcBits(c, ByteBits(b))
  {
    var bits := ByteBits(b);
    EightBits(c, bits);
    LaneBits(b);
    hide BitStep, Shift1, CrcBits, ByteBits, Xor, Double, Top, Lane;
    var y := Lane(b);
    var y1 := Double(y);
    var y2 := Double(y1);
    var y3 := Double(y2);
    var y4 := Double(y3);
    var y5 := Double(y4);
    var y6 := Double(y5);
    var y7 := Double(y6);
    var c1 := BitStep(c, bits[0]);
    var c2 := BitStep(c1, bits[1]);
    var c3 := BitStep(c2, bits[2]);
    var c4 := BitStep(c3, bits[3]);
    var c5 := BitStep(c4, bits[4]);
    var c6 := BitStep(c5, bits[5]);
    var c7 := BitStep(c6, bits[6]);
    OneBit(c, y);
    OneBit(c1, y1);
    OneBit(c2, y2);
    OneBit(c3, y3);
    OneBit(c4, y4);
    OneBit(c5, y5);
    OneBit(c6, y6);
    OneBit(c7, y7);
    XorZero(BitStep(c7, bits[7]));
  }

  /** Doubling a byte in the top lane brings its bits to the top one by one. */
  lemma LaneBits(b: bv8)
    ensures
      var y := Lane(b);
      var y1 := Double(y);
      var y2 := Double(y1);
      var y3 := Double(y2);
      var y4 := Double(y3);
      var y5 := Double(y4);
      var y6 := Double(y5);
      var y7 := Double(y6);
      ByteBits(b) == [Top(y), Top(y1), Top(y2), Top(y3), Top(y4), Top(y5), Top(y6), Top(y7)] && Double(y7) == 0
  {
  }

  lemma EightBits(c: bv32, bits: seq<bool>)
    requires |bits| == 8
    ensures CrcBits(c, bits) ==
      BitStep(BitStep(BitStep(BitStep(BitStep(BitStep(BitStep(BitStep(c,
        bits[0]), bits[1]), bits[2]), bits[3]), bits[4]), bits[5]), bits[6]), bits[7])
  {
    hide BitStep;
    OneMore(c, bits, 0);
    OneMore(BitStep(c, bits[0]), bits, 1);
    var c2 := BitStep(BitStep(c, bits[0]), bits[1]);
    OneMore(c2, bits, 2);
    OneMore(BitStep(c2, bits[2]), bits, 3);
    var c4 := BitStep(BitStep(c2, bits[2]), bits[3]);
    OneMore(c4, bits, 4);
    OneMore(BitStep(c4, bits[4]), bits, 5);
    var c6 := BitStep(BitStep(c4, bits[4]), bits[5]);
    OneMore(c6, bits, 6);
    OneMore(BitStep(c6, bits[6]), bits, 7);
    assert bits[0..] == bits && bits[8..] == [];
  }

  lemma OneMore(c: bv32, bits: seq<bool>, i: nat)
    requires i < |bits|
    ensures CrcBits(c, bits[i..]) == CrcBits(BitStep(c, bits[i]), bits[i + 1..])
  {
    hide BitStep;
    assert bits[i..][1..] == bits[i + 1..];
  }

  lemma {:induction false} CrcBitsConcat(c: bv32, a: seq<bool>, b: seq<bool>)
    ensures CrcBits(c, a + b) == CrcBits(CrcBits(c, a), b)
    decreases |a|
  {
    hide BitStep;
    if a == [] {
      assert a + b == b;
    } else {
      assert (a + b)[1..] == a[1..] + b;
      CrcBitsConcat(BitStep(c, a[0]), a[1..], b);
    }
  }

  /** The digest over bytes is the bit-serial CRC of their bits. */
  lemma {:induction false} CrcBytesIsBits(c: bv32, bytes: seq<bv8>)
    ensures CrcBytes(c, bytes) == CrcBits(c, Bits(bytes))
    decreases |bytes|
  {
    hide ByteStep, BitStep, ByteBits;
    if bytes != [] {
      ByteStepIsBits(c, bytes[0]);
      CrcBitsConcat(c, ByteBits(bytes[0]), Bits(bytes[1..]));
      CrcBytesIsBits(ByteStep(c, bytes[0]), bytes[1..]);
    }
  }

  lemma {:induction false} CrcBytesConcat(c: bv32, a: seq<bv8>, b: seq<bv8>)
    ensures CrcBytes(c, a + b) == CrcBytes(CrcBytes(c, a), b)
    decreases |a|
  {
    hide ByteStep;
    if a == [] {
      assert a + b == b;
    } else {
      assert (a + b)[1..] == a[1..] + b;
      CrcBytesConcat(ByteStep(c, a[0]), a[1..], b);
    }
  }

  // ---- The word-wise engine -----------------------------------------------

  /** The CRC unit: thirty-two shifts with the written word xored in. */
  function WordStep(c: bv32, w: bv32): bv32 {
    Shift8(Shift8(Shift8(Shift8(Xor(c, w)))))
  }

  function Or(a: bv32, b: bv32): bv32 { a | b }

  function Swap0(w: bv32): bv32 { w << 24 }
  function Swap1(w: bv32): bv32 { (w & 0xff00) << 8 }
  function Swap2(w: bv32): bv32 { (w >> 8) & 0xff00 }
  function Swap3(w: bv32): bv32 { w >> 24 }

  /** `__builtin_bswap32`. */
  function Bswap(w: bv32): bv32 {
    Or(Or(Or(Swap0(w), Swap1(w)), Swap2(w)), Swap3(w))
  }

  /** A little-endian load. */
  function Load(b0: bv8, b1: bv8, b2: bv8, b3: bv8): bv32 {
    b0 as bv32 | (b1 as bv32 << 8) | (b2 as bv32 << 16) | (b3 as bv32 << 24)
  }

  function Lane1(b: bv8): bv32 { b as bv32 << 16 }
  function Lane2(b: bv8): bv32 { b as bv32 << 8 }
  function Lane3(b: bv8): bv32 { b as bv32 }

  function Words(bytes: seq<bv8>): (w: seq<bv32>)
    requires |bytes| % 4 == 0
    ensures |w| == |bytes| / 4
  {
    if bytes == [] then [] else [Load(bytes[0], bytes[1], bytes[2], bytes[3])] + Words(bytes[4..])
  }

  /** What the stub feeds the unit. */
  function CrcWords(c: bv32, words: seq<bv32>): bv32
    decreases |words|
  {
    if words == [] then c else CrcWords(WordStep(c, Bswap(words[0])), words[1..])
  }

  /** Four bytes as one word, the first in the top lane. */
  function Packed(b0: bv8, b1: bv8, b2: bv8, b3: bv8): bv32 {
    Xor(Xor(Xor(Lane(b0), Lane1(b1)), Lane2(b2)), Lane3(b3))
  }

  lemma LoadedBytes(b0: bv8, b1: bv8, b2: bv8, b3: bv8)
    ensures
      var w := Load(b0, b1, b2, b3);
      Swap0(w) == Lane(b0) && Swap1(w) == Lane1(b1) && Swap2(w) == Lane2(b2) && Swap3(w) == Lane3(b3)
  {
  }

  lemma RawLanes(b0: bv8, b1: bv8, b2: bv8, b3: bv8)
    ensures (b0 as bv32 << 24) | (b1 as bv32 << 16) | (b2 as bv32 << 8) | b3 as bv32
         == (b0 as bv32 << 24) ^ (b1 as bv32 << 16) ^ (b2 as bv32 << 8) ^ b3 as bv32
  {
  }

  lemma OrLanes(b0: bv8, b1: bv8, b2: bv8, b3: bv8)
    ensures Or(Or(Or(Lane(b0), Lane1(b1)), Lane2(b2)), Lane3(b3)) == Packed(b0, b1, b2, b3)
  {
    RawLanes(b0, b1, b2, b3);
  }

  lemma SwappedLoad(b0: bv8, b1: bv8, b2: bv8, b3: bv8)
    ensures Bswap(Load(b0, b1, b2, b3)) == Packed(b0, b1, b2, b3)
  {
    hide Load, Packed, Or, Lane, Lane1, Lane2, Lane3, Swap0, Swap1, Swap2, Swap3;
    LoadedBytes(b0, b1, b2, b3);
    OrLanes(b0, b1, b2, b3);
  }

  lemma FoldLanes(c: bv32, y0: bv32, y1: bv32, y2: bv32, y3: bv32)
    ensures Xor(c, Xor(Xor(Xor(y0, y1), y2), y3)) == Xor(Xor(Xor(Xor(c, y0), y1), y2), y3)
  {
    hide Xor;
    XorAssoc(c, Xor(Xor(y0, y1), y2), y3);
    XorAssoc(c, Xor(y0, y1), y2);
    XorAssoc(c, y0, y1);
  }

  lemma Lanes(b1: bv8, b2: bv8, b3: bv8)
    ensures
      var y1, y2, y3 := Lane1(b1), Lane2(b2), Lane3(b3);
      && Clear(y1) && Clear(y2) && Clear(y3)
      && Clear(Times256(y2)) && Clear(Times256(y3)) && Clear(Times256(Times256(y3)))
      && Times256(y1) == Lane(b1) && Times256(Times256(y2)) == Lane(b2)
      && Times256(Times256(Times256(y3))) == Lane(b3)
  {
  }

  lemma WordIsFourBytes(c: bv32, b0: bv8, b1: bv8, b2: bv8, b3: bv8)
    ensures WordStep(c, Bswap(Load(b0, b1, b2, b3)))
         == ByteStep(ByteStep(ByteStep(ByteStep(c, b0), b1), b2), b3)
  {
    hide Shift8, Bswap, Load, Xor, Times256, Clear, Lane, Lane1, Lane2, Lane3;
    SwappedLoad(b0, b1, b2, b3);
    Lanes(b1, b2, b3);
    var y1, y2, y3 := Lane1(b1), Lane2(b2), Lane3(b3);
    FoldLanes(c, Lane(b0), y1, y2, y3);
    FourEarly(Xor(c, Lane(b0)), y1, y2, y3);
  }

  lemma FourEarly(x: bv32, y1: bv32, y2: bv32, y3: bv32)
    requires Clear(y1) && Clear(y2) && Clear(y3)
    requires Clear(Times256(y2)) && Clear(Times256(y3)) && Clear(Times256(Times256(y3)))
    ensures
      Shift8(Shift8(Shift8(Shift8(Xor(Xor(Xor(x, y1), y2), y3)))))
      == Shift8(Xor(Shift8(Xor(Shift8(Xor(Shift8(x), Times256(y1))),
                Times256(Times256(y2)))), Times256(Times256(Times256(y3)))))
  {
    hide Shift8, Xor, Times256, Clear;
    Early(Xor(Xor(x, y1), y2), y3);
    Early(Xor(x, y1), y2);
    Early(x, y1);
    var x1, z2, z3 := Xor(Shift8(x), Times256(y1)), Times256(y2), Times256(y3);
    Early(Xor(x1, z2), z3);
    Early(x1, z2);
    var x2 := Xor(Shift8(x1), Times256(z2));
    Early(x2, Times256(z3));
  }

  /** The stub's word path and the byte-wise digest give the same value on every word-aligned region. */
  lemma {:induction false} WordsAreBytes(c: bv32, bytes: seq<bv8>)
    requires |bytes| % 4 == 0
    ensures CrcWords(c, Words(bytes)) == CrcBytes(c, bytes)
    decreases |bytes|
  {
    hide WordStep, ByteStep, Bswap, Load;
    if bytes != [] {
      var w := Load(bytes[0], bytes[1], bytes[2], bytes[3]);
      WordIsFourBytes(c, bytes[0], bytes[1], bytes[2], bytes[3]);
      FourBytes(c, bytes);
      WordsAreBytes(WordStep(c, Bswap(w)), bytes[4..]);
      assert Words(bytes)[1..] == Words(bytes[4..]);
    }
  }

  lemma FourBytes(c: bv32, bytes: seq<bv8>)
    requires |bytes| >= 4
    ensures CrcBytes(c, bytes) ==
            CrcBytes(ByteStep(ByteStep(ByteStep(ByteStep(c, bytes[0]), bytes[1]), bytes[2]), bytes[3]), bytes[4..])
  {
    hide ByteStep;
    OneMoreByte(c, bytes, 0);
    OneMoreByte(ByteStep(c, bytes[0]), bytes, 1);
    var c2 := ByteStep(ByteStep(c, bytes[0]), bytes[1]);
    OneMoreByte(c2, bytes, 2);
    OneMoreByte(ByteStep(c2, bytes[2]), bytes, 3);
    assert bytes[0..] == bytes;
  }

  lemma OneMoreByte(c: bv32, bytes: seq<bv8>, i: nat)
    requires i < |bytes|
    ensures CrcBytes(c, bytes[i..]) == CrcBytes(ByteStep(c, bytes[i]), bytes[i + 1..])
  {
    hide ByteStep;
    assert bytes[i..][1..] == bytes[i + 1..];
  }

  /** All three agree: word engine, byte digest, bit-serial definition. */
  lemma PathsAgree(bytes: seq<bv8>)
    requires |bytes| % 4 == 0
    ensures CrcWords(INIT, Words(bytes)) == CrcBytes(INIT, bytes) == CrcBits(INIT, Bits(bytes))
  {
    WordsAreBytes(INIT, bytes);
    CrcBytesIsBits(INIT, bytes);
  }

  lemma CrcWordsSnoc(c: bv32, words: seq<bv32>, i: nat)
    requires i < |words|
    ensures CrcWords(c, words[..i + 1]) == WordStep(CrcWords(c, words[..i]), Bswap(words[i]))
    decreases i
  {
    hide WordStep, Bswap;
    if i == 0 {
      assert words[..1][1..] == [] && words[..0] == [];
    } else {
      assert words[..i + 1][1..] == words[1..][..i] && words[..i][1..] == words[1..][..i - 1];
      CrcWordsSnoc(WordStep(c, Bswap(words[0])), words[1..], i - 1);
    }
  }

  // ---- The loops ----------------------------------------------------------

  /** The CRC unit of the target; a write to `data` shifts the word in. */
  class CrcUnit {
    var data: bv32

    method Reset()
      modifies this
      ensures data == INIT
    {
      data := INIT;
    }

    method Write(w: bv32)
      modifies this
      ensures data == WordStep(old(data), w)
    {
      data := WordStep(data, w);
    }
  }

  /** Word-wide memory as the stub sees it, with a record of the words it has loaded. */
  class WordMemory {
    const words: seq<bv32>
    ghost var loads: seq<nat>

    constructor (words: seq<bv32>)
      ensures this.words == words && loads == []
    {
      this.words, loads := words, [];
    }

    method Load(i: nat) returns (w: bv32)
      requires i < |words|
      modifies this
      ensures w == words[i] && loads == old(loads) + [i]
    {
      w := words[i];
      loads := loads + [i];
    }
  }

  /** The first `i` words are in the register, and nothing else was loaded. */
  ghost predicate FedUpTo(mem: WordMemory, unit: CrcUnit, i: nat)
    reads mem, unit
  {
    i <= |mem.words| && unit.data == CrcWords(INIT, mem.words[..i]) && mem.loads == Upto(i)
  }

  /**
   * `ch32_cr`: while more than 32 words remain, eight at a time, then one by
   * one. Every word is loaded exactly once, in order.
   */
  method StubCrc(mem: WordMemory, unit: CrcUnit) returns (out: bv32)
    requires mem.loads == []
    modifies mem, unit
    ensures out == CrcWords(INIT, mem.words)
    ensures mem.loads == Upto(|mem.words|)
  {
    hide CrcWords, Upto, FedUpTo;
    unit.Reset();
    var i, lim := 0, |mem.words|;
    NothingFed(mem, unit);
    while i + 32 < lim
      invariant i <= lim && FedUpTo(mem, unit, i)
    {
      Feed(mem, i, unit);
      Feed(mem, i + 1, unit);
      Feed(mem, i + 2, unit);
      Feed(mem, i + 3, unit);
      Feed(mem, i + 4, unit);
      Feed(mem, i + 5, unit);
      Feed(mem, i + 6, unit);
      Feed(mem, i + 7, unit);
      i := i + 8;
    }
    while i < lim
      invariant i <= lim && FedUpTo(mem, unit, i)
    {
      Feed(mem, i, unit);
      i := i + 1;
    }
    AllFed(mem, unit);
    out := unit.data;
  }

  lemma NothingFed(mem: WordMemory, unit: CrcUnit)
    requires mem.loads == [] && unit.data == INIT
    ensures FedUpTo(mem, unit, 0)
  {
    assert mem.words[..0] == [];
  }

  lemma AllFed(mem: WordMemory, unit: CrcUnit)
    requires FedUpTo(mem, unit, |mem.words|)
    ensures unit.data == CrcWords(INIT, mem.words) && mem.loads == Upto(|mem.words|)
  {
    hide CrcWords;
    assert mem.words[..|mem.words|] == mem.words;
  }

  /** `0, 1, .., n - 1`. */
  function Upto(n: nat): (s: seq<nat>)
    ensures |s| == n
  {
    seq(n, k => k)
  }

  /** `crc->data = __builtin_bswap32(mem[i])`. */
  method Feed(mem: WordMemory, i: nat, unit: CrcUnit)
    requires i < |mem.words| && FedUpTo(mem, unit, i)
    modifies mem, unit
    ensures FedUpTo(mem, unit, i + 1)
  {
    hide WordStep, Bswap, CrcWords;
    CrcWordsSnoc(INIT, mem.words, i);
    assert Upto(i + 1) == Upto(i) + [i];
    var w := mem.Load(i);
    unit.Write(Bswap(w));
  }

  const CRC_BUFFER_SIZE: nat := 128

  /** The probe's view of target memory: some addresses cannot be read. */
  datatype Target = Target(mem: seq<bv8>, bad: set<nat>)

  predicate Readable(t: Target, adr: nat, n: nat) {
    adr + n <= |t.mem| && forall i :: adr <= i < adr + n ==> i !in t.bad
  }

  /**
   * `do_local_crc32`: chunks of at most 128 bytes through the digest. The end
   * address is computed in 32 bits; when it wraps no byte is read at all.
   */
  method LocalCrc(t: Target, address: u32, length: u32) returns (ok: bool, crc: bv32)
    ensures address + length < TWO32 ==> (ok <==> Readable(t, address, length) || length == 0)
    ensures address + length < TWO32 && ok && length > 0 ==> crc == CrcBytes(INIT, t.mem[address..address + length])
    ensures address + length >= TWO32 || length == 0 ==> ok && crc == INIT
    ensures !ok ==> crc == 0
  {
    hide ByteStep, CrcBytes;
    NoBytes(INIT);
    var digest := INIT;
    var buffer := new bv8[CRC_BUFFER_SIZE](_ => 0);
    var tail: nat := (address + length) % TWO32;
    var adr: nat := address;
    assert address <= |t.mem| ==> t.mem[address..address] == [];
    while adr < tail
      modifies buffer
      invariant address <= adr && (address + length < TWO32 ==> adr <= tail == address + length)
      invariant address + length >= TWO32 ==> adr == address && digest == INIT && tail <= adr
      invariant adr > address ==> Readable(t, address, adr - address)
      invariant digest == (if adr > address then CrcBytes(INIT, t.mem[address..adr]) else INIT)
      decreases tail - adr
    {
      var rd := if tail - adr < CRC_BUFFER_SIZE then tail - adr else CRC_BUFFER_SIZE;
      if !Readable(t, adr, rd) {
        return false, 0;
      }
      forall i | 0 <= i < rd { buffer[i] := t.mem[adr + i]; }
      assert buffer[..rd] == t.mem[adr..adr + rd];
      CrcBytesConcat(INIT, t.mem[address..adr], t.mem[adr..adr + rd]);
      assert t.mem[address..adr] + t.mem[adr..adr + rd] == t.mem[address..adr + rd];
      digest := Update(digest, buffer, rd);
      adr := adr + rd;
    }
    return true, digest;
  }

  lemma NoBytes(c: bv32)
    ensures CrcBytes(c, []) == c
  {
  }

  /** The digest crate's table-driven update. */
  method Update(digest: bv32, buffer: array<bv8>, n: nat) returns (d: bv32)
    requires n <= buffer.Length
    ensures d == CrcBytes(digest, buffer[..n])
  {
    hide TableStep, ByteStep;
    d := digest;
    for i := 0 to n
      invariant d == CrcBytes(digest, buffer[..i])
    {
      TableIsByteStep(d, buffer[i]);
      CrcBytesConcat(digest, buffer[..i], [buffer[i]]);
      assert buffer[..i + 1] == buffer[..i] + [buffer[i]];
      assert [buffer[i]][1..] == [];
      d := TableStep(d, buffer[i]);
    }
  }

  /**
   * The target's own engine: the driver declines, or runs the stub over the region.
   * It only accepts whole words that lie in memory.
   */
  method CustomCrc(t: Target, address: u32, length: u32, accepts: bool) returns (status: bool, crc: bv32)
    ensures status <==> accepts && length % 4 == 0 && address + length <= |t.mem|
    ensures status ==> crc == CrcBits(INIT, Bits(t.mem[address..address + length]))
  {
    hide CrcWords, CrcBytes, CrcBits, Words, Bits;
    if !accepts || length % 4 != 0 || address + length > |t.mem| {
      return false, 0;
    }
    var region := t.mem[address..address + length];
    PathsAgree(region);
    var mem := new WordMemory(Words(region));
    var unit := new CrcUnit;
    crc := StubCrc(mem, unit);
    status := true;
  }

  /** The target's own engine takes the region. */
  predicate EngineTakes(t: Target, address: u32, length: u32, accepts: bool) {
    accepts && length % 4 == 0 && address + length <= |t.mem|
  }

  /**
   * What `abstract_crc32` answers: the engine's CRC; else the digest of a region
   * that can be read; else failure. A region whose end wraps around on 32 bits, or
   * an empty one, is not read: success with the initial value.
   */
  function Answer(t: Target, address: u32, length: u32, accepts: bool): (bool, bv32) {
    if EngineTakes(t, address, length, accepts) then (true, CrcBits(INIT, Bits(t.mem[address..address + length])))
    else if address + length >= TWO32 || length == 0 then (true, INIT)
    else if Readable(t, address, length) then (true, CrcBytes(INIT, t.mem[address..address + length]))
    else (false, 0)
  }

  /** `abstract_crc32`: the target's own engine when it answers, the local digest otherwise. */
  method AbstractCrc(t: Target, address: u32, length: u32, accepts: bool) returns (status: bool, crc: bv32)
    ensures (status, crc) == Answer(t, address, length, accepts)
    ensures length > 0 && status && address + length < TWO32 ==>
              address + length <= |t.mem| && crc == CrcBits(INIT, Bits(t.mem[address..address + length]))
    ensures address + length >= TWO32 && !EngineTakes(t, address, length, accepts) ==> status && crc == INIT
  {
    hide CrcBytes, CrcBits, Bits;
    status, crc := CustomCrc(t, address, length, accepts);
    if !status {
      status, crc := LocalCrc(t, address, length);
    }
    if status && length > 0 && address + length <= |t.mem| {
      AnswerRightIff(t, address, length, accepts);
    }
  }

  /** A success is reported exactly when the engine takes the region, every byte can be read, or the end wraps. */
  lemma AnswersIff(t: Target, address: u32, length: u32, accepts: bool)
    requires length > 0
    ensures Answer(t, address, length, accepts).0 <==>
            || EngineTakes(t, address, length, accepts)
            || address + length >= TWO32 || Readable(t, address, length)
  {
  }

  /**
   * The CRC reported for a region of memory is its bit-serial CRC if and only if
   * the engine computed it, or the end of the region is a 32-bit number, or that
   * CRC happens to be the initial value.
   */
  lemma AnswerRightIff(t: Target, address: u32, length: u32, accepts: bool)
    requires length > 0 && address + length <= |t.mem| && Answer(t, address, length, accepts).0
    ensures
      var right := CrcBits(INIT, Bits(t.mem[address..address + length]));
      Answer(t, address, length, accepts).1 == right <==>
      EngineTakes(t, address, length, accepts) || address + length < TWO32 || right == INIT
  {
    hide CrcBytes, CrcBits, Bits;
    CrcBytesIsBits(INIT, t.mem[address..address + length]);
  }

  /** The last byte of the address space, holding zero: reported with success, and wrong. */
  lemma LastByteWrong(t: Target)
    requires |t.mem| == TWO32 && t.mem[TWO32 - 1] == 0
    ensures Answer(t, TWO32 - 1, 1, false) == (true, INIT)
    ensures CrcBits(INIT, Bits(t.mem[TWO32 - 1..])) != INIT
  {
    hide CrcBits, Bits;
    assert t.mem[TWO32 - 1..] == [0];
    CrcBytesIsBits(INIT, [0]);
    ZeroByte();
  }

  lemma ZeroByte()
    ensures CrcBytes(INIT, [0]) == 0x4e08_bfb4
  {
    var zero: seq<bv8> := [0];
    assert zero[1..] == [];
    assert CrcBytes(INIT, zero) == ByteStep(INIT, 0);
    assert Xor(INIT, Lane(0)) == 0xffff_ffff;
    assert Shift1(0xffff_ffff) == 0xfb3e_e249;
    assert Shift1(0xfb3e_e249) == 0xf2bc_d925;
    assert Shift1(0xf2bc_d925) == 0xe1b8_affd;
    assert Shift1(0xe1b8_affd) == 0xc7b0_424d;
    assert Shift1(0xc7b0_424d) == 0x8ba1_992d;
    assert Shift1(0x8ba1_992d) == 0x1382_2fed;
    assert Shift1(0x1382_2fed) == 0x2704_5fda;
    assert Shift1(0x2704_5fda) == 0x4e08_bfb4;
  }
}

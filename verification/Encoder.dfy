/** The packet encoder and its one shared staging buffer, after `encoder.rs`. */
module Encoder {
  import opened Bytes
  import opened Hex
  import opened Packet

  const TEMP_BUFFER_SIZE: nat := 64

  /** Bytes 0..3 of a word, most significant first. */
  function BigEndian4(v: u32): (bs: seq<byte>)
    ensures |bs| == 4 && BigEndian(bs) == v
  {
    var bs := [v / 0x100_0000, v / 0x1_0000 % 256, v / 0x100 % 256, v % 256];
    assert bs[..3][..2][..1][..0] == [] && bs[..3][..2][..1] == [bs[0]] && bs[..3][..2] == [bs[0], bs[1]];
    assert BigEndian([bs[0]]) == bs[0];
    assert BigEndian([bs[0], bs[1]]) == v / 0x1_0000;
    assert BigEndian(bs[..3]) == v / 0x100;
    bs
  }

  function BigEndian(bs: seq<byte>): nat {
    if bs == [] then 0 else BigEndian(bs[..|bs| - 1]) * 256 + bs[|bs| - 1]
  }

  function Reverse(bs: seq<byte>): (r: seq<byte>)
    ensures |r| == |bs|
    ensures forall i :: 0 <= i < |bs| ==> r[i] == bs[|bs| - 1 - i]
  {
    if bs == [] then [] else Reverse(bs[1..]) + [bs[0]]
  }

  /** `u8s_string_to_u32`: big-endian hex text, 32-bit truncation included. */
  function ParseHex(s: seq<byte>): (v: u32) {
    if s == [] then 0 else ParseHex(s[..|s| - 1]) * 16 % TWO32 + HexVal(s[|s| - 1])
  }

  method U8sStringToU32(datain: array<byte>) returns (val: u32)
    ensures val == ParseHex(datain[..])
  {
    hide HexVal;
    val := 0;
    for i := 0 to datain.Length
      invariant val == ParseHex(datain[..i])
    {
      assert datain[..i + 1][..i] == datain[..i];
      val := val * 16 % TWO32 + HexVal(datain[i]);
      assert val == ParseHex(datain[..i + 1]);
    }
    assert datain[..] == datain[..datain.Length];
  }

  lemma {:induction false} ParseHexBytes(bs: seq<byte>)
    ensures ParseHex(HexBytes(bs)) == BigEndian(bs) % TWO32
  {
    hide HexByte, ToHex, HexVal;
    if bs != [] {
      var k := |bs| - 1;
      var h := HexByte(bs[k]);
      assert bs == bs[..k] + [bs[k]];
      HexBytesConcat(bs[..k], [bs[k]]);
      assert HexBytes([bs[k]]) == h by { assert [bs[k]][1..] == []; }
      ParseHexBytes(bs[..k]);
      var s := HexBytes(bs[..k]);
      assert HexBytes(bs) == s + h;
      assert (s + h)[..|s| + 1] == s + [h[0]] && (s + [h[0]])[..|s|] == s;
      var p := BigEndian(bs[..k]);
      OctetRoundTrip(bs[k]);
      TwoDigits(p, HexVal(h[0]), HexVal(h[1]));
    }
  }

  /** Appending one digit in 32-bit arithmetic. */
  lemma OneDigit(p: nat, d: nat)
    requires d < 16
    ensures p % TWO32 * 16 % TWO32 + d == (p * 16 + d) % TWO32
  {
    var q, r := p / 0x1000_0000, p % 0x1000_0000;
    assert p == q * 0x1000_0000 + r;
    var q', r' := p / TWO32, p % TWO32;
    assert p == q' * TWO32 + r';
    ModUnique(p * 16 + d, q, r * 16 + d);
    ModUnique(r' * 16, q - 16 * q', r * 16);
  }

  lemma TwoDigits(p: nat, hi: nat, lo: nat)
    requires hi < 16 && lo < 16
    ensures (p % TWO32 * 16 % TWO32 + hi) * 16 % TWO32 + lo == (p * 256 + hi * 16 + lo) % TWO32
  {
    OneDigit(p, hi);
    OneDigit(p * 16 + hi, lo);
  }

  /** The bytes of a word without its leading zero bytes; nothing at all for zero. */
  function Significant(v: u32): (bs: seq<byte>)
    ensures |bs| <= 4 && BigEndian(bs) == v
    ensures bs != [] ==> bs[0] != 0
    ensures bs == [] <==> v == 0
  {
    StripZeros(BigEndian4(v))
  }

  function StripZeros(bs: seq<byte>): (r: seq<byte>)
    ensures |r| <= |bs| && r == bs[|bs| - |r|..] && BigEndian(r) == BigEndian(bs)
    ensures r != [] ==> r[0] != 0
    ensures r == [] ==> BigEndian(bs) == 0
  {
    if bs != [] && bs[0] == 0 then
      BigEndianLeadingZero(bs);
      StripZeros(bs[1..])
    else bs
  }

  lemma {:induction false} BigEndianLeadingZero(bs: seq<byte>)
    requires bs != [] && bs[0] == 0
    ensures BigEndian(bs[1..]) == BigEndian(bs)
  {
    var k := |bs| - 1;
    if k > 0 {
      assert bs[1..][..k - 1] == bs[..k][1..];
      BigEndianLeadingZero(bs[..k]);
    } else {
      assert bs[..0] == [];
    }
  }

  /** What `add_u32_no_padding` sends: for zero, two NUL characters. */
  function NoPadding(v: u32): (text: seq<byte>)
    ensures v == 0 ==> text == [0, 0]
  {
    DigitsOrNul(Significant(v))
  }

  function DigitsOrNul(sig: seq<byte>): seq<byte> {
    if sig == [] then [0, 0] else HexBytes(sig)
  }

  /** The text consists of hex digits, as documented, exactly when the value is not zero. */
  lemma NoPaddingIsHexIff(v: u32)
    ensures (forall i :: 0 <= i < |NoPadding(v)| ==> IsUpperHex(NoPadding(v)[i])) <==> v != 0
  {
    if v == 0 {
      assert !IsUpperHex(NoPadding(v)[0]);
    } else {
      HexBytesUpper(Significant(v));
    }
  }

  /** Even so the stub's own parser reads every value back. */
  lemma NoPaddingRoundTrip(v: u32)
    ensures ParseHex(NoPadding(v)) == v
  {
    hide Significant, ParseHex, HexBytes, BigEndian;
    if v == 0 {
      NulNul();
    } else {
      ParseHexBytes(Significant(v));
    }
  }

  lemma NulNul()
    ensures ParseHex([0, 0]) == 0
  {
    var nuls: seq<byte> := [0, 0];
    assert nuls[..1] == [0] && nuls[..1][..0] == [];
    assert ParseHex(nuls[..1]) == 0;
  }

  lemma U32RoundTrip(v: u32)
    ensures ParseHex(HexBytes(BigEndian4(v))) == v
    ensures UnHex(HexBytes(Reverse(BigEndian4(v)))) == Reverse(BigEndian4(v))
  {
    hide BigEndian4, ParseHex, HexBytes, BigEndian, UnHex, Reverse;
    ParseHexBytes(BigEndian4(v));
    HexRoundTrip(Reverse(BigEndian4(v)));
  }

  const OK: seq<byte> := [0x4F, 0x4B]
  const E01: seq<byte> := [0x45, 0x30, 0x31]

  /** The checksums in the ready-made replies are the right ones. */
  lemma ReadyMadeReplies()
    ensures Frame(OK) == [0x24, 0x4F, 0x4B, 0x23, 0x39, 0x41]
    ensures Frame(E01) == [0x24, 0x45, 0x30, 0x31, 0x23, 0x41, 0x36]
  {
    hide Escaped, Sum, HexByte;
    OkSum();
    E01Sum();
    EscapedPlain(OK);
    EscapedPlain(E01);
  }

  lemma OkSum()
    ensures Sum(OK) == 0x9A && HexByte(0x9A) == [0x39, 0x41]
  {
    assert OK[1..] == [0x4B] && OK[1..][1..] == [];
  }

  lemma E01Sum()
    ensures Sum(E01) == 0xA6 && HexByte(0xA6) == [0x41, 0x36]
  {
    assert E01[1..] == [0x30, 0x31] && E01[1..][1..] == [0x31] && E01[1..][1..][1..] == [];
  }

  /** The transport: everything sent, and how much of it was flushed out. */
  class Wire {
    var sent: seq<byte>
    var flushed: nat

    constructor ()
      ensures sent == [] && flushed == 0
    {
      sent, flushed := [], 0;
    }

    method RawSend(data: seq<byte>)
      modifies this`sent
      ensures sent == old(sent) + data
    {
      sent := sent + data;
    }

    method Flush()
      modifies this`flushed
      ensures flushed == |sent|
    {
      flushed := |sent|;
    }
  }

  class PacketEncoder {
    const temp: array<byte>
    const wire: Wire
    var checksum: u32
    var escaped: bool

    ghost predicate Valid()
    {
      temp.Length == TEMP_BUFFER_SIZE
    }

    /** A new encoder over the shared staging buffer. */
    constructor (temp: array<byte>, wire: Wire)
      requires temp.Length == TEMP_BUFFER_SIZE
      ensures Valid() && this.temp == temp && this.wire == wire && checksum == 0
    {
      this.temp, this.wire := temp, wire;
      checksum, escaped := 0, false;
    }

    method Begin()
      modifies this, wire`sent
      ensures checksum == 0 && wire.sent == old(wire.sent) + [START]
    {
      checksum, escaped := 0, false;
      wire.RawSend([START]);
    }

    /** One byte of `add_u8`: escaped if need be, appended to the `n` bytes already staged. */
    method Stage(c: byte, n: nat) returns (m: nat)
      requires Valid() && n <= TEMP_BUFFER_SIZE - 2
      modifies this`checksum, temp
      ensures m == n + |EscapeByte(c)| && temp[..m] == old(temp[..n]) + EscapeByte(c)
      ensures forall k :: m <= k < TEMP_BUFFER_SIZE ==> temp[k] == old(temp[k])
      ensures checksum == (old(checksum) + Sum(EscapeByte(c))) % TWO32
    {
      SumUnit(c);
      hide Sum;
      if Special(c) {
        temp[n] := ESCAPE;
        temp[n + 1] := Xor20(c);
        m := n + 2;
        checksum := (checksum + Xor20(c)) % TWO32;
        checksum := (checksum + ESCAPE) % TWO32;
      } else {
        temp[n] := c;
        m := n + 1;
        checksum := (checksum + c) % TWO32;
      }
    }

    /**
     * `add_u8` on the slice `[from .. from + len]` of `byt`, which may be the
     * staging buffer itself: the bytes are staged, escaped, in `temp` and flushed
     * whenever an escape pair might no longer fit. A caller that passes `temp`
     * passes text that needs no escape, so the write index never overtakes the
     * read index.
     */
    method AddU8(byt: array<byte>, from: nat, len: nat)
      requires Valid() && from + len <= byt.Length
      requires byt == temp ==> forall i :: from <= i < from + len ==> !Special(byt[i])
      modifies this`checksum, temp, wire`sent
      ensures wire.sent == old(wire.sent) + Escaped(old(Slice(byt, from, len)))
      ensures checksum == (old(checksum) + Sum(Escaped(old(Slice(byt, from, len))))) % TWO32
    {
      hide Escaped, EscapeByte, Sum, Xor20;
      ghost var src, sent0, sum0 := Slice(byt, from, len), wire.sent, checksum;
      var n := 0;
      EmptyText();
      assert src[..0] == [];
      for i := 0 to len
        invariant n <= TEMP_BUFFER_SIZE - 2
        invariant wire.sent + temp[..n] == sent0 + Escaped(src[..i])
        invariant Summed(checksum, sum0, Escaped(src[..i]))
        invariant forall j :: i <= j < len ==> byt[from + j] == src[j]
        invariant byt == temp ==> n <= i
      {
        var c := byt[from + i];
        StageOne(src, i);
        SummedConcat(checksum, sum0, Escaped(src[..i]), EscapeByte(c));
        ghost var staged := temp[..n];
        n := Stage(c, n);
        assert wire.sent + (staged + EscapeByte(c)) == (wire.sent + staged) + EscapeByte(c);
        assert wire.sent + temp[..n] == sent0 + Escaped(src[..i + 1]);
        if n > TEMP_BUFFER_SIZE - 2 {
          wire.RawSend(temp[..n]);
          n := 0;
        }
      }
      assert src[..len] == src;
      if n > 0 {
        wire.RawSend(temp[..n]);
      }
    }

    /** The inner loop of `hex_and_add_u8`: `n` bytes become `2 * n` digits in the staging buffer. */
    method HexIntoTemp(byt: array<byte>, from: nat, n: nat)
      requires Valid() && byt != temp && from + n <= byt.Length && 2 * n <= TEMP_BUFFER_SIZE
      modifies temp
      ensures Slice(temp, 0, 2 * n) == HexBytes(Slice(byt, from, n))
    {
      ghost var part := Slice(byt, from, n);
      for i := 0 to n
        invariant temp[..2 * i] == HexBytes(part[..i])
      {
        HexBytesSnoc(part, i);
        ghost var done := temp[..2 * i];
        PutHex(byt[from + i], temp, 2 * i);
        assert temp[..2 * (i + 1)] == temp[..][..2 * (i + 1)] == done + HexByte(part[i]);
      }
      assert part[..n] == part;
      assert Slice(temp, 0, 2 * n) == temp[..2 * n];
    }

    /**
     * `hex_and_add_u8`: hex digits are produced in the staging buffer and that
     * same buffer is handed to `add_u8`. The wire still receives exactly the
     * upper-case hex of the input, for every input length.
     */
    method HexAndAddU8(byt: array<byte>)
      requires Valid() && byt != temp
      modifies this`checksum, temp, wire`sent
      ensures wire.sent == old(wire.sent) + HexBytes(byt[..])
      ensures checksum == (old(checksum) + Sum(HexBytes(byt[..]))) % TWO32
    {
      hide HexBytes, Escaped, Sum;
      ghost var sent0, sum0 := wire.sent, checksum;
      var done := 0;
      EmptyText();
      assert byt[..0] == [];
      while done < byt.Length
        invariant done <= byt.Length
        invariant wire.sent == sent0 + HexBytes(byt[..done])
        invariant Summed(checksum, sum0, HexBytes(byt[..done]))
      {
        var left := byt.Length - done;
        var n := if left < TEMP_BUFFER_SIZE / 2 then left else TEMP_BUFFER_SIZE / 2;
        HexIntoTemp(byt, done, n);
        ghost var part, digits := Slice(byt, done, n), Slice(temp, 0, 2 * n);
        EscapedHex(part);
        assert forall i :: 0 <= i < 2 * n ==> temp[i] == digits[i];
        SummedConcat(checksum, sum0, HexBytes(byt[..done]), digits);
        HexBytesConcat(byt[..done], part);
        assert byt[..done + n] == byt[..done] + part;
        assert sent0 + HexBytes(byt[..done]) + digits == sent0 + HexBytes(byt[..done + n]);
        AddU8(temp, 0, 2 * n);
        done := done + n;
      }
      assert byt[..done] == byt[..];
    }

    method AddText(text: seq<byte>)
      requires Valid()
      modifies this`checksum, temp, wire`sent
      ensures wire.sent == old(wire.sent) + Escaped(text)
      ensures checksum == (old(checksum) + Sum(Escaped(text))) % TWO32
    {
      var data := new byte[|text|](i requires 0 <= i < |text| => text[i]);
      assert Slice(data, 0, |text|) == text;
      AddU8(data, 0, |text|);
    }

    /** `add_u32`: eight digits, most significant first. */
    method AddU32(val: u32)
      requires Valid()
      modifies this`checksum, temp, wire`sent
      ensures wire.sent == old(wire.sent) + HexBytes(BigEndian4(val))
      ensures checksum == (old(checksum) + Sum(HexBytes(BigEndian4(val)))) % TWO32
    {
      AddDigits(BigEndian4(val));
    }

    /** `add_u32_le`: eight digits, least significant byte first. */
    method AddU32Le(val: u32)
      requires Valid()
      modifies this`checksum, temp, wire`sent
      ensures wire.sent == old(wire.sent) + HexBytes(Reverse(BigEndian4(val)))
      ensures checksum == (old(checksum) + Sum(HexBytes(Reverse(BigEndian4(val))))) % TWO32
    {
      AddDigits(Reverse(BigEndian4(val)));
    }

    method AddDigits(bs: seq<byte>)
      requires Valid()
      modifies this`checksum, temp, wire`sent
      ensures wire.sent == old(wire.sent) + HexBytes(bs)
      ensures checksum == (old(checksum) + Sum(HexBytes(bs))) % TWO32
    {
      var tmp := new byte[2 * |bs|](_ => 0);
      for i := 0 to |bs|
        modifies tmp
        invariant tmp[..2 * i] == HexBytes(bs[..i])
      {
        HexBytesSnoc(bs, i);
        ghost var done := tmp[..2 * i];
        PutHex(bs[i], tmp, 2 * i);
        assert tmp[..2 * (i + 1)] == tmp[..][..2 * (i + 1)] == done + HexByte(bs[i]);
      }
      assert bs[..|bs|] == bs;
      assert Slice(tmp, 0, tmp.Length) == tmp[..2 * |bs|];
      EscapedHex(bs);
      AddU8(tmp, 0, tmp.Length);
    }

    /** `add_u32_no_padding`: the fallback writes its two zeros where they are not sent. */
    method AddU32NoPadding(val: u32)
      requires Valid()
      modifies this`checksum, temp, wire`sent
      ensures wire.sent == old(wire.sent) + NoPadding(val)
      ensures checksum == (old(checksum) + Sum(NoPadding(val))) % TWO32
    {
      hide HexBytes, BigEndian, BigEndian4, StripZeros, Sum;
      AddSignificant(BigEndian4(val));
    }

    method AddSignificant(bs: seq<byte>)
      requires Valid() && |bs| == 4
      modifies this`checksum, temp, wire`sent
      ensures wire.sent == old(wire.sent) + DigitsOrNul(StripZeros(bs))
      ensures checksum == (old(checksum) + Sum(DigitsOrNul(StripZeros(bs)))) % TWO32
    {
      hide HexBytes, Escaped, Sum, StripZeros;
      var tmp := new byte[8](_ => 0);
      assert tmp[..] == Zeros(8);
      ghost var sig := StripZeros(bs);
      var nbDigit := DigitsWithoutPadding(bs, tmp);
      if nbDigit == 0 {
        nbDigit := 2;
        tmp[0], tmp[1] := 48, 48;
      }
      ghost var text := Slice(tmp, 8 - nbDigit, nbDigit);
      assert text == DigitsOrNul(sig);
      if sig == [] {
        EscapedPlain(text);
      } else {
        EscapedHex(sig);
      }
      AddU8(tmp, 8 - nbDigit, nbDigit);
    }

    /** Its loop: right-aligned digits of the significant bytes, zeros to their left. */
    static method DigitsWithoutPadding(bs: seq<byte>, tmp: array<byte>) returns (nbDigit: nat)
      requires |bs| == 4 && tmp[..] == Zeros(8)
      modifies tmp
      ensures nbDigit == 2 * |StripZeros(bs)|
      ensures tmp[..] == Zeros(8 - nbDigit) + HexBytes(StripZeros(bs))
    {
      hide HexBytes, HexByte, StripZeros, BigEndian, Padded, Zeros;
      ghost var sig := StripZeros(bs);
      ghost var skip, d: nat := 4 - |sig|, 0;
      nbDigit := 0;
      NoDigits(sig, 2 * skip, 8 - 2 * skip);
      for i := 0 to 4
        invariant d == (if i <= skip then 0 else i - skip) && nbDigit == 2 * d
        invariant tmp[..] == Padded(2 * skip, HexBytes(sig[..d]), 8 - 2 * (skip + d))
      {
        var digit := bs[i];
        LeadingZeros(bs, i, skip);
        if !(digit == 0 && nbDigit == 0) {
          HexBytesSnoc(sig, d);
          PutDigit(digit, tmp, 2 * i, 2 * skip, HexBytes(sig[..d]), 8 - 2 * (skip + d));
          nbDigit := nbDigit + 2;
          d := d + 1;
        }
      }
      AllDigits(sig, 8 - nbDigit);
    }

    /** Two digits behind `text`, over the zeros at its right. */
    static method PutDigit(digit: byte, tmp: array<byte>, at: nat,
                           ghost left: nat, ghost text: seq<byte>, ghost right: nat)
      requires tmp[..] == Padded(left, text, right) && right >= 2 && at == left + |text|
      modifies tmp
      ensures tmp[..] == Padded(left, text + HexByte(digit), right - 2)
    {
      PutPadded(left, text, HexByte(digit), right);
      ghost var before := tmp[..];
      PutHex(digit, tmp, at);
      assert tmp[..] == before[..at] + HexByte(digit) + before[at + 2..];
    }

    method End()
      modifies wire
      ensures wire.sent == old(wire.sent) + [END] + HexByte(checksum % 256)
      ensures wire.flushed == |wire.sent|
    {
      wire.RawSend([END]);
      wire.RawSend(HexByte(checksum % 256));
      wire.Flush();
    }

    /** `reply_ok`: a literal that is the frame of `OK`. */
    method ReplyOk()
      modifies wire
      ensures wire.sent == old(wire.sent) + Frame(OK) && wire.flushed == |wire.sent|
    {
      hide Frame;
      ReadyMadeReplies();
      wire.RawSend([0x24, 0x4F, 0x4B, 0x23, 0x39, 0x41]);
      wire.Flush();
    }

    /** `reply_e01`: a literal that is the frame of `E01`. */
    method ReplyE01()
      modifies wire
      ensures wire.sent == old(wire.sent) + Frame(E01) && wire.flushed == |wire.sent|
    {
      hide Frame;
      ReadyMadeReplies();
      wire.RawSend([0x24, 0x45, 0x30, 0x31, 0x23, 0x41, 0x36]);
      wire.Flush();
    }

    /** `simple_send`: the wire receives one complete frame of the text. */
    method SimpleSend(text: seq<byte>)
      requires Valid()
      modifies this, temp, wire
      ensures wire.sent == old(wire.sent) + Frame(text) && wire.flushed == |wire.sent|
    {
      hide Escaped, Sum;
      Begin();
      AddText(text);
      LowByte(Sum(Escaped(text)));
      End();
      ghost var h := HexByte(Sum(Escaped(text)) % 256);
      assert h == [h[0], h[1]];
    }
  }

  function Padded(left: nat, text: seq<byte>, right: nat): seq<byte> {
    Zeros(left) + text + Zeros(right)
  }

  lemma NoDigits(sig: seq<byte>, left: nat, right: nat)
    ensures Zeros(left + right) == Padded(left, HexBytes(sig[..0]), right)
  {
    EmptyText();
    assert sig[..0] == [];
  }

  lemma AllDigits(sig: seq<byte>, left: nat)
    ensures Padded(left, HexBytes(sig[..|sig|]), 0) == Zeros(left) + HexBytes(sig)
  {
    assert sig[..|sig|] == sig;
  }

  lemma PutPadded(left: nat, text: seq<byte>, h: seq<byte>, right: nat)
    requires |h| == 2 && right >= 2
    ensures
      var before, at := Padded(left, text, right), left + |text|;
      before[..at] + h + before[at + 2..] == Padded(left, text + h, right - 2)
  {
  }

  lemma EmptyText()
    ensures HexBytes([]) == [] && Escaped([]) == [] && Sum([]) == 0
  {
  }

  ghost function Slice(a: array<byte>, from: nat, len: nat): (s: seq<byte>)
    requires from + len <= a.Length
    reads a
    ensures |s| == len && forall i :: 0 <= i < len ==> s[i] == a[from + i]
  {
    a[from..from + len]
  }

  lemma SumUnit(c: byte)
    ensures Sum(EscapeByte(c)) == if Special(c) then ESCAPE + Xor20(c) else c
  {
    var e := EscapeByte(c);
    if Special(c) {
      assert e[1..] == [Xor20(c)] && [Xor20(c)][1..] == [];
    } else {
      assert e[1..] == [];
    }
  }

  lemma StageOne(src: seq<byte>, i: nat)
    requires i < |src|
    ensures Escaped(src[..i + 1]) == Escaped(src[..i]) + EscapeByte(src[i])
  {
    assert src[..i + 1] == src[..i] + [src[i]];
    EscapedConcat(src[..i], [src[i]]);
    assert [src[i]][1..] == [] && Escaped([src[i]]) == EscapeByte(src[i]) + [];
  }

  /** Hex digits need no escape. */
  lemma EscapedHex(bs: seq<byte>)
    ensures Escaped(HexBytes(bs)) == HexBytes(bs)
    ensures forall i :: 0 <= i < 2 * |bs| ==> !Special(HexBytes(bs)[i])
  {
    HexBytesUpper(bs);
    EscapedPlain(HexBytes(bs));
  }

  /** A 32-bit checksum that started at `from` has seen `text`. */
  ghost predicate Summed(checksum: u32, from: u32, text: seq<byte>) {
    checksum == (from + Sum(text)) % TWO32
  }

  lemma SummedConcat(checksum: u32, from: u32, a: seq<byte>, b: seq<byte>)
    requires Summed(checksum, from, a)
    ensures Summed((checksum + Sum(b)) % TWO32, from, a + b)
  {
    hide Sum;
    SumConcat(a, b);
    AddMod(from + Sum(a), Sum(b));
  }

  /** Byte `i` of a word is a leading zero exactly when it lies before the significant bytes. */
  lemma LeadingZeros(bs: seq<byte>, i: nat, skip: nat)
    requires i < |bs| && skip == |bs| - |StripZeros(bs)|
    ensures i < skip ==> bs[i] == 0
    ensures i == skip ==> bs[i] != 0
    ensures i >= skip ==> StripZeros(bs)[i - skip] == bs[i]
  {
    hide BigEndian;
    if bs[0] == 0 && i > 0 {
      LeadingZeros(bs[1..], i - 1, skip - 1);
    }
  }
}

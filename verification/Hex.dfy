/** Hexadecimal text, after `parsing_util.rs`. */
module Hex {
  import opened Bytes

  /** `_tohex`: the upper-case digit of a nibble. */
  function ToHex(v: int): (d: byte)
    requires 0 <= v < 16
    ensures IsUpperHex(d)
  {
    if v >= 10 then 65 + v - 10 else 48 + v
  }

  /** `_hex`: the value of a digit of either case; anything else counts as zero. */
  function HexVal(d: byte): (v: byte)
    ensures v < 16
  {
    if 48 <= d <= 57 then d - 48
    else if 97 <= d <= 102 then d + 10 - 97
    else if 65 <= d <= 70 then d + 10 - 65
    else 0
  }

  predicate IsUpperHex(c: byte) { 48 <= c <= 57 || 65 <= c <= 70 }

  /** `ascii_octet_to_hex`. */
  function Octet(left: byte, right: byte): (v: byte) {
    HexVal(left) * 16 + HexVal(right)
  }

  /** `u8_to_ascii`: the two digits of one byte, high nibble first. */
  function HexByte(v: byte): (h: seq<byte>)
    ensures |h| == 2 && IsUpperHex(h[0]) && IsUpperHex(h[1])
  {
    [ToHex(v / 16), ToHex(v % 16)]
  }

  lemma OctetRoundTrip(v: byte)
    ensures Octet(HexByte(v)[0], HexByte(v)[1]) == v
  {
    assert HexVal(ToHex(v / 16)) == v / 16 && HexVal(ToHex(v % 16)) == v % 16;
  }

  function HexBytes(bs: seq<byte>): (h: seq<byte>)
    ensures |h| == 2 * |bs|
  {
    if bs == [] then [] else HexByte(bs[0]) + HexBytes(bs[1..])
  }

  lemma {:induction false} HexBytesUpper(bs: seq<byte>)
    ensures forall i :: 0 <= i < 2 * |bs| ==> IsUpperHex(HexBytes(bs)[i])
  {
    if bs != [] {
      HexBytesUpper(bs[1..]);
      var h, t := HexByte(bs[0]), HexBytes(bs[1..]);
      assert forall i :: 2 <= i < 2 * |bs| ==> (h + t)[i] == t[i - 2];
    }
  }

  /** `u8_hex_string_to_u8s`: pairs of digits; an odd trailing digit is dropped. */
  function UnHex(s: seq<byte>): (bs: seq<byte>)
    ensures |bs| == |s| / 2
  {
    if |s| < 2 then [] else [Octet(s[0], s[1])] + UnHex(s[2..])
  }

  lemma {:induction false} HexRoundTrip(bs: seq<byte>)
    ensures UnHex(HexBytes(bs)) == bs
  {
    if bs != [] {
      assert HexBytes(bs)[2..] == HexBytes(bs[1..]);
      OctetRoundTrip(bs[0]);
      HexRoundTrip(bs[1..]);
    }
  }

  lemma {:induction false} HexBytesConcat(a: seq<byte>, b: seq<byte>)
    ensures HexBytes(a + b) == HexBytes(a) + HexBytes(b)
  {
    if a == [] {
      assert a + b == b;
    } else {
      assert (a + b)[1..] == a[1..] + b;
      HexBytesConcat(a[1..], b);
    }
  }

  lemma HexBytesSnoc(bs: seq<byte>, i: nat)
    requires i < |bs|
    ensures HexBytes(bs[..i + 1]) == HexBytes(bs[..i]) + HexByte(bs[i])
  {
    assert bs[..i + 1] == bs[..i] + [bs[i]];
    HexBytesConcat(bs[..i], [bs[i]]);
    assert [bs[i]][1..] == [] && HexBytes([bs[i]]) == HexByte(bs[i]) + [];
  }

  /** `u8_to_ascii_to_buffer`: two digits into the buffer at `at`. */
  method PutHex(value: byte, out: array<byte>, at: nat)
    requires at + 2 <= out.Length
    modifies out
    ensures out[..] == old(out[..at]) + HexByte(value) + old(out[at + 2..])
  {
    out[at] := ToHex(value / 16);
    out[at + 1] := ToHex(value % 16);
  }
}

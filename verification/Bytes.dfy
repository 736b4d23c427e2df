/** Machine integers and the byte arithmetic shared by every component. */
module Bytes {
  const TWO32: int := 0x1_0000_0000

  type byte = x: int | 0 <= x < 256
  type u32 = x: int | 0 <= x < TWO32

  datatype Option<+T> = None | Some(value: T)

  function Zeros(n: nat): (z: seq<byte>)
    ensures |z| == n && forall i :: 0 <= i < n ==> z[i] == 0
  {
    seq(n, _ => 0)
  }

  /** The sum of a byte string, before any reduction. */
  function Sum(s: seq<byte>): (n: nat)
    ensures n <= 255 * |s|
  {
    if s == [] then 0 else s[0] + Sum(s[1..])
  }

  lemma {:induction false} SumConcat(a: seq<byte>, b: seq<byte>)
    ensures Sum(a + b) == Sum(a) + Sum(b)
  {
    if a == [] {
      assert a + b == b;
    } else {
      assert (a + b)[1..] == a[1..] + b;
      SumConcat(a[1..], b);
    }
  }

  /** `c ^ 0x20` on an unsigned byte: bit 5 is flipped. */
  function Xor20(c: byte): (r: byte)
    ensures r == if c / 32 % 2 == 0 then c + 32 else c - 32
  {
    if c / 32 % 2 == 0 then c + 32 else c - 32
  }

  lemma Xor20Involutive(c: byte)
    ensures Xor20(Xor20(c)) == c
  {
    if c / 32 % 2 == 0 {
      assert (c + 32) / 32 == c / 32 + 1;
    } else {
      assert (c - 32) / 32 == c / 32 - 1;
    }
  }

  lemma ModUnique(x: nat, q: nat, r: nat)
    requires x == q * TWO32 + r && r < TWO32
    ensures x % TWO32 == r
  {
  }

  lemma AddMod(x: nat, c: nat)
    ensures (x % TWO32 + c) % TWO32 == (x + c) % TWO32
  {
    var y := x % TWO32 + c;
    assert x == x / TWO32 * TWO32 + x % TWO32;
    assert y == y / TWO32 * TWO32 + y % TWO32;
    ModUnique(x + c, x / TWO32 + y / TWO32, y % TWO32);
  }

  /** Reducing a 32-bit checksum modulo 256 loses nothing of the unbounded sum. */
  lemma LowByte(n: nat)
    ensures n % TWO32 % 256 == n % 256
  {
    assert n == n / TWO32 * TWO32 + n % TWO32;
  }
}

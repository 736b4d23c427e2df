/** Bit strings, most significant bit first, and their values. */
module Bits {
  function Pow2(n: nat): (p: nat)
    ensures p > 0
  {
    if n == 0 then 1 else 2 * Pow2(n - 1)
  }

  lemma {:induction false} Pow2Add(a: nat, b: nat)
    ensures Pow2(a + b) == Pow2(a) * Pow2(b)
  {
    if a > 0 {
      Pow2Add(a - 1, b);
      DoubleProduct(Pow2(a - 1), Pow2(b));
    }
  }

  lemma DoubleProduct(x: nat, y: nat)
    ensures 2 * (x * y) == (2 * x) * y == x * (2 * y)
  {
  }

  /** `x >> n`. */
  function Shr(x: nat, n: nat): nat {
    if n == 0 then x else Shr(x / 2, n - 1)
  }

  /** The low `n` bits of `x`. */
  function Low(x: nat, n: nat): (r: nat)
    ensures r < Pow2(n)
  {
    if n == 0 then 0 else 2 * Low(x / 2, n - 1) + x % 2
  }

  lemma {:induction false} ShrLow(x: nat, n: nat)
    ensures x == Shr(x, n) * Pow2(n) + Low(x, n)
    decreases n
  {
    if n > 0 {
      ShrLow(x / 2, n - 1);
      DoubleProduct(Shr(x, n), Pow2(n - 1));
    }
  }

  lemma {:induction false} LowOfSum(q: nat, n: nat, r: nat)
    requires r < Pow2(n)
    ensures Low(q * Pow2(n) + r, n) == r && Shr(q * Pow2(n) + r, n) == q
    decreases n
  {
    if n > 0 {
      HalfOfField(q, Pow2(n - 1), r);
      LowOfSum(q, n - 1, r / 2);
    }
  }

  lemma Pow2Values()
    ensures Pow2(1) == 2 && Pow2(2) == 4 && Pow2(4) == 16 && Pow2(7) == 128 && Pow2(8) == 256
    ensures Pow2(16) == 0x1_0000 && Pow2(32) == 0x1_0000_0000 && Pow2(64) == 0x1_0000_0000_0000_0000
    ensures Pow2(63) == 0x8000_0000_0000_0000
  {
    assert Pow2(4) == 16 && Pow2(7) == 128 && Pow2(8) == 256;
    Pow2Add(8, 8);
    Pow2Add(16, 16);
    Pow2Add(32, 32);
    assert Pow2(64) == 2 * Pow2(63);
  }

  /** The low `n` bits of `x`, most significant first. */
  function MsbBits(x: nat, n: nat): (bits: seq<bool>)
    ensures |bits| == n
  {
    if n == 0 then [] else MsbBits(x / 2, n - 1) + [x % 2 == 1]
  }

  function Value(bits: seq<bool>): (v: nat)
  {
    if bits == [] then 0 else 2 * Value(bits[..|bits| - 1]) + if bits[|bits| - 1] then 1 else 0
  }

  lemma {:induction false} ValueBound(bits: seq<bool>)
    ensures Value(bits) < Pow2(|bits|)
  {
    if bits != [] {
      ValueBound(bits[..|bits| - 1]);
    }
  }

  /** A number assembled from two fields is sent field by field. */
  lemma {:induction false} MsbJoin(x: nat, a: nat, y: nat, b: nat)
    requires y < Pow2(b)
    ensures MsbBits(x * Pow2(b) + y, a + b) == MsbBits(x, a) + MsbBits(y, b)
    decreases b
  {
    if b == 0 {
      assert MsbBits(x, a) + [] == MsbBits(x, a);
    } else {
      var z, p := x * Pow2(b) + y, Pow2(b - 1);
      HalfOfField(x, p, y);
      MsbJoin(x, a, y / 2, b - 1);
      assert MsbBits(z, a + b) == MsbBits(z / 2, a + b - 1) + [z % 2 == 1];
      assert MsbBits(x, a) + MsbBits(y / 2, b - 1) + [y % 2 == 1] == MsbBits(x, a) + MsbBits(y, b);
    }
  }

  lemma HalfOfField(x: nat, p: nat, y: nat)
    ensures var z := x * (2 * p) + y; z / 2 == x * p + y / 2 && z % 2 == y % 2
  {
    var q := x * p;
    assert x * (2 * p) == 2 * q;
  }

  /** Bits above the sent ones do not matter. */
  lemma {:induction false} MsbLow(x: nat, n: nat)
    ensures MsbBits(Low(x, n), n) == MsbBits(x, n)
    decreases n
  {
    if n > 0 {
      MsbLow(x / 2, n - 1);
    }
  }

  /** What a receiver assembles from the bits. */
  lemma {:induction false} ValueOfBits(x: nat, n: nat)
    ensures Value(MsbBits(x, n)) == Low(x, n)
    decreases n
  {
    if n > 0 {
      ValueOfBits(x / 2, n - 1);
      assert MsbBits(x, n)[..n - 1] == MsbBits(x / 2, n - 1);
    }
  }

  lemma {:induction false} BitsOfValue(bits: seq<bool>)
    ensures MsbBits(Value(bits), |bits|) == bits
  {
    if bits != [] {
      var n := |bits| - 1;
      BitsOfValue(bits[..n]);
      var v := Value(bits);
      assert v / 2 == Value(bits[..n]) && (v % 2 == 1) == bits[n];
      assert bits == bits[..n] + [bits[n]];
    }
  }

  lemma {:induction false} ValueConcat(a: seq<bool>, b: seq<bool>)
    ensures Value(a + b) == Value(a) * Pow2(|b|) + Value(b)
    decreases |b|
  {
    if b == [] {
      assert a + b == a;
    } else {
      var n, last := |b| - 1, if b[|b| - 1] then 1 else 0;
      var va, p, vb := Value(a), Pow2(n), Value(b[..n]);
      assert (a + b)[..|a + b| - 1] == a + b[..n];
      ValueConcat(a, b[..n]);
      assert Value(a + b) == 2 * (va * p + vb) + last && Value(b) == 2 * vb + last && Pow2(|b|) == 2 * p;
      Append(va, p, vb, last);
    }
  }

  lemma Append(x: nat, p: nat, y: nat, b: nat)
    ensures 2 * (x * p + y) + b == x * (2 * p) + (2 * y + b)
  {
    DoubleProduct(x, p);
  }

  lemma ValueSnoc(bits: seq<bool>, b: bool)
    ensures Value(bits + [b]) == 2 * Value(bits) + if b then 1 else 0
  {
    assert (bits + [b])[..|bits|] == bits;
  }

  // ---- Exclusive or and parity -------------------------------------------

  function Xor(a: nat, b: nat): (x: nat)
    decreases a + b
  {
    if a == 0 && b == 0 then 0 else 2 * Xor(a / 2, b / 2) + (a % 2 + b % 2) % 2
  }

  /** The exclusive or of all bits of `x`. */
  function Parity(x: nat): (p: nat)
    ensures p < 2
  {
    if x == 0 then 0 else (x % 2 + Parity(x / 2)) % 2
  }

  /** The exclusive or of a bit string. */
  function XorAll(bits: seq<bool>): bool {
    bits != [] && (bits[|bits| - 1] != XorAll(bits[..|bits| - 1]))
  }

  lemma {:induction false} ParityIsXorAll(x: nat, n: nat)
    requires x < Pow2(n)
    ensures Parity(x) == 1 <==> XorAll(MsbBits(x, n))
    decreases n
  {
    if n > 0 {
      ParityIsXorAll(x / 2, n - 1);
      assert MsbBits(x, n)[..n - 1] == MsbBits(x / 2, n - 1);
    }
  }

  lemma {:induction false} ParityXor(a: nat, b: nat)
    ensures Parity(Xor(a, b)) == (Parity(a) + Parity(b)) % 2
    decreases a + b
  {
    hide Xor, Parity;
    if a == 0 && b == 0 {
      Zero();
      ParityOfZero();
    } else {
      HalvesSmaller(a, b);
      ParityXor(a / 2, b / 2);
      ParityXorStep(a, b);
    }
  }

  lemma HalvesSmaller(a: nat, b: nat)
    requires a > 0 || b > 0
    ensures a / 2 + b / 2 < a + b
  {
  }

  lemma ParityXorStep(a: nat, b: nat)
    requires Parity(Xor(a / 2, b / 2)) == (Parity(a / 2) + Parity(b / 2)) % 2
    ensures Parity(Xor(a, b)) == (Parity(a) + Parity(b)) % 2
  {
    hide Xor, Parity;
    XorStep(a, b);
    ParityStep(a);
    ParityStep(b);
    ParityStep(Xor(a, b));
    SumOfBits(a % 2, Parity(a / 2), b % 2, Parity(b / 2));
  }

  /** Sums modulo two may be taken in any grouping. */
  lemma SumOfBits(a: nat, p: nat, b: nat, q: nat)
    requires a < 2 && p < 2 && b < 2 && q < 2
    ensures ((a + b) % 2 + (p + q) % 2) % 2 == ((a + p) % 2 + (b + q) % 2) % 2
  {
  }

  lemma XorStep(a: nat, b: nat)
    ensures Xor(a, b) / 2 == Xor(a / 2, b / 2) && Xor(a, b) % 2 == (a % 2 + b % 2) % 2
    ensures Xor(a, b) == 2 * Xor(a / 2, b / 2) + (a % 2 + b % 2) % 2
  {
  }

  lemma LowStep(x: nat, n: nat)
    requires n > 0
    ensures Low(x, n) / 2 == Low(x / 2, n - 1) && Low(x, n) % 2 == x % 2
    ensures Low(x, n) == 2 * Low(x / 2, n - 1) + x % 2
  {
  }

  lemma Zero()
    ensures Xor(0, 0) == 0 && forall x: nat :: Low(x, 0) == 0
  {
  }

  /** Exclusive or acts on the low `n` bits alone. */
  lemma {:induction false} XorLow(a: nat, b: nat, n: nat)
    ensures Low(Xor(a, b), n) == Xor(Low(a, n), Low(b, n))
    decreases n
  {
    hide Xor, Low;
    Zero();
    if n > 0 {
      XorLow(a / 2, b / 2, n - 1);
      XorStep(a, b);
      XorStep(Low(a, n), Low(b, n));
      LowStep(a, n);
      LowStep(b, n);
      LowStep(Xor(a, b), n);
    }
  }

  lemma ParityOfZero()
    ensures Parity(0) == 0
  {
  }

  lemma ParityStep(x: nat)
    ensures Parity(x) == (x % 2 + Parity(x / 2)) % 2
  {
    if x == 0 {
      assert x / 2 == 0;
    }
  }

  /** The parity of a number is that of its two parts. */
  lemma {:induction false} ParitySplit(x: nat, n: nat)
    ensures Parity(x) == (Parity(Shr(x, n)) + Parity(Low(x, n))) % 2
    decreases n
  {
    hide Parity;
    ParityOfZero();
    if n > 0 {
      ParitySplit(x / 2, n - 1);
      ParityStep(x);
      ParityStep(Low(x, n));
      LowStep(x, n);
    }
  }

  lemma {:induction false} LowOfLow(x: nat, n: nat, m: nat)
    requires n <= m
    ensures Low(Low(x, m), n) == Low(x, n)
    decreases n
  {
    if n > 0 {
      LowOfLow(x / 2, n - 1, m - 1);
    }
  }

  lemma {:induction false} LowOfShr(x: nat, n: nat, m: nat)
    ensures Low(Shr(x, n), m) == Shr(Low(x, n + m), n)
    decreases n
  {
    if n > 0 {
      LowOfShr(x / 2, n - 1, m);
    }
  }
}

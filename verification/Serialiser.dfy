/**
 * The two implementations of `rvswd_write_then_read`: a probe that works in
 * 32-bit halves and one that shifts 64-bit registers. Both are proved against
 * the same exchange on the wire.
 */
module Serialiser {
  import opened Bytes
  import opened Bits

  const TWO64: int := 0x1_0000_0000_0000_0000
  const HALF64: int := 0x8000_0000_0000_0000

  type u64 = x: int | 0 <= x < TWO64

  /** What a logic analyser sees: start, driven bits, sampling clocks, stop. */
  datatype Event = Start | Bit(b: bool) | Turnaround | Sample | Stop

  function Driven(bits: seq<bool>): (e: seq<Event>)
    ensures |e| == |bits| && forall i :: 0 <= i < |e| ==> e[i] == Bit(bits[i])
  {
    seq(|bits|, i requires 0 <= i < |bits| => Bit(bits[i]))
  }

  lemma DrivenConcat(a: seq<bool>, b: seq<bool>)
    ensures Driven(a + b) == Driven(a) + Driven(b)
  {
  }

  lemma DrivenNothing()
    ensures Driven([]) == []
  {
  }

  lemma DrivenSnoc(sent: seq<bool>, bit: bool, rest: seq<bool>)
    ensures sent + ([bit] + rest) == (sent + [bit]) + rest
    ensures Driven(sent + [bit]) == Driven(sent) + [Bit(bit)]
  {
  }

  function Samples(n: nat): (e: seq<Event>)
    ensures |e| == n && forall i :: 0 <= i < n ==> e[i] == Sample
  {
    seq(n, _ => Sample)
  }

  /** The exchange every serialiser owes: `bits` out, then `rx` sampling clocks. */
  function Exchange(bits: seq<bool>, rx: nat): seq<Event> {
    [Start] + Driven(bits) + (if rx > 0 then [Turnaround] + Samples(rx) else []) + [Stop]
  }

  // ---- A bus monitor -------------------------------------------------------

  /** What an observer of the bus knows: who drives the line, and what has passed. */
  datatype Bus =
    | Resting
    | ProbeDrives(bits: seq<bool>)
    | Released(bits: seq<bool>, samples: nat)
    | Closed(bits: seq<bool>, samples: nat)
    | Conflict

  /**
   * Bits only while the probe drives, samples only after it has let go, one start
   * before and one stop after everything; all else is a conflict.
   */
  function Observe(b: Bus, e: Event): Bus {
    match b
    case Resting => if e.Start? then ProbeDrives([]) else Conflict
    case ProbeDrives(bits) =>
      (match e
       case Bit(bit) => ProbeDrives(bits + [bit])
       case Turnaround => Released(bits, 0)
       case Stop => Closed(bits, 0)
       case _ => Conflict)
    case Released(bits, n) =>
      (match e
       case Sample => Released(bits, n + 1)
       case Stop => Closed(bits, n)
       case _ => Conflict)
    case _ => Conflict
  }

  function ObserveAll(b: Bus, es: seq<Event>): Bus
    decreases |es|
  {
    if es == [] then b else ObserveAll(Observe(b, es[0]), es[1..])
  }

  lemma {:induction false} ObserveConcat(b: Bus, a: seq<Event>, c: seq<Event>)
    ensures ObserveAll(b, a + c) == ObserveAll(ObserveAll(b, a), c)
    decreases |a|
  {
    hide Observe;
    if a == [] {
      assert a + c == c;
    } else {
      assert (a + c)[1..] == a[1..] + c;
      ObserveConcat(Observe(b, a[0]), a[1..], c);
    }
  }

  lemma {:induction false} ObserveDriven(seen: seq<bool>, bits: seq<bool>)
    ensures ObserveAll(ProbeDrives(seen), Driven(bits)) == ProbeDrives(seen + bits)
    decreases |bits|
  {
    if bits == [] {
      assert seen + bits == seen;
    } else {
      assert Driven(bits)[1..] == Driven(bits[1..]);
      assert seen + [bits[0]] + bits[1..] == seen + bits;
      ObserveDriven(seen + [bits[0]], bits[1..]);
    }
  }

  lemma {:induction false} ObserveSamples(bits: seq<bool>, seen: nat, n: nat)
    ensures ObserveAll(Released(bits, seen), Samples(n)) == Released(bits, seen + n)
    decreases n
  {
    if n > 0 {
      assert Samples(n)[1..] == Samples(n - 1);
      ObserveSamples(bits, seen + 1, n - 1);
    }
  }

  lemma ObserveOne(b: Bus, e: Event)
    ensures ObserveAll(b, [e]) == Observe(b, e)
  {
    assert [e][1..] == [];
  }

  /** An exchange passes without a conflict, with exactly its bits and samples. */
  lemma ExchangeObserved(bits: seq<bool>, rx: nat)
    ensures ObserveAll(Resting, Exchange(bits, rx)) == Closed(bits, rx)
  {
    hide ObserveAll, Driven, Samples;
    var response := if rx > 0 then [Turnaround] + Samples(rx) else [];
    ObserveConcat(Resting, [Start] + Driven(bits) + response, [Stop]);
    ObserveConcat(Resting, [Start] + Driven(bits), response);
    ObserveConcat(Resting, [Start], Driven(bits));
    ObserveOne(Resting, Start);
    ObserveDriven([], bits);
    assert [] + bits == bits;
    if rx > 0 {
      ObserveConcat(ProbeDrives(bits), [Turnaround], Samples(rx));
      ObserveOne(ProbeDrives(bits), Turnaround);
      ObserveSamples(bits, 0, rx);
      ObserveOne(Released(bits, rx), Stop);
    } else {
      ObserveNothing(ProbeDrives(bits));
      ObserveOne(ProbeDrives(bits), Stop);
    }
  }

  lemma ObserveNothing(b: Bus)
    ensures ObserveAll(b, []) == b
  {
  }

  /** What went over the wire since `before`, as the monitor sees it. */
  ghost predicate Exchanged(before: seq<Event>, wire: seq<Event>, bits: seq<bool>, rx: nat) {
    && |before| <= |wire| && wire[..|before|] == before
    && ObserveAll(Resting, wire[|before|..]) == Closed(bits, rx)
  }

  lemma WireObserved(before: seq<Event>, bits: seq<bool>, rx: nat)
    ensures Exchanged(before, before + Exchange(bits, rx), bits, rx)
  {
    hide Exchange;
    ExchangeObserved(bits, rx);
    var wire := before + Exchange(bits, rx);
    assert wire[..|before|] == before && wire[|before|..] == Exchange(bits, rx);
  }

  // ---- Masks --------------------------------------------------------------

  /** The bits a shifting mask picks out of a word, from bit `n - 1` down to bit 0. */
  function MaskBits(x: nat, n: nat): (bits: seq<bool>)
    ensures |bits| == n
  {
    if n == 0 then [] else [Shr(x, n - 1) % 2 == 1] + MaskBits(x, n - 1)
  }

  lemma {:induction false} MaskIsMsb(x: nat, n: nat)
    ensures MaskBits(x, n) == MsbBits(x, n)
    decreases n
  {
    if n > 0 {
      MaskIsMsb(x, n - 1);
      MsbFirst(x, n);
    }
  }

  /** The first bit sent is bit `n - 1`. */
  lemma {:induction false} MsbFirst(x: nat, n: nat)
    requires n > 0
    ensures MsbBits(x, n) == [Shr(x, n - 1) % 2 == 1] + MsbBits(x, n - 1)
    decreases n
  {
    if n > 1 {
      MsbFirst(x / 2, n - 1);
      var b := Shr(x, n - 1) % 2 == 1;
      assert [b] + MsbBits(x / 2, n - 2) + [x % 2 == 1] == [b] + MsbBits(x, n - 1);
    } else {
      assert MsbBits(x, 1) == MsbBits(x / 2, 0) + [x % 2 == 1];
    }
  }

  lemma {:induction false} MsbSuffix(x: nat, n: nat, m: nat)
    requires n <= m
    ensures MsbBits(x, m)[m - n..] == MsbBits(x, n)
    decreases m
  {
    hide MsbBits;
    if n < m {
      MsbFirst(x, m);
      MsbSuffix(x, n, m - 1);
    }
  }

  /** The halves of a 64-bit word are its upper and lower bits. */
  lemma Halves(x: u64)
    ensures x / TWO32 == Shr(x, 32) && x % TWO32 == Low(x, 32)
  {
    Pow2Values();
    ShrLow(x, 32);
  }

  lemma HalvesJoin(x: u64, n: nat)
    requires n <= 64
    ensures n > 32 ==> MsbBits(x, n) == MsbBits(x / TWO32, n - 32) + MsbBits(x % TWO32, 32)
    ensures n <= 32 ==> MsbBits(x % TWO32, n) == MsbBits(x, n)
  {
    hide MsbBits, Pow2, Shr, Low;
    Halves(x);
    ShrLow(x, 32);
    if n > 32 {
      MsbJoin(Shr(x, 32), n - 32, Low(x, 32), 32);
    } else {
      MsbLow(Low(x, 32), n);
      LowOfLow(x, n, 32);
      MsbLow(x, n);
    }
  }

  // ---- Shifting registers -------------------------------------------------

  function Shl1(v: u64): u64 {
    if v >= HALF64 then 2 * v - TWO64 else 2 * v
  }

  /** `v << k` on 64 bits. */
  function Shl(v: u64, k: nat): u64
    decreases k
  {
    if k == 0 then v else Shl(Shl1(v), k - 1)
  }

  /** The bits that leave a 64-bit register at the top, one shift at a time. */
  function TopBits(v: u64, n: nat): (bits: seq<bool>)
    ensures |bits| == n
    decreases n
  {
    if n == 0 then [] else [v >= HALF64] + TopBits(Shl1(v), n - 1)
  }

  /** The top bit of a register and the 63 below it. */
  lemma RegisterParts(v: u64, h: nat, r: nat)
    requires v == h * HALF64 + r && r < HALF64
    ensures Shr(v, 63) == h && MsbBits(v, 63) == MsbBits(r, 63)
  {
    hide MsbBits, Low, Shr;
    Pow2Values();
    LowOfSum(h, 63, r);
    MsbLow(v, 63);
  }

  lemma ShiftedRegister(v: u64)
    ensures MsbBits(v, 64)[0] == (v >= HALF64)
    ensures MsbBits(Shl1(v), 64) == MsbBits(v, 64)[1..] + [false]
  {
    hide MsbBits, Shr, Low, Pow2;
    var h, r := if v >= HALF64 then 1 else 0, if v >= HALF64 then v - HALF64 else v;
    RegisterParts(v, h, r);
    MsbFirst(v, 64);
    MsbBitsStep(Shl1(v), 64);
  }

  lemma MsbBitsStep(x: nat, n: nat)
    requires n > 0
    ensures MsbBits(x, n) == MsbBits(x / 2, n - 1) + [x % 2 == 1]
    ensures Shr(x, n) == Shr(x / 2, n - 1)
  {
  }

  lemma {:induction false} TopIsPrefix(v: u64, n: nat)
    requires n <= 64
    ensures TopBits(v, n) == MsbBits(v, 64)[..n]
    decreases n
  {
    hide MsbBits, Shl1;
    if n > 0 {
      ShiftedRegister(v);
      TopIsPrefix(Shl1(v), n - 1);
    }
  }

  /** Dropping `k - 1` bits of the shifted register drops `k` bits of the register. */
  lemma ShiftSlices(m: seq<bool>, m1: seq<bool>, s: seq<bool>, k: nat)
    requires 1 <= k <= 64 == |m| == |m1| == |s|
    requires m1 == m[1..] + [false] && s[..65 - k] == m1[k - 1..]
    ensures s[..64 - k] == m[k..]
  {
    forall i | 0 <= i < 64 - k
      ensures s[i] == m[k + i]
    {
      assert s[i] == s[..65 - k][i] == m1[k - 1 + i] == m[1..][k - 1 + i];
    }
  }

  lemma {:induction false} ShiftedOut(v: u64, k: nat)
    requires k <= 64
    ensures MsbBits(Shl(v, k), 64)[..64 - k] == MsbBits(v, 64)[k..]
    decreases k
  {
    hide MsbBits, Shl1;
    if k > 0 {
      ShiftedRegister(v);
      ShiftedOut(Shl1(v), k - 1);
      ShiftSlices(MsbBits(v, 64), MsbBits(Shl1(v), 64), MsbBits(Shl(v, k), 64), k);
    }
  }

  /** Aligning to the top and shifting out sends the low `n` bits, first bit first. */
  lemma ShiftingSends(x: u64, n: nat)
    requires n <= 64
    ensures TopBits(Shl(x, 64 - n), n) == MsbBits(x, n)
  {
    hide MsbBits, Shl, TopBits;
    TopIsPrefix(Shl(x, 64 - n), n);
    ShiftedOut(x, 64 - n);
    MsbSuffix(x, n, 64);
  }

  /** The levels at `n` sampling clocks from clock `c`. */
  function Levels(level: nat -> bool, c: nat, n: nat): (bits: seq<bool>)
    ensures |bits| == n && forall i :: 0 <= i < n ==> bits[i] == level(c + i)
  {
    seq(n, i requires 0 <= i < n => level(c + i))
  }

  lemma LevelsSplit(level: nat -> bool, c: nat, n: nat, m: nat)
    ensures Levels(level, c, n + m) == Levels(level, c, n) + Levels(level, c + n, m)
  {
  }

  // ---- The pins -----------------------------------------------------------

  /** What the probe drove, and the level it will sample at each later clock. */
  class Tap {
    var wire: seq<Event>
    var clock: nat
    const level: nat -> bool

    constructor (level: nat -> bool)
      ensures wire == [] && clock == 0 && this.level == level
    {
      wire, clock, this.level := [], 0, level;
    }

    method Emit(e: Event)
      modifies this`wire
      ensures wire == old(wire) + [e]
    {
      wire := wire + [e];
    }

    /** The masked loop over one 32-bit half. */
    method SendHalf(word: u32, bits: nat)
      requires bits <= 32
      modifies this`wire
      ensures wire == old(wire) + Driven(MsbBits(word, bits))
    {
      hide MsbBits, Shr, Driven;
      DrivenNothing();
      MaskIsMsb(word, bits);
      var left: nat := bits;
      ghost var sent: seq<bool> := [];
      assert MaskBits(word, bits) == [] + MaskBits(word, bits);
      while left > 0
        invariant left <= bits && wire == old(wire) + Driven(sent)
        invariant MaskBits(word, bits) == sent + MaskBits(word, left)
      {
        var bit := Shr(word, left - 1) % 2 == 1;
        Emit(Bit(bit));
        DrivenSnoc(sent, bit, MaskBits(word, left - 1));
        sent := sent + [bit];
        left := left - 1;
      }
      assert sent + [] == sent;
    }

    /** The loop of the shifting register. */
    method SendTop(register: u64, bits: nat)
      modifies this`wire
      ensures wire == old(wire) + Driven(TopBits(register, bits))
    {
      hide Shl1, Driven;
      DrivenNothing();
      var v: u64, left: nat := register, bits;
      ghost var sent: seq<bool> := [];
      assert TopBits(register, bits) == [] + TopBits(register, bits);
      while left > 0
        invariant left <= bits && wire == old(wire) + Driven(sent)
        invariant TopBits(register, bits) == sent + TopBits(v, left)
      {
        var bit := v >= HALF64;
        Emit(Bit(bit));
        DrivenSnoc(sent, bit, TopBits(Shl1(v), left - 1));
        sent := sent + [bit];
        v := Shl1(v);
        left := left - 1;
      }
      assert sent + [] == sent;
    }

    /** The loop that shifts sampled levels into a register of `width` bits. */
    method Receive(bits: nat, width: nat) returns (rx: nat)
      requires bits <= width
      modifies this
      ensures rx == Value(Levels(level, old(clock), bits)) && rx < Pow2(bits)
      ensures wire == old(wire) + Samples(bits) && clock == old(clock) + bits
    {
      hide Value, Pow2;
      ghost var all := Levels(level, clock, bits);
      rx := 0;
      ValueOfNothing();
      for i := 0 to bits
        invariant clock == old(clock) + i && wire == old(wire) + Samples(i)
        invariant rx == Value(all[..i])
      {
        Emit(Sample);
        var b := level(clock);
        clock := clock + 1;
        FitsRegister(all, i, width);
        rx := Low(rx * 2, width) + if b then 1 else 0;
        assert Samples(i + 1) == Samples(i) + [Sample];
      }
      assert all[..bits] == all;
      ValueBound(all);
    }

    /** `rvswd_write_then_read` of the LN platform: each direction in two 32-bit halves. */
    method WriteThenReadHalves(txData: u64, txBits: nat, rxBits: nat) returns (rx: nat)
      requires txBits <= 64 && rxBits <= 64
      modifies this
      ensures wire == old(wire) + Exchange(MsbBits(txData, txBits), rxBits)
      ensures Exchanged(old(wire), wire, MsbBits(txData, txBits), rxBits)
      ensures rx == Value(Levels(level, old(clock), rxBits)) && clock == old(clock) + rxBits
    {
      hide MsbBits, Value, Pow2, Levels, Exchanged;
      Emit(Start);
      SendHalves(txData, txBits);
      ghost var w1 := wire;
      rx := 0;
      if rxBits > 0 {
        Emit(Turnaround);
        rx := ReceiveHalves(rxBits);
        assert wire == w1 + ([Turnaround] + Samples(rxBits));
      } else {
        ValueOfNothing();
        assert |Levels(level, clock, rxBits)| == 0;
        assert w1 == w1 + [];
      }
      Emit(Stop);
      assert wire == old(wire) + Exchange(MsbBits(txData, txBits), rxBits);
      WireObserved(old(wire), MsbBits(txData, txBits), rxBits);
    }

    method SendHalves(txData: u64, txBits: nat)
      requires txBits <= 64
      modifies this`wire
      ensures wire == old(wire) + Driven(MsbBits(txData, txBits))
    {
      hide MsbBits;
      HalvesJoin(txData, txBits);
      var bits := txBits;
      if bits > 32 {
        SendHalf(txData / TWO32, bits - 32);
        bits := 32;
        DrivenConcat(MsbBits(txData / TWO32, txBits - 32), MsbBits(txData % TWO32, 32));
      }
      if bits > 0 {
        SendHalf(txData % TWO32, bits);
      }
      assert txBits == 0 ==> Driven(MsbBits(txData, txBits)) == [];
    }

    method ReceiveHalves(rxBits: nat) returns (rx: nat)
      requires 0 < rxBits <= 64
      modifies this
      ensures rx == Value(Levels(level, old(clock), rxBits))
      ensures wire == old(wire) + Samples(rxBits) && clock == old(clock) + rxBits
    {
      hide Value, Pow2;
      if rxBits > 32 {
        ghost var n, a := rxBits - 32, Levels(level, clock, rxBits - 32);
        ghost var b := Levels(level, clock + n, 32);
        LevelsSplit(level, clock, n, 32);
        ValueConcat(a, b);
        Pow2Values();
        var hi := Receive(rxBits - 32, 32);
        var lo := Receive(32, 32);
        rx := hi * TWO32 + lo;
        assert Samples(n) + Samples(32) == Samples(rxBits);
      } else {
        rx := Receive(rxBits, 32);
      }
    }

    /** `rvswd_write_then_read` of the ESP32 platform: 64-bit shifting registers. */
    method WriteThenReadShifting(txData: u64, txBits: nat, rxBits: nat) returns (rx: nat)
      requires txBits <= 64 && rxBits <= 64
      modifies this
      ensures wire == old(wire) + Exchange(MsbBits(txData, txBits), rxBits)
      ensures Exchanged(old(wire), wire, MsbBits(txData, txBits), rxBits)
      ensures rx == Value(Levels(level, old(clock), rxBits)) && clock == old(clock) + rxBits
    {
      hide MsbBits, Value, Pow2, Shl, TopBits, Levels, Exchanged;
      Emit(Start);
      ShiftingSends(txData, txBits);
      if txBits > 0 {
        var v := txData;
        if txBits < 64 {
          v := Shl(v, 64 - txBits);
        } else {
          ShlZero(v);
        }
        SendTop(v, txBits);
      }
      assert wire == old(wire) + [Start] + Driven(MsbBits(txData, txBits));
      ghost var w1 := wire;
      rx := 0;
      if rxBits > 0 {
        Emit(Turnaround);
        rx := Receive(rxBits, 64);
        assert wire == w1 + ([Turnaround] + Samples(rxBits));
      } else {
        ValueOfNothing();
        assert |Levels(level, clock, rxBits)| == 0;
        assert w1 == w1 + [];
      }
      Emit(Stop);
      assert wire == old(wire) + Exchange(MsbBits(txData, txBits), rxBits);
      WireObserved(old(wire), MsbBits(txData, txBits), rxBits);
    }
  }

  lemma ShlZero(v: u64)
    ensures Shl(v, 0) == v
  {
  }

  lemma ValueOfNothing()
    ensures Value([]) == 0
  {
  }

  lemma {:induction false} PowMonotone(a: nat, b: nat)
    requires a <= b
    ensures Pow2(a) <= Pow2(b)
    decreases b
  {
    if a < b {
      PowMonotone(a, b - 1);
    }
  }

  /** One more sampled bit still fits the register. */
  lemma FitsRegister(all: seq<bool>, i: nat, width: nat)
    requires i < |all| <= width
    ensures Value(all[..i + 1]) == Low(Value(all[..i]) * 2, width) + if all[i] then 1 else 0
  {
    hide Low;
    assert all[..i + 1] == all[..i] + [all[i]];
    ValueSnoc(all[..i], all[i]);
    ValueBound(all[..i]);
    PowMonotone(i + 1, width);
    LowOfSum(0, width, Value(all[..i]) * 2);
  }
}

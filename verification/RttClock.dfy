/** The 16-bit poll clock of the RTT engine, after `get_tick` and the head of `SeggerRTT::process`. */
module RttClock {
  import opened Bytes

  const ROUNDUP: int := 0x1_0000

  /** `get_tick`: the millisecond counter reduced to 16 bits. */
  function Tick(ms: nat): nat {
    ms % ROUNDUP
  }

  /** The value the catch-up loop of `process` settles on. */
  function CaughtUp(tick: nat, last: nat): (now: nat)
    requires tick < ROUNDUP
    ensures now >= last && now % ROUNDUP == tick && (last <= tick ==> now == tick)
    ensures now - last < ROUNDUP
    decreases last
  {
    if last <= tick then tick
    else if last < ROUNDUP then
      AddRoundup(tick);
      tick + ROUNDUP
    else
      AddRoundup(CaughtUp(tick, last - ROUNDUP));
      CaughtUp(tick, last - ROUNDUP) + ROUNDUP
  }

  lemma AddRoundup(x: nat)
    ensures (x + ROUNDUP) % ROUNDUP == x % ROUNDUP
  {
  }

  /** Two instants with the same low 16 bits, less than one wrap apart, coincide. */
  lemma SameTick(a: nat, b: nat, last: nat)
    requires a % ROUNDUP == b % ROUNDUP && last <= a < last + ROUNDUP && last <= b < last + ROUNDUP
    ensures a == b
  {
    assert a == a / ROUNDUP * ROUNDUP + a % ROUNDUP;
    assert b == b / ROUNDUP * ROUNDUP + b % ROUNDUP;
  }

  /** The elapsed time the loop computes is the true one modulo one wrap. */
  lemma Elapsed(ms: nat, last: nat, fired: nat)
    requires fired <= ms && last % ROUNDUP == fired % ROUNDUP
    ensures CaughtUp(Tick(ms), last) - last == (ms - fired) % ROUNDUP
  {
    var e := (ms - fired) % ROUNDUP;
    assert ms - fired == (ms - fired) / ROUNDUP * ROUNDUP + e;
    var now := last + e;
    assert now % ROUNDUP == ms % ROUNDUP by {
      var q1, q2 := last / ROUNDUP, fired / ROUNDUP;
      var r := last % ROUNDUP;
      assert last == q1 * ROUNDUP + r && fired == q2 * ROUNDUP + r;
      SameResidue(r + e, q1, q2 + (ms - fired) / ROUNDUP);
    }
    SameTick(CaughtUp(Tick(ms), last), now, last);
  }

  lemma SameResidue(r: nat, a: nat, b: nat)
    ensures (a * ROUNDUP + r) % ROUNDUP == (b * ROUNDUP + r) % ROUNDUP
  {
    Residue(r, a);
    Residue(r, b);
  }

  lemma {:induction false} Residue(r: nat, a: nat)
    ensures (a * ROUNDUP + r) % ROUNDUP == r % ROUNDUP
  {
    if a > 0 {
      Residue(r, a - 1);
      AddRoundup((a - 1) * ROUNDUP + r);
    }
  }

  /** 32-bit iterate `k` of the catch-up loop. */
  function Iterate(tick: nat, k: nat): u32 {
    (tick + k * ROUNDUP) % TWO32
  }

  /**
   * The loop leaves for a value it can represent exactly when `last` has not
   * passed the last 32-bit instant with this tick; beyond that no iterate ever
   * reaches `last`.
   */
  lemma CatchUpEndsIff(tick: nat, last: u32)
    requires tick < ROUNDUP
    ensures (exists k: nat :: Iterate(tick, k) >= last) <==> last <= TWO32 - ROUNDUP + tick
  {
    if last <= TWO32 - ROUNDUP + tick {
      assert Iterate(tick, 0xFFFF) >= last;
    } else {
      forall k: nat
        ensures Iterate(tick, k) < last
      {
        IterateBound(tick, k);
      }
    }
  }

  lemma IterateBound(tick: nat, k: nat)
    requires tick < ROUNDUP
    ensures Iterate(tick, k) <= TWO32 - ROUNDUP + tick
  {
    var x := tick + k * ROUNDUP;
    var q, r := k / ROUNDUP, k % ROUNDUP;
    assert k == q * ROUNDUP + r;
    assert x == q * TWO32 + (r * ROUNDUP + tick);
    ModUnique(x, q, r * ROUNDUP + tick);
  }

  /** Where the 32-bit catch-up loop ends; none when it never does. */
  function CatchUp(tick: nat, last: u32): (now: Option<u32>)
    requires tick < ROUNDUP
    ensures now.Some? ==> now.value >= last && now.value % ROUNDUP == tick && now.value - last < ROUNDUP
  {
    if last > TWO32 - ROUNDUP + tick then None
    else
      CaughtUpFits(tick, last);
      Some(CaughtUp(tick, last))
  }

  lemma CaughtUpFits(tick: nat, last: u32)
    requires tick < ROUNDUP && last <= TWO32 - ROUNDUP + tick
    ensures CaughtUp(tick, last) <= TWO32 - ROUNDUP + tick
  {
    var now := CaughtUp(tick, last);
    if now > last {
      assert now == now / ROUNDUP * ROUNDUP + tick;
    }
  }

  /** The loop ends with the true elapsed time modulo one wrap, or reaches no instant that is not before `last`. */
  lemma ElapsedModuloWrap(ms: nat, last: u32, fired: nat)
    requires fired <= ms && last % ROUNDUP == fired % ROUNDUP
    ensures
      match CatchUp(Tick(ms), last)
      case Some(now) => now - last == (ms - fired) % ROUNDUP
      case None => forall k: nat :: Iterate(Tick(ms), k) < last
  {
    CatchUpEndsIff(Tick(ms), last);
    Elapsed(ms, last, fired);
  }

  /** The gate of `process`: whether an enabled engine polls, and the new `last_time`; none when it hangs. */
  function Gate(ms: nat, last: u32, period: u32): Option<(bool, u32)> {
    match CatchUp(Tick(ms), last)
    case None => None
    case Some(now) => Some(if now - last < period then (false, last) else (true, now))
  }

  datatype Poll = Quiet | Fire | Hung

  class Engine {
    var enabled: bool
    var lastTime: u32

    /**
     * The catch-up loop and the period test; a disabled engine forgets its time
     * base. The first test of an enabled engine is not in the code: there the
     * loop would go on for ever.
     */
    method PollGate(ms: nat, period: u32) returns (poll: Poll)
      modifies this`lastTime
      ensures !enabled ==> poll == Quiet && lastTime == 0
      ensures enabled ==>
        match Gate(ms, old(lastTime), period)
        case None => poll == Hung && lastTime == old(lastTime)
        case Some((fire, last)) => poll == (if fire then Fire else Quiet) && lastTime == last
    {
      if !enabled {
        lastTime := 0;
        return Quiet;
      }
      var tick: u32 := ms % ROUNDUP;
      var currentTime, last := tick, lastTime;
      if last > TWO32 - ROUNDUP + tick {
        return Hung;
      }
      while currentTime < last
        modifies {}
        invariant 0 <= currentTime <= TWO32 - ROUNDUP + tick && currentTime % ROUNDUP == tick
        invariant currentTime == tick || currentTime < last + ROUNDUP
        decreases last + ROUNDUP - currentTime
      {
        AddRoundup(currentTime);
        StaysRepresentable(currentTime, last, tick);
        currentTime := currentTime + ROUNDUP;
      }
      SameTickOrEarlier(currentTime, last, tick);
      if currentTime - last < period {
        return Quiet;
      }
      lastTime := currentTime;
      return Fire;
    }
  }

  lemma StaysRepresentable(now: nat, last: u32, tick: nat)
    requires tick < ROUNDUP && now % ROUNDUP == tick
    requires now < last <= TWO32 - ROUNDUP + tick
    ensures now + ROUNDUP <= TWO32 - ROUNDUP + tick
  {
    assert now == now / ROUNDUP * ROUNDUP + tick;
  }

  lemma SameTickOrEarlier(now: nat, last: nat, tick: nat)
    requires tick < ROUNDUP && now % ROUNDUP == tick && now >= last
    requires now == tick || now < last + ROUNDUP
    ensures now == CaughtUp(tick, last)
  {
    if now >= last + ROUNDUP {
    } else {
      SameTick(now, CaughtUp(tick, last), last);
    }
  }

  // ---- Runs ---------------------------------------------------------------

  /** Which of the polls at `times` fire, from time base `last`; none when one of them hangs. */
  function Fires(times: seq<nat>, last: u32, period: u32): (f: Option<seq<bool>>)
    ensures f.Some? ==> |f.value| == |times|
    decreases |times|
  {
    if times == [] then Some([]) else
      match Gate(times[0], last, period)
      case None => None
      case Some((fire, next)) =>
        match Fires(times[1..], next, period)
        case None => None
        case Some(rest) => Some([fire] + rest)
  }

  /** The intended rule: a poll fires when the period has elapsed since the previous one that did. */
  function Due(times: seq<nat>, fired: nat, period: nat): (f: seq<bool>)
    ensures |f| == |times|
  {
    if times == [] then [] else
      var fire := times[0] - fired >= period;
      [fire] + Due(times[1..], if fire then times[0] else fired, period)
  }

  /** Polls in order, none before `from`. */
  predicate InOrder(times: seq<nat>, from: nat) {
    times == [] || (from <= times[0] && InOrder(times[1..], times[0]))
  }

  /**
   * What one poll needs: the time base is not beyond the last 32-bit instant with
   * its tick, and a due poll does not come so late that the elapsed time has
   * wrapped to less than the period.
   */
  predicate Sees(ms: nat, fired: nat, last: int, period: nat) {
    last <= TWO32 - ROUNDUP + Tick(ms) && (ms - fired >= period ==> (ms - fired) % ROUNDUP >= period)
  }

  /** Every poll of the run in turn, the time base advancing by the wrapped elapsed time. */
  predicate AllSeen(times: seq<nat>, fired: nat, last: nat, period: nat) {
    times == [] ||
    (&& Sees(times[0], fired, last, period)
     && if times[0] - fired >= period
        then AllSeen(times[1..], times[0], last + (times[0] - fired) % ROUNDUP, period)
        else AllSeen(times[1..], fired, last, period))
  }

  lemma Wrapped(e: nat)
    ensures e % ROUNDUP <= e
  {
  }

  lemma GateSees(ms: nat, fired: nat, last: u32, period: u32)
    requires last % ROUNDUP == fired % ROUNDUP && fired <= ms
    ensures
      match Gate(ms, last, period)
      case None => !Sees(ms, fired, last, period)
      case Some((fire, next)) =>
        && (Sees(ms, fired, last, period) <==> fire == (ms - fired >= period))
        && (fire ==> next == last + (ms - fired) % ROUNDUP && next % ROUNDUP == ms % ROUNDUP)
        && (!fire ==> next == last)
  {
    hide CaughtUp;
    Elapsed(ms, last, fired);
    Wrapped(ms - fired);
  }

  /** Over any run of polls, whatever their spacing and the period: right if and only if every poll is seen. */
  lemma {:induction false} FiresWhenDueIff(times: seq<nat>, fired: nat, last: u32, period: u32)
    requires last % ROUNDUP == fired % ROUNDUP && InOrder(times, fired)
    ensures Fires(times, last, period) == Some(Due(times, fired, period)) <==> AllSeen(times, fired, last, period)
    decreases |times|
  {
    hide Gate, Sees;
    if times != [] {
      var t, rest := times[0], times[1..];
      GateSees(t, fired, last, period);
      match Gate(t, last, period)
      case None =>
      case Some((fire, next)) =>
        var due := t - fired >= period;
        LaterToo(rest, t, fired);
        FiresWhenDueIff(rest, if fire then t else fired, next, period);
        SameHead(fire, due, Fires(rest, next, period), Due(rest, if due then t else fired, period));
    }
  }

  lemma LaterToo(times: seq<nat>, from: nat, earlier: nat)
    requires InOrder(times, from) && earlier <= from
    ensures InOrder(times, earlier)
  {
  }

  lemma SameHead(b: bool, c: bool, f: Option<seq<bool>>, d: seq<bool>)
    ensures f.Some? ==> ([b] + f.value == [c] + d <==> b == c && f == Some(d))
  {
    if f.Some? && [b] + f.value == [c] + d {
      assert ([b] + f.value)[0] == b && ([c] + d)[0] == c;
      assert ([b] + f.value)[1..] == f.value && ([c] + d)[1..] == d;
    }
  }

  // ---- Spacing ------------------------------------------------------------

  /** Polls in order, at most `slack` apart, the first at most `slack` after `from`. */
  predicate Spaced(times: seq<nat>, from: nat, slack: nat) {
    times == [] || (from <= times[0] <= from + slack && Spaced(times[1..], times[0], slack))
  }

  function End(times: seq<nat>, from: nat): nat {
    if times == [] then from else times[|times| - 1]
  }

  /** A run after a poll at `from` that left nothing due, during which the time base stays a 32-bit number. */
  ghost predicate Admissible(times: seq<nat>, from: nat, fired: nat, last: u32, period: u32, slack: nat) {
    && last % ROUNDUP == fired % ROUNDUP && fired <= from && from - fired < period
    && Spaced(times, from, slack)
    && last + (End(times, from) - fired) <= TWO32 - ROUNDUP
  }

  lemma {:induction false} SpacedIsSeen(times: seq<nat>, from: nat, fired: nat, last: u32, period: u32)
    requires 0 < period < ROUNDUP && fired <= from && from - fired < period
    requires Spaced(times, from, ROUNDUP - period)
    requires last + (End(times, from) - fired) <= TWO32 - ROUNDUP
    ensures InOrder(times, fired) && AllSeen(times, fired, last, period)
    decreases |times|
  {
    if times != [] {
      var t := times[0];
      assert t - fired < ROUNDUP && (t - fired) % ROUNDUP == t - fired;
      assert End(times, from) == End(times[1..], t);
      EndIsLater(times, from, ROUNDUP - period);
      if t - fired >= period {
        SpacedIsSeen(times[1..], t, t, last + (t - fired), period);
      } else {
        SpacedIsSeen(times[1..], t, fired, last, period);
      }
      StillInOrder(times[1..], t, ROUNDUP - period);
    }
  }

  lemma {:induction false} EndIsLater(times: seq<nat>, from: nat, slack: nat)
    requires Spaced(times, from, slack)
    ensures from <= End(times, from)
    ensures forall i :: 0 <= i < |times| ==> times[i] <= End(times, from)
    decreases |times|
  {
    if times != [] {
      EndIsLater(times[1..], times[0], slack);
      assert forall i :: 0 < i < |times| ==> times[i] == times[1..][i - 1];
    }
  }

  lemma {:induction false} StillInOrder(times: seq<nat>, from: nat, slack: nat)
    requires Spaced(times, from, slack)
    ensures InOrder(times, from)
    decreases |times|
  {
    if times != [] {
      StillInOrder(times[1..], times[0], slack);
    }
  }

  /** The 16-bit clock fires exactly when the true clock says so. */
  lemma FiresWhenDue(times: seq<nat>, from: nat, fired: nat, last: u32, period: u32)
    requires 0 < period < ROUNDUP && Admissible(times, from, fired, last, period, ROUNDUP - period)
    ensures Fires(times, last, period) == Some(Due(times, fired, period))
  {
    SpacedIsSeen(times, from, fired, last, period);
    FiresWhenDueIff(times, fired, last, period);
  }

  ghost predicate AlwaysRight(period: u32, slack: nat) {
    forall times: seq<nat>, from: nat, fired: nat, last: u32 ::
      Admissible(times, from, fired, last, period, slack) ==>
        Fires(times, last, period) == Some(Due(times, fired, period))
  }

  /** How far apart polls may be: a wrap less the period, and not a millisecond more. */
  lemma SlackIff(period: u32, slack: nat)
    requires 0 < period < ROUNDUP
    ensures AlwaysRight(period, slack) <==> slack <= ROUNDUP - period
  {
    if slack <= ROUNDUP - period {
      forall times: seq<nat>, from: nat, fired: nat, last: u32 | Admissible(times, from, fired, last, period, slack)
        ensures Fires(times, last, period) == Some(Due(times, fired, period))
      {
        Closer(times, from, slack, ROUNDUP - period);
        FiresWhenDue(times, from, fired, last, period);
      }
    } else {
      LatePollMissed(period, slack);
    }
  }

  lemma {:induction false} Closer(times: seq<nat>, from: nat, slack: nat, more: nat)
    requires Spaced(times, from, slack) && slack <= more
    ensures Spaced(times, from, more)
    decreases |times|
  {
    if times != [] {
      Closer(times[1..], times[0], slack, more);
    }
  }

  /** One wrap after the last poll that fired, the period has elapsed and the gate stays shut. */
  lemma LatePollMissed(period: u32, slack: nat)
    requires 0 < period < ROUNDUP && slack > ROUNDUP - period
    ensures var times := [ROUNDUP];
            && Admissible(times, period - 1, 0, 0, period, slack)
            && Fires(times, 0, period) == Some([false]) && Due(times, 0, period) == [true]
  {
    var times: seq<nat> := [ROUNDUP];
    assert times[1..] == [];
    assert (ROUNDUP - 0) % ROUNDUP == 0;
    GateSees(ROUNDUP, 0, 0, period);
    assert Gate(ROUNDUP, 0, period) == Some((false, 0));
    var none: seq<bool> := [];
    assert [false] + none == [false] && [true] + none == [true];
    assert Fires(times, 0, period) == Some([false] + none);
  }

  /** A period of a whole wrap or more: the gate never opens. */
  lemma {:induction false} LongPeriodNeverFires(times: seq<nat>, last: u32, period: u32)
    requires period >= ROUNDUP
    ensures Fires(times, last, period).Some? ==> forall i :: 0 <= i < |times| ==> !Fires(times, last, period).value[i]
    decreases |times|
  {
    if times != [] {
      LongPeriodNeverFires(times[1..], last, period);
    }
  }

  /**
   * The first poll after enabling, at any instant: the time base is zero, so the
   * period counts from the last wrap of the tick, and the run goes on as if the
   * engine had fired there.
   */
  lemma FirstPoll(ms: nat, rest: seq<nat>, period: u32)
    requires 0 < period < ROUNDUP && Spaced(rest, ms, ROUNDUP - period)
    requires Tick(ms) + (End(rest, ms) - ms) <= TWO32 - ROUNDUP
    ensures Fires([ms] + rest, 0, period) == Some(Due([ms] + rest, ms - Tick(ms), period))
  {
    var times, fired := [ms] + rest, ms - Tick(ms);
    assert times[1..] == rest;
    assert ms == ms / ROUNDUP * ROUNDUP + Tick(ms);
    Residue(0, ms / ROUNDUP);
    assert (ms - fired) % ROUNDUP == ms - fired == Tick(ms);
    if Tick(ms) >= period {
      SpacedIsSeen(rest, ms, ms, Tick(ms), period);
    } else {
      SpacedIsSeen(rest, ms, fired, 0, period);
    }
    StillInOrder(rest, ms, ROUNDUP - period);
    FiresWhenDueIff(times, fired, 0, period);
  }

  // ---- A run that hangs -----------------------------------------------------

  const HALF: nat := 32768

  /** Polls at every multiple of 32768 ms after the `k`-th up to the `n`-th. */
  function Steady(k: nat, n: nat): seq<nat>
    decreases n - k
  {
    if k >= n then [] else [(k + 1) * HALF] + Steady(k + 1, n)
  }

  lemma Multiples(k: nat)
    ensures k * HALF % ROUNDUP == if k % 2 == 0 then 0 else HALF
    ensures (k + 1) * HALF == k * HALF + HALF
  {
    if k % 2 == 0 {
      assert k * HALF == k / 2 * ROUNDUP;
      Residue(0, k / 2);
    } else {
      assert k * HALF == k / 2 * ROUNDUP + HALF;
      Residue(HALF, k / 2);
    }
  }

  /** The poll after the `k`-th. */
  lemma SteadyPoll(k: nat, period: u32)
    requires k < 2 * ROUNDUP && 0 < period <= HALF
    ensures
      Gate((k + 1) * HALF, k * HALF, period) ==
      if k + 1 < 2 * ROUNDUP then Some((true, (k + 1) * HALF)) else None
  {
    Multiples(k);
    Multiples(k + 1);
    assert HALF % ROUNDUP == HALF;
    GateSees((k + 1) * HALF, k * HALF, k * HALF, period);
  }

  /**
   * An engine that is polled every 32768 ms from a zero time base, with a period
   * of at most that, fires at every poll, and hangs at the poll at 2^32 ms.
   */
  lemma {:induction false} SteadyRunHangsIff(k: nat, n: nat, period: u32)
    requires k <= n && k < 2 * ROUNDUP && 0 < period <= HALF
    ensures Fires(Steady(k, n), k * HALF, period) == None <==> n >= 2 * ROUNDUP
    decreases n - k
  {
    hide Gate;
    if k < n {
      SteadyPoll(k, period);
      assert Steady(k, n)[1..] == Steady(k + 1, n);
      if k + 1 < 2 * ROUNDUP {
        SteadyRunHangsIff(k + 1, n, period);
      }
    }
  }
}

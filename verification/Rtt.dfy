/**
 * The RTT up-channel: a ring in target memory that the target fills and the
 * probe drains, after `rtt.rs`. The probe's accesses are separate steps; the
 * target may act between any two of them, and may rewrite any memory except
 * the bytes it has published and the probe has not yet released.
 */
module Rtt {
  import opened Bytes

  const TRANSFER_BUFFER_SIZE: nat := 512

  /** Target memory with the ring at `base`; offsets as in the descriptor. */
  datatype Ring = Ring(mem: seq<byte>, base: nat, size: nat, wr: nat, rd: nat)

  ghost predicate WellFormed(r: Ring) {
    && 0 < r.base && 0 < r.size && r.base + r.size <= |r.mem|
    && |r.mem| % 4 == 0 && |r.mem| <= TWO32
    && r.wr < r.size && r.rd < r.size
  }

  function Wrap(x: nat, size: nat): nat {
    if x >= size then x - size else x
  }

  function Dist(r: Ring): nat
    requires r.rd < r.size
  {
    if r.wr >= r.rd then r.wr - r.rd else r.wr + r.size - r.rd
  }

  /** `n` bytes of the ring at `base` from offset `from`, wrapping at the end of the buffer. */
  function Cells(mem: seq<byte>, base: nat, size: nat, from: nat, n: nat): (s: seq<byte>)
    requires base + size <= |mem| && from < size && n <= size
    ensures |s| == n
    ensures forall i :: 0 <= i < n ==> s[i] == mem[base + Wrap(from + i, size)]
  {
    if from + n <= size then mem[base + from..base + from + n]
    else mem[base + from..base + size] + mem[base..base + from + n - size]
  }

  function Unread(r: Ring): (s: seq<byte>)
    requires r.base + r.size <= |r.mem| && r.rd < r.size && r.wr < r.size
    ensures |s| == Dist(r)
  {
    Cells(r.mem, r.base, r.size, r.rd, Dist(r))
  }

  lemma CellsSplit(mem: seq<byte>, base: nat, size: nat, from: nat, a: nat, b: nat)
    requires base + size <= |mem| && from < size && a + b <= size && a < size
    ensures Cells(mem, base, size, from, a + b)
         == Cells(mem, base, size, from, a) + Cells(mem, base, size, Wrap(from + a, size), b)
  {
    hide Cells;
    var x, y := Cells(mem, base, size, from, a), Cells(mem, base, size, Wrap(from + a, size), b);
    var z := Cells(mem, base, size, from, a + b);
    forall i | 0 <= i < a + b
      ensures z[i] == (x + y)[i]
    {
      if i >= a {
        assert Wrap(Wrap(from + a, size) + (i - a), size) == Wrap(from + i, size);
        assert (x + y)[i] == y[i - a];
      }
    }
  }

  /** `x & !3`. */
  function AlignDown(x: nat): (r: nat)
    ensures r == 4 * (x / 4) && r <= x < r + 4
  {
    x - x % 4
  }

  /** What one call of `swindle_read_rtt_channel` decides from a descriptor; `4 * words` bytes are read. */
  datatype Plan = Plan(chunk: nat, extra: nat, words: nat, extraAddress: nat, newRead: nat)

  /** A sum or difference on 32 bits. */
  function On32(x: int): u32 {
    x % TWO32
  }

  lemma On32Exact(x: int)
    ensures 0 <= x < TWO32 ==> On32(x) == x
  {
  }

  function Clip(c0: nat, available: u32): nat {
    var c1 := if c0 > TRANSFER_BUFFER_SIZE then TRANSFER_BUFFER_SIZE else c0;
    if c1 > available then available else c1
  }

  /** Any descriptor at all: its offsets may lie outside the ring, and the arithmetic wraps. */
  function MakePlan(buffer: u32, size: u32, wr: u32, rd: u32, available: u32): Option<Plan> {
    if wr == rd || size == 0 || buffer == 0 then None else
      var chunk := Clip(if rd < wr then wr - rd else On32(size - rd), available);
      if chunk == 0 then None else
        var address := On32(buffer + rd);
        var extra := address % 4;
        var newRead := On32(rd + chunk);
        Some(Plan(chunk, extra, AlignDown(chunk + 3 + extra) / 4, AlignDown(address),
                  if newRead == size then 0 else newRead))
  }

  datatype Probe =
    | Ready
    | Fetching(plan: Plan, words: nat, xfer: seq<byte>)
    | Sending(plan: Plan, xfer: seq<byte>)

  datatype System = System(ring: Ring, probe: Probe, produced: seq<byte>, delivered: seq<byte>)

  // ---- Steps --------------------------------------------------------------

  /** Address `a` holds a byte between the read and the write offset. */
  predicate Published(r: Ring, a: int) {
    var o := a - r.base;
    if r.rd <= r.wr then r.rd <= o < r.wr else 0 <= o < r.wr || r.rd <= o < r.size
  }

  /** The target rewrites memory, but no byte it has published and not got back. */
  ghost predicate TargetScribbles(s: System, t: System)
    requires WellFormed(s.ring)
  {
    && t == s.(ring := s.ring.(mem := t.ring.mem))
    && |t.ring.mem| == |s.ring.mem|
    && forall a :: 0 <= a < |s.ring.mem| && Published(s.ring, a) ==> t.ring.mem[a] == s.ring.mem[a]
  }

  /** The target publishes the next `n` bytes of the ring; one cell always stays free. */
  ghost predicate TargetPublishes(s: System, t: System, n: nat)
    requires WellFormed(s.ring)
  {
    && n + Dist(s.ring) < s.ring.size
    && t == s.(ring := s.ring.(wr := Wrap(s.ring.wr + n, s.ring.size)),
               produced := s.produced + Cells(s.ring.mem, s.ring.base, s.ring.size, s.ring.wr, n))
  }

  ghost predicate ProbeReadsDescriptor(s: System, t: System, available: u32)
    requires WellFormed(s.ring)
  {
    && s.probe.Ready? && available > 4
    && var r := s.ring;
       t == match MakePlan(r.base, r.size, r.wr, r.rd, available)
            case None => s
            case Some(p) => s.(probe := Fetching(p, 0, []))
  }

  ghost predicate ProbeFetchesWord(s: System, t: System)
    requires WellFormed(s.ring)
  {
    match s.probe
    case Fetching(plan, k, xfer) =>
      var a := plan.extraAddress + 4 * k;
      && k < plan.words && a + 4 <= |s.ring.mem|
      && t == s.(probe := Fetching(plan, k + 1, xfer + s.ring.mem[a..a + 4]))
    case _ => false
  }

  ghost predicate ProbeWritesReadOffset(s: System, t: System)
    requires WellFormed(s.ring)
  {
    match s.probe
    case Fetching(plan, k, xfer) =>
      k == plan.words && t == s.(ring := s.ring.(rd := plan.newRead), probe := Sending(plan, xfer))
    case _ => false
  }

  /** The bytes of the transfer buffer that are passed on. */
  function Payload(p: Plan, xfer: seq<byte>): seq<byte> {
    if p.extra + p.chunk <= |xfer| then xfer[p.extra..p.extra + p.chunk] else []
  }

  ghost predicate ProbeSends(s: System, t: System)
    requires WellFormed(s.ring)
  {
    match s.probe
    case Sending(plan, xfer) => t == s.(probe := Ready, delivered := s.delivered + Payload(plan, xfer))
    case _ => false
  }

  ghost predicate Next(s: System, t: System)
    requires WellFormed(s.ring)
  {
    || TargetScribbles(s, t)
    || (exists n: nat :: TargetPublishes(s, t, n))
    || (exists available: u32 :: ProbeReadsDescriptor(s, t, available))
    || ProbeFetchesWord(s, t)
    || ProbeWritesReadOffset(s, t)
    || ProbeSends(s, t)
  }

  // ---- Invariant ----------------------------------------------------------

  /** A plan made for the current read offset, whose bytes are all published. */
  ghost predicate PlanFits(r: Ring, p: Plan)
    requires WellFormed(r)
  {
    && 0 < p.chunk <= TRANSFER_BUFFER_SIZE && p.chunk <= Dist(r) && r.rd + p.chunk <= r.size
    && p.extra < 4 && p.extraAddress + p.extra == r.base + r.rd && p.extraAddress % 4 == 0
    && p.newRead == Wrap(r.rd + p.chunk, r.size)
    && p.extra + p.chunk <= 4 * p.words <= TRANSFER_BUFFER_SIZE + 4
    && p.extraAddress + 4 * p.words <= |r.mem|
  }

  /** Every payload byte read so far is the published byte. */
  ghost predicate Fetched(r: Ring, p: Plan, words: nat, xfer: seq<byte>)
    requires WellFormed(r)
  {
    && |xfer| == 4 * words && words <= p.words && p.extraAddress + 4 * p.words <= |r.mem|
    && forall k :: p.extra <= k < p.extra + p.chunk && k < |xfer| ==> xfer[k] == r.mem[p.extraAddress + k]
  }

  function InFlight(s: System): seq<byte> {
    match s.probe
    case Sending(plan, xfer) => Payload(plan, xfer)
    case _ => []
  }

  ghost predicate ProbeInv(s: System)
    requires WellFormed(s.ring)
  {
    match s.probe
    case Fetching(plan, words, xfer) => PlanFits(s.ring, plan) && Fetched(s.ring, plan, words, xfer)
    case _ => true
  }

  ghost predicate Inv(s: System) {
    && WellFormed(s.ring) && ProbeInv(s)
    && s.delivered + InFlight(s) + Unread(s.ring) == s.produced
  }

  /**
   * Whatever the descriptor holds, a planned transfer covers its chunk, is word
   * aligned, stays within the room available and fits the 516-byte buffer.
   */
  lemma TransferFits(buffer: u32, size: u32, wr: u32, rd: u32, available: u32)
    ensures
      match MakePlan(buffer, size, wr, rd, available)
      case None => wr == rd || size == 0 || buffer == 0 || available == 0 || (wr < rd && rd == size)
      case Some(p) =>
        && 0 < p.chunk <= TRANSFER_BUFFER_SIZE && p.chunk <= available
        && p.extra < 4 && p.extraAddress % 4 == 0 && p.extraAddress + p.extra == On32(buffer + rd)
        && p.extra + p.chunk <= 4 * p.words <= TRANSFER_BUFFER_SIZE + 4
  {
    hide AlignDown;
    match MakePlan(buffer, size, wr, rd, available)
    case None => On32Zero(size, rd);
    case Some(p) =>
      hide On32;
      Aligned(On32(buffer + rd));
      Aligned(p.chunk + 3 + p.extra);
      WholeWords(p.words, (TRANSFER_BUFFER_SIZE + 4) / 4);
  }

  lemma On32Zero(x: u32, y: u32)
    ensures On32(x - y) == 0 <==> x == y
  {
  }

  /** On a well-formed ring the transfer also stays in memory and reads published bytes alone. */
  lemma PlanIsGood(r: Ring, available: u32)
    requires WellFormed(r)
    ensures
      match MakePlan(r.base, r.size, r.wr, r.rd, available)
      case Some(p) => PlanFits(r, p) && p.chunk <= available
      case None => r.wr == r.rd || available == 0
  {
    hide AlignDown, On32;
    On32Exact(r.base + r.rd);
    On32Exact(r.size - r.rd);
    TransferFits(r.base, r.size, r.wr, r.rd, available);
    match MakePlan(r.base, r.size, r.wr, r.rd, available)
    case None =>
    case Some(p) =>
      On32Exact(r.rd + p.chunk);
      Aligned(r.base + r.rd);
      Aligned(p.chunk + 3 + p.extra);
      WholeWords(p.extraAddress / 4 + p.words, |r.mem| / 4);
  }

  /** The longest transfer the 512-byte buffer, the room and the contiguous bytes allow. */
  function Longest(room: nat, contiguous: nat): (n: nat)
    ensures n <= 512 && n <= room && n <= contiguous && (n == 512 || n == room || n == contiguous)
  {
    if contiguous <= room && contiguous <= 512 then contiguous else if room <= 512 then room else 512
  }

  /** A transfer takes all that is published up to the end of the ring, buffer and room permitting. */
  lemma PlanIsMaximal(r: Ring, available: u32)
    requires WellFormed(r)
    ensures
      var n := Longest(available, if r.rd < r.wr then r.wr - r.rd else r.size - r.rd);
      var p := MakePlan(r.base, r.size, r.wr, r.rd, available);
      if r.wr == r.rd || n == 0 then p == None else p.Some? && p.value.chunk == n
  {
    hide On32;
    On32Exact(r.size - r.rd);
  }

  lemma Aligned(x: nat)
    ensures AlignDown(x) + x % 4 == x && AlignDown(x) % 4 == 0 && AlignDown(x) == 4 * (AlignDown(x) / 4)
    ensures AlignDown(x) <= x < AlignDown(x) + 4
  {
  }

  lemma WholeWords(x: nat, m: nat)
    ensures 4 * x <= 4 * m + 3 ==> 4 * x <= 4 * m
  {
  }

  /** Rewriting unpublished memory leaves the unread bytes alone. */
  lemma ScribbleKeepsUnread(r: Ring, mem': seq<byte>)
    requires WellFormed(r) && |mem'| == |r.mem|
    requires forall a :: 0 <= a < |r.mem| && Published(r, a) ==> mem'[a] == r.mem[a]
    ensures Unread(r.(mem := mem')) == Unread(r)
  {
    hide Cells;
    forall i | 0 <= i < Dist(r)
      ensures Unread(r.(mem := mem'))[i] == Unread(r)[i]
    {
      assert Published(r, r.base + Wrap(r.rd + i, r.size));
    }
  }

  /** ... and the bytes a transfer has fetched. */
  lemma ScribbleKeepsFetched(r: Ring, mem': seq<byte>, p: Plan, words: nat, xfer: seq<byte>)
    requires WellFormed(r) && |mem'| == |r.mem|
    requires forall a :: 0 <= a < |r.mem| && Published(r, a) ==> mem'[a] == r.mem[a]
    requires PlanFits(r, p) && Fetched(r, p, words, xfer)
    ensures PlanFits(r.(mem := mem'), p) && Fetched(r.(mem := mem'), p, words, xfer)
  {
    forall k | p.extra <= k < p.extra + p.chunk && k < |xfer|
      ensures xfer[k] == mem'[p.extraAddress + k]
    {
      assert Published(r, p.extraAddress + k);
    }
  }

  lemma ScribbleKeepsInv(s: System, t: System)
    requires Inv(s) && TargetScribbles(s, t)
    ensures Inv(t)
  {
    hide Cells, Unread, InFlight, Published, PlanFits, Fetched;
    ScribbleKeepsUnread(s.ring, t.ring.mem);
    SameProbe(s, t);
    match s.probe
    case Fetching(p, words, xfer) => ScribbleKeepsFetched(s.ring, t.ring.mem, p, words, xfer);
    case _ =>
  }

  lemma UnreadGrows(r: Ring, n: nat)
    requires WellFormed(r) && n + Dist(r) < r.size
    ensures Unread(r.(wr := Wrap(r.wr + n, r.size))) == Unread(r) + Cells(r.mem, r.base, r.size, r.wr, n)
  {
    CellsSplit(r.mem, r.base, r.size, r.rd, Dist(r), n);
  }

  lemma UnreadShrinks(r: Ring, n: nat)
    requires WellFormed(r) && n <= Dist(r)
    ensures
      var r' := r.(rd := Wrap(r.rd + n, r.size));
      && Unread(r) == Cells(r.mem, r.base, r.size, r.rd, n) + Unread(r')
      && Dist(r') == Dist(r) - n
  {
    CellsSplit(r.mem, r.base, r.size, r.rd, n, Dist(r) - n);
  }

  lemma PublishKeepsInv(s: System, t: System, n: nat)
    requires Inv(s) && TargetPublishes(s, t, n)
    ensures Inv(t)
  {
    hide Cells, Unread, InFlight;
    var r := s.ring;
    UnreadGrows(r, n);
    var more := Cells(r.mem, r.base, r.size, r.wr, n);
    assert InFlight(t) == InFlight(s) by { SameProbe(s, t); }
    assert s.delivered + InFlight(s) + (Unread(r) + more) == s.delivered + InFlight(s) + Unread(r) + more;
  }

  lemma SameProbe(s: System, t: System)
    requires s.probe == t.probe
    ensures InFlight(s) == InFlight(t)
  {
  }

  lemma FetchKeepsInv(s: System, t: System)
    requires Inv(s) && ProbeFetchesWord(s, t)
    ensures Inv(t)
  {
    hide Cells;
    match s.probe
    case Fetching(p, words, xfer) =>
      var m, a := s.ring.mem, p.extraAddress + 4 * words;
      var xfer' := xfer + m[a..a + 4];
      forall k | p.extra <= k < p.extra + p.chunk && k < |xfer'|
        ensures xfer'[k] == m[p.extraAddress + k]
      {
        if k >= |xfer| {
          assert xfer'[k] == m[a..a + 4][k - |xfer|];
        }
      }
    case _ =>
  }

  lemma PayloadIsOldest(r: Ring, p: Plan, xfer: seq<byte>)
    requires WellFormed(r) && PlanFits(r, p) && Fetched(r, p, p.words, xfer)
    ensures Payload(p, xfer) == Cells(r.mem, r.base, r.size, r.rd, p.chunk)
  {
  }

  lemma PayloadOfLonger(p: Plan, xfer: seq<byte>, n: nat)
    requires p.extra + p.chunk <= n <= |xfer|
    ensures Payload(p, xfer[..n]) == xfer[p.extra..p.extra + p.chunk]
  {
    var a, b := xfer[..n][p.extra..p.extra + p.chunk], xfer[p.extra..p.extra + p.chunk];
    forall i | 0 <= i < p.chunk
      ensures a[i] == b[i]
    {
      assert a[i] == xfer[..n][p.extra + i];
    }
  }

  lemma WriteBackKeepsInv(s: System, t: System)
    requires Inv(s) && ProbeWritesReadOffset(s, t)
    ensures Inv(t)
  {
    hide Cells, Unread, Payload;
    var r, p, x := s.ring, s.probe.plan, s.probe.xfer;
    PayloadIsOldest(r, p, x);
    UnreadShrinks(r, p.chunk);
    assert s.delivered + [] == s.delivered;
    assert s.delivered + (Payload(p, x) + Unread(t.ring)) == s.delivered + Payload(p, x) + Unread(t.ring);
  }

  lemma NextKeepsInv(s: System, t: System)
    requires Inv(s) && Next(s, t)
    ensures Inv(t)
  {
    hide Cells, Unread, MakePlan;
    if TargetScribbles(s, t) {
      ScribbleKeepsInv(s, t);
    } else if n: nat :| TargetPublishes(s, t, n) {
      PublishKeepsInv(s, t, n);
    } else if available: u32 :| ProbeReadsDescriptor(s, t, available) {
      PlanIsGood(s.ring, available);
    } else if ProbeFetchesWord(s, t) {
      FetchKeepsInv(s, t);
    } else if ProbeWritesReadOffset(s, t) {
      WriteBackKeepsInv(s, t);
    } else {
      assert s.delivered + InFlight(s) == t.delivered + [];
    }
  }

  ghost predicate Initial(s: System) {
    WellFormed(s.ring) && s.probe.Ready? && s.delivered == [] && s.produced == Unread(s.ring)
  }

  ghost predicate IsRun(run: seq<System>) {
    && run != [] && Initial(run[0])
    && forall i :: 0 <= i < |run| - 1 ==> WellFormed(run[i].ring) && Next(run[i], run[i + 1])
  }

  /** FIFO under every interleaving: nothing is lost, duplicated, reordered or invented. */
  lemma {:induction false} RunIsFifo(run: seq<System>, i: nat)
    requires IsRun(run) && i < |run|
    ensures
      var s := run[i];
      && Inv(s) && s.ring.rd < s.ring.size
      && s.delivered + InFlight(s) + Unread(s.ring) == s.produced
      && (s.probe.Fetching? ==> |s.probe.xfer| <= 4 * s.probe.plan.words <= TRANSFER_BUFFER_SIZE + 4)
  {
    if i > 0 {
      RunIsFifo(run, i - 1);
      NextKeepsInv(run[i - 1], run[i]);
    } else {
      assert run[0].delivered + [] + Unread(run[0].ring) == run[0].produced;
    }
  }

  /** In particular what the host has received is always a prefix of what the target produced. */
  lemma DeliveredIsPrefix(run: seq<System>, i: nat)
    requires IsRun(run) && i < |run|
    ensures run[i].delivered <= run[i].produced
  {
    RunIsFifo(run, i);
    var s := run[i];
    assert s.delivered + (InFlight(s) + Unread(s.ring)) == s.produced;
  }

  /** The head of `swindle_read_rtt_channel`, for any descriptor. */
  method Decide(buffer: u32, size: u32, wr: u32, rd: u32, available: u32) returns (plan: Option<Plan>)
    ensures plan == MakePlan(buffer, size, wr, rd, available)
  {
    if wr == rd || size == 0 || buffer == 0 {
      return None;
    }
    var chunk: nat := if rd < wr then wr - rd else (size - rd) % TWO32;
    if chunk > TRANSFER_BUFFER_SIZE {
      chunk := TRANSFER_BUFFER_SIZE;
    }
    if chunk > available {
      chunk := available;
    }
    if chunk == 0 {
      return None;
    }
    var address: u32 := (buffer + rd) % TWO32;
    var extra := address % 4;
    var extraChunk := AlignDown(chunk + 3 + extra);
    var extraAddress := AlignDown(address);
    var newRead: u32 := (rd + chunk) % TWO32;
    if newRead == size {
      newRead := 0;
    }
    return Some(Plan(chunk, extra, extraChunk / 4, extraAddress, newRead));
  }

  // ---- One call with the target halted -----------------------------------

  /** Outcomes of the accesses of one call: halting the target, reading the ring, writing the offset back. */
  datatype Io = Io(halt: bool, read: bool, write: bool)

  /** The up-channel as the halted target presents it, the transfer buffer and the host side. */
  class UpChannel {
    const mem: array<byte>
    const base: nat
    const size: nat
    const xfer: array<byte>
    var wr: nat
    var rd: nat
    var sent: seq<byte>

    ghost function Abs(): Ring
      reads this, mem
    {
      Ring(mem[..], base, size, wr, rd)
    }

    ghost predicate Valid()
      reads this, mem
    {
      WellFormed(Abs()) && mem != xfer && xfer.Length == TRANSFER_BUFFER_SIZE + 4
    }

    constructor (mem: array<byte>, base: nat, size: nat, wr: nat, rd: nat)
      requires WellFormed(Ring(mem[..], base, size, wr, rd))
      ensures Valid() && fresh(xfer) && this.mem == mem && sent == []
      ensures Abs() == Ring(mem[..], base, size, wr, rd)
    {
      this.mem, this.base, this.size, this.wr, this.rd := mem, base, size, wr, rd;
      xfer := new byte[TRANSFER_BUFFER_SIZE + 4](_ => 0);
      sent := [];
    }

    /** `rtt_mem_read_ptr`: `len` bytes from `address` into the transfer buffer, or nothing. */
    method MemRead(address: nat, len: nat, succeeds: bool)
      requires Valid() && address + len <= mem.Length && len <= xfer.Length
      modifies xfer
      ensures if succeeds then xfer[..len] == mem[address..address + len] else xfer[..] == old(xfer[..])
    {
      if succeeds {
        for i := 0 to len
          invariant xfer[..i] == mem[address..address + i]
        {
          xfer[i] := mem[address + i];
        }
      }
    }

    /**
     * The accesses of one call: read the aligned words, write the offset back, pass
     * the payload on. Neither result is looked at.
     */
    method Transfer(p: Plan, io: Io)
      requires Valid() && PlanFits(Abs(), p)
      modifies this`rd, this`sent, xfer
      ensures Valid() && rd == if io.write then p.newRead else old(rd)
      ensures old(Unread(Abs())) == old(Unread(Abs()))[..p.chunk] + old(Unread(Abs()))[p.chunk..]
      ensures Unread(Abs()) == if io.write then old(Unread(Abs()))[p.chunk..] else old(Unread(Abs()))
      ensures sent == old(sent) + if io.read then old(Unread(Abs()))[..p.chunk]
                                  else old(xfer[..])[p.extra..p.extra + p.chunk]
    {
      hide Cells, Unread;
      ghost var r := Abs();
      UnreadShrinks(r, p.chunk);
      MemRead(p.extraAddress, 4 * p.words, io.read);
      if io.read {
        PayloadIsOldest(r, p, xfer[..4 * p.words]);
        PayloadOfLonger(p, xfer[..], 4 * p.words);
        assert xfer[..][..4 * p.words] == xfer[..4 * p.words];
      }
      if io.write {
        rd := p.newRead;
      }
      sent := sent + xfer[p.extra..p.extra + p.chunk];
    }

    /** `swindle_read_rtt_channel` on a fresh descriptor; `plan` is the transfer it makes. */
    method ReadChannel(available: u32, io: Io) returns (moved: bool, ghost plan: Option<Plan>)
      requires Valid()
      modifies this`rd, this`sent, xfer
      ensures Valid()
      ensures moved <==> old(wr != rd) && available != 0 && io.halt
      ensures !moved ==> rd == old(rd) && sent == old(sent)
      ensures moved ==>
        && plan == MakePlan(base, size, wr, old(rd), available) && plan.Some?
        && Moved(old(Unread(Abs())), old(sent), old(xfer[..]), plan.value, available, io)
      ensures moved ==> plan.value.chunk == Longest(available, if old(rd) < wr then wr - old(rd) else size - old(rd))
      ensures old(rd < wr) && old(wr - rd) <= 512 && old(wr - rd) <= available && io == Io(true, true, true) ==>
        Unread(Abs()) == [] && sent == old(sent) + old(Unread(Abs()))
    {
      hide Cells, Unread, MakePlan, Moved;
      PlanIsMaximal(Abs(), available);
      PlanIsGood(Abs(), available);
      var decided := Decide(base, size, wr, rd, available);
      plan := decided;
      moved := decided.Some? && io.halt;
      if moved {
        ghost var unread, sent0, xfer0 := Unread(Abs()), sent, xfer[..];
        Transfer(decided.value, io);
        Drained(unread, decided.value.chunk);
        MovedIs(unread, sent0, xfer0, decided.value, available, io);
      }
    }

    /** What a call has done to the ring and the host, given what was unread, sent and left in the transfer buffer. */
    ghost predicate Moved(unread: seq<byte>, sent0: seq<byte>, xfer0: seq<byte>, p: Plan, available: u32, io: Io)
      requires Valid()
      reads this, mem
    {
      var n := p.chunk;
      && 0 < n <= available && n <= |unread| && p.extra + n <= |xfer0|
      && sent == sent0 + (if io.read then unread[..n] else xfer0[p.extra..p.extra + n])
      && Unread(Abs()) == (if io.write then unread[n..] else unread)
    }

    lemma MovedIs(unread: seq<byte>, sent0: seq<byte>, xfer0: seq<byte>, p: Plan, available: u32, io: Io)
      requires Valid() && 0 < p.chunk <= available && p.chunk <= |unread| && p.extra + p.chunk <= |xfer0|
      requires sent == sent0 + if io.read then unread[..p.chunk] else xfer0[p.extra..p.extra + p.chunk]
      requires Unread(Abs()) == if io.write then unread[p.chunk..] else unread
      ensures Moved(unread, sent0, xfer0, p, available, io)
    {
    }

    /**
     * The byte balance of a call: nothing is lost, duplicated or invented if and only
     * if the offset was written back and the bytes passed on are the oldest unread
     * ones, which a failed read can only achieve by chance.
     */
    lemma BalanceIff(unread: seq<byte>, sent0: seq<byte>, xfer0: seq<byte>, p: Plan, available: u32, io: Io)
      requires Valid() && Moved(unread, sent0, xfer0, p, available, io)
      ensures sent + Unread(Abs()) == sent0 + unread <==>
              io.write && (io.read || xfer0[p.extra..p.extra + p.chunk] == unread[..p.chunk])
    {
      hide Unread;
      var n := p.chunk;
      var x := if io.read then unread[..n] else xfer0[p.extra..p.extra + n];
      var rest := Unread(Abs());
      assert |x| == n;
      assert unread == unread[..n] + unread[n..];
      Balance(sent0, x, rest, unread);
    }
  }

  lemma Drained(unread: seq<byte>, n: nat)
    requires n <= |unread|
    ensures n == |unread| ==> unread[..n] == unread && unread[n..] == []
  {
  }

  /** Sending `x` and leaving `rest` accounts for `unread` exactly when the two make it up. */
  lemma Balance(sent: seq<byte>, x: seq<byte>, rest: seq<byte>, unread: seq<byte>)
    ensures (sent + x) + rest == sent + unread <==> x + rest == unread
    ensures |x| <= |unread| ==> (x + rest == unread <==> x == unread[..|x|] && rest == unread[|x|..])
  {
    assert (sent + x) + rest == sent + (x + rest);
    if sent + (x + rest) == sent + unread {
      assert x + rest == (sent + (x + rest))[|sent|..] && unread == (sent + unread)[|sent|..];
    }
    if |x| <= |unread| && x + rest == unread {
      assert x == (x + rest)[..|x|] && rest == (x + rest)[|x|..];
    }
    if |x| <= |unread| && x == unread[..|x|] && rest == unread[|x|..] {
      assert unread == unread[..|x|] + unread[|x|..];
    }
  }
}

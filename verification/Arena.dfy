/**
 * The session arena as functions on values, after `session_arena.rs`: two bump
 * regions with a one-level rewind in front of the heap, and the proof that
 * together they behave like an allocator of independent zeroed blocks.
 */
module Arena {
  import opened Bytes

  const ALIGN: nat := 8
  const POOL_SIZE: nat := 1728
  const TRANSPORT_SIZE: nat := 896
  const NO_BLOCK: nat := TWO32 - 1

  datatype Region = Region(mem: seq<byte>, used: nat, peak: nat, last: nat)

  function AlignUp(value: nat): (r: nat)
    ensures value <= r < value + ALIGN && r % ALIGN == 0
    ensures value % ALIGN == 0 ==> r == value
  {
    (value + ALIGN - 1) / ALIGN * ALIGN
  }

  function Set(c: seq<byte>, i: nat, v: byte): (c': seq<byte>)
    requires i < |c|
    ensures |c'| == |c|
  {
    c[i := v]
  }

  /** The end of a block of `size` bytes can be computed without leaving 32 bits. */
  predicate Representable(r: Region, size: nat) {
    AlignUp(r.used) + size < TWO32
  }

  /**
   * On 32 bits the capacity test lets no block out of the region if and only if
   * the end of the block is representable.
   */
  lemma StaysInsideIff(r: Region, size: u32)
    requires r.used <= |r.mem| < TWO32 && |r.mem| % ALIGN == 0
    ensures
      var start := AlignUp(r.used);
      ((start + size) % TWO32 <= |r.mem| ==> start + size <= |r.mem|) <==> Representable(r, size)
  {
    var start, cells := AlignUp(r.used), |r.mem| / ALIGN;
    assert |r.mem| == cells * ALIGN;
    assert start <= |r.mem|;
    if start + size >= TWO32 {
      assert (start + size) % TWO32 == start + size - TWO32;
    }
  }

  /** `alloc_from`: nothing when the region is full, which is fatal to the probe. */
  function AllocFrom(r: Region, size: nat): (a: Option<(Region, nat)>)
    ensures a.None? <==> AlignUp(r.used) + size > |r.mem|
  {
    var start := AlignUp(r.used);
    var end := start + size;
    if end > |r.mem| then None else
      Some((Region(r.mem[..start] + Zeros(size) + r.mem[end..], end, if end > r.peak then end else r.peak, start),
            start))
  }

  /** `free_from` on a pointer of this region. */
  function FreeAt(r: Region, offset: nat): Region {
    if r.last == offset then r.(used := offset, last := NO_BLOCK) else r
  }

  function Wiped(r: Region): Region {
    Region(Zeros(|r.mem|), 0, 0, NO_BLOCK)
  }

  // ---- One region ---------------------------------------------------------

  predicate Contains(base: nat, r: Region, p: nat) {
    base <= p < base + |r.mem|
  }

  /** Block `p` of the region holds `c`, aligned and below the bump pointer. */
  ghost predicate Holds(base: nat, r: Region, p: nat, c: seq<byte>)
    requires Contains(base, r, p)
  {
    && c != [] && p % ALIGN == 0
    && p - base + |c| <= r.used <= |r.mem|
    && r.mem[p - base..p - base + |c|] == c
  }

  /** The blocks that lie in the region are intact and ordered, and only the newest can be the rewindable one. */
  ghost predicate RegionInv(base: nat, r: Region, blocks: map<nat, seq<byte>>) {
    && base % ALIGN == 0 && |r.mem| < NO_BLOCK
    && r.used <= r.peak <= |r.mem|
    && (r.last != NO_BLOCK ==> r.last % ALIGN == 0 && r.last <= r.used)
    && (forall p :: p in blocks && Contains(base, r, p) ==> Holds(base, r, p, blocks[p]))
    && (forall p, q :: p in blocks && q in blocks && Contains(base, r, p) && Contains(base, r, q) && p < q ==>
          p + |blocks[p]| <= q)
    && (r.last != NO_BLOCK ==>
          forall p :: p in blocks && Contains(base, r, p) ==> p == base + r.last || p + |blocks[p]| <= base + r.last)
  }

  /** The blocks two maps have in this region are the same. */
  ghost predicate SameIn(base: nat, r: Region, b: map<nat, seq<byte>>, c: map<nat, seq<byte>>) {
    forall p :: Contains(base, r, p) ==> (p in b <==> p in c) && (p in b && p in c ==> b[p] == c[p])
  }

  lemma OtherBlocks(base: nat, r: Region, b: map<nat, seq<byte>>, c: map<nat, seq<byte>>)
    requires RegionInv(base, r, b) && SameIn(base, r, b, c)
    ensures RegionInv(base, r, c)
  {
  }

  lemma AllocHolds(base: nat, r: Region, p: nat, c: seq<byte>, size: nat)
    requires AllocFrom(r, size).Some? && r.used <= |r.mem| && base % ALIGN == 0
    ensures
      var (r', start) := AllocFrom(r, size).value;
      && |r'.mem| == |r.mem|
      && (Contains(base, r, p) && Holds(base, r, p, c) ==> p - base + |c| <= start && Holds(base, r', p, c))
      && (size > 0 ==> Contains(base, r', base + start) && (base + start) % ALIGN == 0
                       && Holds(base, r', base + start, Zeros(size)))
  {
    var (r', start) := AllocFrom(r, size).value;
    assert r'.mem[start..start + size] == Zeros(size);
    if Contains(base, r, p) && Holds(base, r, p, c) {
      SliceBefore(r.mem, start, Zeros(size) + r.mem[start + size..], p - base, p - base + |c|);
      assert r'.mem == r.mem[..start] + (Zeros(size) + r.mem[start + size..]);
    }
  }

  lemma SliceBefore(mem: seq<byte>, start: nat, rest: seq<byte>, i: nat, j: nat)
    requires i <= j <= start <= |mem|
    ensures (mem[..start] + rest)[i..j] == mem[i..j]
  {
  }

  lemma AllocSound(base: nat, r: Region, blocks: map<nat, seq<byte>>, size: nat)
    requires RegionInv(base, r, blocks) && size > 0
    ensures
      match AllocFrom(r, size)
      case None => true
      case Some((r', start)) =>
        && base + start !in blocks && Contains(base, r', base + start)
        && (base + start) % ALIGN == 0 && |r'.mem| == |r.mem|
        && RegionInv(base, r', blocks[base + start := Zeros(size)])
  {
    match AllocFrom(r, size)
    case None =>
    case Some((r', start)) =>
      var blocks' := blocks[base + start := Zeros(size)];
      assert start % ALIGN == 0 && r'.last == start && r'.used == start + size <= r'.peak <= |r'.mem|;
      AllocHolds(base, r, base, [], size);
      forall p | p in blocks && Contains(base, r, p)
        ensures p + |blocks[p]| <= base + start && Holds(base, r', p, blocks[p])
      {
        AllocHolds(base, r, p, blocks[p], size);
      }
      hide AllocFrom, Holds, Zeros;
  }

  lemma FreeSound(base: nat, r: Region, blocks: map<nat, seq<byte>>, p: nat)
    requires RegionInv(base, r, blocks) && p in blocks && Contains(base, r, p)
    ensures RegionInv(base, FreeAt(r, p - base), blocks - {p})
  {
    var r', rest := FreeAt(r, p - base), blocks - {p};
    forall q | q in rest && Contains(base, r', q)
      ensures Holds(base, r', q, rest[q])
    {
      assert Holds(base, r, q, blocks[q]);
    }
  }

  /** A store through one block changes that byte of it and no other block. */
  lemma StoreHolds(base: nat, r: Region, q: nat, c: seq<byte>, at: nat, v: byte)
    requires Contains(base, r, q) && Holds(base, r, q, c) && at < |r.mem|
    ensures
      var r' := r.(mem := r.mem[at := v]);
      Contains(base, r', q) &&
      Holds(base, r', q, if q - base <= at < q - base + |c| then Set(c, at - (q - base), v) else c)
  {
    SliceOfUpdate(r.mem, at, v, q - base, q - base + |c|);
    hide Set;
  }

  lemma StoreSound(base: nat, r: Region, blocks: map<nat, seq<byte>>, p: nat, i: nat, v: byte)
    requires RegionInv(base, r, blocks) && p in blocks && Contains(base, r, p) && i < |blocks[p]|
    ensures Holds(base, r, p, blocks[p]) && p - base + i < |r.mem|
    ensures RegionInv(base, r.(mem := r.mem[p - base + i := v]), blocks[p := Set(blocks[p], i, v)])
  {
    HoldsInside(base, r, p, blocks[p]);
    hide Zeros, Holds, Set;
    var r', c := r.(mem := r.mem[p - base + i := v]), Set(blocks[p], i, v);
    forall q | q in blocks && Contains(base, r, q)
      ensures Holds(base, r', q, if q == p then c else blocks[q])
    {
      StoreHolds(base, r, q, blocks[q], p - base + i, v);
    }
    SameShape(base, r, r', blocks, p, c);
  }

  /** Contents of the same length in the same region keep the order of the blocks. */
  lemma SameShape(base: nat, r: Region, r': Region, blocks: map<nat, seq<byte>>, p: nat, c: seq<byte>)
    requires RegionInv(base, r, blocks) && p in blocks && |c| == |blocks[p]|
    requires |r'.mem| == |r.mem| && r' == r.(mem := r'.mem)
    requires forall q :: q in blocks && Contains(base, r, q) ==> Holds(base, r', q, if q == p then c else blocks[q])
    ensures RegionInv(base, r', blocks[p := c])
  {
    hide Zeros, Holds;
  }

  lemma HoldsInside(base: nat, r: Region, p: nat, c: seq<byte>)
    requires Contains(base, r, p) && Holds(base, r, p, c)
    ensures p - base + |c| <= |r.mem|
  {
  }

  /** A slice of memory in which one byte was stored. */
  lemma SliceOfUpdate(mem: seq<byte>, at: nat, v: byte, i: nat, j: nat)
    requires at < |mem| && i <= j <= |mem|
    ensures i <= at < j ==> mem[at := v][i..j] == Set(mem[i..j], at - i, v)
    ensures !(i <= at < j) ==> mem[at := v][i..j] == mem[i..j]
  {
  }

  // ---- Transient blocks ---------------------------------------------------

  /** `n` rounds of one allocation followed by its release. */
  function Pairs(r: Region, size: nat, n: nat): (r': Region)
    requires AlignUp(r.used) + size <= |r.mem|
    ensures |r'.mem| == |r.mem| && AlignUp(r'.used) == AlignUp(r.used)
    decreases n
  {
    if n == 0 then r else
      var (r1, start) := AllocFrom(r, size).value;
      Pairs(FreeAt(r1, start), size, n - 1)
  }

  /** Objects allocated and freed one at a time cost at most the alignment padding, once. */
  lemma {:induction false} PairsCostNothing(r: Region, size: nat, n: nat)
    requires AlignUp(r.used) + size <= |r.mem| && n > 0
    ensures Pairs(r, size, n).used == AlignUp(r.used) && Pairs(r, size, n).last == NO_BLOCK
    decreases n
  {
    var (r1, start) := AllocFrom(r, size).value;
    if n > 1 {
      PairsCostNothing(FreeAt(r1, start), size, n - 1);
    }
  }

  /** A release gives memory back exactly when it is the block handed out last and not yet rewound. */
  lemma ReclaimsIff(base: nat, r: Region, blocks: map<nat, seq<byte>>, p: nat)
    requires RegionInv(base, r, blocks) && p in blocks && Contains(base, r, p)
    ensures FreeAt(r, p - base).used < r.used <==> r.last == p - base
  {
    assert Holds(base, r, p, blocks[p]);
  }

  /** One level only: releasing two blocks newest first still reclaims just the newer one. */
  lemma OneLevelRewind(r: Region, size1: nat, size2: nat)
    requires |r.mem| < NO_BLOCK && size1 > 0
    requires AlignUp(AlignUp(r.used) + size1) + size2 <= |r.mem|
    ensures
      var (r1, o1) := AllocFrom(r, size1).value;
      var (r2, o2) := AllocFrom(r1, size2).value;
      var freed := FreeAt(FreeAt(r2, o2), o1);
      freed.used == o2 > o1 && freed.last == NO_BLOCK
  {
  }

  // ---- The whole allocator ------------------------------------------------

  /** The two regions at their addresses, the arming flag, the statistics, and the heap behind them. */
  datatype Session = Session(
    poolBase: nat, pool: Region, transportBase: nat, transport: Region,
    armed: bool, frees: nat, rewinds: nat, heap: map<nat, seq<byte>>)

  predicate InArena(s: Session, p: nat) {
    Contains(s.poolBase, s.pool, p) || Contains(s.transportBase, s.transport, p)
  }

  /** The regions do not overlap and do not contain the null address. */
  predicate Layout(s: Session) {
    && s.poolBase > 0 && s.transportBase > 0
    && (s.poolBase + |s.pool.mem| <= s.transportBase || s.transportBase + |s.transport.mem| <= s.poolBase)
  }

  datatype Request =
    | Malloc(size: nat, h: nat)
    | TransportAlloc(size: nat, h: nat)
    | Release(p: nat)
    | Open
    | Store(p: nat, i: nat, v: byte)

  /** The concrete answer to a request; nothing stands for the panic on exhaustion. `h` is the heap's answer. */
  function Serve(s: Session, req: Request): Option<(Session, nat)> {
    match req
    case Malloc(size, h) =>
      if size == 0 then Some((s, 0))
      else if !s.armed then FromHeap(s, size, h)
      else
        (match AllocFrom(s.pool, size)
         case None => None
         case Some((r, start)) => Some((s.(pool := r), s.poolBase + start)))
    case TransportAlloc(size, h) =>
      if size == 0 then Some((s, 0))
      else if !s.armed then FromHeap(s, size, h)
      else
        (match AllocFrom(s.transport, size)
         case None => None
         case Some((r, start)) => Some((s.(transport := r), s.transportBase + start)))
    case Release(p) => Some((Free(s, p), 0))
    case Open =>
      Some((s.(pool := Wiped(s.pool), transport := Wiped(s.transport), armed := true, frees := 0, rewinds := 0), 0))
    case Store(p, i, v) => Some((Write(s, p, i, v), 0))
  }

  function FromHeap(s: Session, size: nat, h: nat): Option<(Session, nat)> {
    if h == 0 then None else Some((s.(heap := s.heap[h := Zeros(size)]), h))
  }

  /** `swindle_session_free`. */
  function Free(s: Session, p: nat): Session {
    if p == 0 then s
    else if Contains(s.poolBase, s.pool, p) then
      Counted(s.(pool := FreeAt(s.pool, p - s.poolBase)), s.pool.last == p - s.poolBase)
    else if Contains(s.transportBase, s.transport, p) then
      Counted(s.(transport := FreeAt(s.transport, p - s.transportBase)), s.transport.last == p - s.transportBase)
    else s.(heap := s.heap - {p})
  }

  function Counted(s: Session, rewound: bool): Session {
    s.(frees := s.frees + 1, rewinds := if rewound then s.rewinds + 1 else s.rewinds)
  }

  /** A client stores one byte through pointer `p`. */
  function Write(s: Session, p: nat, i: nat, v: byte): Session {
    if Contains(s.poolBase, s.pool, p) && p - s.poolBase + i < |s.pool.mem| then
      s.(pool := s.pool.(mem := s.pool.mem[p - s.poolBase + i := v]))
    else if Contains(s.transportBase, s.transport, p) && p - s.transportBase + i < |s.transport.mem| then
      s.(transport := s.transport.(mem := s.transport.mem[p - s.transportBase + i := v]))
    else if p in s.heap && i < |s.heap[p]| then s.(heap := s.heap[p := Set(s.heap[p], i, v)])
    else s
  }

  /** The reference allocator: a map of independent blocks. `p` is the address that was returned. */
  function Reference(s: Session, blocks: map<nat, seq<byte>>, req: Request, p: nat): map<nat, seq<byte>> {
    match req
    case Malloc(size, _) => if size == 0 then blocks else blocks[p := Zeros(size)]
    case TransportAlloc(size, _) => if size == 0 then blocks else blocks[p := Zeros(size)]
    case Release(q) => blocks - {q}
    case Open => map q | q in blocks && !InArena(s, q) :: blocks[q]
    case Store(q, i, v) => if q in blocks && i < |blocks[q]| then blocks[q := Set(blocks[q], i, v)] else blocks
  }

  /** What callers and the heap must respect. */
  ghost predicate Legal(s: Session, blocks: map<nat, seq<byte>>, req: Request) {
    match req
    case Malloc(size, h) => Representable(s.pool, size) && FreshHeap(s, h)
    case TransportAlloc(size, h) => Representable(s.transport, size) && FreshHeap(s, h)
    case Release(p) => p == 0 || p in blocks
    case Open => true
    case Store(p, i, _) => p in blocks && i < |blocks[p]|
  }

  /** The heap answers null or an address outside the regions that it has not handed out already. */
  ghost predicate FreshHeap(s: Session, h: nat) {
    h == 0 || (!InArena(s, h) && h !in s.heap)
  }

  ghost predicate Inv(s: Session, blocks: map<nat, seq<byte>>) {
    && Layout(s) && 0 !in blocks
    && RegionInv(s.poolBase, s.pool, blocks)
    && RegionInv(s.transportBase, s.transport, blocks)
    && (forall p :: p in blocks && !InArena(s, p) ==> p in s.heap && s.heap[p] == blocks[p])
    && (forall p :: p in s.heap ==> p in blocks && !InArena(s, p))
  }

  lemma ArenaAllocKeepsInv(s: Session, blocks: map<nat, seq<byte>>, size: nat, fromPool: bool)
    requires Inv(s, blocks) && size > 0
    ensures
      var (base, r) := if fromPool then (s.poolBase, s.pool) else (s.transportBase, s.transport);
      match AllocFrom(r, size)
      case None => true
      case Some((r', start)) =>
        && base + start != 0 && base + start !in blocks && (base + start) % ALIGN == 0
        && Inv(if fromPool then s.(pool := r') else s.(transport := r'), blocks[base + start := Zeros(size)])
  {
    hide RegionInv, AllocFrom;
    var (base, r) := if fromPool then (s.poolBase, s.pool) else (s.transportBase, s.transport);
    var (base2, r2) := if fromPool then (s.transportBase, s.transport) else (s.poolBase, s.pool);
    AllocSound(base, r, blocks, size);
    match AllocFrom(r, size) {
      case None =>
      case Some((r', start)) =>
        OtherBlocks(base2, r2, blocks, blocks[base + start := Zeros(size)]);
    }
  }

  lemma HeapAllocKeepsInv(s: Session, blocks: map<nat, seq<byte>>, size: nat, h: nat)
    requires Inv(s, blocks) && FreshHeap(s, h) && h != 0
    ensures h !in blocks && Inv(s.(heap := s.heap[h := Zeros(size)]), blocks[h := Zeros(size)])
  {
    hide RegionInv;
    var blocks' := blocks[h := Zeros(size)];
    OtherBlocks(s.poolBase, s.pool, blocks, blocks');
    OtherBlocks(s.transportBase, s.transport, blocks, blocks');
  }

  /** A served allocation returns a fresh, aligned, all-zero block, from whichever side serves it. */
  lemma AllocKeepsInv(s: Session, blocks: map<nat, seq<byte>>, req: Request)
    requires Inv(s, blocks) && Legal(s, blocks, req) && (req.Malloc? || req.TransportAlloc?) && req.size > 0
    ensures
      match Serve(s, req)
      case None => true
      case Some((t, p)) =>
        && p != 0 && p !in blocks && (s.armed ==> p % ALIGN == 0)
        && Inv(t, Reference(s, blocks, req, p))
  {
    hide Inv, AllocFrom;
    ArenaAllocKeepsInv(s, blocks, req.size, req.Malloc?);
    if req.h != 0 {
      HeapAllocKeepsInv(s, blocks, req.size, req.h);
    }
  }

  lemma FreeKeepsInv(s: Session, blocks: map<nat, seq<byte>>, p: nat)
    requires Inv(s, blocks) && p in blocks
    ensures Inv(Free(s, p), blocks - {p})
  {
    hide RegionInv, FreeAt;
    var rest := blocks - {p};
    FreeAtKeepsSize(s.pool, p);
    if Contains(s.poolBase, s.pool, p) {
      FreeAtKeepsSize(s.pool, p - s.poolBase);
      FreeSound(s.poolBase, s.pool, blocks, p);
      OtherBlocks(s.transportBase, s.transport, blocks, rest);
    } else if Contains(s.transportBase, s.transport, p) {
      FreeAtKeepsSize(s.transport, p - s.transportBase);
      FreeSound(s.transportBase, s.transport, blocks, p);
      OtherBlocks(s.poolBase, s.pool, blocks, rest);
    } else {
      OtherBlocks(s.poolBase, s.pool, blocks, rest);
      OtherBlocks(s.transportBase, s.transport, blocks, rest);
    }
  }

  lemma FreeAtKeepsSize(r: Region, offset: nat)
    ensures |FreeAt(r, offset).mem| == |r.mem|
  {
  }

  lemma StoreKeepsInv(s: Session, blocks: map<nat, seq<byte>>, p: nat, i: nat, v: byte)
    requires Inv(s, blocks) && p in blocks && i < |blocks[p]|
    ensures Inv(Write(s, p, i, v), blocks[p := Set(blocks[p], i, v)])
  {
    hide RegionInv, Set;
    var blocks' := blocks[p := Set(blocks[p], i, v)];
    if Contains(s.poolBase, s.pool, p) {
      StoreSound(s.poolBase, s.pool, blocks, p, i, v);
      OtherBlocks(s.transportBase, s.transport, blocks, blocks');
    } else if Contains(s.transportBase, s.transport, p) {
      StoreSound(s.transportBase, s.transport, blocks, p, i, v);
      OtherBlocks(s.poolBase, s.pool, blocks, blocks');
    } else {
      OtherBlocks(s.poolBase, s.pool, blocks, blocks');
      OtherBlocks(s.transportBase, s.transport, blocks, blocks');
    }
  }

  lemma OpenKeepsInv(s: Session, blocks: map<nat, seq<byte>>)
    requires Inv(s, blocks)
    ensures Inv(Serve(s, Open).value.0, Reference(s, blocks, Open, 0))
  {
    var t, kept := Serve(s, Open).value.0, Reference(s, blocks, Open, 0);
    assert forall p :: p in kept ==> !InArena(t, p);
  }

  /** What an allocation is owed: null for nothing, otherwise a block that is not live, aligned in the arena. */
  predicate FreshAnswer(s: Session, blocks: map<nat, seq<byte>>, req: Request, p: nat) {
    req.Malloc? || req.TransportAlloc? ==>
      if req.size == 0 then p == 0 else p != 0 && p !in blocks && (s.armed ==> p % ALIGN == 0)
  }

  /** Every request keeps the refinement: the arena answers as the reference allocator does. */
  lemma ServeRefines(s: Session, blocks: map<nat, seq<byte>>, req: Request)
    requires Inv(s, blocks) && Legal(s, blocks, req)
    ensures
      match Serve(s, req)
      case None => true
      case Some((t, p)) => FreshAnswer(s, blocks, req, p) && Inv(t, Reference(s, blocks, req, p))
  {
    match req
    case Malloc(size, _) => if size > 0 { AllocKeepsInv(s, blocks, req); }
    case TransportAlloc(size, _) => if size > 0 { AllocKeepsInv(s, blocks, req); }
    case Release(p) =>
      if p == 0 {
        assert blocks - {p} == blocks;
      } else {
        FreeKeepsInv(s, blocks, p);
      }
    case Open => OpenKeepsInv(s, blocks);
    case Store(p, i, v) => StoreKeepsInv(s, blocks, p, i, v);
  }

  /** All requests of a run, until one exhausts a region. */
  function Run(s: Session, blocks: map<nat, seq<byte>>, reqs: seq<Request>): (Session, map<nat, seq<byte>>)
    decreases |reqs|
  {
    if reqs == [] then (s, blocks) else
      match Serve(s, reqs[0])
      case None => (s, blocks)
      case Some((t, p)) => Run(t, Reference(s, blocks, reqs[0], p), reqs[1..])
  }

  ghost predicate LegalRun(s: Session, blocks: map<nat, seq<byte>>, reqs: seq<Request>)
    decreases |reqs|
  {
    reqs == [] ||
    (&& Legal(s, blocks, reqs[0])
     && match Serve(s, reqs[0])
        case None => true
        case Some((t, p)) => LegalRun(t, Reference(s, blocks, reqs[0], p), reqs[1..]))
  }

  /** Every allocation of the run is answered with a fresh block. */
  ghost predicate FreshRun(s: Session, blocks: map<nat, seq<byte>>, reqs: seq<Request>)
    decreases |reqs|
  {
    reqs == [] ||
    match Serve(s, reqs[0])
    case None => true
    case Some((t, p)) =>
      FreshAnswer(s, blocks, reqs[0], p) && FreshRun(t, Reference(s, blocks, reqs[0], p), reqs[1..])
  }

  lemma {:induction false} RunRefines(s: Session, blocks: map<nat, seq<byte>>, reqs: seq<Request>)
    requires Inv(s, blocks) && LegalRun(s, blocks, reqs)
    ensures FreshRun(s, blocks, reqs)
    ensures Inv(Run(s, blocks, reqs).0, Run(s, blocks, reqs).1)
    decreases |reqs|
  {
    hide Inv, Legal, Reference, FreshAnswer;
    if reqs != [] {
      ServeRefines(s, blocks, reqs[0]);
      match Serve(s, reqs[0]) {
        case None =>
        case Some((t, p)) => RunRefines(t, Reference(s, blocks, reqs[0], p), reqs[1..]);
      }
    }
  }

  lemma DisjointUnderInv(s: Session, blocks: map<nat, seq<byte>>, p: nat, q: nat)
    requires Inv(s, blocks) && p in blocks && q in blocks && p < q && InArena(s, p) && InArena(s, q)
    ensures p + |blocks[p]| <= q && p % ALIGN == 0 && q % ALIGN == 0
  {
    if Contains(s.poolBase, s.pool, p) {
      assert Holds(s.poolBase, s.pool, p, blocks[p]);
    } else {
      assert Holds(s.transportBase, s.transport, p, blocks[p]);
    }
    if Contains(s.poolBase, s.pool, q) {
      assert Holds(s.poolBase, s.pool, q, blocks[q]);
    } else {
      assert Holds(s.transportBase, s.transport, q, blocks[q]);
    }
  }

  /** The state at boot. */
  predicate Boot(s: Session) {
    && Layout(s) && s.poolBase % ALIGN == 0 && s.transportBase % ALIGN == 0
    && |s.pool.mem| == POOL_SIZE && |s.transport.mem| == TRANSPORT_SIZE
    && s.pool == Wiped(s.pool) && s.transport == Wiped(s.transport) && s.heap == map[]
  }

  lemma BootInv(s: Session)
    requires Boot(s)
    ensures Inv(s, map[])
  {
  }

  /** After any legal run from boot, two live blocks in the arena never share a byte, and the peaks dominate. */
  lemma LiveBlocksDisjoint(boot: Session, reqs: seq<Request>, p: nat, q: nat)
    requires Boot(boot) && LegalRun(boot, map[], reqs)
    ensures
      var (s, blocks) := Run(boot, map[], reqs);
      && s.pool.used <= s.pool.peak <= |s.pool.mem| && s.transport.used <= s.transport.peak <= |s.transport.mem|
      && (p in blocks && q in blocks && p < q && InArena(s, p) && InArena(s, q) ==>
            p + |blocks[p]| <= q && p % ALIGN == 0 && q % ALIGN == 0)
  {
    hide FreshRun, LegalRun, Run;
    BootInv(boot);
    RunRefines(boot, map[], reqs);
    var (s, blocks) := Run(boot, map[], reqs);
    if p in blocks && q in blocks && p < q && InArena(s, p) && InArena(s, q) {
      DisjointUnderInv(s, blocks, p, q);
    }
  }

  /** A release reaches the heap exactly when the heap served the block, armed or not since. */
  lemma FreeGoesHome(s: Session, blocks: map<nat, seq<byte>>, p: nat)
    requires Inv(s, blocks) && p in blocks
    ensures Free(s, p).heap != s.heap <==> p in s.heap
    ensures p in s.heap ==> Free(s, p) == s.(heap := s.heap - {p})
    ensures p !in s.heap ==> Free(s, p).frees == s.frees + 1
  {
  }

  // ---- Arming --------------------------------------------------------------

  /** A session that has just been opened: armed, both regions empty and all zero, the counters at zero. */
  predicate JustOpened(s: Session) {
    && s.armed && s.frees == 0 && s.rewinds == 0
    && s.pool.used == 0 && s.pool.peak == 0 && s.pool.last == NO_BLOCK
    && s.transport.used == 0 && s.transport.peak == 0 && s.transport.last == NO_BLOCK
    && (forall i :: 0 <= i < |s.pool.mem| ==> s.pool.mem[i] == 0)
    && (forall i :: 0 <= i < |s.transport.mem| ==> s.transport.mem[i] == 0)
  }

  lemma OpenArms(s: Session)
    ensures Serve(s, Open).Some?
    ensures
      var t := Serve(s, Open).value.0;
      && JustOpened(t) && t.heap == s.heap
      && |t.pool.mem| == |s.pool.mem| && |t.transport.mem| == |s.transport.mem|
      && t.poolBase == s.poolBase && t.transportBase == s.transportBase
  {
  }

  /** The answer lies where an armed session puts it, directly behind what is used, and the heap has not grown. */
  ghost predicate ServedInside(s: Session, req: Request, t: Session, p: nat) {
    && t.armed && t.heap.Keys <= s.heap.Keys
    && (req.Malloc? && req.size > 0 ==>
          && s.poolBase <= p && p + req.size <= s.poolBase + |s.pool.mem| && t.pool.last == p - s.poolBase
          && s.pool.used <= p - s.poolBase < s.pool.used + 8 && t.pool.used == p - s.poolBase + req.size)
    && (req.TransportAlloc? && req.size > 0 ==>
          && s.transportBase <= p && p + req.size <= s.transportBase + |s.transport.mem|
          && t.transport.last == p - s.transportBase
          && s.transport.used <= p - s.transportBase < s.transport.used + 8
          && t.transport.used == p - s.transportBase + req.size)
  }

  lemma ArmedServesInside(s: Session, req: Request)
    requires s.armed
    ensures
      match Serve(s, req)
      case None => true
      case Some((t, p)) => ServedInside(s, req, t, p)
  {
  }

  ghost predicate RunInside(s: Session, reqs: seq<Request>)
    decreases |reqs|
  {
    reqs == [] ||
    match Serve(s, reqs[0])
    case None => true
    case Some((t, p)) => ServedInside(s, reqs[0], t, p) && RunInside(t, reqs[1..])
  }

  lemma {:induction false} ArmedRunInside(s: Session, reqs: seq<Request>)
    requires s.armed
    ensures RunInside(s, reqs)
    decreases |reqs|
  {
    hide Serve;
    if reqs != [] {
      ArmedServesInside(s, reqs[0]);
      match Serve(s, reqs[0]) {
        case None =>
        case Some((t, p)) => ArmedRunInside(t, reqs[1..]);
      }
    }
  }

  /**
   * Once a session has been opened, target objects come from the pool and transport
   * objects from the transport region, whatever else is asked for, and the heap
   * never grows.
   */
  lemma OpenedRunInside(s: Session, reqs: seq<Request>)
    ensures RunInside(Serve(s, Open).value.0, reqs)
  {
    hide Serve;
    OpenArms(s);
    ArmedRunInside(Serve(s, Open).value.0, reqs);
  }

  /** Before any open, every block comes from the heap and the regions stay untouched. */
  lemma UnarmedUsesHeap(s: Session, req: Request)
    requires !s.armed && (req.Malloc? || req.TransportAlloc?)
    ensures
      match Serve(s, req)
      case None => req.size > 0 && req.h == 0
      case Some((t, p)) =>
        t.pool == s.pool && t.transport == s.transport && (req.size > 0 ==> p == req.h && p in t.heap)
  {
  }

  /** Releasing null and asking for nothing do nothing. */
  lemma NothingAsked(s: Session, h: nat)
    ensures Serve(s, Release(0)) == Some((s, 0))
    ensures Serve(s, Malloc(0, h)) == Some((s, 0)) && Serve(s, TransportAlloc(0, h)) == Some((s, 0))
  {
  }

  // ---- Statistics -----------------------------------------------------------

  function Max(a: nat, b: nat): nat {
    if a < b then b else a
  }

  /** The largest use of the pool over the states of a run. */
  function HighWater(s: Session, reqs: seq<Request>): nat
    decreases |reqs|
  {
    if reqs == [] then s.pool.used else
      match Serve(s, reqs[0])
      case None => s.pool.used
      case Some((t, p)) => Max(s.pool.used, HighWater(t, reqs[1..]))
  }

  function After(s: Session, reqs: seq<Request>): Session
    decreases |reqs|
  {
    if reqs == [] then s else
      match Serve(s, reqs[0])
      case None => s
      case Some((t, p)) => After(t, reqs[1..])
  }

  predicate NoOpen(reqs: seq<Request>) {
    forall i :: 0 <= i < |reqs| ==> !reqs[i].Open?
  }

  lemma PeakStep(s: Session, req: Request)
    requires !req.Open? && s.pool.used <= s.pool.peak && |s.pool.mem| < NO_BLOCK
    requires s.pool.last == NO_BLOCK || s.pool.last <= s.pool.used
    ensures
      match Serve(s, req)
      case None => true
      case Some((t, p)) =>
        && t.pool.peak == Max(s.pool.peak, t.pool.used) && |t.pool.mem| == |s.pool.mem|
        && (t.pool.last == NO_BLOCK || t.pool.last <= t.pool.used)
  {
  }

  /** The recorded peak is the largest use since the session was opened. */
  lemma {:induction false} PeakIsHighWater(s: Session, reqs: seq<Request>)
    requires NoOpen(reqs) && s.pool.used <= s.pool.peak && |s.pool.mem| < NO_BLOCK
    requires s.pool.last == NO_BLOCK || s.pool.last <= s.pool.used
    ensures After(s, reqs).pool.peak == Max(s.pool.peak, HighWater(s, reqs))
    decreases |reqs|
  {
    hide Serve;
    if reqs != [] {
      PeakStep(s, reqs[0]);
      match Serve(s, reqs[0]) {
        case None =>
        case Some((t, p)) => PeakIsHighWater(t, reqs[1..]);
      }
    }
  }

  /** Every release of an arena pointer is counted, and counted as a rewind exactly when it gave memory back. */
  lemma CountersCount(s: Session, blocks: map<nat, seq<byte>>, p: nat)
    requires Inv(s, blocks) && p in blocks && InArena(s, p)
    ensures
      var t := Free(s, p);
      && t.frees == s.frees + 1
      && t.rewinds == s.rewinds + (if t.pool.used + t.transport.used < s.pool.used + s.transport.used then 1 else 0)
  {
    if Contains(s.poolBase, s.pool, p) {
      ReclaimsIff(s.poolBase, s.pool, blocks, p);
    } else {
      ReclaimsIff(s.transportBase, s.transport, blocks, p);
    }
  }
}

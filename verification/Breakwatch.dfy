/**
 * The list of breakpoints and watchpoints of a target, after
 * `target_breakwatch_set`, `target_breakwatch_clear` and
 * `target_bw_list_free_c` of `bmp_helpers.cpp`: linked nodes whose storage is
 * a session arena block each.
 */
module Breakwatch {
  import opened Bytes
  import opened Arena
  import opened SessionArena

  datatype Key = Key(kind: nat, addr: u32, size: nat)

  /** The position of the first entry for `k`, or the length of the list. */
  function FirstIndex(keys: seq<Key>, k: Key): (i: nat)
    ensures i <= |keys|
    ensures forall j :: 0 <= j < i ==> keys[j] != k
    ensures i < |keys| ==> keys[i] == k
  {
    if keys == [] || keys[0] == k then 0 else 1 + FirstIndex(keys[1..], k)
  }

  /** Only the first entry for `k` goes; everything else keeps its order. */
  function RemoveFirst(keys: seq<Key>, k: Key): (r: seq<Key>) {
    var i := FirstIndex(keys, k);
    if i < |keys| then keys[..i] + keys[i + 1..] else keys
  }

  lemma FirstIndexUnique(keys: seq<Key>, k: Key, i: nat)
    requires i < |keys| && keys[i] == k && forall j :: 0 <= j < i ==> keys[j] != k
    ensures FirstIndex(keys, k) == i
  {
    var j := FirstIndex(keys, k);
    assert !(i < j);
    assert !(j < i);
  }

  lemma KeysWithout(spine: seq<Node>, i: nat)
    requires i < |spine|
    ensures Keys(spine[..i] + spine[i + 1..]) == Keys(spine)[..i] + Keys(spine)[i + 1..]
  {
  }

  lemma NotFound(keys: seq<Key>, k: Key)
    requires forall j :: 0 <= j < |keys| ==> keys[j] != k
    ensures FirstIndex(keys, k) == |keys|
  {
  }

  class Node {
    const key: Key
    const block: nat
    var next: Node?

    constructor (key: Key, block: nat, next: Node?)
      ensures this.key == key && this.block == block && this.next == next
    {
      this.key, this.block, this.next := key, block, next;
    }
  }

  /** The node after position `i`, if any. */
  ghost function At(spine: seq<Node>, i: nat): (n: Node?)
    ensures i < |spine| ==> n == spine[i]
    ensures i >= |spine| ==> n == null
  {
    if i < |spine| then spine[i] else null
  }

  /** The first node is `head`, every node leads to the one after it, none occurs twice, the last ends the list. */
  ghost predicate Linked(head: Node?, spine: seq<Node>)
    reads spine
  {
    && head == At(spine, 0)
    && (forall i :: 0 <= i < |spine| ==> spine[i].next == At(spine, i + 1))
    && Distinct(spine)
  }

  ghost predicate Distinct(spine: seq<Node>) {
    forall i, j :: 0 <= i < j < |spine| ==> spine[i] != spine[j]
  }

  lemma DistinctWithout(spine: seq<Node>, i: nat)
    requires Distinct(spine) && i < |spine|
    ensures Distinct(spine[..i] + spine[i + 1..])
    ensures i > 0 ==> forall j :: 0 <= j < |spine| && j != i - 1 ==> spine[j] != spine[i - 1]
  {
  }

  lemma LinkedAt(head: Node?, spine: seq<Node>)
    requires Linked(head, spine)
    ensures head == At(spine, 0) && forall i :: 0 <= i < |spine| ==> spine[i].next == At(spine, i + 1)
  {
  }

  lemma LinkedTail(head: Node?, spine: seq<Node>)
    requires Linked(head, spine) && spine != []
    ensures Linked(spine[0].next, spine[1..])
  {
    assert At(spine, 1) == At(spine[1..], 0);
    forall i | 0 <= i < |spine[1..]|
      ensures spine[1..][i].next == At(spine[1..], i + 1)
    {
      assert spine[1..][i] == spine[i + 1];
    }
  }

  lemma LinkedCons(n: Node, head: Node?, spine: seq<Node>)
    requires Linked(head, spine) && n.next == head && n !in spine
    ensures Linked(n, [n] + spine)
  {
    var s := [n] + spine;
    assert At(s, 1) == At(spine, 0);
    forall i | 0 <= i < |s|
      ensures s[i].next == At(s, i + 1)
    {
      if i > 0 {
        assert s[i] == spine[i - 1];
      }
    }
  }

  ghost function Keys(spine: seq<Node>): (k: seq<Key>)
    ensures |k| == |spine| && forall i :: 0 <= i < |k| ==> k[i] == spine[i].key
  {
    seq(|spine|, i requires 0 <= i < |spine| => spine[i].key)
  }

  /** An entry as a value: its key and the address of its storage. */
  datatype Watch = Watch(key: Key, block: nat)

  ghost function WatchesOf(spine: seq<Node>): (w: seq<Watch>)
    ensures |w| == |spine| && forall i :: 0 <= i < |w| ==> w[i] == Watch(spine[i].key, spine[i].block)
  {
    seq(|spine|, i requires 0 <= i < |spine| => Watch(spine[i].key, spine[i].block))
  }

  function KeysOf(list: seq<Watch>): (k: seq<Key>)
    ensures |k| == |list| && forall i :: 0 <= i < |k| ==> k[i] == list[i].key
  {
    seq(|list|, i requires 0 <= i < |list| => list[i].key)
  }

  /** A set, on the arena and the list; nothing happens to either when it is fatal. */
  function SetStep(s: Session, list: seq<Watch>, nodeSize: nat, k: Key, accepted: bool, h: nat): (Session, seq<Watch>) {
    if !accepted then (s, list) else
      match Serve(s, Malloc(nodeSize, h))
      case None => (s, list)
      case Some((t, p)) => (t, [Watch(k, p)] + list)
  }

  function ClearStep(s: Session, list: seq<Watch>, k: Key, accepted: bool): (Session, seq<Watch>) {
    var i := FirstIndex(KeysOf(list), k);
    if accepted && i < |list| then (Free(s, list[i].block), list[..i] + list[i + 1..]) else (s, list)
  }

  function FreeStep(s: Session, list: seq<Watch>): Session
    decreases |list|
  {
    if list == [] then s else FreeStep(Free(s, list[0].block), list[1..])
  }

  lemma ListedKeys(spine: seq<Node>)
    ensures KeysOf(WatchesOf(spine)) == Keys(spine)
  {
  }

  lemma WatchesCons(n: Node, spine: seq<Node>)
    ensures WatchesOf([n] + spine) == [Watch(n.key, n.block)] + WatchesOf(spine)
  {
  }

  lemma WatchesTail(spine: seq<Node>)
    requires spine != []
    ensures WatchesOf(spine[1..]) == WatchesOf(spine)[1..]
  {
  }

  lemma WatchesWithout(spine: seq<Node>, i: nat)
    requires i < |spine|
    ensures WatchesOf(spine[..i] + spine[i + 1..]) == WatchesOf(spine)[..i] + WatchesOf(spine)[i + 1..]
  {
  }

  class Target {
    const arena: Allocator
    const nodeSize: nat
    var bwList: Node?
    ghost var spine: seq<Node>

    ghost predicate Valid()
      reads this, spine
    {
      arena.Valid() && nodeSize > 0 && Linked(bwList, spine)
    }

    constructor (arena: Allocator, nodeSize: nat)
      requires arena.Valid() && nodeSize > 0
      ensures Valid() && Contents() == [] && this.arena == arena && this.nodeSize == nodeSize
    {
      this.arena, this.nodeSize := arena, nodeSize;
      bwList, spine := null, [];
    }

    ghost function Contents(): seq<Key>
      reads this
    {
      Keys(spine)
    }

    /** The entries with their storage. */
    ghost function Watches(): seq<Watch>
      reads this
    {
      WatchesOf(spine)
    }

    method Prepend(key: Key, block: nat)
      requires Valid()
      modifies this
      ensures Valid() && Contents() == [key] + old(Contents())
      ensures |spine| > 0 && spine[1..] == old(spine) && fresh(spine[0]) && spine[0].block == block
      ensures Watches() == [Watch(key, block)] + old(Watches())
    {
      ghost var spine0 := spine;
      var bwm := new Node(key, block, bwList);
      LinkedCons(bwm, bwList, spine);
      bwList := bwm;
      spine := [bwm] + spine;
      WatchesCons(bwm, spine0);
      assert Contents() == [key] + old(Contents());
    }

    /** Node `bw`, at position `i` and after `bwp`, leaves the list. */
    method Unlink(bwp: Node?, bw: Node, ghost i: nat)
      requires Valid() && i < |spine| && spine[i] == bw
      requires bwp == if i > 0 then spine[i - 1] else null
      modifies this, spine
      ensures Valid() && spine == old(spine)[..i] + old(spine)[i + 1..]
      ensures Contents() == old(Contents())[..i] + old(Contents())[i + 1..]
    {
      KeysWithout(spine, i);
      hide Keys, Linked;
      if bwp == null {
        LinkedTail(bwList, spine);
        bwList := bw.next;
        spine := spine[..i] + spine[i + 1..];
        assert spine == old(spine)[1..];
      } else {
        Bypass(bwp, bw, i);
      }
    }

    /** The case with a node before it. */
    method Bypass(bwp: Node, bw: Node, ghost i: nat)
      requires Valid() && 0 < i < |spine| && spine[i] == bw && spine[i - 1] == bwp
      modifies this`spine, bwp
      ensures Valid() && spine == old(spine)[..i] + old(spine)[i + 1..]
    {
      hide Distinct;
      DistinctWithout(spine, i);
      ghost var before := spine;
      bwp.next := bw.next;
      spine := before[..i] + before[i + 1..];
      forall j | 0 <= j < |spine|
        ensures spine[j].next == At(spine, j + 1)
      {
        if j < i {
          assert spine[j] == before[j];
        } else {
          assert spine[j] == before[j + 1];
        }
      }
    }

    /**
     * `target_breakwatch_set`. `backend` is the driver's verdict, none when the
     * target has no handler; `h` is the heap's answer should the arena be
     * unarmed. Memory exhaustion is fatal to the probe.
     */
    method Set(kind: nat, addr: u32, len: nat, backend: Option<int>, h: nat) returns (ret: int, fatal: bool)
      requires Valid() && Representable(arena.pool.Abs(), nodeSize)
      modifies this, arena`heap, arena.pool, arena.pool.data
      ensures ret == if backend.Some? then backend.value else 1
      ensures Valid()
      ensures
        var served := Serve(old(arena.Abs()), Malloc(nodeSize, h));
        && (fatal <==> ret == 0 && served.None?)
        && (if ret == 0 && served.Some? then
              && Contents() == [Key(kind, addr, len)] + old(Contents())
              && spine[1..] == old(spine) && fresh(spine[0]) && spine[0].block == served.value.1
              && arena.Abs() == served.value.0
            else
              && Contents() == old(Contents()) && spine == old(spine) && arena.Abs() == old(arena.Abs()))
      ensures (arena.Abs(), Watches()) ==
              SetStep(old(arena.Abs()), old(Watches()), nodeSize, Key(kind, addr, len), ret == 0, h)
    {
      hide Serve, Representable, Linked;
      ret, fatal := 1, false;
      if backend.Some? {
        ret := backend.value;
      }
      if ret == 0 {
        var p := arena.SessionMalloc(nodeSize, h);
        match p
        case None => fatal := true;
        case Some(block) =>
          Prepend(Key(kind, addr, len), block);
      }
    }

    /** The search loop: the first match and the node before it. */
    method Find(kind: nat, addr: u32, len: nat) returns (bwp: Node?, bw: Node?, ghost i: nat)
      requires Valid()
      ensures i == FirstIndex(Contents(), Key(kind, addr, len))
      ensures bw == At(spine, FirstIndex(Contents(), Key(kind, addr, len)))
      ensures i < |spine| ==> bwp == if i > 0 then spine[i - 1] else null
    {
      hide Linked;
      bwp, bw := null, bwList;
      i := 0;
      LinkedAt(bwList, spine);
      while bw != null && !(bw.key.kind == kind && bw.key.addr == addr && bw.key.size == len)
        invariant 0 <= i <= |spine| && bw == At(spine, i)
        invariant bwp == (if i > 0 then spine[i - 1] else null)
        invariant forall j :: 0 <= j < i ==> spine[j].key != Key(kind, addr, len)
        decreases |spine| - i
      {
        bwp, bw := bw, bw.next;
        i := i + 1;
      }
      if bw == null {
        NotFound(Contents(), Key(kind, addr, len));
      } else {
        FirstIndexUnique(Contents(), Key(kind, addr, len), i);
      }
    }

    /** `target_breakwatch_clear`: -1 without a match; otherwise the first match goes when the backend agrees. */
    method Clear(kind: nat, addr: u32, len: nat, backend: Option<int>) returns (ret: int)
      requires Valid()
      modifies this, spine, arena`heap, arena`frees, arena`rewinds
      modifies arena.pool`used, arena.pool`last, arena.transport`used, arena.transport`last
      ensures Valid()
      ensures
        var k := Key(kind, addr, len);
        var i := FirstIndex(old(Contents()), k);
        && ret == (if i == |old(spine)| then -1 else if backend.Some? then backend.value else 1)
        && (if ret == 0 && i < |old(spine)| then
              && Contents() == RemoveFirst(old(Contents()), k)
              && spine == old(spine)[..i] + old(spine)[i + 1..]
              && arena.Abs() == Free(old(arena.Abs()), old(spine)[i].block)
            else
              Contents() == old(Contents()) && spine == old(spine) && arena.Abs() == old(arena.Abs()))
      ensures (arena.Abs(), Watches()) ==
              ClearStep(old(arena.Abs()), old(Watches()), Key(kind, addr, len), ret == 0)
    {
      hide Linked, Free, Serve;
      ListedKeys(spine);
      ghost var i;
      var bwp: Node?, bw: Node?;
      bwp, bw, i := Find(kind, addr, len);
      if bw == null {
        return -1;
      }
      ret := 1;
      if backend.Some? {
        ret := backend.value;
      }
      if ret == 0 {
        WatchesWithout(spine, i);
        Unlink(bwp, bw, i);
        arena.SessionFree(bw.block);
      }
    }

    /** `target_bw_list_free_c`: every block is released, newest node first. */
    method FreeAll()
      requires Valid()
      modifies this, arena`heap, arena`frees, arena`rewinds
      modifies arena.pool`used, arena.pool`last, arena.transport`used, arena.transport`last
      ensures Valid() && Contents() == []
      ensures arena.Abs() == FreeStep(old(arena.Abs()), old(Watches()))
    {
      hide Free;
      while bwList != null
        invariant Valid()
        invariant FreeStep(arena.Abs(), Watches()) == FreeStep(old(arena.Abs()), old(Watches()))
        decreases |spine|
      {
        LinkedTail(bwList, spine);
        WatchesTail(spine);
        var next := bwList.next;
        arena.SessionFree(bwList.block);
        bwList := next;
        spine := spine[1..];
      }
    }
  }

  // ---- The list and the arena together -----------------------------------

  /** Setting and clearing the same watch leaves the list as it was, whatever else is in it. */
  lemma SetThenClear(keys: seq<Key>, k: Key)
    ensures RemoveFirst([k] + keys, k) == keys
  {
    assert ([k] + keys)[..0] + ([k] + keys)[1..] == keys;
  }

  /** Clearing removes one occurrence of `k` and nothing else. */
  lemma {:induction false} RemoveFirstCounts(keys: seq<Key>, k: Key)
    requires k in keys
    ensures multiset(RemoveFirst(keys, k)) == multiset(keys) - multiset{k}
  {
    var i := FirstIndex(keys, k);
    hide FirstIndex;
    assert i < |keys| by {
      var j :| 0 <= j < |keys| && keys[j] == k;
    }
    var a, b := keys[..i], keys[i + 1..];
    assert keys == a + ([k] + b);
    assert multiset(a + ([k] + b)) == multiset(a) + (multiset{k} + multiset(b));
    assert multiset(a + b) == multiset(a) + multiset(b);
  }

  /** The pool after `n` rounds of one set and the matching clear, in an armed session. */
  function Rounds(s: Session, nodeSize: nat, n: nat): (t: Session)
    requires s.armed && s.poolBase > 0 && nodeSize > 0 && AlignUp(s.pool.used) + nodeSize <= |s.pool.mem|
    ensures t.armed && t.pool == Pairs(s.pool, nodeSize, n)
    ensures t.poolBase == s.poolBase && t.transport == s.transport && t.transportBase == s.transportBase
    ensures t.heap == s.heap && t.frees == s.frees + n && t.rewinds == s.rewinds + n
    decreases n
  {
    if n == 0 then s else
      var (t, p) := Serve(s, Malloc(nodeSize, 0)).value;
      Rounds(Free(t, p), nodeSize, n - 1)
  }

  /** One round on the object: a watch is set and cleared again, both accepted by the backend. */
  method Round(t: Target, kind: nat, addr: u32, len: nat)
    requires t.Valid() && t.arena.armed && t.arena.poolBase > 0
    requires AlignUp(t.arena.pool.used) + t.nodeSize <= t.arena.pool.data.Length < TWO32
    modifies t, t.spine, t.arena`heap, t.arena`frees, t.arena`rewinds
    modifies t.arena.pool, t.arena.pool.data, t.arena.transport`used, t.arena.transport`last
    ensures t.Valid() && t.spine == old(t.spine)
    ensures t.arena.Abs() == Rounds(old(t.arena.Abs()), t.nodeSize, 1)
  {
    hide Serve, Free, Linked, AllocFrom, SetStep, ClearStep, Rounds, AlignUp, Keys, WatchesOf;
    ghost var s0, spine0 := t.arena.Abs(), t.spine;
    OneRound(s0, t.nodeSize);
    var ret, fatal := t.Set(kind, addr, len, Some(0), 0);
    assert t.Contents()[0] == Key(kind, addr, len);
    FirstIndexUnique(t.Contents(), Key(kind, addr, len), 0);
    HeadGone(t.spine, spine0);
    ret := t.Clear(kind, addr, len, Some(0));
  }

  lemma HeadGone(spine: seq<Node>, rest: seq<Node>)
    requires spine != [] && spine[1..] == rest
    ensures spine[..0] + spine[1..] == rest
  {
  }

  lemma OneRound(s: Session, nodeSize: nat)
    requires s.armed && s.poolBase > 0 && nodeSize > 0 && AlignUp(s.pool.used) + nodeSize <= |s.pool.mem|
    ensures Serve(s, Malloc(nodeSize, 0)).Some?
    ensures
      var (t, p) := Serve(s, Malloc(nodeSize, 0)).value;
      Rounds(s, nodeSize, 1) == Free(t, p)
  {
  }

  lemma RoundsSplit(s: Session, nodeSize: nat, n: nat)
    requires s.armed && s.poolBase > 0 && nodeSize > 0 && AlignUp(s.pool.used) + nodeSize <= |s.pool.mem| && n > 0
    ensures Rounds(s, nodeSize, n) == Rounds(Rounds(s, nodeSize, 1), nodeSize, n - 1)
  {
  }

  /** `n` rounds on the object: the list is as it was, and the pool's use is fixed after the first. */
  method ManyRounds(t: Target, kind: nat, addr: u32, len: nat, n: nat)
    requires t.Valid() && t.arena.armed && t.arena.poolBase > 0
    requires AlignUp(t.arena.pool.used) + t.nodeSize <= t.arena.pool.data.Length < TWO32
    modifies t, t.spine, t.arena`heap, t.arena`frees, t.arena`rewinds
    modifies t.arena.pool, t.arena.pool.data, t.arena.transport`used, t.arena.transport`last
    ensures t.Valid() && t.spine == old(t.spine)
    ensures t.arena.Abs() == Rounds(old(t.arena.Abs()), t.nodeSize, n)
    ensures n > 0 ==> t.arena.pool.used == AlignUp(old(t.arena.pool.used)) && t.arena.heap == old(t.arena.heap)
  {
    hide Rounds, Linked;
    ghost var s0 := t.arena.Abs();
    for i := 0 to n
      invariant t.Valid() && t.spine == old(t.spine)
      invariant t.arena.armed && AlignUp(t.arena.pool.used) + t.nodeSize <= t.arena.pool.data.Length
      invariant Rounds(t.arena.Abs(), t.nodeSize, n - i) == Rounds(s0, t.nodeSize, n)
    {
      RoundsSplit(t.arena.Abs(), t.nodeSize, n - i);
      Round(t, kind, addr, len);
    }
    NoRounds(t.arena.Abs(), t.nodeSize);
    if n > 0 {
      RoundsCostNothing(s0, t.nodeSize, n);
    }
  }

  lemma NoRounds(s: Session, nodeSize: nat)
    requires s.armed && s.poolBase > 0 && nodeSize > 0 && AlignUp(s.pool.used) + nodeSize <= |s.pool.mem|
    ensures Rounds(s, nodeSize, 0) == s
  {
  }

  /** Any number of one-at-a-time set and clear pairs costs the pool at most the padding of the first. */
  lemma RoundsCostNothing(s: Session, nodeSize: nat, n: nat)
    requires s.armed && s.poolBase > 0 && nodeSize > 0 && AlignUp(s.pool.used) + nodeSize <= |s.pool.mem| && n > 0
    ensures Rounds(s, nodeSize, n).pool.used == AlignUp(s.pool.used)
    ensures Rounds(s, nodeSize, n).heap == s.heap
  {
    PairsCostNothing(s.pool, nodeSize, n);
  }

  // ---- Storage of the entries over whole runs -----------------------------

  /** The arena, the blocks its clients hold, and the list. */
  datatype Client = Client(s: Session, live: map<nat, seq<byte>>, list: seq<Watch>)

  datatype Action =
    | SetWatch(key: Key, accepted: bool, h: nat)
    | ClearWatch(key: Key, accepted: bool)
    | FreeList
    | Other(req: Request)

  /** The blocks that remain when the storage of `list` has been released. */
  function Without(live: map<nat, seq<byte>>, list: seq<Watch>): map<nat, seq<byte>>
    decreases |list|
  {
    if list == [] then live else Without(live - {list[0].block}, list[1..])
  }

  /** One action; an allocation that exhausts the arena is the end of the run and changes nothing. */
  function Do(c: Client, nodeSize: nat, a: Action): Client {
    match a
    case SetWatch(k, accepted, h) =>
      var (s, list) := SetStep(c.s, c.list, nodeSize, k, accepted, h);
      Client(s, if |list| > |c.list| then Reference(c.s, c.live, Malloc(nodeSize, h), list[0].block) else c.live, list)
    case ClearWatch(k, accepted) =>
      var i := FirstIndex(KeysOf(c.list), k);
      var (s, list) := ClearStep(c.s, c.list, k, accepted);
      Client(s, if accepted && i < |c.list| then c.live - {c.list[i].block} else c.live, list)
    case FreeList => Client(FreeStep(c.s, c.list), Without(c.live, c.list), [])
    case Other(req) =>
      match Serve(c.s, req)
      case None => c
      case Some((t, p)) => Client(t, Reference(c.s, c.live, req, p), c.list)
  }

  ghost predicate Listed(list: seq<Watch>, p: nat) {
    exists i :: 0 <= i < |list| && list[i].block == p
  }

  /** Other clients of the arena keep off the entries, and a session is opened on an empty list. */
  ghost predicate Permitted(c: Client, nodeSize: nat, a: Action) {
    match a
    case SetWatch(_, accepted, h) => accepted ==> Legal(c.s, c.live, Malloc(nodeSize, h))
    case ClearWatch(_, _) => true
    case FreeList => true
    case Other(req) =>
      && Legal(c.s, c.live, req)
      && (req.Release? ==> !Listed(c.list, req.p))
      && (req.Open? ==> c.list == [])
  }

  /** Every entry has a live block of its own. */
  ghost predicate Owned(live: map<nat, seq<byte>>, list: seq<Watch>) {
    && (forall i :: 0 <= i < |list| ==> list[i].block in live)
    && (forall i, j :: 0 <= i < j < |list| ==> list[i].block != list[j].block)
  }

  ghost predicate Tied(c: Client) {
    Inv(c.s, c.live) && Owned(c.live, c.list)
  }

  lemma OwnedWithout(live: map<nat, seq<byte>>, list: seq<Watch>, i: nat)
    requires Owned(live, list) && i < |list|
    ensures Owned(live - {list[i].block}, list[..i] + list[i + 1..])
  {
    var r := list[..i] + list[i + 1..];
    forall j | 0 <= j < |r|
      ensures r[j] == list[if j < i then j else j + 1]
    {
    }
  }

  lemma {:induction false} FreeListTied(s: Session, live: map<nat, seq<byte>>, list: seq<Watch>)
    requires Inv(s, live) && Owned(live, list)
    ensures Inv(FreeStep(s, list), Without(live, list))
    decreases |list|
  {
    hide Inv, Free;
    if list != [] {
      var p := list[0].block;
      FreeKeepsInv(s, live, p);
      OwnedWithout(live, list, 0);
      assert list[..0] + list[1..] == list[1..];
      FreeListTied(Free(s, p), live - {p}, list[1..]);
    }
  }

  lemma SetTied(c: Client, nodeSize: nat, k: Key, accepted: bool, h: nat)
    requires Tied(c) && nodeSize > 0 && Permitted(c, nodeSize, SetWatch(k, accepted, h))
    ensures Tied(Do(c, nodeSize, SetWatch(k, accepted, h)))
  {
    hide Inv, Serve, Legal;
    if accepted {
      AllocKeepsInvIfServed(c.s, c.live, nodeSize, h);
    }
  }

  lemma AllocKeepsInvIfServed(s: Session, live: map<nat, seq<byte>>, nodeSize: nat, h: nat)
    requires Inv(s, live) && nodeSize > 0 && Legal(s, live, Malloc(nodeSize, h))
    ensures
      match Serve(s, Malloc(nodeSize, h))
      case None => true
      case Some((t, p)) =>
        && p !in live && Reference(s, live, Malloc(nodeSize, h), p) == live[p := Zeros(nodeSize)]
        && Inv(t, live[p := Zeros(nodeSize)])
  {
    hide Inv, Serve, Legal;
    AllocKeepsInv(s, live, Malloc(nodeSize, h));
  }

  lemma OtherTied(c: Client, nodeSize: nat, req: Request)
    requires Tied(c) && Permitted(c, nodeSize, Other(req))
    ensures Tied(Do(c, nodeSize, Other(req)))
  {
    hide Inv, Serve, Legal;
    ServeRefines(c.s, c.live, req);
    match Serve(c.s, req)
    case None =>
    case Some((t, p)) =>
      forall i | 0 <= i < |c.list|
        ensures c.list[i].block in Reference(c.s, c.live, req, p)
      {
        assert req.Release? ==> Listed(c.list, c.list[i].block);
      }
  }

  lemma DoTied(c: Client, nodeSize: nat, a: Action)
    requires Tied(c) && nodeSize > 0 && Permitted(c, nodeSize, a)
    ensures Tied(Do(c, nodeSize, a))
  {
    match a
    case SetWatch(k, accepted, h) => SetTied(c, nodeSize, k, accepted, h);
    case ClearWatch(k, accepted) =>
      hide Inv, Free;
      var i := FirstIndex(KeysOf(c.list), k);
      if accepted && i < |c.list| {
        FreeKeepsInv(c.s, c.live, c.list[i].block);
        OwnedWithout(c.live, c.list, i);
      }
    case FreeList => FreeListTied(c.s, c.live, c.list);
    case Other(req) => OtherTied(c, nodeSize, req);
  }

  function DoAll(c: Client, nodeSize: nat, actions: seq<Action>): Client
    decreases |actions|
  {
    if actions == [] then c else DoAll(Do(c, nodeSize, actions[0]), nodeSize, actions[1..])
  }

  ghost predicate AllPermitted(c: Client, nodeSize: nat, actions: seq<Action>)
    decreases |actions|
  {
    actions == [] ||
    (Permitted(c, nodeSize, actions[0]) && AllPermitted(Do(c, nodeSize, actions[0]), nodeSize, actions[1..]))
  }

  lemma {:induction false} DoAllTied(c: Client, nodeSize: nat, actions: seq<Action>)
    requires Tied(c) && nodeSize > 0 && AllPermitted(c, nodeSize, actions)
    ensures Tied(DoAll(c, nodeSize, actions))
    decreases |actions|
  {
    hide Tied, Permitted, Do;
    if actions != [] {
      DoTied(c, nodeSize, actions[0]);
      DoAllTied(Do(c, nodeSize, actions[0]), nodeSize, actions[1..]);
    }
  }

  /**
   * After any run from boot, between the requests of any other clients: every
   * entry of the list has a live block of its own in arena or heap.
   */
  lemma EntriesStayLive(boot: Session, nodeSize: nat, actions: seq<Action>)
    requires Boot(boot) && nodeSize > 0 && AllPermitted(Client(boot, map[], []), nodeSize, actions)
    ensures var c := DoAll(Client(boot, map[], []), nodeSize, actions); Owned(c.live, c.list)
    ensures var c := DoAll(Client(boot, map[], []), nodeSize, actions); Inv(c.s, c.live)
  {
    hide Inv;
    BootInv(boot);
    DoAllTied(Client(boot, map[], []), nodeSize, actions);
  }

  /** Releasing the list releases every entry once: in an arena all of whose entries lie inside, each is counted. */
  lemma {:induction false} FreeListCounts(s: Session, list: seq<Watch>)
    requires s.poolBase > 0 && s.transportBase > 0
    requires forall i :: 0 <= i < |list| ==> InArena(s, list[i].block)
    ensures FreeStep(s, list).frees == s.frees + |list|
    ensures FreeStep(s, list).heap == s.heap
    decreases |list|
  {
    if list != [] {
      var t := Free(s, list[0].block);
      FreeListCounts(t, list[1..]);
    }
  }
}

/** Breakpoints in flash: whole pages are read, patched in a buffer and overwritten. */
module FlashBreakpoints {
  import opened Bytes
  import opened Breakpoints

  const MAX_SECTOR_SIZE: nat := 256

  /** Which of the target accesses of one command succeed: verifying read, page read, overwrite, undoing overwrite. */
  datatype Io = Io(verify: bool, read: bool, write: bool, undo: bool)

  const ALL_WELL := Io(true, true, true, true)

  function Saved(mem: seq<byte>, a: nat): (s: Word)
    requires a + 2 <= |mem|
  {
    mem[a..a + 2] + [0, 0]
  }

  predicate Planted(mem: seq<byte>, a: nat, riscv: bool)
    requires a + 2 <= |mem|
  {
    mem[a..a + 2] == Opcode(riscv)
  }

  /** `add_mw_breakpoint`, its page traffic reduced to the two bytes it changes. */
  function Add(t: Target, a: nat, riscv: bool, io: Io): (Target, bool)
    requires a + 2 <= |t.mem|
  {
    if Present(t.list, a) then
      if io.verify && Planted(t.mem, a, riscv) then (t, true)
      else Plant(t.(list := Without(t.list, Lookup(t.list, a))), a, riscv, io)
    else Plant(t, a, riscv, io)
  }

  function Plant(t: Target, a: nat, riscv: bool, io: Io): (Target, bool)
    requires a + 2 <= |t.mem|
  {
    if !io.read || !io.write then (t, false)
    else if |t.list| >= MAX_BREAKPOINTS then
      (if io.undo then t else t.(mem := Poke(t.mem, a, Opcode(riscv))), false)
    else
      (Target(Poke(t.mem, a, Opcode(riscv)), t.list + [Entry(a, Saved(t.mem, a))]), true)
  }

  /** `remove_mw_breakpoint`. */
  function Remove(t: Target, a: nat, io: Io): (Target, bool)
    requires a + 2 <= |t.mem|
  {
    if !Present(t.list, a) then (t, true)
    else if !io.read then (t, false)
    else
      var i := Lookup(t.list, a);
      (Target(if io.write then Poke(t.mem, a, t.list[i].saved[..2]) else t.mem, Without(t.list, i)), true)
  }

  // ---- The invariant ------------------------------------------------------

  /** The byte at `i` as the table says it should be. */
  function Expected(image: seq<byte>, list: seq<Entry>, riscv: bool, i: nat): byte
    requires i < |image|
  {
    if Present(list, i - i % 2) then Opcode(riscv)[i % 2] else image[i]
  }

  /** Memory is the image with the opcode at each listed address, whose true bytes the table holds. */
  ghost predicate Inv(t: Target, image: seq<byte>, riscv: bool) {
    && |t.mem| == |image| && |t.list| <= MAX_BREAKPOINTS && DistinctAddresses(t.list)
    && (forall k :: 0 <= k < |t.list| ==>
          var e := t.list[k];
          e.address % 2 == 0 && e.address + 2 <= |image| && e.saved == Saved(image, e.address))
    && forall i :: 0 <= i < |image| ==> t.mem[i] == Expected(image, t.list, riscv, i)
  }

  lemma ListedIsPlanted(t: Target, image: seq<byte>, riscv: bool, a: nat)
    requires Inv(t, image, riscv) && a % 2 == 0 && a + 2 <= |image|
    ensures Present(t.list, a) ==> Planted(t.mem, a, riscv)
    ensures !Present(t.list, a) ==> t.mem[a..a + 2] == image[a..a + 2]
  {
    hide Lookup, Present, DistinctAddresses;
    assert a - a % 2 == a && (a + 1) - (a + 1) % 2 == a;
    assert t.mem[a] == Expected(image, t.list, riscv, a);
    assert t.mem[a + 1] == Expected(image, t.list, riscv, a + 1);
  }

  lemma PresentAppend(list: seq<Entry>, e: Entry, a: nat)
    ensures Present(list + [e], a) <==> Present(list, a) || e.address == a
  {
    PresentIff(list, a);
    PresentIff(list + [e], a);
    assert (list + [e])[|list|] == e;
    if Present(list, a) {
      assert (list + [e])[Lookup(list, a)] == list[Lookup(list, a)];
    }
  }

  lemma PresentWithout(list: seq<Entry>, i: nat)
    requires DistinctAddresses(list) && i < |list|
    ensures DistinctAddresses(Without(list, i))
    ensures forall a: nat :: Present(Without(list, i), a) <==> Present(list, a) && a != list[i].address
  {
    var r := Without(list, i);
    forall a: nat
      ensures Present(r, a) <==> Present(list, a) && a != list[i].address
    {
      PresentIff(list, a);
      PresentIff(r, a);
      if Present(list, a) && a != list[i].address {
        var k := Lookup(list, a);
        assert r[if k < i then k else k - 1].address == a;
      }
    }
  }

  /** Address `i` belongs to the halfword at the even address `a`. */
  lemma Halfword(i: nat, a: nat)
    requires a % 2 == 0
    ensures i - i % 2 == a <==> a <= i < a + 2
    ensures a <= i < a + 2 ==> i % 2 == i - a
  {
  }

  /** With the accesses succeeding: planted and listed, or, when the table is full, nothing changed. */
  lemma AddKeepsInv(t: Target, image: seq<byte>, riscv: bool, a: nat)
    requires Inv(t, image, riscv) && a % 2 == 0 && a + 2 <= |image|
    ensures
      var (u, ok) := Add(t, a, riscv, ALL_WELL);
      && Inv(u, image, riscv)
      && (ok <==> Present(t.list, a) || |t.list| < MAX_BREAKPOINTS)
      && (ok ==> Present(u.list, a) && Planted(u.mem, a, riscv))
      && (!ok || Present(t.list, a) ==> u == t)
  {
    ListedIsPlanted(t, image, riscv, a);
    hide Lookup, Present, DistinctAddresses;
    if !Present(t.list, a) && |t.list| < MAX_BREAKPOINTS {
      var e := Entry(a, Saved(t.mem, a));
      assert e.saved == Saved(image, a);
      PresentAppend(t.list, e, a);
      DistinctAppend(t.list, e);
      PlantedIsExpected(t, image, riscv, a, e);
    }
  }

  lemma DistinctAppend(list: seq<Entry>, e: Entry)
    requires DistinctAddresses(list) && !Present(list, e.address)
    ensures DistinctAddresses(list + [e])
  {
    PresentIff(list, e.address);
  }

  lemma PlantedIsExpected(t: Target, image: seq<byte>, riscv: bool, a: nat, e: Entry)
    requires Inv(t, image, riscv) && a % 2 == 0 && a + 2 <= |image| && e.address == a
    ensures forall i :: 0 <= i < |image| ==>
              Poke(t.mem, a, Opcode(riscv))[i] == Expected(image, t.list + [e], riscv, i)
  {
    hide Present, DistinctAddresses;
    forall i | 0 <= i < |image|
      ensures Poke(t.mem, a, Opcode(riscv))[i] == Expected(image, t.list + [e], riscv, i)
    {
      Halfword(i, a);
      PresentAppend(t.list, e, i - i % 2);
      assert t.mem[i] == Expected(image, t.list, riscv, i);
    }
  }

  lemma RemoveKeepsInv(t: Target, image: seq<byte>, riscv: bool, a: nat)
    requires Inv(t, image, riscv) && a % 2 == 0 && a + 2 <= |image|
    ensures
      var (u, ok) := Remove(t, a, ALL_WELL);
      && ok && Inv(u, image, riscv)
      && forall b: nat :: Present(u.list, b) <==> Present(t.list, b) && b != a
  {
    hide Lookup, Present, DistinctAddresses;
    var u := Remove(t, a, ALL_WELL).0;
    if Present(t.list, a) {
      var k := FoundAt(t.list, a);
      PresentWithout(t.list, k);
      assert t.list[k].saved[..2] == image[a..a + 2];
      RestoredIsExpected(t, image, riscv, a, k);
    }
  }

  lemma FoundAt(list: seq<Entry>, a: nat) returns (k: nat)
    requires Present(list, a)
    ensures k == Lookup(list, a) && k < |list| && list[k].address == a
  {
    k := Lookup(list, a);
  }

  lemma RestoredIsExpected(t: Target, image: seq<byte>, riscv: bool, a: nat, k: nat)
    requires Inv(t, image, riscv) && k < |t.list| && t.list[k].address == a
    requires forall b: nat :: Present(Without(t.list, k), b) <==> Present(t.list, b) && b != a
    ensures forall i :: 0 <= i < |image| ==>
              Poke(t.mem, a, image[a..a + 2])[i] == Expected(image, Without(t.list, k), riscv, i)
  {
    hide Present, DistinctAddresses;
    forall i | 0 <= i < |image|
      ensures Poke(t.mem, a, image[a..a + 2])[i] == Expected(image, Without(t.list, k), riscv, i)
    {
      Halfword(i, a);
      assert t.mem[i] == Expected(image, t.list, riscv, i);
      var h: nat := i - i % 2;
      assert Present(Without(t.list, k), h) <==> Present(t.list, h) && h != a;
    }
  }

  // ---- Runs ---------------------------------------------------------------

  datatype Command = Insert(a: nat) | Delete(a: nat)

  predicate WellAimed(c: Command, size: nat) {
    c.a % 2 == 0 && c.a + 2 <= size
  }

  function Obey(t: Target, riscv: bool, c: Command): (u: Target)
    requires WellAimed(c, |t.mem|)
    ensures |u.mem| == |t.mem|
  {
    match c
    case Insert(a) => Add(t, a, riscv, ALL_WELL).0
    case Delete(a) => Remove(t, a, ALL_WELL).0
  }

  function Run(t: Target, riscv: bool, cs: seq<Command>): (u: Target)
    requires forall i :: 0 <= i < |cs| ==> WellAimed(cs[i], |t.mem|)
    decreases |cs|
  {
    if cs == [] then t else Run(Obey(t, riscv, cs[0]), riscv, cs[1..])
  }

  lemma {:induction false} RunKeepsInv(t: Target, image: seq<byte>, riscv: bool, cs: seq<Command>)
    requires Inv(t, image, riscv) && forall i :: 0 <= i < |cs| ==> WellAimed(cs[i], |image|)
    ensures Inv(Run(t, riscv, cs), image, riscv)
    decreases |cs|
  {
    if cs != [] {
      AddKeepsInv(t, image, riscv, cs[0].a);
      RemoveKeepsInv(t, image, riscv, cs[0].a);
      RunKeepsInv(Obey(t, riscv, cs[0]), image, riscv, cs[1..]);
    }
  }

  /** At every reachable state, memory differs from the image exactly by the listed opcodes. */
  lemma ReachableFlash(image: seq<byte>, riscv: bool, cs: seq<Command>, i: nat)
    requires forall k :: 0 <= k < |cs| ==> WellAimed(cs[k], |image|)
    requires i < |image|
    ensures
      var u := Run(Target(image, []), riscv, cs);
      && |u.mem| == |image|
      && u.mem[i] == if Present(u.list, i - i % 2) then Opcode(riscv)[i % 2] else image[i]
  {
    FreshInv(image, riscv);
    RunKeepsInv(Target(image, []), image, riscv, cs);
    var u := Run(Target(image, []), riscv, cs);
    assert u.mem[i] == Expected(image, u.list, riscv, i);
  }

  lemma FreshInv(image: seq<byte>, riscv: bool)
    ensures Inv(Target(image, []), image, riscv)
  {
  }

  function Deletions(addrs: seq<nat>): (cs: seq<Command>)
    ensures |cs| == |addrs| && forall i :: 0 <= i < |addrs| ==> cs[i] == Delete(addrs[i])
  {
    seq(|addrs|, i requires 0 <= i < |addrs| => Delete(addrs[i]))
  }

  /** Deleting a set of addresses that covers the table, in whatever order, restores the image. */
  lemma {:induction false} RemoveAllRestores(t: Target, image: seq<byte>, riscv: bool, addrs: seq<nat>)
    requires Inv(t, image, riscv)
    requires forall i :: 0 <= i < |addrs| ==> addrs[i] % 2 == 0 && addrs[i] + 2 <= |image|
    requires forall k :: 0 <= k < |t.list| ==> t.list[k].address in addrs
    ensures Run(t, riscv, Deletions(addrs)) == Target(image, [])
    decreases |addrs|
  {
    if addrs == [] {
      assert t.list == [];
      assert forall i :: 0 <= i < |image| ==> t.mem[i] == Expected(image, t.list, riscv, i) == image[i];
    } else {
      RemoveKeepsInv(t, image, riscv, addrs[0]);
      var u := Remove(t, addrs[0], ALL_WELL).0;
      assert Deletions(addrs)[1..] == Deletions(addrs[1..]);
      forall k | 0 <= k < |u.list|
        ensures u.list[k].address in addrs[1..]
      {
        PresentIff(u.list, u.list[k].address);
        PresentIff(t.list, u.list[k].address);
      }
      RemoveAllRestores(u, image, riscv, addrs[1..]);
    }
  }

  // ---- When accesses fail, or flash changes behind the table --------------

  /** The answer to an insertion, for every outcome of the accesses. */
  lemma AddAnswersIff(t: Target, a: nat, riscv: bool, io: Io)
    requires a + 2 <= |t.mem|
    ensures
      Add(t, a, riscv, io).1 <==>
      || (Present(t.list, a) && io.verify && Planted(t.mem, a, riscv))
      || (io.read && io.write && |t.list| - (if Present(t.list, a) then 1 else 0) < 16)
  {
    hide Poke, Saved, Planted, Opcode;
  }

  /** The answer to a removal: it fails only if the page cannot be read, and then changes nothing. */
  lemma RemoveAnswersIff(t: Target, a: nat, io: Io)
    requires a + 2 <= |t.mem|
    ensures Remove(t, a, io).1 <==> !Present(t.list, a) || io.read
    ensures !Remove(t, a, io).1 ==> Remove(t, a, io).0 == t
  {
  }

  /**
   * A newly planted breakpoint is at its address, byte for byte, its table entry
   * holds what was there, and no other byte of flash has changed.
   */
  lemma PlantedAtAddress(t: Target, a: nat, riscv: bool, io: Io, other: nat)
    requires a + 2 <= |t.mem| && other < |t.mem| && !Present(t.list, a) && Add(t, a, riscv, io).1
    ensures
      var u := Add(t, a, riscv, io).0;
      && |u.mem| == |t.mem|
      && u.mem[a] == (if riscv then 0x02 else 0x00) && u.mem[a + 1] == (if riscv then 0x90 else 0xBE)
      && (other != a && other != a + 1 ==> u.mem[other] == t.mem[other])
      && u.list == t.list + [Entry(a, [t.mem[a], t.mem[a + 1], 0, 0])]
  {
    hide Lookup, Present;
    assert Saved(t.mem, a) == [t.mem[a], t.mem[a + 1], 0, 0];
  }

  /** Success means the breakpoint is in memory and in the table, whatever state and accesses came before. */
  lemma SuccessMeansPlanted(t: Target, a: nat, riscv: bool, io: Io)
    requires a + 2 <= |t.mem|
    ensures
      var (u, ok) := Add(t, a, riscv, io);
      ok ==> Planted(u.mem, a, riscv) && Present(u.list, a)
  {
    var (u, ok) := Add(t, a, riscv, io);
    if ok && u != t {
      PresentIff(u.list, a);
      assert u.list[|u.list| - 1].address == a;
    }
  }

  /** Flash is the same with or without the entry when the image holds the opcode there anyway. */
  lemma UnlistedIff(t: Target, image: seq<byte>, riscv: bool, a: nat)
    requires Inv(t, image, riscv) && a % 2 == 0 && a + 2 <= |image| && Present(t.list, a)
    ensures Inv(t.(list := Without(t.list, Lookup(t.list, a))), image, riscv) <==> image[a..a + 2] == Opcode(riscv)
  {
    hide Lookup, Present, DistinctAddresses;
    var k := FoundAt(t.list, a);
    var u := t.(list := Without(t.list, k));
    PresentWithout(t.list, k);
    ListedIsPlanted(t, image, riscv, a);
    if Inv(u, image, riscv) {
      ListedIsPlanted(u, image, riscv, a);
    }
    if image[a..a + 2] == Opcode(riscv) {
      RestoredIsExpected(t, image, riscv, a, k);
      PokeSame(t.mem, a, image[a..a + 2]);
    }
  }

  lemma PokeSame(mem: seq<byte>, a: nat, b: seq<byte>)
    requires a + |b| <= |mem| && mem[a..a + |b|] == b
    ensures Poke(mem, a, b) == mem
  {
    assert forall i :: a <= i < a + |b| ==> mem[i] == mem[a..a + |b|][i - a];
  }

  /** An opcode that stays in flash without an entry: a full table whose undoing write failed. */
  lemma UnundoneIff(t: Target, image: seq<byte>, riscv: bool, a: nat)
    requires Inv(t, image, riscv) && a % 2 == 0 && a + 2 <= |image| && !Present(t.list, a)
    ensures Inv(t.(mem := Poke(t.mem, a, Opcode(riscv))), image, riscv) <==> image[a..a + 2] == Opcode(riscv)
  {
    hide Lookup, Present, DistinctAddresses;
    var u := t.(mem := Poke(t.mem, a, Opcode(riscv)));
    ListedIsPlanted(t, image, riscv, a);
    assert u.mem[a..a + 2] == Opcode(riscv);
    if Inv(u, image, riscv) {
      ListedIsPlanted(u, image, riscv, a);
    }
    if image[a..a + 2] == Opcode(riscv) {
      PokeSame(t.mem, a, Opcode(riscv));
    }
  }

  /** The entry a failed verifying read leaves behind saves the opcode itself. */
  lemma ReplantedIff(t: Target, image: seq<byte>, riscv: bool, a: nat)
    requires Inv(t, image, riscv) && a % 2 == 0 && a + 2 <= |image| && Present(t.list, a)
    ensures
      var rest := Without(t.list, Lookup(t.list, a));
      Inv(Target(Poke(t.mem, a, Opcode(riscv)), rest + [Entry(a, Saved(t.mem, a))]), image, riscv)
      <==> image[a..a + 2] == Opcode(riscv)
  {
    hide Lookup, Present, DistinctAddresses;
    var k := FoundAt(t.list, a);
    var rest, e := Without(t.list, k), Entry(a, Saved(t.mem, a));
    ListedIsPlanted(t, image, riscv, a);
    PokeSame(t.mem, a, Opcode(riscv));
    assert Saved(image, a)[..2] == image[a..a + 2] && Saved(t.mem, a)[..2] == Opcode(riscv);
    assert (rest + [e])[|rest|] == e;
    if image[a..a + 2] == Opcode(riscv) {
      UnlistedIff(t, image, riscv, a);
      PresentWithout(t.list, k);
      DistinctAppend(rest, e);
      PlantedIsExpected(t.(list := rest), image, riscv, a, e);
    }
  }

  /**
   * Planting, for every outcome of its accesses: the invariant survives if and
   * only if the image holds the opcode there anyway, or a live breakpoint could be
   * verified, or no full table was left with an undo that failed.
   */
  lemma AddKeepsInvIff(t: Target, image: seq<byte>, riscv: bool, a: nat, io: Io)
    requires Inv(t, image, riscv) && a % 2 == 0 && a + 2 <= |image|
    ensures
      Inv(Add(t, a, riscv, io).0, image, riscv) <==>
      || image[a..a + 2] == Opcode(riscv)
      || if Present(t.list, a) then io.verify
         else !(io.read && io.write && |t.list| >= MAX_BREAKPOINTS && !io.undo)
  {
    hide Lookup, Inv, Saved;
    InvBounds(t, image, riscv);
    ListedIsPlanted(t, image, riscv, a);
    if Present(t.list, a) {
      UnlistedIff(t, image, riscv, a);
      ReplantedIff(t, image, riscv, a);
    } else {
      UnundoneIff(t, image, riscv, a);
      AddKeepsInv(t, image, riscv, a);
    }
  }

  lemma InvBounds(t: Target, image: seq<byte>, riscv: bool)
    requires Inv(t, image, riscv)
    ensures |t.mem| == |image| && |t.list| <= MAX_BREAKPOINTS
  {
  }

  /** Removing: only a failed restoring write breaks it, unless the image holds the opcode anyway. */
  lemma RemoveKeepsInvIff(t: Target, image: seq<byte>, riscv: bool, a: nat, io: Io)
    requires Inv(t, image, riscv) && a % 2 == 0 && a + 2 <= |image|
    ensures
      Inv(Remove(t, a, io).0, image, riscv) <==>
      image[a..a + 2] == Opcode(riscv) || !(Present(t.list, a) && io.read && !io.write)
  {
    hide Lookup, Inv;
    InvBounds(t, image, riscv);
    RemoveKeepsInv(t, image, riscv, a);
    if Present(t.list, a) {
      UnlistedIff(t, image, riscv, a);
    }
  }

  /** A failed restoring write is forgotten: the invariant survives it exactly when there was nothing to restore. */
  lemma FailedRestoreIff(t: Target, image: seq<byte>, riscv: bool, a: nat)
    requires Inv(t, image, riscv) && a % 2 == 0 && a + 2 <= |image| && Present(t.list, a)
    ensures
      var u := Remove(t, a, ALL_WELL.(write := false)).0;
      Inv(u, image, riscv) <==> image[a..a + 2] == Opcode(riscv)
  {
    RemoveKeepsInvIff(t, image, riscv, a, ALL_WELL.(write := false));
  }

  /**
   * A failed verifying read on a live breakpoint replaces its saved bytes by
   * the opcode itself: the table stays truthful exactly when the original
   * bytes were the opcode.
   */
  lemma FailedVerifyIff(t: Target, image: seq<byte>, riscv: bool, a: nat)
    requires Inv(t, image, riscv) && a % 2 == 0 && a + 2 <= |image| && Present(t.list, a)
    ensures
      var (u, ok) := Add(t, a, riscv, ALL_WELL.(verify := false));
      && ok && u.mem == t.mem
      && u.list[|u.list| - 1] == Entry(a, Opcode(riscv) + [0, 0])
      && (u.list[|u.list| - 1].saved == Saved(image, a) <==> image[a..a + 2] == Opcode(riscv))
  {
    ListedIsPlanted(t, image, riscv, a);
    var u := Add(t, a, riscv, ALL_WELL.(verify := false)).0;
    assert u.mem == t.mem;
    assert Saved(image, a)[..2] == image[a..a + 2];
    assert (Opcode(riscv) + [0, 0])[..2] == Opcode(riscv);
  }

  // ---- The commands as the probe runs them --------------------------------

  /** Memory is a whole number of pages of even size. */
  predicate Geometry(pageSize: nat, size: nat) {
    pageSize > 0 && pageSize % 2 == 0 && size % pageSize == 0
  }

  class Patcher {
    const riscv: bool
    const pageSize: nat
    const tempBuffer: array<byte>
    var mem: seq<byte>
    var list: seq<Entry>

    ghost predicate Valid()
      reads this
    {
      Geometry(pageSize, |mem|) && 0 < pageSize <= MAX_SECTOR_SIZE == tempBuffer.Length
    }

    ghost function Abs(): Target
      reads this
    {
      Target(mem, list)
    }

    constructor (riscv: bool, pageSize: nat, mem: seq<byte>)
      requires Geometry(pageSize, |mem|) && pageSize <= MAX_SECTOR_SIZE
      ensures Valid() && Abs() == Target(mem, []) && this.riscv == riscv && this.pageSize == pageSize
    {
      this.riscv, this.pageSize, this.mem := riscv, pageSize, mem;
      tempBuffer := new byte[MAX_SECTOR_SIZE](_ => 0);
      list := [];
    }

    /** `bmp_read_mem` of one page into the buffer. */
    method ReadPage(page: nat, succeeds: bool) returns (ok: bool)
      requires Valid() && page + pageSize <= |mem|
      modifies tempBuffer
      ensures ok == succeeds
      ensures ok ==> tempBuffer[..pageSize] == mem[page..page + pageSize]
    {
      if succeeds {
        forall i | 0 <= i < pageSize { tempBuffer[i] := mem[page + i]; }
      }
      return succeeds;
    }

    /** `bmp_overwrite_flash` of one page from the buffer; a failing one leaves flash alone. */
    method OverwritePage(page: nat, succeeds: bool) returns (ok: bool)
      requires Valid() && page + pageSize <= |mem|
      modifies this`mem
      ensures Valid() && ok == succeeds
      ensures mem == if ok then Poke(old(mem), page, tempBuffer[..pageSize]) else old(mem)
    {
      if succeeds {
        mem := Poke(mem, page, tempBuffer[..pageSize]);
      }
      return succeeds;
    }

    /** Two bytes of the buffered page. */
    method PatchBuffer(offset: nat, b0: byte, b1: byte)
      requires Valid() && offset + 2 <= pageSize
      modifies tempBuffer
      ensures tempBuffer[..pageSize] == Poke(old(tempBuffer[..pageSize]), offset, [b0, b1])
    {
      tempBuffer[offset] := b0;
      tempBuffer[offset + 1] := b1;
    }

    method AddBreakpoint(a: nat, io: Io) returns (ok: bool)
      requires Valid() && a % 2 == 0 && a + 2 <= |mem|
      modifies this, tempBuffer
      ensures Valid() && (Abs(), ok) == Add(old(Abs()), a, riscv, io)
    {
      hide Lookup, Geometry, WordOf, HalfOf, PageOf;
      var index := LookupIndex(list, a);
      if index.Some? {
        var word, offset := WordOf(a), HalfOf(a);
        WordAndHalf(a);
        if io.verify && mem[word + offset] == Opcode(riscv)[0] && mem[word + offset + 1] == Opcode(riscv)[1] {
          assert mem[a..a + 2] == Opcode(riscv);
          return true;
        }
        list := Without(list, index.value);
      }
      var page := PageOf(a, pageSize);
      PageFits(a, pageSize, |mem|);
      ok := PlantAt(page, a - page, io);
    }

    /** The second half of `add_mw_breakpoint`. */
    method PlantAt(page: nat, offset: nat, io: Io) returns (ok: bool)
      requires Valid() && page + pageSize <= |mem| && offset + 2 <= pageSize
      modifies this, tempBuffer
      ensures Valid() && (Abs(), ok) == Plant(old(Abs()), page + offset, riscv, io)
    {
      hide Geometry;
      var done := ReadPage(page, io.read);
      if !done {
        return false;
      }
      ghost var mem0, op := mem, Opcode(riscv);
      var saved := [tempBuffer[offset], tempBuffer[offset + 1], 0, 0];
      BufferedPair(mem, page, pageSize, offset, tempBuffer[..pageSize]);
      PagePoke(mem, page, pageSize, offset, op);
      PageUndo(mem, page, pageSize, offset, op);
      PatchBuffer(offset, Opcode(riscv)[0], Opcode(riscv)[1]);
      assert op == [op[0], op[1]];
      done := OverwritePage(page, io.write);
      if !done {
        return false;
      }
      if |list| >= MAX_BREAKPOINTS {
        PatchBuffer(offset, saved[0], saved[1]);
        done := OverwritePage(page, io.undo);
        return false;
      }
      list := list + [Entry(page + offset, saved)];
      return true;
    }

    method RemoveBreakpoint(a: nat, io: Io) returns (ok: bool)
      requires Valid() && a % 2 == 0 && a + 2 <= |mem|
      modifies this, tempBuffer
      ensures Valid() && (Abs(), ok) == Remove(old(Abs()), a, io)
    {
      hide Lookup, Geometry, WordOf, HalfOf, PageOf;
      var index := LookupIndex(list, a);
      if index.None? {
        return true;
      }
      var page := PageOf(a, pageSize);
      PageFits(a, pageSize, |mem|);
      ok := RestoreAt(page, a - page, index.value, io);
    }

    /** The second half of `remove_mw_breakpoint`. */
    method RestoreAt(page: nat, offset: nat, index: nat, io: Io) returns (ok: bool)
      requires Valid() && page + pageSize <= |mem| && offset + 2 <= pageSize && index < |list|
      modifies this, tempBuffer
      ensures Valid() && ok == io.read
      ensures !ok ==> Abs() == old(Abs())
      ensures ok ==> list == Without(old(list), index)
      ensures ok ==> mem == if io.write then Poke(old(mem), page + offset, old(list)[index].saved[..2]) else old(mem)
    {
      hide Geometry;
      var done := ReadPage(page, io.read);
      if !done {
        return false;
      }
      var bk := list[index];
      assert bk.saved[..2] == [bk.saved[0], bk.saved[1]];
      PagePoke(mem, page, pageSize, offset, bk.saved[..2]);
      PatchBuffer(offset, bk.saved[0], bk.saved[1]);
      done := OverwritePage(page, io.write);
      list := Without(list, index);
      return true;
    }
  }

  /** `address & !3`. */
  function WordOf(a: nat): nat {
    a - a % 4
  }

  /** `address & 2`. */
  function HalfOf(a: nat): nat {
    a / 2 % 2 * 2
  }

  lemma WordAndHalf(a: nat)
    requires a % 2 == 0
    ensures WordOf(a) + HalfOf(a) == a
  {
  }

  /** `address & !(pageSize - 1)`. */
  function PageOf(a: nat, pageSize: nat): nat
    requires pageSize > 0
  {
    a - a % pageSize
  }

  function Times(x: nat, y: nat): nat {
    x * y
  }

  lemma Divide(a: nat, p: nat) returns (q: nat, r: nat)
    requires p > 0
    ensures a == Times(q, p) + r && r == a % p && r < p
  {
    q, r := a / p, a % p;
  }

  lemma EvenRemainder(a: nat, q: nat, p: nat, r: nat)
    requires a == Times(q, p) + r && a % 2 == 0 && p % 2 == 0
    ensures r % 2 == 0
  {
    var h := p / 2;
    assert p == 2 * h;
    assert q * p == 2 * (q * h);
  }

  lemma PageEnds(q: nat, r: nat, n: nat, p: nat)
    requires Times(q, p) + r < Times(n, p)
    ensures Times(q, p) + p <= Times(n, p)
  {
    if q >= n {
      Multiple(n, q, p);
    } else {
      Multiple(q + 1, n, p);
      assert (q + 1) * p == q * p + p;
    }
  }

  lemma Multiple(x: nat, y: nat, p: nat)
    requires x <= y
    ensures x * p <= y * p
  {
  }

  /** An even address and its successor lie in one page, and the page in memory. */
  lemma PageFits(a: nat, pageSize: nat, size: nat)
    requires Geometry(pageSize, size) && a % 2 == 0 && a < size
    ensures var page := PageOf(a, pageSize);
            page <= a && a - page + 2 <= pageSize && page + pageSize <= size
  {
    hide Times;
    var q, r := Divide(a, pageSize);
    var n, zero := Divide(size, pageSize);
    EvenRemainder(a, q, pageSize, r);
    PageEnds(q, r, n, pageSize);
  }

  lemma BufferedPair(mem: seq<byte>, page: nat, pageSize: nat, offset: nat, buffer: seq<byte>)
    requires page + pageSize <= |mem| && offset + 2 <= pageSize && buffer == mem[page..page + pageSize]
    ensures Saved(mem, page + offset) == [buffer[offset], buffer[offset + 1], 0, 0]
    ensures mem[page + offset..page + offset + 2] == [buffer[offset], buffer[offset + 1]]
  {
  }

  /** Patching the buffered page and overwriting the page changes just the patched bytes. */
  lemma PagePoke(mem: seq<byte>, page: nat, pageSize: nat, offset: nat, b: seq<byte>)
    requires page + pageSize <= |mem| && offset + |b| <= pageSize
    ensures Poke(mem, page, Poke(mem[page..page + pageSize], offset, b)) == Poke(mem, page + offset, b)
  {
  }

  lemma PageUndo(mem: seq<byte>, page: nat, pageSize: nat, offset: nat, b: seq<byte>)
    requires page + pageSize <= |mem| && offset + 2 <= pageSize && |b| == 2
    ensures
      var patched := Poke(mem[page..page + pageSize], offset, b);
      Poke(Poke(mem, page + offset, b), page, Poke(patched, offset, mem[page + offset..page + offset + 2])) == mem
  {
  }
}

/** Breakpoints in RAM: the aligned word around the address is saved, patched and written back. */
module RamBreakpoints {
  import opened Bytes
  import opened Breakpoints

  /** Outcomes of the accesses of one command: word read, word write, undoing write. */
  datatype Io = Io(read: bool, write: bool, undo: bool)

  const ALL_WELL := Io(true, true, true)

  /** RAM as aligned words (word `k` is at address `4 * k`), and the table. */
  datatype Ram = Ram(words: seq<Word>, list: seq<Entry>)

  /** `address & 2`. */
  function Half(a: nat): (h: nat)
    ensures h == 0 || h == 2
  {
    a / 2 % 2 * 2
  }

  /** `patch_code` on a word. */
  function Patch(w: Word, a: nat, riscv: bool): (p: Word)
    ensures p[Half(a)..Half(a) + 2] == Opcode(riscv)
    ensures p[2 - Half(a)..4 - Half(a)] == w[2 - Half(a)..4 - Half(a)]
  {
    Poke(w, Half(a), Opcode(riscv))
  }

  /** `add_sw_breakpoint`. */
  function Add(t: Ram, a: nat, riscv: bool, io: Io): (Ram, bool)
    requires a / 4 < |t.words|
  {
    if Present(t.list, a) then (t, true)
    else if !io.read || !io.write then (t, false)
    else
      var word := t.words[a / 4];
      var patched := t.words[a / 4 := Patch(word, a, riscv)];
      if |t.list| >= MAX_BREAKPOINTS then (if io.undo then t else t.(words := patched), false)
      else (Ram(patched, t.list + [Entry(a, word)]), true)
  }

  function Succeeds(n: nat): bool { true }

  /**
   * `remove_sw_breakpoint`: every entry for the address, first to last. `write(n)`
   * is the outcome of the write made while the table has `n` entries.
   */
  function Remove(t: Ram, a: nat, write: nat -> bool): (u: Ram)
    requires a / 4 < |t.words|
    ensures |u.words| == |t.words| && !Present(u.list, a)
    decreases |t.list|
  {
    if !Present(t.list, a) then t else
      var i := Lookup(t.list, a);
      var words := if write(|t.list|) then t.words[a / 4 := t.list[i].saved] else t.words;
      Remove(Ram(words, Without(t.list, i)), a, write)
  }

  // ---- Undoing in the opposite order -------------------------------------

  lemma LookupAppended(list: seq<Entry>, e: Entry)
    requires !Present(list, e.address)
    ensures Lookup(list + [e], e.address) == |list|
  {
    if list != [] {
      assert (list + [e])[1..] == list[1..] + [e];
      LookupAppended(list[1..], e);
    }
  }

  /** Whatever is planted already, planting and removing one more breakpoint is the identity. */
  lemma RemoveUndoesAdd(t: Ram, a: nat, riscv: bool)
    requires a / 4 < |t.words| && !Present(t.list, a) && |t.list| < MAX_BREAKPOINTS
    ensures Add(t, a, riscv, ALL_WELL).1
    ensures Remove(Add(t, a, riscv, ALL_WELL).0, a, Succeeds) == t
  {
    var u := Add(t, a, riscv, ALL_WELL).0;
    LookupAppended(t.list, Entry(a, t.words[a / 4]));
    assert Without(u.list, |t.list|) == t.list;
    assert u.words[a / 4 := t.words[a / 4]] == t.words;
  }

  function AddAll(t: Ram, addrs: seq<nat>, riscv: bool): (u: Ram)
    requires forall i :: 0 <= i < |addrs| ==> addrs[i] / 4 < |t.words|
    ensures |u.words| == |t.words|
  {
    if addrs == [] then t else
      var n := |addrs| - 1;
      Add(AddAll(t, addrs[..n], riscv), addrs[n], riscv, ALL_WELL).0
  }

  /** Last planted, first removed. */
  function RemoveAllReversed(t: Ram, addrs: seq<nat>): (u: Ram)
    requires forall i :: 0 <= i < |addrs| ==> addrs[i] / 4 < |t.words|
    decreases |addrs|
  {
    if addrs == [] then t else
      var n := |addrs| - 1;
      RemoveAllReversed(Remove(t, addrs[n], Succeeds), addrs[..n])
  }

  lemma AddAllLists(t: Ram, addrs: seq<nat>, riscv: bool)
    requires forall i :: 0 <= i < |addrs| ==> addrs[i] / 4 < |t.words|
    requires t.list == [] && |addrs| <= MAX_BREAKPOINTS
    requires forall i, j :: 0 <= i < j < |addrs| ==> addrs[i] != addrs[j]
    ensures
      var u := AddAll(t, addrs, riscv);
      |u.list| == |addrs| && forall i :: 0 <= i < |addrs| ==> u.list[i].address == addrs[i]
    decreases |addrs|
  {
    hide Add, Present, Lookup;
    if addrs != [] {
      var n := |addrs| - 1;
      var u := AddAll(t, addrs[..n], riscv);
      AddAllLists(t, addrs[..n], riscv);
      PresentIff(u.list, addrs[n]);
      AddAppends(u, addrs[n], riscv);
    }
  }

  lemma AddAppends(t: Ram, a: nat, riscv: bool)
    requires a / 4 < |t.words| && !Present(t.list, a) && |t.list| < MAX_BREAKPOINTS
    ensures Add(t, a, riscv, ALL_WELL).0.list == t.list + [Entry(a, t.words[a / 4])]
  {
  }

  /** Removing in the opposite order restores memory and table even when breakpoints share words. */
  lemma {:induction false} ReverseOrderRestores(t: Ram, addrs: seq<nat>, riscv: bool)
    requires forall i :: 0 <= i < |addrs| ==> addrs[i] / 4 < |t.words|
    requires t.list == [] && |addrs| <= MAX_BREAKPOINTS
    requires forall i, j :: 0 <= i < j < |addrs| ==> addrs[i] != addrs[j]
    ensures RemoveAllReversed(AddAll(t, addrs, riscv), addrs) == t
    decreases |addrs|
  {
    if addrs != [] {
      var n := |addrs| - 1;
      var u := AddAll(t, addrs[..n], riscv);
      AddAllLists(t, addrs[..n], riscv);
      PresentIff(u.list, addrs[n]);
      RemoveUndoesAdd(u, addrs[n], riscv);
      ReverseOrderRestores(t, addrs[..n], riscv);
    }
  }

  /** The byte of memory at an address. */
  function ByteAt(words: seq<Word>, address: nat): byte
    requires address / 4 < |words|
  {
    words[address / 4][address % 4]
  }

  /**
   * A breakpoint that is newly planted is at its address: the halfword there is the
   * opcode, and no other byte of memory has changed.
   */
  lemma PlantedAtAddress(t: Ram, a: nat, riscv: bool, io: Io, other: nat)
    requires a % 2 == 0 && a / 4 < |t.words| && other / 4 < |t.words|
    requires !Present(t.list, a) && Add(t, a, riscv, io).1
    ensures
      var words := Add(t, a, riscv, io).0.words;
      && |words| == |t.words| && (a + 1) / 4 < |words|
      && ByteAt(words, a) == (if riscv then 0x02 else 0x00)
      && ByteAt(words, a + 1) == (if riscv then 0x90 else 0xBE)
      && (other != a && other != a + 1 ==> ByteAt(words, other) == ByteAt(t.words, other))
  {
    hide Lookup, Present, Patch, Half, Opcode;
    OpcodeBytes();
    HalfwordAt(a);
    OtherByte(a, other);
    PatchedBytes(t.words[a / 4], a, riscv);
  }

  lemma PatchedBytes(w: Word, a: nat, riscv: bool)
    ensures forall i :: 0 <= i < 4 ==>
              Patch(w, a, riscv)[i] ==
              if i == Half(a) then Opcode(riscv)[0] else if i == Half(a) + 1 then Opcode(riscv)[1] else w[i]
  {
    hide Half, Opcode;
  }

  lemma HalfwordAt(a: nat)
    requires a % 2 == 0
    ensures Half(a) == a % 4 && (a + 1) / 4 == a / 4 && (a + 1) % 4 == a % 4 + 1
  {
    var q, r := a / 4, a % 4;
    assert a == 4 * q + r && r % 2 == 0;
    assert a / 2 == 2 * q + r / 2;
    assert r == 0 || r == 2;
  }

  lemma OtherByte(a: nat, other: nat)
    ensures other / 4 == a / 4 && other % 4 == a % 4 ==> other == a
    ensures other / 4 == a / 4 && a % 2 == 0 && other % 4 == a % 4 + 1 ==> other == a + 1
  {
  }

  /** The answer, for every outcome of the accesses; a refused insertion has no entry. */
  lemma AddAnswersIff(t: Ram, a: nat, riscv: bool, io: Io)
    requires a / 4 < |t.words|
    ensures Add(t, a, riscv, io).1 <==> Present(t.list, a) || (io.read && io.write && |t.list| < 16)
    ensures !Add(t, a, riscv, io).1 ==> Add(t, a, riscv, io).0.list == t.list
  {
  }

  /** A second insertion of a live breakpoint does nothing. */
  lemma AddIdempotent(t: Ram, a: nat, riscv: bool, io: Io, again: Io)
    requires a / 4 < |t.words|
    ensures
      var (u, ok) := Add(t, a, riscv, io);
      ok ==> Add(u, a, riscv, again) == (u, true)
  {
    var (u, ok) := Add(t, a, riscv, io);
    if ok && !Present(t.list, a) {
      PresentIff(u.list, a);
      assert u.list[|t.list|].address == a;
    }
  }

  // ---- Any order, words shared or not -------------------------------------

  predicate HoldsOpcode(w: Word, a: nat, riscv: bool) {
    w[Half(a)..Half(a) + 2] == Opcode(riscv)
  }

  lemma PatchIsIdentityIff(w: Word, a: nat, riscv: bool)
    ensures Patch(w, a, riscv) == w <==> HoldsOpcode(w, a, riscv)
  {
    var h := Half(a);
    if w[h..h + 2] == Opcode(riscv) {
      assert forall i :: h <= i < h + 2 ==> w[i] == w[h..h + 2][i - h];
      assert Patch(w, a, riscv) == w;
    }
  }

  /** Word `k`, holding `w` at first, after planting `addrs` in order. */
  function PlantWord(w: Word, addrs: seq<nat>, k: nat, riscv: bool): Word {
    if addrs == [] then w else
      var n := |addrs| - 1;
      var p := PlantWord(w, addrs[..n], k, riscv);
      if addrs[n] / 4 == k then Patch(p, addrs[n], riscv) else p
  }

  /** What is planted stays planted. */
  lemma {:induction false} PlantedHolds(w: Word, addrs: seq<nat>, k: nat, riscv: bool, i: nat)
    requires i < |addrs| && addrs[i] / 4 == k
    ensures HoldsOpcode(PlantWord(w, addrs, k, riscv), addrs[i], riscv)
    decreases |addrs|
  {
    var n := |addrs| - 1;
    if i < n {
      PlantedHolds(w, addrs[..n], k, riscv, i);
      KeepsOther(PlantWord(w, addrs[..n], k, riscv), addrs[i], addrs[n], riscv);
    }
  }

  lemma KeepsOther(w: Word, a: nat, b: nat, riscv: bool)
    requires HoldsOpcode(w, a, riscv)
    ensures HoldsOpcode(Patch(w, b, riscv), a, riscv)
  {
  }

  /** Planting leaves a word as it was exactly when every address in it held the opcode. */
  lemma {:induction false} PlantWordIff(w: Word, addrs: seq<nat>, k: nat, riscv: bool)
    ensures PlantWord(w, addrs, k, riscv) == w <==>
            forall i :: 0 <= i < |addrs| && addrs[i] / 4 == k ==> HoldsOpcode(w, addrs[i], riscv)
    decreases |addrs|
  {
    hide Patch, HoldsOpcode;
    if addrs != [] {
      var n := |addrs| - 1;
      if forall i :: 0 <= i < |addrs| && addrs[i] / 4 == k ==> HoldsOpcode(w, addrs[i], riscv) {
        PlantWordIff(w, addrs[..n], k, riscv);
        PatchIsIdentityIff(w, addrs[n], riscv);
      } else {
        var i :| 0 <= i < |addrs| && addrs[i] / 4 == k && !HoldsOpcode(w, addrs[i], riscv);
        PlantedHolds(w, addrs, k, riscv, i);
      }
    }
  }

  /** Distinct addresses in memory, few enough for the table. */
  ghost predicate Plantable(addrs: seq<nat>, size: nat) {
    && |addrs| <= MAX_BREAKPOINTS
    && (forall i :: 0 <= i < |addrs| ==> addrs[i] / 4 < size)
    && (forall i, j :: 0 <= i < j < |addrs| ==> addrs[i] != addrs[j])
  }

  /** The entries and the words after planting. */
  ghost predicate PlantedList(list: seq<Entry>, image: seq<Word>, addrs: seq<nat>, riscv: bool) {
    && |list| == |addrs|
    && forall i :: 0 <= i < |addrs| ==>
         && addrs[i] / 4 < |image|
         && list[i] == Entry(addrs[i], PlantWord(image[addrs[i] / 4], addrs[..i], addrs[i] / 4, riscv))
  }

  ghost predicate PlantedWords(words: seq<Word>, image: seq<Word>, addrs: seq<nat>, riscv: bool) {
    |words| == |image| && forall k :: 0 <= k < |image| ==> words[k] == PlantWord(image[k], addrs, k, riscv)
  }

  ghost predicate Planted(u: Ram, image: seq<Word>, addrs: seq<nat>, riscv: bool) {
    PlantedList(u.list, image, addrs, riscv) && PlantedWords(u.words, image, addrs, riscv)
  }

  lemma PlantWordSnoc(w: Word, addrs: seq<nat>, k: nat, riscv: bool)
    requires addrs != []
    ensures
      var n := |addrs| - 1;
      var p := PlantWord(w, addrs[..n], k, riscv);
      PlantWord(w, addrs, k, riscv) == if addrs[n] / 4 == k then Patch(p, addrs[n], riscv) else p
  {
  }

  lemma PlantedListSnoc(list: seq<Entry>, image: seq<Word>, addrs: seq<nat>, riscv: bool, e: Entry)
    requires addrs != [] && PlantedList(list, image, addrs[..|addrs| - 1], riscv)
    requires
      var n := |addrs| - 1;
      addrs[n] / 4 < |image|
      && e == Entry(addrs[n], PlantWord(image[addrs[n] / 4], addrs[..n], addrs[n] / 4, riscv))
    ensures PlantedList(list + [e], image, addrs, riscv)
  {
    hide PlantWord;
    var n := |addrs| - 1;
    forall i | 0 <= i < |addrs|
      ensures addrs[i] / 4 < |image|
      ensures (list + [e])[i] == Entry(addrs[i], PlantWord(image[addrs[i] / 4], addrs[..i], addrs[i] / 4, riscv))
    {
      if i < n {
        assert addrs[..n][i] == addrs[i] && addrs[..n][..i] == addrs[..i];
      }
    }
  }

  lemma PlantedWordsSnoc(words: seq<Word>, image: seq<Word>, addrs: seq<nat>, riscv: bool)
    requires addrs != [] && addrs[|addrs| - 1] / 4 < |image|
    requires PlantedWords(words, image, addrs[..|addrs| - 1], riscv)
    ensures
      var a := addrs[|addrs| - 1];
      PlantedWords(words[a / 4 := Patch(words[a / 4], a, riscv)], image, addrs, riscv)
  {
    hide Patch, PlantWord;
    var a := addrs[|addrs| - 1];
    var words' := words[a / 4 := Patch(words[a / 4], a, riscv)];
    forall k | 0 <= k < |image|
      ensures words'[k] == PlantWord(image[k], addrs, k, riscv)
    {
      PlantWordSnoc(image[k], addrs, k, riscv);
    }
  }

  lemma AddPlants(t: Ram, a: nat, riscv: bool)
    requires a / 4 < |t.words| && !Present(t.list, a) && |t.list| < MAX_BREAKPOINTS
    ensures Add(t, a, riscv, ALL_WELL).0 ==
            Ram(t.words[a / 4 := Patch(t.words[a / 4], a, riscv)], t.list + [Entry(a, t.words[a / 4])])
  {
  }

  lemma {:induction false} PlantedState(image: seq<Word>, addrs: seq<nat>, riscv: bool)
    requires Plantable(addrs, |image|)
    ensures Planted(AddAll(Ram(image, []), addrs, riscv), image, addrs, riscv)
    decreases |addrs|
  {
    hide Patch, Lookup, Present, Add;
    if addrs != [] {
      var n := |addrs| - 1;
      PlantedState(image, addrs[..n], riscv);
      var u := AddAll(Ram(image, []), addrs[..n], riscv);
      PresentIff(u.list, addrs[n]);
      AddPlants(u, addrs[n], riscv);
      PlantedWordsSnoc(u.words, image, addrs, riscv);
      PlantedListSnoc(u.list, image, addrs, riscv, Entry(addrs[n], u.words[addrs[n] / 4]));
    }
  }

  lemma PlantedDistinct(u: Ram, image: seq<Word>, addrs: seq<nat>, riscv: bool)
    requires Planted(u, image, addrs, riscv) && Distinct(addrs)
    ensures DistinctAddresses(u.list)
    ensures forall i :: 0 <= i < |addrs| ==>
              && Present(u.list, addrs[i])
              && SavedFor(u.list, addrs[i]) == PlantWord(image[addrs[i] / 4], addrs[..i], addrs[i] / 4, riscv)
  {
    hide PlantWord, Present, SavedFor;
    forall i | 0 <= i < |addrs| {
      SavedAt(u.list, i);
    }
  }

  function RemoveEach(t: Ram, addrs: seq<nat>): (u: Ram)
    requires forall i :: 0 <= i < |addrs| ==> addrs[i] / 4 < |t.words|
    ensures |u.words| == |t.words|
    decreases |addrs|
  {
    if addrs == [] then t else RemoveEach(Remove(t, addrs[0], Succeeds), addrs[1..])
  }

  /** The address of word `k` that is removed last. */
  function LastFor(order: seq<nat>, k: nat): (r: Option<nat>)
    ensures r.Some? ==> r.value in order && r.value / 4 == k
    ensures r.None? ==> forall i :: 0 <= i < |order| ==> order[i] / 4 != k
  {
    if order == [] then None else
      match LastFor(order[1..], k)
      case Some(a) => Some(a)
      case None => if order[0] / 4 == k then Some(order[0]) else None
  }

  ghost predicate Distinct(order: seq<nat>) {
    forall i, j :: 0 <= i < j < |order| ==> order[i] != order[j]
  }

  lemma RemoveListed(t: Ram, a: nat)
    requires a / 4 < |t.words| && Present(t.list, a) && DistinctAddresses(t.list)
    ensures
      var i := Lookup(t.list, a);
      Remove(t, a, Succeeds) == Ram(t.words[a / 4 := t.list[i].saved], Without(t.list, i))
  {
    var i := Lookup(t.list, a);
    PresentIff(Without(t.list, i), a);
    RemoveAbsent(Ram(t.words[a / 4 := t.list[i].saved], Without(t.list, i)), a);
  }

  /** What the table saved for `a`. */
  function SavedFor(list: seq<Entry>, a: nat): Word
    requires Present(list, a)
  {
    list[Lookup(list, a)].saved
  }

  lemma OthersStay(list: seq<Entry>, i: nat, b: nat)
    requires DistinctAddresses(list) && i < |list| && b != list[i].address
    ensures DistinctAddresses(Without(list, i))
    ensures Present(Without(list, i), b) <==> Present(list, b)
    ensures Present(list, b) ==> SavedFor(Without(list, i), b) == SavedFor(list, b)
  {
    hide Lookup, Present, SavedFor;
    var r := Without(list, i);
    PresentIff(r, b);
    PresentIff(list, b);
    if Present(list, b) {
      var k := Found(list, b);
      var k' := if k < i then k else k - 1;
      assert r[k'] == list[k];
      SavedAt(r, k');
    }
  }

  lemma SavedAt(list: seq<Entry>, i: nat)
    requires DistinctAddresses(list) && i < |list|
    ensures Present(list, list[i].address) && SavedFor(list, list[i].address) == list[i].saved
  {
    var k := Lookup(list, list[i].address);
    assert !(k < i) && !(i < k);
  }

  /** Each word ends as the entry removed last in it saved it. */
  lemma {:induction false} RemovedWords(t: Ram, order: seq<nat>, k: nat)
    requires k < |t.words| && DistinctAddresses(t.list) && Distinct(order)
    requires forall i :: 0 <= i < |order| ==> order[i] / 4 < |t.words| && Present(t.list, order[i])
    ensures
      RemoveEach(t, order).words[k] ==
      match LastFor(order, k)
      case None => t.words[k]
      case Some(a) => SavedFor(t.list, a)
    decreases |order|
  {
    hide Remove, Lookup, Present, SavedFor, Without, DistinctAddresses;
    if order != [] {
      var a := order[0];
      RemoveListed(t, a);
      var i := Found(t.list, a);
      var u := Remove(t, a, Succeeds);
      forall b | b in order[1..]
        ensures Present(u.list, b) && SavedFor(u.list, b) == SavedFor(t.list, b)
      {
        OthersStay(t.list, i, b);
      }
      OthersStay(t.list, i, a + 1);
      RemovedWords(u, order[1..], k);
    }
  }

  lemma Found(list: seq<Entry>, a: nat) returns (i: nat)
    requires Present(list, a)
    ensures i == Lookup(list, a) && i < |list| && list[i].address == a && SavedFor(list, a) == list[i].saved
  {
    i := Lookup(list, a);
  }

  /** Removing every listed address empties the table. */
  lemma {:induction false} RemovedAll(t: Ram, order: seq<nat>)
    requires DistinctAddresses(t.list)
    requires forall i :: 0 <= i < |order| ==> order[i] / 4 < |t.words|
    requires forall i :: 0 <= i < |t.list| ==> t.list[i].address in order
    ensures RemoveEach(t, order).list == []
    decreases |order|
  {
    hide Remove, Lookup, Present, Without, DistinctAddresses;
    if order == [] {
      NothingListed(t.list, order);
    } else {
      var a := order[0];
      if Present(t.list, a) {
        RemoveListed(t, a);
        var i := Found(t.list, a);
        OthersStay(t.list, i, a + 1);
        RestInOrder(t.list, i, order);
      } else {
        RemoveAbsent(t, a);
        forall j | 0 <= j < |t.list|
          ensures t.list[j].address in order[1..]
        {
          PresentIff(t.list, a);
        }
      }
      RemovedAll(Remove(t, a, Succeeds), order[1..]);
    }
  }

  lemma RestInOrder(list: seq<Entry>, i: nat, order: seq<nat>)
    requires DistinctAddresses(list) && i < |list| && order != [] && order[0] == list[i].address
    requires forall j :: 0 <= j < |list| ==> list[j].address in order
    ensures forall j :: 0 <= j < |list| - 1 ==> Without(list, i)[j].address in order[1..]
  {
  }

  lemma PermutationFacts(addrs: seq<nat>, order: seq<nat>)
    requires Distinct(addrs) && multiset(order) == multiset(addrs)
    ensures Distinct(order)
    ensures forall a :: a in order <==> a in addrs
  {
    assert forall a :: a in order <==> a in multiset(order);
    assert forall a :: a in addrs <==> a in multiset(addrs);
    forall i, j | 0 <= i < j < |order|
      ensures order[i] != order[j]
    {
      if order[i] == order[j] {
        Twice(order, i, j);
        Once(addrs, order[i]);
      }
    }
  }

  lemma Twice(s: seq<nat>, i: nat, j: nat)
    requires i < j < |s| && s[i] == s[j]
    ensures multiset(s)[s[i]] >= 2
  {
    var a, b := s[..j], s[j..];
    assert s == a + b && a[i] == s[i] && b[0] == s[i];
    assert multiset(s) == multiset(a) + multiset(b);
  }

  lemma {:induction false} Once(s: seq<nat>, x: nat)
    requires Distinct(s)
    ensures multiset(s)[x] <= 1
  {
    if s != [] {
      assert s == [s[0]] + s[1..];
      Once(s[1..], x);
      if x == s[0] {
        assert x !in s[1..];
      }
    }
  }

  /** In word `k`, every address planted before the one removed last held the opcode in the image. */
  ghost predicate EarlierHeld(image: seq<Word>, addrs: seq<nat>, order: seq<nat>, riscv: bool, k: nat)
    requires k < |image|
  {
    forall i, j :: 0 <= i < j < |addrs| && addrs[i] / 4 == k && LastFor(order, k) == Some(addrs[j]) ==>
      HoldsOpcode(image[k], addrs[i], riscv)
  }

  /** What an entry saved is the image's word exactly when the addresses planted before it there held the opcode. */
  lemma SavedIff(image: seq<Word>, addrs: seq<nat>, order: seq<nat>, riscv: bool, k: nat, j: nat)
    requires Distinct(addrs) && j < |addrs| && k < |image| && LastFor(order, k) == Some(addrs[j])
    ensures PlantWord(image[k], addrs[..j], k, riscv) == image[k] <==> EarlierHeld(image, addrs, order, riscv, k)
  {
    hide LastFor, HoldsOpcode, PlantWord;
    PlantWordIff(image[k], addrs[..j], k, riscv);
    assert forall i :: 0 <= i < j ==> addrs[..j][i] == addrs[i];
  }

  lemma Untouched(image: seq<Word>, addrs: seq<nat>, order: seq<nat>, riscv: bool, k: nat)
    requires k < |image| && LastFor(order, k) == None && forall a :: a in addrs ==> a in order
    ensures PlantWord(image[k], addrs, k, riscv) == image[k]
  {
    hide HoldsOpcode, PlantWord;
    forall i | 0 <= i < |addrs|
      ensures addrs[i] / 4 != k
    {
      assert addrs[i] in order;
    }
    PlantWordIff(image[k], addrs, k, riscv);
  }

  lemma IndexOf(s: seq<nat>, a: nat) returns (j: nat)
    requires a in s
    ensures j < |s| && s[j] == a
  {
    j :| j < |s| && s[j] == a;
  }

  /** One word of the end state is the image's exactly when the condition holds in it. */
  lemma WordRestoredIff(image: seq<Word>, addrs: seq<nat>, order: seq<nat>, riscv: bool, k: nat)
    requires Plantable(addrs, |image|) && multiset(order) == multiset(addrs) && k < |image|
    requires forall i :: 0 <= i < |order| ==> order[i] / 4 < |image|
    ensures RemoveEach(AddAll(Ram(image, []), addrs, riscv), order).words[k] == image[k] <==>
            EarlierHeld(image, addrs, order, riscv, k)
  {
    hide AddAll, RemoveEach, Lookup, Present, SavedFor, LastFor, HoldsOpcode, PlantWord, DistinctAddresses;
    PlantedState(image, addrs, riscv);
    PermutationFacts(addrs, order);
    var u := AddAll(Ram(image, []), addrs, riscv);
    PlantedDistinct(u, image, addrs, riscv);
    forall i | 0 <= i < |order|
      ensures Present(u.list, order[i])
    {
      var j := IndexOf(addrs, order[i]);
    }
    RemovedWords(u, order, k);
    match LastFor(order, k)
    case None => Untouched(image, addrs, order, riscv, k);
    case Some(a) =>
      var j := IndexOf(addrs, a);
      SavedIff(image, addrs, order, riscv, k, j);
  }

  /**
   * Any addresses planted in a fresh table and removed in any order: the table is
   * empty again, and memory is restored if and only if, in each word, every address planted before
   * the one removed last held the opcode anyway.
   */
  lemma AnyOrderRestoresIff(image: seq<Word>, addrs: seq<nat>, order: seq<nat>, riscv: bool)
    requires Plantable(addrs, |image|) && multiset(order) == multiset(addrs)
    ensures forall i :: 0 <= i < |order| ==> order[i] / 4 < |image|
    ensures
      var u := RemoveEach(AddAll(Ram(image, []), addrs, riscv), order);
      && u.list == []
      && (u.words == image <==> forall k :: 0 <= k < |image| ==> EarlierHeld(image, addrs, order, riscv, k))
  {
    hide AddAll, EarlierHeld, PlantWord, RemoveEach;
    PlantedState(image, addrs, riscv);
    PermutationFacts(addrs, order);
    OrderInRange(addrs, order, |image|);
    var u := AddAll(Ram(image, []), addrs, riscv);
    PlantedDistinct(u, image, addrs, riscv);
    RemovedAll(u, order);
    forall k | 0 <= k < |image| {
      WordRestoredIff(image, addrs, order, riscv, k);
    }
  }

  lemma OrderInRange(addrs: seq<nat>, order: seq<nat>, size: nat)
    requires Plantable(addrs, size) && forall a :: a in order <==> a in addrs
    ensures forall i :: 0 <= i < |order| ==> order[i] / 4 < size
  {
    forall i | 0 <= i < |order|
      ensures order[i] / 4 < size
    {
      assert order[i] in addrs;
    }
  }

  /**
   * Two breakpoints in one word, removed in the order they were planted:
   * memory is restored exactly when the first address held the opcode anyway.
   */
  lemma SameWordFifoIff(t: Ram, a: nat, b: nat, riscv: bool)
    requires a / 4 < |t.words| && t.list == [] && a != b && a / 4 == b / 4
    ensures
      var planted := Add(Add(t, a, riscv, ALL_WELL).0, b, riscv, ALL_WELL).0;
      var u := Remove(Remove(planted, a, Succeeds), b, Succeeds);
      u.words == t.words <==> HoldsOpcode(t.words[a / 4], a, riscv)
  {
    hide Add, Remove, HoldsOpcode, LastFor;
    var ab := [a, b];
    AnyOrderRestoresIff(t.words, ab, ab, riscv);
    TwoOf(t, a, b, riscv);
    TwoOf(AddAll(t, ab, riscv), a, b, riscv);
    LastOfTwo(a, b);
    assert ab[0] == a && ab[1] == b;
    assert EarlierHeld(t.words, ab, ab, riscv, a / 4) <==> HoldsOpcode(t.words[a / 4], a, riscv);
    assert forall k :: 0 <= k < |t.words| && k != a / 4 ==> EarlierHeld(t.words, ab, ab, riscv, k);
    assert t == Ram(t.words, []);
  }

  lemma TwoOf(t: Ram, a: nat, b: nat, riscv: bool)
    requires a / 4 < |t.words| && b / 4 < |t.words|
    ensures AddAll(t, [a, b], riscv) == Add(Add(t, a, riscv, ALL_WELL).0, b, riscv, ALL_WELL).0
    ensures RemoveEach(t, [a, b]) == Remove(Remove(t, a, Succeeds), b, Succeeds)
  {
    hide Add, Remove;
    assert [a, b][..1] == [a] && [a][..0] == [] && [a, b][1..] == [b] && [b][1..] == [];
    assert AddAll(t, [a], riscv) == Add(AddAll(t, [], riscv), a, riscv, ALL_WELL).0;
    var u := Remove(t, a, Succeeds);
    assert RemoveEach(t, [a, b]) == RemoveEach(u, [b]);
    assert RemoveEach(u, [b]) == RemoveEach(Remove(u, b, Succeeds), []);
  }

  lemma LastOfTwo(a: nat, b: nat)
    requires a / 4 == b / 4
    ensures forall k :: LastFor([a, b], k) == if k == b / 4 then Some(b) else None
  {
    assert [a, b][1..] == [b] && [b][1..] == [];
    assert forall k :: LastFor([b], k) == if k == b / 4 then Some(b) else None;
  }

  // ---- Any order, when no word is shared ---------------------------------

  /** The first entry whose address lies in word `k`, or the length of the list. */
  function Owner(list: seq<Entry>, k: nat): (i: nat)
    ensures i <= |list|
    ensures forall j :: 0 <= j < i ==> list[j].address / 4 != k
    ensures i < |list| ==> list[i].address / 4 == k
  {
    if list == [] || list[0].address / 4 == k then 0 else 1 + Owner(list[1..], k)
  }

  ghost predicate DistinctWords(list: seq<Entry>) {
    forall i, j :: 0 <= i < j < |list| ==> list[i].address / 4 != list[j].address / 4
  }

  lemma OwnerUnique(list: seq<Entry>, i: nat)
    requires DistinctWords(list) && i < |list|
    ensures Owner(list, list[i].address / 4) == i && Lookup(list, list[i].address) == i
  {
    var j := Owner(list, list[i].address / 4);
    assert !(j < i) && !(i < j);
    var k := Lookup(list, list[i].address);
    assert !(k < i) && !(i < k);
  }

  function ExpectedWord(image: seq<Word>, list: seq<Entry>, riscv: bool, k: nat): Word
    requires k < |image|
  {
    var i := Owner(list, k);
    if i < |list| then Patch(image[k], list[i].address, riscv) else image[k]
  }

  ghost predicate Inv(t: Ram, image: seq<Word>, riscv: bool) {
    && |t.words| == |image| && |t.list| <= MAX_BREAKPOINTS && DistinctWords(t.list)
    && (forall i :: 0 <= i < |t.list| ==>
          t.list[i].address / 4 < |image| && t.list[i].saved == image[t.list[i].address / 4])
    && forall k :: 0 <= k < |image| ==> t.words[k] == ExpectedWord(image, t.list, riscv, k)
  }

  lemma AddKeepsInv(t: Ram, image: seq<Word>, riscv: bool, a: nat)
    requires Inv(t, image, riscv) && a / 4 < |image|
    requires forall i :: 0 <= i < |t.list| && t.list[i].address != a ==> t.list[i].address / 4 != a / 4
    ensures
      var (u, ok) := Add(t, a, riscv, ALL_WELL);
      && Inv(u, image, riscv)
      && (ok <==> Present(t.list, a) || |t.list| < MAX_BREAKPOINTS)
      && (!ok || Present(t.list, a) ==> u == t)
      && (ok ==> Present(u.list, a))
  {
    hide Patch, Lookup;
    if !Present(t.list, a) {
      PresentIff(t.list, a);
      var k0 := a / 4;
      assert Owner(t.list, k0) == |t.list| && t.words[k0] == ExpectedWord(image, t.list, riscv, k0);
      if |t.list| < MAX_BREAKPOINTS {
        var e := Entry(a, t.words[k0]);
        AddAppends(t, a, riscv);
        PresentIff(t.list + [e], a);
        assert (t.list + [e])[|t.list|] == e;
        forall k | 0 <= k < |image| {
          PlantedWord(t, image, riscv, e, k);
        }
      }
    }
  }

  lemma PlantedWord(t: Ram, image: seq<Word>, riscv: bool, e: Entry, k: nat)
    requires Inv(t, image, riscv) && k < |image| && e.address / 4 < |image|
    requires Owner(t.list, e.address / 4) == |t.list| && e.saved == image[e.address / 4]
    ensures t.words[e.address / 4 := Patch(e.saved, e.address, riscv)][k]
         == ExpectedWord(image, t.list + [e], riscv, k)
  {
    hide Patch, Owner;
    OwnerAppend(t.list, e, k);
    assert t.words[k] == ExpectedWord(image, t.list, riscv, k);
  }

  lemma OwnerAppend(list: seq<Entry>, e: Entry, k: nat)
    ensures Owner(list + [e], k) ==
            if Owner(list, k) < |list| then Owner(list, k)
            else if e.address / 4 == k then |list| else |list| + 1
  {
    if list == [] {
      assert list + [e] == [e];
    } else {
      assert (list + [e])[1..] == list[1..] + [e];
      OwnerAppend(list[1..], e, k);
    }
  }

  lemma OwnerWithout(list: seq<Entry>, i: nat, k: nat)
    requires DistinctWords(list) && i < |list|
    ensures
      var r := Without(list, i);
      if list[i].address / 4 == k then Owner(r, k) == |r|
      else
        && (Owner(r, k) < |r| <==> Owner(list, k) < |list|)
        && (Owner(list, k) < |list| ==> r[Owner(r, k)] == list[Owner(list, k)])
  {
    var r := Without(list, i);
    var j := Owner(list, k);
    if j < |list| && j != i {
      var j' := if j < i then j else j - 1;
      assert r[j'] == list[j];
      assert DistinctWords(r);
      OwnerUnique(r, j');
    }
  }

  lemma RemoveAbsent(t: Ram, a: nat)
    requires a / 4 < |t.words| && !Present(t.list, a)
    ensures Remove(t, a, Succeeds) == t
  {
  }

  lemma RemoveOne(t: Ram, a: nat)
    requires a / 4 < |t.words| && Present(t.list, a) && DistinctWords(t.list)
    ensures
      var i := Lookup(t.list, a);
      Remove(t, a, Succeeds) == Ram(t.words[a / 4 := t.list[i].saved], Without(t.list, i))
      && DistinctWords(Without(t.list, i))
  {
    var i := Lookup(t.list, a);
    PresentIff(Without(t.list, i), a);
    RemoveAbsent(Ram(t.words[a / 4 := t.list[i].saved], Without(t.list, i)), a);
  }

  lemma RestoredWord(t: Ram, image: seq<Word>, riscv: bool, i: nat, k: nat)
    requires Inv(t, image, riscv) && i < |t.list| && k < |image|
    ensures t.words[t.list[i].address / 4 := t.list[i].saved][k] == ExpectedWord(image, Without(t.list, i), riscv, k)
  {
    hide Patch, Owner, Without;
    OwnerWithout(t.list, i, k);
    OwnerUnique(t.list, i);
    assert t.words[k] == ExpectedWord(image, t.list, riscv, k);
  }

  lemma RestoredInv(t: Ram, image: seq<Word>, riscv: bool, i: nat)
    requires Inv(t, image, riscv) && i < |t.list|
    ensures Inv(Ram(t.words[t.list[i].address / 4 := t.list[i].saved], Without(t.list, i)), image, riscv)
  {
    hide Patch, ExpectedWord;
    forall k | 0 <= k < |image| {
      RestoredWord(t, image, riscv, i, k);
    }
  }

  lemma RemoveKeepsInv(t: Ram, image: seq<Word>, riscv: bool, a: nat)
    requires Inv(t, image, riscv) && a / 4 < |image|
    ensures
      var u := Remove(t, a, Succeeds);
      && Inv(u, image, riscv)
      && u.list == if Present(t.list, a) then Without(t.list, Lookup(t.list, a)) else t.list
  {
    if Present(t.list, a) {
      RemoveOne(t, a);
      RestoredInv(t, image, riscv, Lookup(t.list, a));
    } else {
      RemoveAbsent(t, a);
    }
    hide Inv, Remove, Lookup;
  }

  /** Without shared words, removing addresses that cover the table restores the image in whatever order. */
  lemma {:induction false} AnyOrderRestores(t: Ram, image: seq<Word>, riscv: bool, addrs: seq<nat>)
    requires Inv(t, image, riscv)
    requires forall i :: 0 <= i < |addrs| ==> addrs[i] / 4 < |image|
    requires forall i :: 0 <= i < |t.list| ==> t.list[i].address in addrs
    ensures RemoveEach(t, addrs) == Ram(image, [])
    decreases |addrs|
  {
    if addrs == [] {
      NothingListed(t.list, addrs);
      EmptyTableIsImage(t, image, riscv);
    } else {
      RemoveKeepsInv(t, image, riscv, addrs[0]);
      StillCovered(t, addrs);
      AnyOrderRestores(Remove(t, addrs[0], Succeeds), image, riscv, addrs[1..]);
    }
    hide Inv, Remove;
  }

  lemma NothingListed(list: seq<Entry>, addrs: seq<nat>)
    requires forall i :: 0 <= i < |list| ==> list[i].address in addrs
    ensures addrs == [] ==> list == []
  {
    if list != [] {
      assert list[0].address in addrs;
    }
  }

  lemma EmptyTableIsImage(t: Ram, image: seq<Word>, riscv: bool)
    requires Inv(t, image, riscv) && t.list == []
    ensures t == Ram(image, [])
  {
    assert forall k :: 0 <= k < |image| ==> t.words[k] == ExpectedWord(image, t.list, riscv, k) == image[k];
  }

  lemma StillCovered(t: Ram, addrs: seq<nat>)
    requires addrs != [] && addrs[0] / 4 < |t.words| && DistinctWords(t.list)
    requires forall i :: 0 <= i < |t.list| ==> t.list[i].address in addrs
    ensures var u := Remove(t, addrs[0], Succeeds);
            forall i :: 0 <= i < |u.list| ==> u.list[i].address in addrs[1..]
  {
    var a, u := addrs[0], Remove(t, addrs[0], Succeeds);
    if Present(t.list, a) {
      RemoveOne(t, a);
    } else {
      RemoveAbsent(t, a);
    }
    forall i | 0 <= i < |u.list|
      ensures u.list[i].address in addrs[1..]
    {
      PresentIff(u.list, u.list[i].address);
      assert u.list[i].address in addrs;
    }
  }

  /** Addresses in pairwise different words. */
  ghost predicate Apart(addrs: seq<nat>) {
    forall i, j :: 0 <= i < j < |addrs| ==> addrs[i] / 4 != addrs[j] / 4
  }

  lemma FreshInv(image: seq<Word>, riscv: bool)
    ensures Inv(Ram(image, []), image, riscv)
  {
  }

  /** Planting in different words reaches the invariant. */
  lemma {:induction false} PlantingsKeepInv(image: seq<Word>, addrs: seq<nat>, riscv: bool)
    requires Plantable(addrs, |image|) && Apart(addrs)
    ensures
      var u := AddAll(Ram(image, []), addrs, riscv);
      && Inv(u, image, riscv)
      && |u.list| == |addrs| && forall i :: 0 <= i < |addrs| ==> u.list[i].address == addrs[i]
    decreases |addrs|
  {
    hide Inv, Add, AddAll;
    AddAllLists(Ram(image, []), addrs, riscv);
    if addrs == [] {
      FreshInv(image, riscv);
      NothingAdded(Ram(image, []), riscv);
    } else {
      var n := |addrs| - 1;
      var u := AddAll(Ram(image, []), addrs[..n], riscv);
      PlantingsKeepInv(image, addrs[..n], riscv);
      AddAllSnoc(Ram(image, []), addrs, riscv);
      AddKeepsInv(u, image, riscv, addrs[n]);
    }
  }

  lemma NothingAdded(t: Ram, riscv: bool)
    ensures AddAll(t, [], riscv) == t
  {
  }

  lemma AddAllSnoc(t: Ram, addrs: seq<nat>, riscv: bool)
    requires addrs != [] && forall i :: 0 <= i < |addrs| ==> addrs[i] / 4 < |t.words|
    ensures
      var n := |addrs| - 1;
      AddAll(t, addrs, riscv) == Add(AddAll(t, addrs[..n], riscv), addrs[n], riscv, ALL_WELL).0
  {
  }

  /** End to end: breakpoints in different words, planted and then removed in any order that covers them. */
  lemma PlantThenRemove(image: seq<Word>, addrs: seq<nat>, order: seq<nat>, riscv: bool)
    requires Plantable(addrs, |image|) && Apart(addrs)
    requires forall i :: 0 <= i < |order| ==> order[i] / 4 < |image|
    requires forall i :: 0 <= i < |addrs| ==> addrs[i] in order
    ensures RemoveEach(AddAll(Ram(image, []), addrs, riscv), order) == Ram(image, [])
  {
    hide Inv, AddAll, RemoveEach;
    PlantingsKeepInv(image, addrs, riscv);
    AnyOrderRestores(AddAll(Ram(image, []), addrs, riscv), image, riscv, order);
  }

  // ---- When accesses fail --------------------------------------------------

  /** Memory is the same with or without the entry when the image holds the opcode there anyway. */
  lemma UnlistedIff(t: Ram, image: seq<Word>, riscv: bool, i: nat)
    requires Inv(t, image, riscv) && i < |t.list|
    ensures
      var a := t.list[i].address;
      Inv(Ram(t.words, Without(t.list, i)), image, riscv) <==> HoldsOpcode(image[a / 4], a, riscv)
  {
    hide Patch, HoldsOpcode, Without, Owner;
    var a := t.list[i].address;
    var k := a / 4;
    PatchIsIdentityIff(image[k], a, riscv);
    OwnerUnique(t.list, i);
    OwnerWithout(t.list, i, k);
    assert t.words[k] == ExpectedWord(image, t.list, riscv, k) == Patch(image[k], a, riscv);
    var u := Ram(t.words, Without(t.list, i));
    if Inv(u, image, riscv) {
      assert u.words[k] == ExpectedWord(image, u.list, riscv, k) == image[k];
    }
    if Patch(image[k], a, riscv) == image[k] {
      RestoredInv(t, image, riscv, i);
      assert t.words[k := t.list[i].saved] == t.words;
    }
  }

  /** A failed restoring write is forgotten: the invariant survives if and only if there was nothing to restore. */
  lemma RemoveKeepsInvIff(t: Ram, image: seq<Word>, riscv: bool, a: nat, write: nat -> bool)
    requires Inv(t, image, riscv) && a / 4 < |image|
    ensures
      Inv(Remove(t, a, write), image, riscv) <==>
      HoldsOpcode(image[a / 4], a, riscv) || !Present(t.list, a) || write(|t.list|)
  {
    hide HoldsOpcode, ExpectedWord, Lookup;
    if Present(t.list, a) {
      var i := Found(t.list, a);
      RemoveOnce(t, a, write);
      UnlistedIff(t, image, riscv, i);
      RestoredInv(t, image, riscv, i);
    } else {
      assert Remove(t, a, write) == t;
    }
  }

  /** With distinct words the loop makes one round. */
  lemma RemoveOnce(t: Ram, a: nat, write: nat -> bool)
    requires a / 4 < |t.words| && Present(t.list, a) && DistinctWords(t.list)
    ensures
      var i := Lookup(t.list, a);
      Remove(t, a, write) ==
      Ram(if write(|t.list|) then t.words[a / 4 := t.list[i].saved] else t.words, Without(t.list, i))
  {
    var i := Lookup(t.list, a);
    PresentIff(Without(t.list, i), a);
  }

  /** Planting: a full table whose undoing write failed is the one outcome that can break the invariant. */
  lemma AddKeepsInvIff(t: Ram, image: seq<Word>, riscv: bool, a: nat, io: Io)
    requires Inv(t, image, riscv) && a / 4 < |image|
    requires forall i :: 0 <= i < |t.list| && t.list[i].address != a ==> t.list[i].address / 4 != a / 4
    ensures
      Inv(Add(t, a, riscv, io).0, image, riscv) <==>
      || HoldsOpcode(image[a / 4], a, riscv)
      || Present(t.list, a)
      || !(io.read && io.write && |t.list| >= MAX_BREAKPOINTS && !io.undo)
  {
    hide HoldsOpcode, Patch, Lookup;
    AddKeepsInv(t, image, riscv, a);
    if !Present(t.list, a) && io.read && io.write && |t.list| >= MAX_BREAKPOINTS && !io.undo {
      PresentIff(t.list, a);
      var k := a / 4;
      assert Owner(t.list, k) == |t.list| && t.words[k] == ExpectedWord(image, t.list, riscv, k) == image[k];
      PatchIsIdentityIff(image[k], a, riscv);
      var u := Ram(t.words[k := Patch(image[k], a, riscv)], t.list);
      if Inv(u, image, riscv) {
        assert u.words[k] == ExpectedWord(image, u.list, riscv, k) == image[k];
      }
      if Patch(image[k], a, riscv) == image[k] {
        assert u.words == t.words;
      }
    }
  }

  // ---- The commands as the probe runs them --------------------------------

  class Patcher {
    const riscv: bool
    var words: seq<Word>
    var list: seq<Entry>

    ghost function Abs(): Ram
      reads this
    {
      Ram(words, list)
    }

    constructor (riscv: bool, words: seq<Word>)
      ensures Abs() == Ram(words, []) && this.riscv == riscv
    {
      this.riscv, this.words := riscv, words;
      list := [];
    }

    method AddBreakpoint(a: nat, io: Io) returns (ok: bool)
      requires a / 4 < |words|
      modifies this
      ensures (Abs(), ok) == Add(old(Abs()), a, riscv, io)
    {
      hide Lookup;
      var index := LookupIndex(list, a);
      if index.Some? {
        return true;
      }
      if !io.read {
        return false;
      }
      var oldOpcode := words[a / 4];
      if !io.write {
        return false;
      }
      words := words[a / 4 := Patch(oldOpcode, a, riscv)];
      if |list| >= MAX_BREAKPOINTS {
        if io.undo {
          words := words[a / 4 := oldOpcode];
          assert words == old(words);
        }
        return false;
      }
      list := list + [Entry(a, oldOpcode)];
      return true;
    }

    method RemoveBreakpoint(a: nat, write: nat -> bool) returns (ok: bool)
      requires a / 4 < |words|
      modifies this
      ensures ok && Abs() == Remove(old(Abs()), a, write)
    {
      hide Lookup;
      while true
        invariant |words| == |old(words)|
        invariant Remove(Abs(), a, write) == Remove(old(Abs()), a, write)
        decreases |list|
      {
        var r := LookupIndex(list, a);
        match r
        case None =>
          return true;
        case Some(index) =>
          if write(|list|) {
            words := words[a / 4 := list[index].saved];
          }
          list := Without(list, index);
      }
    }
  }
}

/** The bounded breakpoint tables shared by the RAM and flash patchers, after `sw_breakpoints.rs`. */
module Breakpoints {
  import opened Bytes

  const MAX_BREAKPOINTS: nat := 16

  type Word = s: seq<byte> | |s| == 4 witness [0, 0, 0, 0]

  /** The address as given and the four saved bytes. */
  datatype Entry = Entry(address: nat, saved: Word)

  /** Target memory from address 0, and the table. */
  datatype Target = Target(mem: seq<byte>, list: seq<Entry>)

  /** BKPT or ebreak, in memory order. */
  function Opcode(riscv: bool): (op: seq<byte>)
    ensures |op| == 2
  {
    if riscv then [0x02, 0x90] else [0x00, 0xbe]
  }

  /** `bkpt` on ARM, compressed `ebreak` on RISC-V, little endian. */
  lemma OpcodeBytes()
    ensures Opcode(false) == [0x00, 0xBE] && Opcode(true) == [0x02, 0x90]
  {
  }

  /** `lookup_index`: the first entry for `a`, or the length of the list. */
  function Lookup(list: seq<Entry>, a: nat): (i: nat)
    ensures i <= |list|
    ensures forall j :: 0 <= j < i ==> list[j].address != a
    ensures i < |list| ==> list[i].address == a
  {
    if list == [] || list[0].address == a then 0 else 1 + Lookup(list[1..], a)
  }

  predicate Present(list: seq<Entry>, a: nat) {
    Lookup(list, a) < |list|
  }

  lemma PresentIff(list: seq<Entry>, a: nat)
    ensures Present(list, a) <==> exists i :: 0 <= i < |list| && list[i].address == a
  {
  }

  /** `Vec::remove`. */
  function Without(list: seq<Entry>, i: nat): (r: seq<Entry>)
    requires i < |list|
    ensures |r| == |list| - 1
    ensures forall j :: 0 <= j < |r| ==> r[j] == if j < i then list[j] else list[j + 1]
  {
    list[..i] + list[i + 1..]
  }

  ghost predicate DistinctAddresses(list: seq<Entry>) {
    forall i, j :: 0 <= i < j < |list| ==> list[i].address != list[j].address
  }

  method LookupIndex(list: seq<Entry>, adr: nat) returns (index: Option<nat>)
    ensures index == if Present(list, adr) then Some(Lookup(list, adr)) else None
  {
    var i := 0;
    while i < |list|
      invariant i <= |list|
      invariant Lookup(list, adr) == i + Lookup(list[i..], adr)
    {
      if list[i].address == adr {
        return Some(i);
      }
      assert list[i..][1..] == list[i + 1..];
      i := i + 1;
    }
    return None;
  }

  /** Overwrites `|b|` bytes at `a`. */
  function Poke(mem: seq<byte>, a: nat, b: seq<byte>): (r: seq<byte>)
    requires a + |b| <= |mem|
    ensures |r| == |mem|
    ensures forall i :: 0 <= i < |mem| ==> r[i] == if a <= i < a + |b| then b[i - a] else mem[i]
  {
    mem[..a] + b + mem[a + |b|..]
  }
}

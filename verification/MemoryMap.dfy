/** The memory map document, after `memory_map_xml.rs`, and a reader for it. */
module MemoryMap {
  import opened Bytes
  import opened Hex
  import opened Encoder
  import opened Packet
  import opened Xml

  datatype RamBlock = RamBlock(start: u32, length: u32)
  datatype FlashBlock = FlashBlock(start: u32, length: u32, block: u32)

  function Ascii(s: string): (t: seq<byte>)
    ensures |t| == |s| && forall i :: 0 <= i < |s| ==> t[i] == s[i] as int % 256
  {
    seq(|s|, i requires 0 <= i < |s| => s[i] as int % 256)
  }

  const MAP_OPEN := Ascii("<memory-map>")
  const MAP_CLOSE := Ascii("</memory-map>")
  const RAM_START := Ascii("<memory type=\"ram\" start=\"0x")
  const FLASH_START := Ascii("<memory type=\"flash\" start=\"0x")
  const MID_LENGTH := Ascii("\" length=\"0x")
  const RAM_END := Ascii("\"/>")
  const FLASH_MID_BLOCKSIZE := Ascii("\"><property name=\"blocksize\">0x")
  const FLASH_END := Ascii("</property></memory>")

  // ---- Numbers ------------------------------------------------------------

  function LowerHex(v: nat): (d: byte)
    requires v < 16
    ensures HexVal(d) == v && IsHex(d)
  {
    if v >= 10 then 97 + v - 10 else 48 + v
  }

  predicate IsHex(c: byte) { 48 <= c <= 57 || 65 <= c <= 70 || 97 <= c <= 102 }

  /** The low `n` digits of a number, in lower case. */
  function HexDigits(v: nat, n: nat): (d: seq<byte>)
    ensures |d| == n && forall i :: 0 <= i < n ==> IsHex(d[i])
  {
    if n == 0 then [] else HexDigits(v / 16, n - 1) + [LowerHex(v % 16)]
  }

  function Pow16(n: nat): nat {
    if n == 0 then 1 else 16 * Pow16(n - 1)
  }

  /** The stub's own parser reads the digits back. */
  lemma {:induction false} HexDigitsRoundTrip(v: u32, n: nat)
    requires v < Pow16(n)
    ensures ParseHex(HexDigits(v, n)) == v
    decreases n
  {
    hide HexVal, LowerHex, ParseHex;
    if n == 0 {
      NoHexDigits();
    } else {
      HexDigitsRoundTrip(v / 16, n - 1);
      ParseHexSnoc(HexDigits(v / 16, n - 1), LowerHex(v % 16));
      OnePlace(v);
    }
  }

  lemma NoHexDigits()
    ensures ParseHex([]) == 0
  {
  }

  lemma ParseHexSnoc(s: seq<byte>, c: byte)
    ensures ParseHex(s + [c]) == ParseHex(s) * 16 % TWO32 + HexVal(c)
  {
    hide HexVal;
    assert (s + [c])[..|s|] == s;
  }

  lemma OnePlace(v: u32)
    ensures v / 16 * 16 % TWO32 + v % 16 == v
  {
  }

  lemma Hex8RoundTrip(v: u32)
    ensures ParseHex(HexDigits(v, 8)) == v
  {
    assert Pow16(4) == 0x1_0000;
    assert Pow16(8) == 0x1_0000 * Pow16(4);
    HexDigitsRoundTrip(v, 8);
  }

  lemma {:induction false} DigitAt(v: nat, n: nat, i: nat)
    requires i < n
    ensures HexDigits(v, n)[n - 1 - i] == LowerHex(Shift(v, i) % 16)
    decreases i
  {
    hide LowerHex;
    if i > 0 {
      DigitAt(v / 16, n - 1, i - 1);
    }
  }

  /** `v >> (4 * i)`. */
  function Shift(v: nat, i: nat): nat {
    if i == 0 then v else Shift(v / 16, i - 1)
  }

  /** `fmt_hex8`: eight digits written in place, the top nibble first. */
  method FmtHex8(val: u32, buf: array<byte>)
    requires buf.Length == 8
    modifies buf
    ensures buf[..] == HexDigits(val, 8)
  {
    hide LowerHex, Shift, HexDigits;
    forall i | 0 <= i < 8
      ensures HexDigits(val, 8)[i] == LowerHex(Shift(val, 7 - i) % 16)
    {
      DigitAt(val, 8, 7 - i);
    }
    buf[0] := LowerHex(Shift(val, 7) % 16);
    buf[1] := LowerHex(Shift(val, 6) % 16);
    buf[2] := LowerHex(Shift(val, 5) % 16);
    buf[3] := LowerHex(Shift(val, 4) % 16);
    buf[4] := LowerHex(Shift(val, 3) % 16);
    buf[5] := LowerHex(Shift(val, 2) % 16);
    buf[6] := LowerHex(Shift(val, 1) % 16);
    buf[7] := LowerHex(Shift(val, 0) % 16);
  }

  // ---- The document -------------------------------------------------------

  /** A literal and a number. */
  function FieldText(literal: seq<byte>, val: u32): seq<byte> {
    literal + HexDigits(val, 8)
  }

  function RamText(b: RamBlock): seq<byte> {
    FieldText(RAM_START, b.start) + FieldText(MID_LENGTH, b.length) + RAM_END
  }

  function FlashText(b: FlashBlock): seq<byte> {
    FieldText(FLASH_START, b.start) + FieldText(MID_LENGTH, b.length) +
    FieldText(FLASH_MID_BLOCKSIZE, b.block) + FLASH_END
  }

  function Entries(ram: seq<RamBlock>, flash: seq<FlashBlock>): seq<byte>
    decreases |ram| + |flash|
  {
    if ram != [] then RamText(ram[0]) + Entries(ram[1..], flash)
    else if flash != [] then FlashText(flash[0]) + Entries([], flash[1..])
    else MAP_CLOSE
  }

  function Document(attached: bool, ram: seq<RamBlock>, flash: seq<FlashBlock>): seq<byte> {
    if attached then MAP_OPEN + Entries(ram, flash) else []
  }

  // ---- The chunks it is written in ----------------------------------------

  function RamChunks(b: RamBlock): seq<seq<byte>> {
    [RAM_START, HexDigits(b.start, 8)] + [MID_LENGTH, HexDigits(b.length, 8)] + [RAM_END]
  }

  function FlashChunks(b: FlashBlock): seq<seq<byte>> {
    [FLASH_START, HexDigits(b.start, 8)] + [MID_LENGTH, HexDigits(b.length, 8)] +
    [FLASH_MID_BLOCKSIZE, HexDigits(b.block, 8)] + [FLASH_END]
  }

  function EntryChunks(ram: seq<RamBlock>, flash: seq<FlashBlock>): seq<seq<byte>>
    decreases |ram| + |flash|
  {
    if ram != [] then RamChunks(ram[0]) + EntryChunks(ram[1..], flash)
    else if flash != [] then FlashChunks(flash[0]) + EntryChunks([], flash[1..])
    else [MAP_CLOSE]
  }

  function Chunks(attached: bool, ram: seq<RamBlock>, flash: seq<FlashBlock>): seq<seq<byte>> {
    if attached then [MAP_OPEN] + EntryChunks(ram, flash) else []
  }

  lemma FlattenOne(a: seq<byte>)
    ensures Flatten([a]) == a
  {
    assert [a][1..] == [] && a + [] == a;
  }

  lemma FlattenField(literal: seq<byte>, val: u32)
    ensures Flatten([literal, HexDigits(val, 8)]) == FieldText(literal, val)
  {
    hide HexDigits;
    assert [literal, HexDigits(val, 8)][1..] == [HexDigits(val, 8)];
    FlattenOne(HexDigits(val, 8));
  }

  lemma RamChunksText(b: RamBlock)
    ensures Flatten(RamChunks(b)) == RamText(b)
  {
    hide Flatten, FieldText, HexDigits;
    var x, y := [RAM_START, HexDigits(b.start, 8)], [MID_LENGTH, HexDigits(b.length, 8)];
    FlattenField(RAM_START, b.start);
    FlattenField(MID_LENGTH, b.length);
    FlattenConcat(x, y);
    FlattenConcat(x + y, [RAM_END]);
    FlattenOne(RAM_END);
  }

  lemma FlashChunksText(b: FlashBlock)
    ensures Flatten(FlashChunks(b)) == FlashText(b)
  {
    hide Flatten, FieldText, HexDigits;
    var x, y := [FLASH_START, HexDigits(b.start, 8)], [MID_LENGTH, HexDigits(b.length, 8)];
    var z := [FLASH_MID_BLOCKSIZE, HexDigits(b.block, 8)];
    FlattenField(FLASH_START, b.start);
    FlattenField(MID_LENGTH, b.length);
    FlattenField(FLASH_MID_BLOCKSIZE, b.block);
    FlattenConcat(x, y);
    FlattenConcat(x + y, z);
    FlattenConcat(x + y + z, [FLASH_END]);
    FlattenOne(FLASH_END);
  }

  lemma {:induction false} EntryChunksText(ram: seq<RamBlock>, flash: seq<FlashBlock>)
    ensures Flatten(EntryChunks(ram, flash)) == Entries(ram, flash)
    decreases |ram| + |flash|
  {
    hide Flatten, RamChunks, FlashChunks, RamText, FlashText;
    if ram != [] {
      RamChunksText(ram[0]);
      FlattenConcat(RamChunks(ram[0]), EntryChunks(ram[1..], flash));
      EntryChunksText(ram[1..], flash);
    } else if flash != [] {
      FlashChunksText(flash[0]);
      FlattenConcat(FlashChunks(flash[0]), EntryChunks([], flash[1..]));
      EntryChunksText([], flash[1..]);
    } else {
      FlattenOne(MAP_CLOSE);
    }
  }

  /** The chunks make up the document. */
  lemma ChunksText(attached: bool, ram: seq<RamBlock>, flash: seq<FlashBlock>)
    ensures Flatten(Chunks(attached, ram, flash)) == Document(attached, ram, flash)
  {
    hide EntryChunks, Entries;
    if attached {
      FlattenConcat([MAP_OPEN], EntryChunks(ram, flash));
      FlattenOne(MAP_OPEN);
      EntryChunksText(ram, flash);
    }
  }

  // ---- The generator ------------------------------------------------------

  /** A number is formatted into the one buffer the generator reuses. */
  method EmitField(sink: XmlSink, literal: seq<byte>, val: u32, buf: array<byte>)
    requires sink.Valid() && buf.Length == 8 && buf != sink.encoder.temp
    modifies sink, sink.encoder`checksum, sink.encoder.temp, sink.encoder.wire`sent, buf
    ensures sink.Valid() && SameWindow(old(sink.mode), sink.mode)
    ensures sink.chunks == old(sink.chunks) + [literal, HexDigits(val, 8)]
  {
    hide XmlSink.Valid, HexDigits;
    sink.Write(literal);
    FmtHex8(val, buf);
    sink.Write(buf[..]);
    assert sink.chunks == old(sink.chunks) + [literal, HexDigits(val, 8)];
  }

  method EmitRam(sink: XmlSink, b: RamBlock, buf: array<byte>)
    requires sink.Valid() && buf.Length == 8 && buf != sink.encoder.temp
    modifies sink, sink.encoder`checksum, sink.encoder.temp, sink.encoder.wire`sent, buf
    ensures sink.Valid() && SameWindow(old(sink.mode), sink.mode)
    ensures sink.chunks == old(sink.chunks) + RamChunks(b)
  {
    hide XmlSink.Valid, HexDigits;
    EmitField(sink, RAM_START, b.start, buf);
    EmitField(sink, MID_LENGTH, b.length, buf);
    sink.Write(RAM_END);
    ghost var x, y := [RAM_START, HexDigits(b.start, 8)], [MID_LENGTH, HexDigits(b.length, 8)];
    Joined(old(sink.chunks), x, y, [RAM_END]);
  }

  method EmitFlash(sink: XmlSink, b: FlashBlock, buf: array<byte>)
    requires sink.Valid() && buf.Length == 8 && buf != sink.encoder.temp
    modifies sink, sink.encoder`checksum, sink.encoder.temp, sink.encoder.wire`sent, buf
    ensures sink.Valid() && SameWindow(old(sink.mode), sink.mode)
    ensures sink.chunks == old(sink.chunks) + FlashChunks(b)
  {
    hide XmlSink.Valid, HexDigits;
    EmitField(sink, FLASH_START, b.start, buf);
    EmitField(sink, MID_LENGTH, b.length, buf);
    EmitField(sink, FLASH_MID_BLOCKSIZE, b.block, buf);
    ghost var x, y := [FLASH_START, HexDigits(b.start, 8)], [MID_LENGTH, HexDigits(b.length, 8)];
    ghost var z := [FLASH_MID_BLOCKSIZE, HexDigits(b.block, 8)];
    Joined(old(sink.chunks), x, y, z);
    sink.Write(FLASH_END);
    assert old(sink.chunks) + (x + y + z) + [FLASH_END] == old(sink.chunks) + (x + y + z + [FLASH_END]);
  }

  lemma Joined(d: seq<seq<byte>>, x: seq<seq<byte>>, y: seq<seq<byte>>, z: seq<seq<byte>>)
    ensures d + x + y + z == d + (x + y + z)
  {
  }

  method EmitAllRam(sink: XmlSink, ram: seq<RamBlock>, ghost flash: seq<FlashBlock>, buf: array<byte>)
    requires sink.Valid() && buf.Length == 8 && buf != sink.encoder.temp
    modifies sink, sink.encoder`checksum, sink.encoder.temp, sink.encoder.wire`sent, buf
    ensures sink.Valid() && SameWindow(old(sink.mode), sink.mode)
    ensures sink.chunks + EntryChunks([], flash) == old(sink.chunks) + EntryChunks(ram, flash)
  {
    hide XmlSink.Valid, RamChunks, FlashChunks;
    assert ram[0..] == ram;
    for i := 0 to |ram|
      invariant sink.Valid() && SameWindow(old(sink.mode), sink.mode)
      invariant sink.chunks + EntryChunks(ram[i..], flash) == old(sink.chunks) + EntryChunks(ram, flash)
    {
      ghost var before, rest := sink.chunks, EntryChunks(ram[i + 1..], flash);
      EmitRam(sink, ram[i], buf);
      assert ram[i..][1..] == ram[i + 1..];
      assert before + (RamChunks(ram[i]) + rest) == sink.chunks + rest;
    }
  }

  method EmitAllFlash(sink: XmlSink, flash: seq<FlashBlock>, buf: array<byte>)
    requires sink.Valid() && buf.Length == 8 && buf != sink.encoder.temp
    modifies sink, sink.encoder`checksum, sink.encoder.temp, sink.encoder.wire`sent, buf
    ensures sink.Valid() && SameWindow(old(sink.mode), sink.mode)
    ensures sink.chunks + [MAP_CLOSE] == old(sink.chunks) + EntryChunks([], flash)
  {
    hide XmlSink.Valid, RamChunks, FlashChunks;
    assert flash[0..] == flash;
    for i := 0 to |flash|
      invariant sink.Valid() && SameWindow(old(sink.mode), sink.mode)
      invariant sink.chunks + EntryChunks([], flash[i..]) == old(sink.chunks) + EntryChunks([], flash)
    {
      ghost var before, rest := sink.chunks, EntryChunks([], flash[i + 1..]);
      EmitFlash(sink, flash[i], buf);
      assert flash[i..][1..] == flash[i + 1..];
      assert before + (FlashChunks(flash[i]) + rest) == sink.chunks + rest;
    }
  }

  /** `for_each_memory_map_chunk`. */
  method Generate(sink: XmlSink, attached: bool, ram: seq<RamBlock>, flash: seq<FlashBlock>)
    requires sink.Valid() && sink.chunks == []
    modifies sink, sink.encoder`checksum, sink.encoder.temp, sink.encoder.wire`sent
    ensures sink.Valid() && SameWindow(old(sink.mode), sink.mode)
    ensures sink.chunks == Chunks(attached, ram, flash)
  {
    hide XmlSink.Valid, EntryChunks;
    if !attached {
      return;
    }
    sink.Write(MAP_OPEN);
    assert sink.chunks == [MAP_OPEN];
    var buf := new byte[8](_ => 0);
    EmitAllRam(sink, ram, flash, buf);
    EmitAllFlash(sink, flash, buf);
    sink.Write(MAP_CLOSE);
  }

  /** `qXfer:memory-map:read`. */
  method MemoryMapRead(attached: bool, ram: seq<RamBlock>, flash: seq<FlashBlock>, arg: seq<byte>, e: PacketEncoder)
    returns (alive: bool)
    requires e.Valid()
    modifies e, e.temp, e.wire
    ensures
      match QueryReply(Chunks(attached, ram, flash), arg)
      case Some(r) => alive && e.wire.sent == old(e.wire.sent) + Frame(r)
      case None => !alive && e.wire.sent == old(e.wire.sent) + Aborted(Chunks(attached, ram, flash), arg)
  {
    hide Frame, Escaped, Sum, ParseQuery, Summed, SendWindow, Chunks;
    var counter := new XmlSink.Counting(e);
    Generate(counter, attached, ram, flash);
    ghost var sent0 := e.wire.sent;
    var window := Answer(e, ParseQuery(arg), counter.mode.total);
    alive := true;
    if window.Some? {
      var (start, length) := window.value;
      var sink := new XmlSink.Streaming(start, (start + length) % TWO32, e);
      Generate(sink, attached, ram, flash);
      alive := Finish(sink, Chunks(attached, ram, flash), start, length, sent0);
    }
  }

  // ---- A reader -----------------------------------------------------------

  datatype Map = Map(ram: seq<RamBlock>, flash: seq<FlashBlock>)

  function Expect(s: seq<byte>, p: seq<byte>): (r: Option<seq<byte>>)
    ensures r.Some? ==> |r.value| == |s| - |p|
  {
    if |p| <= |s| && s[..|p|] == p then Some(s[|p|..]) else None
  }

  /** How many hex digits `s` starts with. */
  function HexRun(s: seq<byte>): (n: nat)
    ensures n <= |s|
  {
    if s == [] || !IsHex(s[0]) then 0 else HexRun(s[1..]) + 1
  }

  /** A literal, then a hex number of any width. */
  function Field(s: seq<byte>, p: seq<byte>): (r: Option<(u32, seq<byte>)>)
    ensures r.Some? ==> |r.value.1| <= |s| - |p|
  {
    match Expect(s, p)
    case None => None
    case Some(t) => Some((ParseHex(t[..HexRun(t)]), t[HexRun(t)..]))
  }

  function ParseRam(s: seq<byte>): (r: Option<(RamBlock, seq<byte>)>)
    ensures r.Some? ==> |r.value.1| < |s|
  {
    match Field(s, RAM_START)
    case None => None
    case Some((start, s1)) =>
      match Field(s1, MID_LENGTH)
      case None => None
      case Some((length, s2)) =>
        match Expect(s2, RAM_END)
        case None => None
        case Some(s3) => Some((RamBlock(start, length), s3))
  }

  function ParseFlash(s: seq<byte>): (r: Option<(FlashBlock, seq<byte>)>)
    ensures r.Some? ==> |r.value.1| < |s|
  {
    match Field(s, FLASH_START)
    case None => None
    case Some((start, s1)) =>
      match Field(s1, MID_LENGTH)
      case None => None
      case Some((length, s2)) =>
        match Field(s2, FLASH_MID_BLOCKSIZE)
        case None => None
        case Some((block, s3)) =>
          match Expect(s3, FLASH_END)
          case None => None
          case Some(s4) => Some((FlashBlock(start, length, block), s4))
  }

  /** Elements in any order up to the closing tag, which must end the text. */
  function ParseEntries(s: seq<byte>): Option<Map>
    decreases |s|
  {
    if s == MAP_CLOSE then Some(Map([], []))
    else
      match ParseRam(s)
      case Some((b, rest)) => (
        match ParseEntries(rest)
        case None => None
        case Some(m) => Some(Map([b] + m.ram, m.flash))
      )
      case None =>
        match ParseFlash(s)
        case None => None
        case Some((b, rest)) =>
          match ParseEntries(rest)
          case None => None
          case Some(m) => Some(Map(m.ram, [b] + m.flash))
  }

  function ParseMap(text: seq<byte>): Option<Map> {
    match Expect(text, MAP_OPEN)
    case None => None
    case Some(s) => ParseEntries(s)
  }

  // ---- Round trip ---------------------------------------------------------

  lemma ExpectJoin(p: seq<byte>, rest: seq<byte>)
    ensures Expect(p + rest, p) == Some(rest)
  {
    assert (p + rest)[..|p|] == p && (p + rest)[|p|..] == rest;
  }

  /** Where texts differ, a literal is refused. */
  lemma ExpectRefuses(p: seq<byte>, s: seq<byte>, i: nat)
    requires i < |p| && i < |s| && s[i] != p[i]
    ensures Expect(s, p) == None
  {
    if |p| <= |s| {
      assert s[..|p|][i] == s[i];
    }
  }

  lemma {:induction false} HexRunJoin(d: seq<byte>, rest: seq<byte>)
    requires forall i :: 0 <= i < |d| ==> IsHex(d[i])
    requires rest != [] && !IsHex(rest[0])
    ensures HexRun(d + rest) == |d|
  {
    if d == [] {
      assert d + rest == rest;
    } else {
      assert (d + rest)[1..] == d[1..] + rest;
      HexRunJoin(d[1..], rest);
    }
  }

  lemma FieldRead(p: seq<byte>, v: u32, rest: seq<byte>)
    requires rest != [] && !IsHex(rest[0])
    ensures Field(p + HexDigits(v, 8) + rest, p) == Some((v, rest))
  {
    hide HexDigits, ParseHex, HexRun;
    var t := HexDigits(v, 8) + rest;
    assert p + HexDigits(v, 8) + rest == p + t;
    ExpectJoin(p, t);
    HexRunJoin(HexDigits(v, 8), rest);
    assert t[..8] == HexDigits(v, 8) && t[8..] == rest;
    Hex8RoundTrip(v);
  }

  lemma Delimiters()
    ensures |MID_LENGTH| > 0 && !IsHex(MID_LENGTH[0])
    ensures |RAM_END| > 0 && !IsHex(RAM_END[0])
    ensures |FLASH_MID_BLOCKSIZE| > 0 && !IsHex(FLASH_MID_BLOCKSIZE[0])
    ensures |FLASH_END| > 0 && !IsHex(FLASH_END[0])
  {
  }

  /** The literals tell the elements and the closing tag apart. */
  lemma Distinct()
    ensures |RAM_START| > 14 && |FLASH_START| > 14 && RAM_START[14] != FLASH_START[14]
    ensures |MAP_CLOSE| == 13 && RAM_START[1] != MAP_CLOSE[1] && FLASH_START[1] != MAP_CLOSE[1]
  {
  }

  lemma RamRead(b: RamBlock, rest: seq<byte>)
    ensures ParseRam(RamText(b) + rest) == Some((b, rest))
  {
    hide Field, HexDigits, Expect;
    Delimiters();
    var s3 := RAM_END + rest;
    var s2 := MID_LENGTH + HexDigits(b.length, 8) + s3;
    assert RamText(b) + rest == RAM_START + HexDigits(b.start, 8) + s2;
    FieldRead(RAM_START, b.start, s2);
    FieldRead(MID_LENGTH, b.length, s3);
    ExpectJoin(RAM_END, rest);
  }

  lemma FlashRead(b: FlashBlock, rest: seq<byte>)
    ensures ParseFlash(FlashText(b) + rest) == Some((b, rest))
  {
    hide Field, HexDigits, Expect;
    Delimiters();
    var s4 := FLASH_END + rest;
    var s3 := FLASH_MID_BLOCKSIZE + HexDigits(b.block, 8) + s4;
    var s2 := MID_LENGTH + HexDigits(b.length, 8) + s3;
    assert FlashText(b) + rest == FLASH_START + HexDigits(b.start, 8) + s2;
    FieldRead(FLASH_START, b.start, s2);
    FieldRead(MID_LENGTH, b.length, s3);
    FieldRead(FLASH_MID_BLOCKSIZE, b.block, s4);
    ExpectJoin(FLASH_END, rest);
  }

  lemma {:induction false} EntriesRoundTrip(ram: seq<RamBlock>, flash: seq<FlashBlock>)
    ensures ParseEntries(Entries(ram, flash)) == Some(Map(ram, flash))
    decreases |ram| + |flash|
  {
    hide ParseRam, ParseFlash, RamText, FlashText;
    if ram != [] {
      var rest := Entries(ram[1..], flash);
      RamRead(ram[0], rest);
      RamIsNotClose(ram[0], rest);
      EntriesRoundTrip(ram[1..], flash);
      assert [ram[0]] + ram[1..] == ram;
    } else if flash != [] {
      var rest := Entries([], flash[1..]);
      FlashRead(flash[0], rest);
      FlashIsNotRam(flash[0], rest);
      EntriesRoundTrip([], flash[1..]);
      assert [flash[0]] + flash[1..] == flash;
    }
  }

  lemma RamIsNotClose(b: RamBlock, rest: seq<byte>)
    ensures RamText(b) + rest != MAP_CLOSE
  {
    Distinct();
    assert (RamText(b) + rest)[1] == RAM_START[1];
  }

  lemma FlashIsNotRam(b: FlashBlock, rest: seq<byte>)
    ensures FlashText(b) + rest != MAP_CLOSE && ParseRam(FlashText(b) + rest) == None
  {
    Distinct();
    assert forall i :: 0 <= i < |FLASH_START| ==> (FlashText(b) + rest)[i] == FLASH_START[i];
    ExpectRefuses(RAM_START, FlashText(b) + rest, 14);
  }

  /** Reading the printed map gives back the same blocks in the same order. */
  lemma MapRoundTrip(ram: seq<RamBlock>, flash: seq<FlashBlock>)
    ensures ParseMap(Document(true, ram, flash)) == Some(Map(ram, flash))
  {
    hide ParseEntries, Entries;
    ExpectJoin(MAP_OPEN, Entries(ram, flash));
    EntriesRoundTrip(ram, flash);
  }

  // ---- A truncated map is no map -------------------------------------------

  lemma ExpectExtends(s: seq<byte>, p: seq<byte>, x: seq<byte>)
    requires Expect(s, p).Some?
    ensures Expect(s + x, p) == Some(Expect(s, p).value + x)
  {
    assert (s + x)[..|p|] == s[..|p|] && (s + x)[|p|..] == s[|p|..] + x;
  }

  lemma {:induction false} HexRunExtends(s: seq<byte>, x: seq<byte>)
    requires HexRun(s) < |s|
    ensures HexRun(s + x) == HexRun(s)
  {
    if IsHex(s[0]) {
      assert (s + x)[1..] == s[1..] + x;
      HexRunExtends(s[1..], x);
    }
  }

  /** What follows a number that is not the end of the text may be longer. */
  lemma FieldExtends(s: seq<byte>, p: seq<byte>, x: seq<byte>)
    requires Field(s, p).Some? && Field(s, p).value.1 != []
    ensures Field(s + x, p) == Some((Field(s, p).value.0, Field(s, p).value.1 + x))
  {
    hide ParseHex, Expect;
    ExpectExtends(s, p, x);
    var t := Expect(s, p).value;
    HexRunExtends(t, x);
    var k := HexRun(t);
    assert (t + x)[..k] == t[..k] && (t + x)[k..] == t[k..] + x;
  }

  lemma RamExtends(s: seq<byte>, x: seq<byte>)
    requires ParseRam(s).Some?
    ensures ParseRam(s + x) == Some((ParseRam(s).value.0, ParseRam(s).value.1 + x))
  {
    hide Field, Expect;
    Delimiters();
    var s1 := Field(s, RAM_START).value.1;
    var s2 := Field(s1, MID_LENGTH).value.1;
    FieldExtends(s, RAM_START, x);
    FieldExtends(s1, MID_LENGTH, x);
    ExpectExtends(s2, RAM_END, x);
  }

  lemma FlashExtends(s: seq<byte>, x: seq<byte>)
    requires ParseFlash(s).Some?
    ensures ParseFlash(s + x) == Some((ParseFlash(s).value.0, ParseFlash(s).value.1 + x))
    ensures ParseRam(s + x) == None
  {
    hide Field, Expect;
    Delimiters();
    var s1 := Field(s, FLASH_START).value.1;
    var s2 := Field(s1, MID_LENGTH).value.1;
    var s3 := Field(s2, FLASH_MID_BLOCKSIZE).value.1;
    FieldExtends(s, FLASH_START, x);
    FieldExtends(s1, MID_LENGTH, x);
    FieldExtends(s2, FLASH_MID_BLOCKSIZE, x);
    ExpectExtends(s3, FLASH_END, x);
    FlashOrRam(s + x);
  }

  lemma FlashOrRam(s: seq<byte>)
    requires ParseFlash(s).Some?
    ensures ParseRam(s) == None
  {
    Distinct();
    assert s[14] == s[..|FLASH_START|][14];
    ExpectRefuses(RAM_START, s, 14);
  }

  /** The closing tag ends a map: text that continues after it is refused. */
  lemma CloseThenMore(x: seq<byte>)
    requires x != []
    ensures ParseEntries(MAP_CLOSE + x) == None
  {
    Distinct();
    ExpectRefuses(RAM_START, MAP_CLOSE + x, 1);
    ExpectRefuses(FLASH_START, MAP_CLOSE + x, 1);
  }

  lemma CloseIsNoEntry()
    ensures ParseRam(MAP_CLOSE) == None && ParseFlash(MAP_CLOSE) == None
  {
    Distinct();
    ExpectRefuses(RAM_START, MAP_CLOSE, 1);
    ExpectRefuses(FLASH_START, MAP_CLOSE, 1);
  }

  lemma {:induction false} EntriesPrefixFree(s: seq<byte>, x: seq<byte>)
    requires ParseEntries(s).Some? && x != []
    ensures ParseEntries(s + x) == None
    decreases |s|
  {
    hide ParseRam, ParseFlash;
    if s == MAP_CLOSE {
      CloseThenMore(x);
    } else {
      CloseIsNoEntry();
      if ParseRam(s).Some? {
        RamExtends(s, x);
        EntriesPrefixFree(ParseRam(s).value.1, x);
      } else {
        FlashExtends(s, x);
        EntriesPrefixFree(ParseFlash(s).value.1, x);
      }
    }
  }

  /** No proper prefix of a printed map is a map. */
  lemma PrefixIsNoMap(ram: seq<RamBlock>, flash: seq<FlashBlock>, n: nat)
    requires n < |Document(true, ram, flash)|
    ensures ParseMap(Document(true, ram, flash)[..n]) == None
  {
    hide ParseEntries, Expect, Document;
    var doc := Document(true, ram, flash);
    var p, x := doc[..n], doc[n..];
    assert p + x == doc;
    MapRoundTrip(ram, flash);
    if ParseMap(p).Some? {
      ExpectExtends(p, MAP_OPEN, x);
      EntriesPrefixFree(Expect(p, MAP_OPEN).value, x);
    }
  }

  /**
   * So does reading it window by window, whatever window sizes the reader
   * chooses, if and only if the last window it asks for does not wrap around.
   */
  lemma MapThroughWindows(ram: seq<RamBlock>, flash: seq<FlashBlock>, ask: nat -> u32)
    requires forall i :: ask(i) > 0
    requires |Document(true, ram, flash)| < TWO32
    ensures
      var s := LastAsked(|Document(true, ram, flash)|, 0, ask);
      var got := Fetch(Chunks(true, ram, flash), 0, ask);
      if s + ask(s) < TWO32 then got.Whole? && ParseMap(got.text) == Some(Map(ram, flash))
      else got == Panicked || (got.Whole? && ParseMap(got.text) == None)
  {
    hide ParseMap, Fetch, Chunks, Document, Straddled;
    ChunksText(true, ram, flash);
    MapRoundTrip(ram, flash);
    WholeDocumentIff(Chunks(true, ram, flash), ask);
    var doc := Document(true, ram, flash);
    var s := LastAsked(|doc|, 0, ask);
    NotEmpty(ram, flash);
    if s + ask(s) >= TWO32 {
      PrefixIsNoMap(ram, flash, s);
    }
  }

  lemma NotEmpty(ram: seq<RamBlock>, flash: seq<FlashBlock>)
    ensures Document(true, ram, flash) != []
  {
    assert |MAP_OPEN| > 0;
  }

  // ---- The document in plain text -----------------------------------------

  /** A RAM element, spelt out. */
  lemma RamForm(b: RamBlock)
    ensures RamText(b) ==
            Ascii("<memory type=\"ram\" start=\"0x") + HexDigits(b.start, 8) +
            Ascii("\" length=\"0x") + HexDigits(b.length, 8) + Ascii("\"/>")
  {
    hide Ascii, HexDigits;
    var x, y, z := RAM_START + HexDigits(b.start, 8), MID_LENGTH, HexDigits(b.length, 8);
    assert x + (y + z) == x + y + z;
  }

  /** A flash element, spelt out. */
  lemma FlashForm(b: FlashBlock)
    ensures FlashText(b) ==
            Ascii("<memory type=\"flash\" start=\"0x") + HexDigits(b.start, 8) +
            Ascii("\" length=\"0x") + HexDigits(b.length, 8) +
            Ascii("\"><property name=\"blocksize\">0x") + HexDigits(b.block, 8) + Ascii("</property></memory>")
  {
    hide Ascii, HexDigits;
    var x, y, z := FLASH_START + HexDigits(b.start, 8), MID_LENGTH, HexDigits(b.length, 8);
    var u, v := FLASH_MID_BLOCKSIZE, HexDigits(b.block, 8);
    assert x + (y + z) == x + y + z;
    assert x + y + z + (u + v) == x + y + z + u + v;
  }

  /** Digits are decimal or lower-case letters; with the value they make, that fixes them. */
  lemma {:induction false} DigitsAreLower(v: nat, n: nat)
    ensures forall i :: 0 <= i < n ==> '0' as int <= HexDigits(v, n)[i] <= '9' as int
                                       || 'a' as int <= HexDigits(v, n)[i] <= 'f' as int
    decreases n
  {
    if n > 0 {
      DigitsAreLower(v / 16, n - 1);
    }
  }

  function RamTexts(ram: seq<RamBlock>): seq<byte> {
    if ram == [] then [] else RamText(ram[0]) + RamTexts(ram[1..])
  }

  function FlashTexts(flash: seq<FlashBlock>): seq<byte> {
    if flash == [] then [] else FlashText(flash[0]) + FlashTexts(flash[1..])
  }

  lemma {:induction false} EntriesForm(ram: seq<RamBlock>, flash: seq<FlashBlock>)
    ensures Entries(ram, flash) == RamTexts(ram) + FlashTexts(flash) + Ascii("</memory-map>")
    decreases |ram| + |flash|
  {
    hide RamText, FlashText, Ascii;
    if ram != [] {
      EntriesForm(ram[1..], flash);
      var x, y, z := RamTexts(ram[1..]), FlashTexts(flash), Ascii("</memory-map>");
      assert RamText(ram[0]) + (x + y + z) == RamText(ram[0]) + x + y + z;
    } else if flash != [] {
      EntriesForm([], flash[1..]);
      var y, z := FlashTexts(flash[1..]), Ascii("</memory-map>");
      assert FlashText(flash[0]) + ([] + y + z) == [] + (FlashText(flash[0]) + y) + z;
    } else {
      assert [] + [] + MAP_CLOSE == MAP_CLOSE;
    }
  }

  /** The whole document: all RAM elements, then all flash elements, in one `memory-map` element. */
  lemma DocumentForm(ram: seq<RamBlock>, flash: seq<FlashBlock>)
    ensures Document(true, ram, flash) ==
            Ascii("<memory-map>") + RamTexts(ram) + FlashTexts(flash) + Ascii("</memory-map>")
  {
    hide Ascii, Entries, RamTexts, FlashTexts;
    EntriesForm(ram, flash);
    Regroup(MAP_OPEN, RamTexts(ram), FlashTexts(flash), Ascii("</memory-map>"));
  }

  lemma Regroup(o: seq<byte>, x: seq<byte>, y: seq<byte>, z: seq<byte>)
    ensures o + (x + y + z) == o + x + y + z
  {
  }

  /** Nothing is attached: the reader is told so. */
  lemma DetachedIsError(ram: seq<RamBlock>, flash: seq<FlashBlock>, arg: seq<byte>)
    ensures QueryReply(Chunks(false, ram, flash), arg) == Some(E01)
  {
  }
}

/**
 * XML documents sent in windows, after `target_xml.rs` and the `qXfer` handlers:
 * a generator runs once to count and once to stream the window asked for.
 */
module Xml {
  import opened Bytes
  import Hex
  import opened Packet
  import opened Encoder

  const LAST: byte := 0x6C   // 'l'
  const MORE: byte := 0x6D   // 'm'
  const COMMA: byte := 0x2C
  const ZERO: byte := 0x30

  // ---- Windows ------------------------------------------------------------

  function Clamp(x: int, n: nat): (c: nat)
    ensures c <= n
  {
    if x < 0 then 0 else if x > n then n else x
  }

  /** The bytes of `text` whose position lies in `from .. to`. */
  function Part(text: seq<byte>, from: int, to: int): (p: seq<byte>)
    ensures |p| == if Clamp(from, |text|) < Clamp(to, |text|) then Clamp(to, |text|) - Clamp(from, |text|) else 0
    ensures forall i :: 0 <= i < |p| ==> p[i] == text[Clamp(from, |text|) + i]
  {
    var a, b := Clamp(from, |text|), Clamp(to, |text|);
    if a < b then text[a..b] else []
  }

  lemma ClampSplit(x: int, n: nat, m: nat)
    ensures Clamp(x, n + m) == Clamp(x, n) + Clamp(x - n, m)
    ensures Clamp(x - n, m) > 0 ==> Clamp(x, n) == n
  {
  }

  lemma SliceConcat(a: seq<byte>, b: seq<byte>, a1: nat, a2: nat, b1: nat, b2: nat)
    requires a1 <= a2 <= |a| && b1 <= b2 <= |b|
    requires (b1 > 0 ==> a1 == |a|) && (b2 > 0 ==> a2 == |a|)
    ensures (a + b)[a1 + b1..a2 + b2] == a[a1..a2] + b[b1..b2]
  {
    var x, y := (a + b)[a1 + b1..a2 + b2], a[a1..a2] + b[b1..b2];
    assert |x| == |y|;
    forall i | 0 <= i < |x|
      ensures x[i] == y[i]
    {
      assert x[i] == (a + b)[a1 + b1 + i];
    }
  }

  lemma PartIsSlice(text: seq<byte>, from: int, to: int)
    ensures from <= to ==>
              Clamp(from, |text|) <= Clamp(to, |text|) &&
              Part(text, from, to) == text[Clamp(from, |text|)..Clamp(to, |text|)]
    ensures from >= to ==> Part(text, from, to) == []
  {
  }

  lemma PartConcat(a: seq<byte>, b: seq<byte>, from: int, to: int)
    ensures Part(a + b, from, to) == Part(a, from, to) + Part(b, from - |a|, to - |a|)
  {
    hide Part, Clamp;
    PartIsSlice(a, from, to);
    PartIsSlice(b, from - |a|, to - |a|);
    PartIsSlice(a + b, from, to);
    if from <= to {
      ClampSplit(from, |a|, |b|);
      ClampSplit(to, |a|, |b|);
      SliceConcat(a, b, Clamp(from, |a|), Clamp(to, |a|), Clamp(from - |a|, |b|), Clamp(to - |a|, |b|));
    } else {
      assert [] + Part(b, from - |a|, to - |a|) == [];
    }
  }

  /** What `XmlSink::write` sends of one chunk; none when the slice bounds are out of order. */
  function Send(start: nat, end: nat, offset: nat, chunk: seq<byte>): Option<seq<byte>> {
    if offset + |chunk| > start && offset < end then
      var from := if start > offset then start - offset else 0;
      var to := if end < offset + |chunk| then end - offset else |chunk|;
      if from <= to then Some(chunk[from..to]) else None
    else Some([])
  }

  function SendAll(start: nat, end: nat, offset: nat, chunks: seq<seq<byte>>): Option<seq<byte>>
    decreases |chunks|
  {
    if chunks == [] then Some([]) else
      match Send(start, end, offset, chunks[0])
      case None => None
      case Some(p) =>
        match SendAll(start, end, offset + |chunks[0]|, chunks[1..])
        case None => None
        case Some(q) => Some(p + q)
  }

  lemma PartOfNothing(from: int, to: int)
    ensures Part([], from, to) == []
  {
  }

  lemma SendIsPart(start: nat, end: nat, offset: nat, chunk: seq<byte>)
    requires start <= end
    ensures Send(start, end, offset, chunk) == Some(Part(chunk, start - offset, end - offset))
  {
  }

  /** However the document is cut into chunks, the bytes sent are its window. */
  lemma {:induction false} SendAllIsWindow(start: nat, end: nat, offset: nat, chunks: seq<seq<byte>>)
    requires start <= end
    ensures SendAll(start, end, offset, chunks) == Some(Part(Flatten(chunks), start - offset, end - offset))
    decreases |chunks|
  {
    hide Part, Send;
    if chunks == [] {
      PartOfNothing(start - offset, end - offset);
    } else {
      var n := |chunks[0]|;
      SendAllIsWindow(start, end, offset + n, chunks[1..]);
      PartConcat(chunks[0], Flatten(chunks[1..]), start - offset, end - offset);
      SendIsPart(start, end, offset, chunks[0]);
    }
  }

  lemma {:induction false} BackwardWindowSendsNothing(start: nat, end: nat, offset: nat, chunks: seq<seq<byte>>)
    requires end < start
    ensures SendAll(start, end, offset, chunks) == None || SendAll(start, end, offset, chunks) == Some([])
    decreases |chunks|
  {
    if chunks != [] {
      var nothing: seq<byte> := [];
      assert nothing + nothing == nothing;
      assert Send(start, end, offset, chunks[0]) == None || Send(start, end, offset, chunks[0]) == Some([]);
      BackwardWindowSendsNothing(start, end, offset + |chunks[0]|, chunks[1..]);
    }
  }

  /** A chunk holds both ends of a backward window in its inside. */
  predicate Straddled(start: nat, end: nat, offset: nat, chunks: seq<seq<byte>>)
    decreases |chunks|
  {
    chunks != [] &&
    (offset < end < start < offset + |chunks[0]| || Straddled(start, end, offset + |chunks[0]|, chunks[1..]))
  }

  /** A backward window makes the stub panic exactly when one chunk straddles it. */
  lemma {:induction false} PanicsIff(start: nat, end: nat, offset: nat, chunks: seq<seq<byte>>)
    ensures SendAll(start, end, offset, chunks) == None <==> Straddled(start, end, offset, chunks)
    decreases |chunks|
  {
    if chunks != [] {
      PanicsIff(start, end, offset + |chunks[0]|, chunks[1..]);
    }
  }

  lemma {:induction false} SendAllSnoc(start: nat, end: nat, offset: nat, chunks: seq<seq<byte>>, chunk: seq<byte>)
    ensures
      SendAll(start, end, offset, chunks + [chunk]) ==
      match SendAll(start, end, offset, chunks)
      case None => None
      case Some(p) =>
        match Send(start, end, offset + |Flatten(chunks)|, chunk)
        case None => None
        case Some(q) => Some(p + q)
    decreases |chunks|
  {
    hide Send;
    if chunks == [] {
      assert chunks + [chunk] == [chunk] && [chunk][1..] == [];
      SendOnly(start, end, offset, chunk);
    } else {
      var c, rest := chunks[0], chunks[1..];
      assert (chunks + [chunk])[1..] == rest + [chunk];
      SendAllSnoc(start, end, offset + |c|, rest, chunk);
      var p, q := Send(start, end, offset, c), SendAll(start, end, offset + |c|, rest);
      var r := Send(start, end, offset + |c| + |Flatten(rest)|, chunk);
      assert |Flatten(chunks)| == |c| + |Flatten(rest)|;
      if p.Some? && q.Some? && r.Some? {
        assert p.value + (q.value + r.value) == (p.value + q.value) + r.value;
      }
    }
  }

  lemma SendOnly(start: nat, end: nat, offset: nat, chunk: seq<byte>)
    ensures SendAll(start, end, offset, [chunk]) == Send(start, end, offset, chunk)
    ensures
      match Send(start, end, offset, chunk)
      case None => true
      case Some(p) => [] + p == p
  {
    hide Send;
    assert [chunk][1..] == [];
    match Send(start, end, offset, chunk)
    case None =>
    case Some(p) => assert p + [] == p && [] + p == p;
  }

  /** What a request streams: the end of its window is a 32-bit sum. None stands for a panic of the stub. */
  function SendWindow(chunks: seq<seq<byte>>, start: u32, length: u32): Option<seq<byte>> {
    SendAll(start, (start + length) % TWO32, 0, chunks)
  }

  /**
   * The bytes sent are the ones asked for if and only if the end of the window
   * does not wrap around; if it does, nothing is sent, or the stub panics.
   */
  lemma WindowRightIff(chunks: seq<seq<byte>>, start: u32, length: u32)
    requires start < |Flatten(chunks)|
    ensures SendWindow(chunks, start, length) == Some(Part(Flatten(chunks), start, start + length))
            <==> start + length < TWO32
    ensures start + length >= TWO32 ==>
              SendWindow(chunks, start, length) ==
              if Straddled(start, start + length - TWO32, 0, chunks) then None else Some([])
  {
    hide SendAll;
    var end := (start + length) % TWO32;
    if start + length < TWO32 {
      SendAllIsWindow(start, end, 0, chunks);
    } else {
      assert end == start + length - TWO32;
      BackwardWindowSendsNothing(start, end, 0, chunks);
      PanicsIff(start, end, 0, chunks);
      assert |Part(Flatten(chunks), start, start + length)| > 0;
    }
  }

  /** For instance: all but the first two bytes, asked for with the largest length. */
  lemma LargestLengthPanics(chunk: seq<byte>)
    requires |chunk| > 2
    ensures SendWindow([chunk], 2, TWO32 - 1) == None
  {
  }

  lemma {:induction false} FlattenConcat(a: seq<seq<byte>>, b: seq<seq<byte>>)
    ensures Flatten(a + b) == Flatten(a) + Flatten(b)
  {
    if a == [] {
      assert a + b == b;
    } else {
      assert (a + b)[1..] == a[1..] + b;
      FlattenConcat(a[1..], b);
    }
  }

  lemma FlattenSnoc(chunks: seq<seq<byte>>, chunk: seq<byte>)
    ensures Flatten(chunks + [chunk]) == Flatten(chunks) + chunk
  {
    FlattenConcat(chunks, [chunk]);
    assert [chunk][1..] == [] && Flatten([chunk]) == chunk + [];
  }

  // ---- Decimal numbers ----------------------------------------------------

  function Decimal(n: nat): (d: seq<byte>)
    ensures d != [] && forall i :: 0 <= i < |d| ==> ZERO <= d[i] <= ZERO + 9
  {
    if n < 10 then [ZERO + n] else Decimal(n / 10) + [ZERO + n % 10]
  }

  function Pow10(k: nat): nat {
    if k == 0 then 1 else 10 * Pow10(k - 1)
  }

  lemma {:induction false} DecimalLength(n: nat, k: nat)
    requires 0 < k && n < Pow10(k)
    ensures |Decimal(n)| <= k
    decreases k
  {
    if n >= 10 {
      DecimalLength(n / 10, k - 1);
    }
  }

  lemma DecimalFitsBuffer(n: u32)
    ensures |Decimal(n)| <= 10
  {
    assert Pow10(5) == 100_000 && Pow10(10) == 100_000 * Pow10(5);
    DecimalLength(n, 10);
  }

  /** `u8s_string_decimal_to_u32`. */
  function ParseDecimal(s: seq<byte>): (v: u32) {
    if s == [] then 0 else (ParseDecimal(s[..|s| - 1]) * 10 + Hex.HexVal(s[|s| - 1])) % TWO32
  }

  /** A number written is read back, and it has no leading zero. */
  lemma {:induction false} DecimalRoundTrip(n: u32)
    ensures ParseDecimal(Decimal(n)) == n
    ensures n > 0 ==> Decimal(n)[0] != ZERO
  {
    hide Hex.HexVal, ParseDecimal;
    DigitValue(n % 10);
    if n < 10 {
      NoDecimal();
      ParseSnoc([], ZERO + n);
      assert [] + [ZERO + n] == [ZERO + n];
    } else {
      DecimalRoundTrip(n / 10);
      ParseSnoc(Decimal(n / 10), ZERO + n % 10);
    }
  }

  lemma NoDecimal()
    ensures ParseDecimal([]) == 0
  {
  }

  lemma DigitValue(d: nat)
    requires d < 10
    ensures Hex.HexVal(ZERO + d) == d
  {
  }

  lemma ParseSnoc(s: seq<byte>, c: byte)
    ensures ParseDecimal(s + [c]) == (ParseDecimal(s) * 10 + Hex.HexVal(c)) % TWO32
  {
    hide Hex.HexVal;
    assert (s + [c])[..|s|] == s;
  }

  // ---- The sink -----------------------------------------------------------

  datatype Mode = Count(total: nat) | Stream(start: nat, end: nat, offset: nat)

  predicate SameWindow(m: Mode, n: Mode) {
    m.Count? == n.Count? && (m.Stream? ==> m.start == n.start && m.end == n.end)
  }

  class XmlSink {
    var mode: Mode
    const encoder: PacketEncoder
    /** The stub has panicked; nothing runs after that. */
    var panicked: bool
    /** Everything written so far, sent or not. */
    ghost var chunks: seq<seq<byte>>
    ghost const sent0: seq<byte>
    ghost const sum0: u32

    /** A counting sink counts; a streaming sink has sent the window of what was written, or has panicked. */
    ghost predicate Valid()
      reads this, encoder, encoder.wire
    {
      encoder.Valid() &&
      match mode
      case Count(total) =>
        !panicked && total == |Flatten(chunks)| && encoder.wire.sent == sent0 && encoder.checksum == sum0
      case Stream(start, end, offset) =>
        match SendAll(start, end, 0, chunks)
        case None => panicked && encoder.wire.sent == sent0
        case Some(w) => !panicked && offset == |Flatten(chunks)| && Sent(w)
    }

    /** The packet has grown by `w`. */
    ghost predicate Sent(w: seq<byte>)
      reads this, encoder, encoder.wire
    {
      encoder.wire.sent == sent0 + Escaped(w) && Summed(encoder.checksum, sum0, Escaped(w))
    }

    constructor Counting(encoder: PacketEncoder)
      requires encoder.Valid()
      ensures Valid() && mode == Count(0) && chunks == [] && this.encoder == encoder
      ensures sent0 == encoder.wire.sent && sum0 == encoder.checksum
    {
      mode, this.encoder, chunks, panicked := Count(0), encoder, [], false;
      sent0, sum0 := encoder.wire.sent, encoder.checksum;
    }

    constructor Streaming(start: nat, end: nat, encoder: PacketEncoder)
      requires encoder.Valid()
      ensures Valid() && mode == Mode.Stream(start, end, 0) && chunks == [] && this.encoder == encoder
      ensures sent0 == encoder.wire.sent && sum0 == encoder.checksum
    {
      mode, this.encoder, chunks, panicked := Mode.Stream(start, end, 0), encoder, [], false;
      sent0, sum0 := encoder.wire.sent, encoder.checksum;
      new;
      EmptyText();
      assert sent0 + [] == sent0;
    }

    /** Slice bounds out of order stop the stub; the code has no such test, the slice itself panics. */
    method Write(chunk: seq<byte>)
      requires Valid()
      modifies this, encoder`checksum, encoder.temp, encoder.wire`sent
      ensures Valid() && chunks == old(chunks) + [chunk] && SameWindow(old(mode), mode)
    {
      hide Escaped, Summed, SendAll;
      FlattenSnoc(chunks, chunk);
      match mode
      case Count(total) =>
        mode := Count(total + |chunk|);
        chunks := chunks + [chunk];
      case Stream(start, end, offset) =>
        SendAllSnoc(start, end, 0, chunks, chunk);
        if !panicked {
          WriteWindow(start, end, offset, chunk, SendAll(start, end, 0, chunks).value);
        }
        chunks := chunks + [chunk];
    }

    /** One chunk of a stream that has sent `before`. */
    method WriteWindow(start: nat, end: nat, offset: nat, chunk: seq<byte>, ghost before: seq<byte>)
      requires encoder.Valid() && !panicked && mode == Mode.Stream(start, end, offset)
      requires Sent(before) && SendAll(start, end, 0, chunks) == Some(before)
      modifies this`mode, this`panicked, encoder`checksum, encoder.temp, encoder.wire`sent
      ensures mode == Mode.Stream(start, end, offset + |chunk|)
      ensures
        match Send(start, end, offset, chunk)
        case None => panicked && encoder.wire.sent == sent0
        case Some(part) => !panicked && Sent(before + part)
    {
      hide Escaped, Sum, Summed, SendAll;
      mode := Mode.Stream(start, end, offset + |chunk|);
      if offset + |chunk| > start && offset < end {
        var from := if start > offset then start - offset else 0;
        var to := if end < offset + |chunk| then end - offset else |chunk|;
        if from > to {
          NothingBefore(start, end, chunks);
          panicked := true;
          return;
        }
        ghost var part := chunk[from..to];
        EscapedConcat(before, part);
        SummedConcat(encoder.checksum, sum0, Escaped(before), Escaped(part));
        encoder.AddText(chunk[from..to]);
        assert sent0 + Escaped(before) + Escaped(part) == sent0 + (Escaped(before) + Escaped(part));
      } else {
        assert before + [] == before;
      }
    }

    /** A number in decimal, its digits produced from the last one up. */
    method WriteU32(n: u32)
      requires Valid()
      modifies this, encoder`checksum, encoder.temp, encoder.wire`sent
      ensures Valid() && chunks == old(chunks) + [Decimal(n)] && SameWindow(old(mode), mode)
    {
      hide Valid, ParseDecimal;
      if n == 0 {
        Write([ZERO]);
        return;
      }
      var buf := new byte[10](_ => 0);
      var i, left := 10, n;
      DecimalFitsBuffer(n);
      while left > 0
        invariant i <= 10 && (left > 0 ==> |Decimal(left)| <= i)
        invariant Decimal(n) == (if left > 0 then Decimal(left) else []) + buf[i..]
        modifies buf
        decreases left
      {
        ghost var tail := buf[i..];
        i := i - 1;
        buf[i] := ZERO + left % 10;
        assert buf[i..] == [ZERO + left % 10] + tail;
        DecimalStep(left);
        assert (if left >= 10 then Decimal(left / 10) else []) + [ZERO + left % 10] + tail
            == (if left >= 10 then Decimal(left / 10) else []) + buf[i..];
        left := left / 10;
      }
      assert [] + buf[i..] == buf[i..];
      Write(buf[i..]);
    }

    /** A document generator, given by the chunks it writes. */
    method Generate(document: seq<seq<byte>>)
      requires Valid()
      modifies this, encoder`checksum, encoder.temp, encoder.wire`sent
      ensures Valid() && chunks == old(chunks) + document && SameWindow(old(mode), mode)
    {
      hide Valid;
      assert chunks == old(chunks) + document[..0];
      for i := 0 to |document|
        invariant Valid() && SameWindow(old(mode), mode)
        invariant chunks == old(chunks) + document[..i]
      {
        Write(document[i]);
        assert document[..i + 1] == document[..i] + [document[i]];
      }
      assert document[..|document|] == document;
    }
  }

  /** A backward window has sent nothing before it panics. */
  lemma NothingBefore(start: nat, end: nat, chunks: seq<seq<byte>>)
    requires end < start && SendAll(start, end, 0, chunks).Some?
    ensures forall s: seq<byte> :: s + Escaped(SendAll(start, end, 0, chunks).value) == s
  {
    BackwardWindowSendsNothing(start, end, 0, chunks);
    EmptyText();
    assert forall s: seq<byte> :: s + [] == s;
  }

  lemma DecimalStep(n: u32)
    ensures Decimal(n) == (if n >= 10 then Decimal(n / 10) else []) + [ZERO + n % 10]
  {
  }

  // ---- The query ----------------------------------------------------------

  /** Position of the first comma, or the length. */
  function Comma(s: seq<byte>): (k: nat)
    ensures k <= |s| && COMMA !in s[..k] && (k < |s| ==> s[k] == COMMA)
  {
    if s == [] || s[0] == COMMA then 0 else
      var k := Comma(s[1..]) + 1;
      assert s[..k] == [s[0]] + s[1..][..k - 1];
      k
  }

  /** `validate_q_query`: offset and size in hex around exactly one comma. */
  function ParseQuery(arg: seq<byte>): Option<(u32, u32)> {
    var k := Comma(arg);
    if k == |arg| || COMMA in arg[k + 1..] then None
    else Some((ParseHex(arg[..k]), ParseHex(arg[k + 1..])))
  }

  lemma QuerySplits(offset: seq<byte>, size: seq<byte>)
    requires COMMA !in offset
    ensures ParseQuery(offset) == None
    ensures ParseQuery(offset + [COMMA] + size) ==
            if COMMA in size then None else Some((ParseHex(offset), ParseHex(size)))
  {
    var arg, n := offset + [COMMA] + size, |offset|;
    assert arg[..n] == offset && arg[n + 1..] == size;
    CommaAt(arg, n);
  }

  lemma {:induction false} CommaAt(s: seq<byte>, n: nat)
    requires n < |s| && s[n] == COMMA && COMMA !in s[..n]
    ensures Comma(s) == n
  {
    if n > 0 {
      assert s[..n] == [s[0]] + s[1..][..n - 1];
      CommaAt(s[1..], n - 1);
    }
  }

  /** `l` when the window reaches the end of the document, else `m`. */
  function Prefix(size: nat, start: nat, length: nat): seq<byte> {
    [if size - start <= length then LAST else MORE]
  }

  /**
   * The payload that answers a window request; none when the stub panics while
   * it streams the window.
   */
  function Reply(chunks: seq<seq<byte>>, start: u32, length: u32): (r: Option<seq<byte>>)
    ensures r.Some? ==> r.value != []
  {
    var size := |Flatten(chunks)|;
    if size == 0 then Some(E01)
    else if start >= size then Some([LAST])
    else
      match SendWindow(chunks, start, length)
      case None => None
      case Some(w) => Some(Prefix(size, start, length) + w)
  }

  function QueryReply(chunks: seq<seq<byte>>, arg: seq<byte>): Option<seq<byte>> {
    match ParseQuery(arg)
    case None => Some(E01)
    case Some((start, length)) => Reply(chunks, start, length)
  }

  /** What is on the wire of a reply that ended in a panic: an open packet with its prefix. */
  function Aborted(chunks: seq<seq<byte>>, arg: seq<byte>): seq<byte> {
    match ParseQuery(arg)
    case None => []
    case Some((start, length)) => [START] + Escaped(Prefix(|Flatten(chunks)|, start, length))
  }

  /** A packet is open and holds `text` so far. */
  ghost predicate Opened(e: PacketEncoder, sent0: seq<byte>, text: seq<byte>)
    reads e, e.wire
  {
    e.wire.sent == sent0 + ([START] + Escaped(text)) && Summed(e.checksum, 0, Escaped(text))
  }

  /** The part of a handler before the document is streamed; `window` is set when a packet is open. */
  method Answer(e: PacketEncoder, query: Option<(u32, u32)>, size: nat) returns (window: Option<(u32, u32)>)
    requires e.Valid()
    modifies e, e.temp, e.wire
    ensures
      query.None? || size == 0 ==> window.None? && e.wire.sent == old(e.wire.sent) + Frame(E01)
    ensures query.Some? && 0 < size <= query.value.0 ==>
      window.None? && e.wire.sent == old(e.wire.sent) + Frame([LAST])
    ensures query.Some? && query.value.0 < size ==>
      window == query && Opened(e, old(e.wire.sent), Prefix(size, query.value.0, query.value.1))
  {
    hide Frame, Escaped, Sum;
    window := None;
    if query.None? || size == 0 {
      e.ReplyE01();
      return;
    }
    var (start, length) := query.value;
    if start >= size {
      e.SimpleSend([LAST]);
      return;
    }
    var isLast := size - start <= length;
    e.Begin();
    e.AddText([if isLast then LAST else MORE]);
    window := query;
  }

  /** `end` on a packet that holds `text`. */
  method Close(e: PacketEncoder, ghost sent0: seq<byte>, ghost text: seq<byte>)
    requires Opened(e, sent0, text)
    modifies e.wire
    ensures e.wire.sent == sent0 + Frame(text) && e.wire.flushed == |e.wire.sent|
  {
    hide Escaped, Sum;
    ghost var body := Escaped(text);
    LowByte(Sum(body));
    e.End();
    ghost var h := Hex.HexByte(Sum(body) % 256);
    assert h == [h[0], h[1]];
    assert Frame(text) == [START] + body + [END, h[0], h[1]];
  }

  /** The end of a handler: the packet is closed unless streaming the window was the end of the stub. */
  method Finish(sink: XmlSink, ghost document: seq<seq<byte>>, ghost start: u32, ghost length: u32,
                ghost sent0: seq<byte>) returns (alive: bool)
    requires sink.Valid() && sink.chunks == document && sink.mode.Stream?
    requires sink.mode.start == start && sink.mode.end == (start + length) % TWO32
    requires sink.sent0 == sent0 + ([START] + Escaped(Prefix(|Flatten(document)|, start, length)))
    requires Summed(sink.sum0, 0, Escaped(Prefix(|Flatten(document)|, start, length)))
    modifies sink.encoder.wire
    ensures
      match SendWindow(document, start, length)
      case Some(w) =>
        alive && sink.encoder.wire.sent == sent0 + Frame(Prefix(|Flatten(document)|, start, length) + w)
      case None =>
        !alive && sink.encoder.wire.sent == sent0 + ([START] + Escaped(Prefix(|Flatten(document)|, start, length)))
  {
    hide Escaped, Sum, Summed, Frame, SendAll, Prefix;
    alive := !sink.panicked;
    if alive {
      ghost var prefix, w := Prefix(|Flatten(document)|, start, length), SendWindow(document, start, length).value;
      EscapedConcat(prefix, w);
      SummedJoin(sink.sum0, Escaped(prefix), sink.encoder.checksum, Escaped(w));
      assert sent0 + ([START] + Escaped(prefix)) + Escaped(w) == sent0 + ([START] + (Escaped(prefix) + Escaped(w)));
      Close(sink.encoder, sent0, prefix + w);
    }
  }

  /** `qXfer:features:read`: one complete packet, or a panic after the prefix. */
  method FeaturesRead(document: seq<seq<byte>>, arg: seq<byte>, e: PacketEncoder) returns (alive: bool)
    requires e.Valid()
    modifies e, e.temp, e.wire
    ensures
      match QueryReply(document, arg)
      case Some(r) => alive && e.wire.sent == old(e.wire.sent) + Frame(r)
      case None => !alive && e.wire.sent == old(e.wire.sent) + Aborted(document, arg)
  {
    hide Frame, Escaped, Sum, ParseQuery, Summed, SendWindow;
    var counter := new XmlSink.Counting(e);
    counter.Generate(document);
    assert counter.chunks == document;
    ghost var sent0 := e.wire.sent;
    var window := Answer(e, ParseQuery(arg), counter.mode.total);
    alive := true;
    if window.Some? {
      var (start, length) := window.value;
      var sink := new XmlSink.Streaming(start, (start + length) % TWO32, e);
      sink.Generate(document);
      assert sink.chunks == document;
      alive := Finish(sink, document, start, length, sent0);
    }
  }

  lemma SummedJoin(mid: u32, a: seq<byte>, end: u32, b: seq<byte>)
    requires Summed(mid, 0, a) && Summed(end, mid, b)
    ensures Summed(end, 0, a + b)
  {
    SummedConcat(mid, 0, a, b);
  }

  // ---- The reader ---------------------------------------------------------

  datatype Fetched = Whole(text: seq<byte>) | Failed | Panicked

  /** GDB's loop: ask from where the last window ended until a reply says it was the last. */
  function Fetch(chunks: seq<seq<byte>>, start: u32, ask: nat -> u32): Fetched
    decreases |Flatten(chunks)| - start
  {
    match Reply(chunks, start, ask(start))
    case None => Panicked
    case Some(r) =>
      if r[0] == LAST then Whole(r[1..])
      else if r[0] == MORE && |r| > 1 && start + |r| - 1 < TWO32 then
        After(r[1..], Fetch(chunks, start + |r| - 1, ask))
      else Failed
  }

  function After(text: seq<byte>, rest: Fetched): Fetched {
    if rest.Whole? then Whole(text + rest.text) else rest
  }

  /** Where the reader asks for the window that reaches the end of a document of `size` bytes. */
  function LastAsked(size: nat, start: nat, ask: nat -> u32): (s: nat)
    requires forall i :: ask(i) > 0
    ensures start <= s && (start < size ==> s < size <= s + ask(s))
    decreases size - start
  {
    if start + ask(start) < size then LastAsked(size, start + ask(start), ask) else start
  }

  lemma {:induction false} FetchFrom(chunks: seq<seq<byte>>, start: u32, ask: nat -> u32)
    requires forall i :: ask(i) > 0
    requires start < |Flatten(chunks)| < TWO32
    ensures
      var doc := Flatten(chunks);
      var s := LastAsked(|doc|, start, ask);
      Fetch(chunks, start, ask) ==
      if s + ask(s) < TWO32 then Whole(doc[start..])
      else if Straddled(s, s + ask(s) - TWO32, 0, chunks) then Panicked
      else Whole(doc[start..s])
    decreases |Flatten(chunks)| - start
  {
    hide Reply, Straddled, Fetch, Flatten;
    var doc, n := Flatten(chunks), ask(start);
    ReplyParts(chunks, start, n);
    if start + n < |doc| {
      FetchStep(chunks, start, ask, doc[start..start + n]);
      FetchFrom(chunks, start + n, ask);
      var s := LastAsked(|doc|, start + n, ask);
      assert doc[start..start + n] + doc[start + n..] == doc[start..];
      assert doc[start..start + n] + doc[start + n..s] == doc[start..s];
    } else {
      FetchStep(chunks, start, ask, if start + n < TWO32 then doc[start..] else doc[start..start]);
    }
  }

  /** What the reader makes of a reply that carries `w`. */
  lemma FetchStep(chunks: seq<seq<byte>>, start: u32, ask: nat -> u32, w: seq<byte>)
    ensures
      var r := Reply(chunks, start, ask(start));
      && (r.None? ==> Fetch(chunks, start, ask) == Panicked)
      && (r == Some([LAST] + w) ==> Fetch(chunks, start, ask) == Whole(w))
      && (r == Some([MORE] + w) && w != [] && start + |w| < TWO32 ==>
            Fetch(chunks, start, ask) == After(w, Fetch(chunks, start + |w|, ask)))
  {
    hide Reply;
    assert ([LAST] + w)[1..] == w && ([MORE] + w)[1..] == w;
  }

  /** The reply to a request inside the document. */
  lemma ReplyParts(chunks: seq<seq<byte>>, start: u32, length: u32)
    requires start < |Flatten(chunks)| < TWO32 && length > 0
    ensures
      var doc, r := Flatten(chunks), Reply(chunks, start, length);
      if start + length < |doc| then r == Some([MORE] + doc[start..start + length])
      else if start + length < TWO32 then r == Some([LAST] + doc[start..])
      else r == if Straddled(start, start + length - TWO32, 0, chunks) then None else Some([LAST] + doc[start..start])
  {
    hide Straddled, SendWindow;
    WindowRightIff(chunks, start, length);
    var doc := Flatten(chunks);
    assert start + length >= |doc| ==> Part(doc, start, start + length) == doc[start..];
    assert doc[start..start] == [];
  }

  /**
   * The replies in plain bytes, for windows that do not wrap: `m` and the window
   * when more follows, `l` and the rest of the document when nothing does, `l`
   * alone past the end, `E01` without a document.
   */
  lemma ReplyForm(chunks: seq<seq<byte>>, start: u32, length: u32)
    requires start + length < TWO32 && length > 0
    ensures
      var doc := Flatten(chunks);
      Reply(chunks, start, length) ==
      Some(if doc == [] then [0x45, 0x30, 0x31]
           else if start >= |doc| then [0x6C]
           else if start + length < |doc| then [0x6D] + doc[start..start + length]
           else [0x6C] + doc[start..])
  {
    if start < |Flatten(chunks)| {
      WindowRightIff(chunks, start, length);
      var doc := Flatten(chunks);
      assert Part(doc, start, start + length) ==
             if start + length < |doc| then doc[start..start + length] else doc[start..];
      hide SendWindow;
    }
  }

  /** A reply that ends in a panic has opened its packet and sent `l`. */
  lemma AbortedForm(chunks: seq<seq<byte>>, arg: seq<byte>)
    requires |Flatten(chunks)| < TWO32 && QueryReply(chunks, arg) == None
    ensures Aborted(chunks, arg) == [0x24, 0x6C]
  {
    var (start, length) := ParseQuery(arg).value;
    WindowRightIff(chunks, start, length);
    EscapedForm(LAST);
    hide SendWindow, Escaped;
  }

  /** `1,a` asks for ten bytes from offset one. */
  lemma QueryExample()
    ensures ParseQuery([0x31, 0x2C, 0x61]) == Some((1, 10))
  {
    var one: seq<byte>, ten: seq<byte> := [0x31], [0x61];
    QuerySplits(one, ten);
    assert one + [COMMA] + ten == [0x31, 0x2C, 0x61];
    assert one[..0] == [] && ten[..0] == [];
    assert ParseHex(one) == 1 && ParseHex(ten) == 10;
  }

  /**
   * A reader that asks for consecutive windows of any positive sizes gets the
   * whole document if and only if the end of the last window it asks for is a
   * 32-bit number. If it is not, the stub panics, or the reader is told that the
   * document ends where that window starts. Without a document it gets an error.
   */
  lemma WholeDocumentIff(chunks: seq<seq<byte>>, ask: nat -> u32)
    requires forall i :: ask(i) > 0
    requires |Flatten(chunks)| < TWO32
    ensures
      var doc := Flatten(chunks);
      var s := LastAsked(|doc|, 0, ask);
      if doc == [] then Fetch(chunks, 0, ask) == Failed
      else
        && (Fetch(chunks, 0, ask) == Whole(doc) <==> s + ask(s) < TWO32)
        && (s + ask(s) >= TWO32 ==>
              Fetch(chunks, 0, ask) ==
              if Straddled(s, s + ask(s) - TWO32, 0, chunks) then Panicked else Whole(doc[..s]))
  {
    hide Straddled, Reply;
    var doc := Flatten(chunks);
    if doc == [] {
      NoDocument(chunks, ask(0));
    } else {
      FetchFrom(chunks, 0, ask);
      assert doc[0..] == doc && doc[0..LastAsked(|doc|, 0, ask)] == doc[..LastAsked(|doc|, 0, ask)];
    }
  }

  lemma NoDocument(chunks: seq<seq<byte>>, length: u32)
    requires Flatten(chunks) == []
    ensures Reply(chunks, 0, length) == Some(E01)
  {
  }

  /** In particular when no window asked for wraps around. */
  lemma WholeDocument(chunks: seq<seq<byte>>, ask: nat -> u32)
    requires forall i :: ask(i) > 0
    requires forall i :: 0 <= i < |Flatten(chunks)| ==> i + ask(i) < TWO32
    requires 0 < |Flatten(chunks)| < TWO32
    ensures Fetch(chunks, 0, ask) == Whole(Flatten(chunks))
  {
    hide Fetch, Straddled;
    WholeDocumentIff(chunks, ask);
  }
}

/**
 * The wire format of the GDB remote protocol as this stub speaks it: the byte
 * automaton of `decoder.rs`, the reactions of `run_parser`, and the framing of
 * `encoder.rs`, all as functions on values.
 */
module Packet {
  import opened Bytes
  import opened Hex

  const START: byte := 0x24      // '$'
  const END: byte := 0x23        // '#', also RPC_END
  const ESCAPE: byte := 0x7D     // '}'
  const ESCAPE2: byte := 0x7B    // '{'
  const RPC_START: byte := 0x21  // '!'
  const INPUT_BUFFER_SIZE: nat := 2112

  datatype Automaton =
    Idle | Init | Body | Escape | End1 | End2 | Done | RpcDone | Reset | RpcBody | Rpc2Head1 | Error

  /** `body` is the filled part of the input buffer, `hi`/`lo` the received checksum digits. */
  datatype Stream = Stream(auto: Automaton, body: seq<byte>, sum: nat, hi: byte, lo: byte)

  /** The states the automaton can be in between two bytes. */
  predicate Resting(a: Automaton) {
    a.Idle? || a.Body? || a.Escape? || a.End1? || a.End2? || a.RpcBody?
  }

  /** States in which the next byte reaches one of the panicking arms. */
  predicate Panics(a: Automaton) { a.Reset? || a.RpcDone? || a.Done? || a.Error? }

  function Store(s: Stream, c: byte, cap: nat): Stream {
    if |s.body| >= cap then s.(auto := Error)
    else s.(auto := if s.auto.RpcBody? then RpcBody else Body, body := s.body + [c])
  }

  /** One byte through the automaton, before the caller looks at the new state. */
  function Step(s: Stream, c: byte, cap: nat): (t: Stream)
    requires !Panics(s.auto)
  {
    match s.auto
    case Init => s
    case Idle =>
      if c == START then s.(auto := Body, body := [], sum := 0)
      else if c == RPC_START then s.(auto := RpcBody, body := [])
      else s
    case Rpc2Head1 => s.(auto := Idle)
    case RpcBody =>
      if c == END then s.(auto := RpcDone)
      else if c == RPC_START then s.(body := [])
      else Store(s, c, cap)
    case Body =>
      if c == START then s.(body := [], sum := 0)
      else if c == END then s.(auto := End1)
      else if c == ESCAPE then s.(auto := Escape)
      else Store(s.(sum := s.sum + c), c, cap)
    case Escape => Store(s.(sum := s.sum + ESCAPE + c), Xor20(c), cap)
    case End1 => s.(auto := End2, hi := c)
    case End2 =>
      s.(auto := if Octet(s.hi, c) == s.sum % 256 then Done else Error, lo := c)
  }

  /** What the stub does with the outcome of a packet. */
  datatype Event = Ack | Nack | Flush | Exec(cmd: seq<byte>) | Rpc(call: seq<byte>)

  function Delivery(p: seq<byte>): seq<Event> {
    if p == [] then [] else [Ack, Flush, Exec(p)]
  }

  predicate Terminal(a: Automaton) { a.Error? || a.Done? || a.RpcDone? || a.Reset? }

  /** `run_parser`'s reaction to the state `parse` stopped in; the automaton is idle again after it. */
  function React(s: Stream): (Stream, seq<Event>) {
    match s.auto
    case Error => (s.(auto := Idle), [Nack, Flush])
    case Reset => (s.(auto := Idle), [])
    case Done => (s.(auto := Idle), Delivery(s.body))
    case RpcDone => (s.(auto := Idle), if s.body == [] then [] else [Rpc(s.body)])
    case _ => (s, [])
  }

  /** Every byte of `data` in turn: the stub as a transducer from bytes to events. */
  function Feed(s: Stream, data: seq<byte>, cap: nat): (r: (Stream, seq<Event>))
    requires Resting(s.auto)
    ensures Resting(r.0.auto)
    decreases |data|
  {
    if data == [] then (s, []) else
      var (s1, e1) := React(Step(s, data[0], cap));
      var (s2, e2) := Feed(s1, data[1..], cap);
      (s2, e1 + e2)
  }

  lemma StepRests(s: Stream, c: byte, cap: nat)
    requires Resting(s.auto)
    ensures Resting(React(Step(s, c, cap)).0.auto)
  {
  }

  /** A byte that causes no event only moves the state. */
  lemma Quiet(s: Stream, data: seq<byte>, cap: nat)
    requires Resting(s.auto) && data != []
    requires React(Step(s, data[0], cap)).1 == []
    ensures Feed(s, data, cap) == Feed(React(Step(s, data[0], cap)).0, data[1..], cap)
  {
    var e2 := Feed(React(Step(s, data[0], cap)).0, data[1..], cap).1;
    assert [] + e2 == e2;
  }

  /** How far one call of `parse` gets: the number of bytes used and the state it stops in. */
  function Scan(s: Stream, data: seq<byte>, cap: nat): (r: (nat, Stream))
    requires Resting(s.auto)
    ensures r.0 <= |data|
    ensures Resting(r.1.auto) || Terminal(r.1.auto)
    ensures Resting(r.1.auto) ==> r.0 == |data|
    ensures Terminal(r.1.auto) ==> r.0 > 0
    decreases |data|
  {
    if data == [] then (0, s) else
      var s1 := Step(s, data[0], cap);
      if Terminal(s1.auto) then (1, s1) else
        var (n, t) := Scan(s1, data[1..], cap);
        (n + 1, t)
  }

  /** A `parse` call followed by its reaction is the same prefix of the transducer. */
  lemma {:induction false} ScanThenFeed(s: Stream, data: seq<byte>, cap: nat)
    requires Resting(s.auto)
    ensures
      var (n, t) := Scan(s, data, cap);
      var (u, e) := React(t);
      Feed(s, data, cap) == (Feed(u, data[n..], cap).0, e + Feed(u, data[n..], cap).1)
    decreases |data|
  {
    var none: seq<Event> := [];
    if data == [] {
      assert data[0..] == data && none + none == none;
    } else {
      var s1 := Step(s, data[0], cap);
      var (n, t) := Scan(s, data, cap);
      if Terminal(s1.auto) {
      } else {
        assert data[1..][n - 1..] == data[n..];
        Quiet(s, data, cap);
        ScanThenFeed(s1, data[1..], cap);
      }
    }
  }

  /** Fragmentation independence: where the transport cuts the byte stream is invisible. */
  lemma {:induction false} FeedConcat(s: Stream, a: seq<byte>, b: seq<byte>, cap: nat)
    requires Resting(s.auto)
    ensures
      var (t, e) := Feed(s, a, cap);
      var (u, f) := Feed(t, b, cap);
      Feed(s, a + b, cap) == (u, e + f)
    decreases |a|
  {
    if a == [] {
      assert a + b == b && [] + Feed(s, b, cap).1 == Feed(s, b, cap).1;
    } else {
      StepRests(s, a[0], cap);
      hide Step, React;
      assert (a + b)[1..] == a[1..] + b;
      FeedConcat(React(Step(s, a[0], cap)).0, a[1..], b, cap);
      var (t, e) := Feed(s, a, cap);
      var e1 := React(Step(s, a[0], cap)).1;
      var (t2, e2) := Feed(React(Step(s, a[0], cap)).0, a[1..], cap);
      assert e1 + e2 + Feed(t, b, cap).1 == e1 + (e2 + Feed(t, b, cap).1);
    }
  }

  /** ... and for any number of fragments. */
  function FeedAll(s: Stream, parts: seq<seq<byte>>, cap: nat): (r: (Stream, seq<Event>))
    requires Resting(s.auto)
    ensures Resting(r.0.auto)
    decreases |parts|
  {
    if parts == [] then (s, []) else
      var (t, e) := Feed(s, parts[0], cap);
      var (u, f) := FeedAll(t, parts[1..], cap);
      (u, e + f)
  }

  function Flatten(parts: seq<seq<byte>>): seq<byte> {
    if parts == [] then [] else parts[0] + Flatten(parts[1..])
  }

  lemma {:induction false} FragmentationIndependence(s: Stream, parts: seq<seq<byte>>, cap: nat)
    requires Resting(s.auto)
    ensures FeedAll(s, parts, cap) == Feed(s, Flatten(parts), cap)
    decreases |parts|
  {
    if parts != [] {
      FeedConcat(s, parts[0], Flatten(parts[1..]), cap);
      FragmentationIndependence(Feed(s, parts[0], cap).0, parts[1..], cap);
    }
  }

  // ---- Bounds -------------------------------------------------------------

  /** Largest amount one stored byte adds to the checksum: an escape and the byte after it. */
  const PER_BYTE := 0x7D + 0xFF

  /** What every reachable state satisfies: the index fits, and the checksum follows the index. */
  predicate Bounded(s: Stream, cap: nat) {
    && |s.body| <= cap
    && s.sum <= PER_BYTE * (cap + 1)
    && (s.auto.Body? || s.auto.Escape? || s.auto.End1? || s.auto.End2? ==> s.sum <= PER_BYTE * |s.body|)
  }

  lemma {:induction false} FeedBounded(s: Stream, data: seq<byte>, cap: nat)
    requires Resting(s.auto) && Bounded(s, cap)
    ensures Bounded(Feed(s, data, cap).0, cap)
    ensures Resting(Feed(s, data, cap).0.auto)
    decreases |data|
  {
    if data != [] {
      FeedBounded(React(Step(s, data[0], cap)).0, data[1..], cap);
    }
  }

  // ---- The wire grammar ---------------------------------------------------

  /** The payload a framed byte string stands for; none when a marker or a lone escape is inside. */
  function Unescape(raw: seq<byte>): Option<seq<byte>> {
    if raw == [] then Some([])
    else if raw[0] == START || raw[0] == END then None
    else if raw[0] == ESCAPE then
      if |raw| < 2 then None else
        match Unescape(raw[2..])
        case None => None
        case Some(p) => Some([Xor20(raw[1])] + p)
    else
      match Unescape(raw[1..])
      case None => None
      case Some(p) => Some([raw[0]] + p)
  }

  /** A frame around an already escaped body, with the two checksum characters as received. */
  function Wrap(raw: seq<byte>, hi: byte, lo: byte): seq<byte> {
    [START] + raw + [END, hi, lo]
  }

  predicate Special(c: byte) { c == ESCAPE2 || c == ESCAPE || c == START || c == END }

  function EscapeByte(c: byte): (e: seq<byte>)
    ensures |e| == if Special(c) then 2 else 1
  {
    if Special(c) then [ESCAPE, Xor20(c)] else [c]
  }

  /** What `add_u8` puts on the wire. */
  function Escaped(p: seq<byte>): seq<byte> {
    if p == [] then [] else EscapeByte(p[0]) + Escaped(p[1..])
  }

  /** A complete packet as `begin`, `add_u8`, `end` send it. */
  function Frame(p: seq<byte>): seq<byte> {
    var h := HexByte(Sum(Escaped(p)) % 256);
    Wrap(Escaped(p), h[0], h[1])
  }

  lemma {:induction false} EscapedConcat(a: seq<byte>, b: seq<byte>)
    ensures Escaped(a + b) == Escaped(a) + Escaped(b)
  {
    if a == [] {
      assert a + b == b;
    } else {
      assert (a + b)[1..] == a[1..] + b;
      EscapedConcat(a[1..], b);
    }
  }

  /** Text without special characters is sent unchanged. */
  lemma {:induction false} EscapedPlain(p: seq<byte>)
    requires forall i :: 0 <= i < |p| ==> !Special(p[i])
    ensures Escaped(p) == p
  {
    if p != [] {
      EscapedPlain(p[1..]);
    }
  }

  lemma {:induction false} UnescapeEscaped(p: seq<byte>)
    ensures Unescape(Escaped(p)) == Some(p)
  {
    if p != [] {
      var e := EscapeByte(p[0]);
      UnescapeEscaped(p[1..]);
      assert Escaped(p)[|e|..] == Escaped(p[1..]);
      if Special(p[0]) {
        Xor20Involutive(p[0]);
      }
      assert p == [p[0]] + p[1..];
    }
  }

  /** How many bytes the first escape unit of a body has, and what it decodes to. */
  function UnitLength(raw: seq<byte>): (n: nat)
    requires raw != [] && Unescape(raw).Some?
    ensures 0 < n <= |raw|
  {
    if raw[0] == ESCAPE then 2 else 1
  }

  lemma UnitRun(s: Stream, raw: seq<byte>, p: seq<byte>, cap: nat)
    requires s.auto.Body? && raw != [] && Unescape(raw) == Some(p) && |s.body| < cap
    ensures
      var n := UnitLength(raw);
      && p != [] && Unescape(raw[n..]) == Some(p[1..])
      && Feed(s, raw, cap) ==
         Feed(s.(body := s.body + [p[0]], sum := s.sum + Sum(raw[..n])), raw[n..], cap)
      && Sum(raw) == Sum(raw[..n]) + Sum(raw[n..])
  {
    var n := UnitLength(raw);
    Quiet(s, raw, cap);
    if n == 2 {
      assert raw[1..][1..] == raw[2..] && raw[..2][1..] == [raw[1]];
      Quiet(s.(auto := Escape), raw[1..], cap);
    } else {
      assert raw[..1][1..] == [];
    }
    assert raw == raw[..n] + raw[n..];
    SumConcat(raw[..n], raw[n..]);
  }

  /** A body in the grammar is stored byte by byte, whoever escaped it. */
  lemma {:induction false} BodyRun(s: Stream, raw: seq<byte>, p: seq<byte>, cap: nat)
    requires s.auto.Body? && Unescape(raw) == Some(p) && |s.body| + |p| <= cap
    ensures Feed(s, raw, cap) == (s.(body := s.body + p, sum := s.sum + Sum(raw)), [])
    decreases |raw|
  {
    hide Feed, Unescape, Sum;
    EmptyRun(s, cap);
    if raw == [] {
      assert s.body + [] == s.body;
    } else {
      var n := UnitLength(raw);
      if p == [] {
        UnitNotEmpty(raw);
      }
      UnitRun(s, raw, p, cap);
      BodyRun(s.(body := s.body + [p[0]], sum := s.sum + Sum(raw[..n])), raw[n..], p[1..], cap);
      assert s.body + [p[0]] + p[1..] == s.body + p;
    }
  }

  lemma EmptyRun(s: Stream, cap: nat)
    requires Resting(s.auto)
    ensures Feed(s, [], cap) == (s, []) && Unescape([]) == Some([]) && Sum([]) == 0
  {
  }

  lemma UnitNotEmpty(raw: seq<byte>)
    requires raw != [] && Unescape(raw).Some?
    ensures Unescape(raw).value != []
  {
  }

  /** The closing marker and two checksum characters. */
  lemma CloseRun(s: Stream, hi: byte, lo: byte, cap: nat)
    requires s.auto.Body?
    ensures Feed(s, [END, hi, lo], cap) ==
            (s.(auto := Idle, hi := hi, lo := lo),
             if Octet(hi, lo) == s.sum % 256 then Delivery(s.body) else [Nack, Flush])
  {
    var s1 := s.(auto := End1);
    var s2 := s.(auto := End2, hi := hi);
    Quiet(s, [END, hi, lo], cap);
    assert [END, hi, lo][1..] == [hi, lo];
    Quiet(s1, [hi, lo], cap);
    assert [hi, lo][1..] == [lo];
    var (s3, e) := React(Step(s2, lo, cap));
    assert Feed(s3, [], cap) == (s3, []) && e + [] == e;
    assert [lo][1..] == [];
  }

  /**
   * Completeness: any well-formed frame that fits, from whichever sender, is
   * executed when its checksum is right and refused when it is wrong.
   */
  lemma FrameAnswered(s: Stream, raw: seq<byte>, p: seq<byte>, hi: byte, lo: byte, cap: nat)
    requires s.auto.Idle? || s.auto.Body?
    requires Unescape(raw) == Some(p) && |p| <= cap
    ensures Feed(s, Wrap(raw, hi, lo), cap) ==
            (Stream(Idle, p, Sum(raw), hi, lo),
             if Octet(hi, lo) == Sum(raw) % 256 then Delivery(p) else [Nack, Flush])
  {
    var s1 := s.(auto := Body, body := [], sum := 0);
    var s2 := s1.(body := p, sum := Sum(raw));
    assert Wrap(raw, hi, lo)[1..] == raw + [END, hi, lo];
    Quiet(s, Wrap(raw, hi, lo), cap);
    BodyRun(s1, raw, p, cap);
    assert [] + p == p;
    FeedConcat(s1, raw, [END, hi, lo], cap);
    CloseRun(s2, hi, lo, cap);
    var close := Feed(s2, [END, hi, lo], cap).1;
    assert [] + close == close;
  }

  /** Round trip of one packet: what the encoder frames, the decoder executes. */
  lemma FrameDelivered(s: Stream, p: seq<byte>, cap: nat)
    requires s.auto.Idle? || s.auto.Body?
    requires |p| <= cap
    ensures Feed(s, Frame(p), cap).0.auto.Idle?
    ensures Feed(s, Frame(p), cap).1 == Delivery(p)
  {
    UnescapeEscaped(p);
    var h := HexByte(Sum(Escaped(p)) % 256);
    OctetRoundTrip(Sum(Escaped(p)) % 256);
    FrameAnswered(s, Escaped(p), p, h[0], h[1], cap);
  }

  // ---- The protocol in plain bytes ----------------------------------------

  /** `{`, `}`, `$` and `#` travel behind a `}` with bit 5 flipped; every other byte travels as it is. */
  lemma EscapedForm(c: byte)
    ensures
      Escaped([c]) ==
      if c == 0x7B then [0x7D, 0x5B]
      else if c == 0x7D then [0x7D, 0x5D]
      else if c == 0x24 then [0x7D, 0x04]
      else if c == 0x23 then [0x7D, 0x03]
      else [c]
  {
    assert [c][1..] == [] && EscapeByte(c) + [] == EscapeByte(c);
  }

  /** A payload in its frame. */
  lemma FrameForm(p: seq<byte>)
    ensures Frame(p) == [0x24] + Escaped(p) + [0x23] + HexByte(Sum(Escaped(p)) % 256)
  {
    var h := HexByte(Sum(Escaped(p)) % 256);
    assert h == [h[0], h[1]];
  }
}

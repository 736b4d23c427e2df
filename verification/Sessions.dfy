/**
 * What holds of whole byte streams: delivery of sessions, recovery after
 * arbitrary input, refusal of packets that do not fit, and soundness of every
 * executed command.
 */
module Sessions {
  import opened Bytes
  import opened Hex
  import opened Packet

  /** Bytes an idle decoder drops: acknowledgements, line noise, anything that starts no packet. */
  predicate Noise(g: seq<byte>) {
    forall i :: 0 <= i < |g| ==> g[i] != START && g[i] != RPC_START
  }

  /** Packets for `ps`, packet `i` preceded by `gaps[i]`. */
  function Transcript(gaps: seq<seq<byte>>, ps: seq<seq<byte>>): seq<byte>
    requires |gaps| == |ps|
  {
    if ps == [] then [] else gaps[0] + Frame(ps[0]) + Transcript(gaps[1..], ps[1..])
  }

  function Deliveries(ps: seq<seq<byte>>): seq<Event> {
    if ps == [] then [] else Delivery(ps[0]) + Deliveries(ps[1..])
  }

  lemma {:induction false} NoiseIgnored(s: Stream, g: seq<byte>, cap: nat)
    requires s.auto.Idle? && Noise(g)
    ensures Feed(s, g, cap) == (s, [])
    decreases |g|
  {
    if g != [] {
      Quiet(s, g, cap);
      NoiseIgnored(s, g[1..], cap);
    }
  }

  /** Round trip of a session: the payloads that were framed are executed, all of them, in order, and nothing else. */
  lemma {:induction false} SessionDelivered(s: Stream, gaps: seq<seq<byte>>, ps: seq<seq<byte>>, cap: nat)
    requires s.auto.Idle? && |gaps| == |ps|
    requires forall i :: 0 <= i < |ps| ==> Noise(gaps[i]) && |ps[i]| <= cap
    ensures Feed(s, Transcript(gaps, ps), cap).0.auto.Idle?
    ensures Feed(s, Transcript(gaps, ps), cap).1 == Deliveries(ps)
    decreases |ps|
  {
    if ps != [] {
      var rest := Transcript(gaps[1..], ps[1..]);
      NoiseIgnored(s, gaps[0], cap);
      FeedConcat(s, gaps[0], Frame(ps[0]), cap);
      FrameDelivered(s, ps[0], cap);
      FeedConcat(s, gaps[0] + Frame(ps[0]), rest, cap);
      var t := Feed(s, Frame(ps[0]), cap);
      assert [] + t.1 == t.1;
      SessionDelivered(t.0, gaps[1..], ps[1..], cap);
    }
  }

  /**
   * The reply to a good packet, event by event: a non-empty payload is
   * acknowledged, flushed and executed; an empty one is passed over.
   */
  lemma GoodPacketReply(s: Stream, p: seq<byte>, cap: nat)
    requires (s.auto.Idle? || s.auto.Body?) && |p| <= cap
    ensures Feed(s, Frame(p), cap).1 == if p == [] then [] else [Ack, Flush, Exec(p)]
  {
    FrameDelivered(s, p, cap);
  }

  /** `$?#3f` to an idle stub. */
  lemma StatusQuery(s: Stream, cap: nat)
    requires s.auto.Idle? && cap > 0
    ensures Feed(s, [0x24, 0x3F, 0x23, 0x33, 0x66], cap).1 == [Ack, Flush, Exec([0x3F])]
  {
    hide Feed;
    var raw: seq<byte> := [0x3F];
    assert Wrap(raw, 0x33, 0x66) == [0x24, 0x3F, 0x23, 0x33, 0x66];
    assert raw[1..] == [] && Unescape([]) == Some([]) && [0x3F] + [] == raw;
    assert Unescape(raw) == Some(raw) && Sum(raw) == 0x3F;
    FrameAnswered(s, raw, raw, 0x33, 0x66, cap);
  }

  // ---- What the stub says, over any input ---------------------------------

  /** Event `i` stands where it may. */
  predicate InPlace(es: seq<Event>, i: nat)
    requires i < |es|
  {
    match es[i]
    case Exec(_) => i >= 2 && es[i - 2] == Ack && es[i - 1] == Flush
    case Ack => i + 2 < |es| && es[i + 1] == Flush && es[i + 2].Exec?
    case Nack => i + 1 < |es| && es[i + 1] == Flush
    case Flush => i >= 1 && (es[i - 1] == Ack || es[i - 1] == Nack)
    case Rpc(_) => true
  }

  /**
   * Every execution directly follows an acknowledgement and a flush, nothing else
   * is acknowledged, and a flush belongs to one or the other answer.
   */
  ghost predicate Disciplined(es: seq<Event>) {
    forall i :: 0 <= i < |es| ==> InPlace(es, i)
  }

  lemma DisciplinedConcat(a: seq<Event>, b: seq<Event>)
    requires Disciplined(a) && Disciplined(b)
    ensures Disciplined(a + b)
  {
    var c := a + b;
    forall i | 0 <= i < |c|
      ensures InPlace(c, i)
    {
      if i < |a| {
        assert InPlace(a, i);
      } else {
        assert InPlace(b, i - |a|) && c[i] == b[i - |a|];
      }
    }
  }

  /** The answers there are. */
  lemma Answers(s: Stream)
    ensures
      var es := React(s).1;
      || es == [] || es == [Nack, Flush] || es == [Rpc(s.body)] || es == [Ack, Flush, Exec(s.body)]
  {
  }

  lemma StepDisciplined(s: Stream, c: byte, cap: nat)
    requires Resting(s.auto)
    ensures Disciplined(React(Step(s, c, cap)).1)
  {
    hide Step, React;
    Answers(Step(s, c, cap));
  }

  /** Whatever arrives, in whatever state. */
  lemma {:induction false} RepliesDisciplined(s: Stream, data: seq<byte>, cap: nat)
    requires Resting(s.auto)
    ensures Disciplined(Feed(s, data, cap).1)
    decreases |data|
  {
    hide Step, React, Disciplined;
    if data == [] {
      NoEvents();
    } else {
      var (s1, e1) := React(Step(s, data[0], cap));
      StepRests(s, data[0], cap);
      StepDisciplined(s, data[0], cap);
      RepliesDisciplined(s1, data[1..], cap);
      DisciplinedConcat(e1, Feed(s1, data[1..], cap).1);
    }
  }

  lemma NoEvents()
    ensures Disciplined([])
  {
  }

  // ---- Recovery -----------------------------------------------------------

  /** The states an encoder packet can pass through before its closing marker. */
  predicate Mid(a: Automaton) { a.Idle? || a.Body? || a.RpcBody? || a.End2? }

  lemma {:induction false} BodyStaysMid(s: Stream, p: seq<byte>, cap: nat)
    requires Mid(s.auto)
    ensures Mid(Feed(s, Escaped(p), cap).0.auto)
    decreases |p|
  {
    if p != [] {
      var e := EscapeByte(p[0]);
      FeedConcat(s, e, Escaped(p[1..]), cap);
      UnitStaysMid(s, p[0], cap);
      BodyStaysMid(Feed(s, e, cap).0, p[1..], cap);
    }
  }

  lemma UnitStaysMid(s: Stream, c: byte, cap: nat)
    requires Mid(s.auto)
    ensures Mid(Feed(s, EscapeByte(c), cap).0.auto)
  {
    var e := EscapeByte(c);
    var t := React(Step(s, e[0], cap)).0;
    assert Feed(s, e, cap).0 == Feed(t, e[1..], cap).0;
    if Special(c) {
      assert e[1..] == [Xor20(c)] && [Xor20(c)][1..] == [];
      assert Feed(t, e[1..], cap).0 == React(Step(t, Xor20(c), cap)).0;
    }
  }

  lemma CloseGoesIdle(s: Stream, h: byte, l: byte, cap: nat)
    requires Mid(s.auto) && IsUpperHex(h) && IsUpperHex(l)
    ensures Feed(s, [END, h, l], cap).0.auto.Idle?
  {
    var t := React(Step(s, END, cap)).0;
    assert [END, h, l][1..] == [h, l] && [h, l][1..] == [l] && [l][1..] == [];
    assert Feed(s, [END, h, l], cap).0 == Feed(t, [h, l], cap).0;
    var u := React(Step(t, h, cap)).0;
    assert Feed(t, [h, l], cap).0 == Feed(u, [l], cap).0;
    assert Feed(u, [l], cap).0 == React(Step(u, l, cap)).0;
  }

  /** Self-synchronisation: whatever state garbage left the decoder in, one complete encoder packet ends in idle. */
  lemma Resync(s: Stream, p: seq<byte>, cap: nat)
    requires Resting(s.auto)
    ensures Feed(s, Frame(p), cap).0.auto.Idle?
  {
    var h := HexByte(Sum(Escaped(p)) % 256);
    var close := [END, h[0], h[1]];
    var t := React(Step(s, START, cap)).0;
    assert Frame(p)[1..] == Escaped(p) + close;
    BodyStaysMid(t, p, cap);
    FeedConcat(t, Escaped(p), close, cap);
    CloseGoesIdle(Feed(t, Escaped(p), cap).0, h[0], h[1], cap);
  }

  /** After any garbage and one packet, every later session is delivered exactly. */
  lemma SelfSynchronising(s: Stream, garbage: seq<byte>, p: seq<byte>,
                          gaps: seq<seq<byte>>, ps: seq<seq<byte>>, cap: nat)
    requires Resting(s.auto) && |gaps| == |ps|
    requires forall i :: 0 <= i < |ps| ==> Noise(gaps[i]) && |ps[i]| <= cap
    ensures
      var before := Feed(s, garbage + Frame(p), cap);
      Feed(s, garbage + Frame(p) + Transcript(gaps, ps), cap).1 == before.1 + Deliveries(ps)
  {
    FeedConcat(s, garbage, Frame(p), cap);
    Resync(Feed(s, garbage, cap).0, p, cap);
    FeedConcat(s, garbage + Frame(p), Transcript(gaps, ps), cap);
    SessionDelivered(Feed(s, garbage + Frame(p), cap).0, gaps, ps, cap);
  }

  // ---- Packets that do not fit -------------------------------------------

  predicate NoExec(es: seq<Event>) {
    forall i :: 0 <= i < |es| ==> !es[i].Exec?
  }

  predicate Dropping(a: Automaton) { a.Idle? || a.RpcBody? }

  lemma UnitDropped(s: Stream, c: byte, cap: nat)
    requires Dropping(s.auto)
    ensures Dropping(Feed(s, EscapeByte(c), cap).0.auto)
    ensures NoExec(Feed(s, EscapeByte(c), cap).1)
  {
    var e := EscapeByte(c);
    var (t, e1) := React(Step(s, e[0], cap));
    if Special(c) {
      assert e[1..] == [Xor20(c)] && [Xor20(c)][1..] == [];
      var (u, e2) := React(Step(t, Xor20(c), cap));
      assert Feed(t, e[1..], cap) == (u, e2 + []);
    }
  }

  lemma {:induction false} BodyDropped(s: Stream, p: seq<byte>, cap: nat)
    requires Dropping(s.auto)
    ensures Dropping(Feed(s, Escaped(p), cap).0.auto)
    ensures NoExec(Feed(s, Escaped(p), cap).1)
    decreases |p|
  {
    if p != [] {
      FeedConcat(s, EscapeByte(p[0]), Escaped(p[1..]), cap);
      UnitDropped(s, p[0], cap);
      BodyDropped(Feed(s, EscapeByte(p[0]), cap).0, p[1..], cap);
    }
  }

  lemma CloseDropped(s: Stream, h: byte, l: byte, cap: nat)
    requires Dropping(s.auto) && IsUpperHex(h) && IsUpperHex(l)
    ensures NoExec(Feed(s, [END, h, l], cap).1)
  {
    var (t, e) := React(Step(s, END, cap));
    assert [END, h, l][1..] == [h, l];
    NoiseIgnored(t, [h, l], cap);
  }

  /** One escape unit: stored when there is room, answered with a NACK when there is none. */
  lemma UnitStored(s: Stream, c: byte, cap: nat)
    requires s.auto.Body? && |s.body| <= cap
    ensures
      var (t, es) := Feed(s, EscapeByte(c), cap);
      if |s.body| < cap then t.auto.Body? && |t.body| == |s.body| + 1 && es == []
      else t.auto.Idle? && es == [Nack, Flush]
  {
    var e := EscapeByte(c);
    var s1 := React(Step(s, e[0], cap)).0;
    if Special(c) {
      assert e[1..] == [Xor20(c)] && [Xor20(c)][1..] == [];
      Quiet(s, e, cap);
      var (s2, e2) := React(Step(s1, Xor20(c), cap));
      assert Feed(s1, e[1..], cap) == (s2, e2 + []);
    } else {
      assert e[1..] == [];
      assert Feed(s, e, cap) == (s1, React(Step(s, e[0], cap)).1 + []);
    }
  }

  lemma NackThenNothing(es: seq<Event>)
    requires NoExec(es)
    ensures NoExec([Nack, Flush] + es) && ([Nack, Flush] + es)[0] == Nack
  {
  }

  /** The byte that finds the buffer full is answered with a NACK and the decoder drops the rest. */
  lemma {:induction false} Overflow(s: Stream, p: seq<byte>, cap: nat)
    requires s.auto.Body? && |s.body| <= cap < |s.body| + |p|
    ensures
      var (t, es) := Feed(s, Escaped(p), cap);
      Dropping(t.auto) && |es| >= 2 && es[0] == Nack && NoExec(es)
    decreases |p|
  {
    hide Feed, EscapeByte, NoExec;
    FeedConcat(s, EscapeByte(p[0]), Escaped(p[1..]), cap);
    UnitStored(s, p[0], cap);
    var s1 := Feed(s, EscapeByte(p[0]), cap).0;
    var rest := Feed(s1, Escaped(p[1..]), cap).1;
    if |s.body| == cap {
      BodyDropped(s1, p[1..], cap);
      NackThenNothing(rest);
    } else {
      assert [] + rest == rest;
      Overflow(s1, p[1..], cap);
    }
  }

  lemma OversizedRefused(s: Stream, p: seq<byte>, cap: nat)
    requires s.auto.Idle? && |p| > cap
    ensures
      var (t, es) := Feed(s, Frame(p), cap);
      t.auto.Idle? && |es| >= 2 && es[0] == Nack && NoExec(es)
  {
    var h := HexByte(Sum(Escaped(p)) % 256);
    var close := [END, h[0], h[1]];
    var t := s.(auto := Body, body := [], sum := 0);
    assert Frame(p)[1..] == Escaped(p) + close;
    Quiet(s, Frame(p), cap);
    Overflow(t, p, cap);
    FeedConcat(t, Escaped(p), close, cap);
    CloseDropped(Feed(t, Escaped(p), cap).0, h[0], h[1], cap);
    Resync(s, p, cap);
  }

  /** A non-empty payload framed by the encoder is executed exactly when it fits the input buffer. */
  lemma ExecutedIffFits(s: Stream, p: seq<byte>, cap: nat)
    requires s.auto.Idle? && p != []
    ensures Exec(p) in Feed(s, Frame(p), cap).1 <==> |p| <= cap
  {
    if |p| <= cap {
      FrameDelivered(s, p, cap);
      assert Delivery(p)[2] == Exec(p);
    } else {
      OversizedRefused(s, p, cap);
    }
  }

  /** With the firmware's buffer. */
  lemma FirmwareExecutesIff(s: Stream, p: seq<byte>)
    requires s.auto.Idle? && p != []
    ensures Exec(p) in Feed(s, Frame(p), INPUT_BUFFER_SIZE).1 <==> |p| <= 2112
  {
    ExecutedIffFits(s, p, INPUT_BUFFER_SIZE);
  }

  // ---- Soundness ----------------------------------------------------------

  /** `w` ends inside a frame opened at `i` whose body so far decodes to `body`. */
  ghost predicate OpenAt(w: seq<byte>, i: nat, body: seq<byte>, sum: nat) {
    i < |w| && w[i] == START && Unescape(w[i + 1..]) == Some(body) && Sum(w[i + 1..]) == sum
  }

  ghost predicate Open(w: seq<byte>, body: seq<byte>, sum: nat) {
    exists i: nat :: OpenAt(w, i, body, sum)
  }

  /** `w` ends inside an RPC call opened at `i` that holds `body`. */
  ghost predicate CallAt(w: seq<byte>, i: nat, body: seq<byte>) {
    && i < |w| && w[i] == RPC_START && w[i + 1..] == body
    && forall j :: 0 <= j < |body| ==> body[j] != RPC_START && body[j] != END
  }

  ghost predicate Call(w: seq<byte>, body: seq<byte>) {
    exists i: nat :: CallAt(w, i, body)
  }

  lemma CallSnoc(w: seq<byte>, body: seq<byte>, c: byte)
    requires Call(w, body) && c != RPC_START && c != END
    ensures Call(w + [c], body + [c])
  {
    var i: nat :| CallAt(w, i, body);
    assert (w + [c])[i + 1..] == w[i + 1..] + [c];
    assert CallAt(w + [c], i, body + [c]);
  }

  lemma CallStarts(w: seq<byte>)
    ensures Call(w + [RPC_START], [])
  {
    assert (w + [RPC_START])[|w| + 1..] == [];
    assert CallAt(w + [RPC_START], |w|, []);
  }

  /** What the state of the decoder says about the bytes it has seen. */
  ghost predicate Explains(w: seq<byte>, s: Stream) {
    var n := |w|;
    match s.auto
    case Body => Open(w, s.body, s.sum)
    case Escape => n >= 1 && w[n - 1] == ESCAPE && Open(w[..n - 1], s.body, s.sum)
    case End1 => n >= 1 && w[n - 1] == END && Open(w[..n - 1], s.body, s.sum)
    case End2 => n >= 2 && w[n - 1] == s.hi && w[n - 2] == END && Open(w[..n - 2], s.body, s.sum)
    case RpcBody => Call(w, s.body)
    case _ => true
  }

  /** A complete, correctly summed frame for `p` between positions `i` and `j + 2` of `w`. */
  ghost predicate FramedAt(w: seq<byte>, p: seq<byte>, i: nat, j: nat) {
    && i < j && j + 2 < |w|
    && w[i] == START && w[j] == END
    && Unescape(w[i + 1..j]) == Some(p)
    && Octet(w[j + 1], w[j + 2]) == Sum(w[i + 1..j]) % 256
  }

  ghost predicate Framed(w: seq<byte>, p: seq<byte>) {
    exists i: nat, j: nat :: FramedAt(w, p, i, j)
  }

  lemma {:induction false} UnescapeSnoc(raw: seq<byte>, b: seq<byte>, unit: seq<byte>, x: byte)
    requires Unescape(raw) == Some(b)
    requires || unit == [ESCAPE, Xor20(x)]
             || (unit == [x] && x != START && x != END && x != ESCAPE)
    ensures Unescape(raw + unit) == Some(b + [x])
    decreases |raw|
  {
    if raw == [] {
      assert raw + unit == unit;
      assert Unescape([]) == Some([]);
      if |unit| == 2 {
        Xor20Involutive(x);
        assert unit[2..] == [];
      } else {
        assert unit[1..] == [];
      }
      assert b + [x] == [x] + [];
    } else {
      var n := if raw[0] == ESCAPE then 2 else 1;
      assert (raw + unit)[n..] == raw[n..] + unit;
      UnescapeSnoc(raw[n..], b[1..], unit, x);
      assert b == [b[0]] + b[1..];
      assert [b[0]] + (b[1..] + [x]) == b + [x];
    }
  }

  lemma OpenSnoc(w: seq<byte>, body: seq<byte>, sum: nat, unit: seq<byte>, x: byte)
    requires Open(w, body, sum)
    requires || unit == [ESCAPE, Xor20(x)]
             || (unit == [x] && x != START && x != END && x != ESCAPE)
    ensures Open(w + unit, body + [x], sum + Sum(unit))
  {
    var i: nat :| OpenAt(w, i, body, sum);
    assert (w + unit)[i + 1..] == w[i + 1..] + unit;
    UnescapeSnoc(w[i + 1..], body, unit, x);
    SumConcat(w[i + 1..], unit);
    assert OpenAt(w + unit, i, body + [x], sum + Sum(unit));
  }

  lemma ExplainsStart(w: seq<byte>)
    ensures Open(w + [START], [], 0)
  {
    var w' := w + [START];
    assert w'[|w| + 1..] == [] && Unescape([]) == Some([]);
    assert OpenAt(w', |w|, [], 0);
  }

  lemma ExplainsBody(w: seq<byte>, s: Stream, c: byte, cap: nat)
    requires s.auto.Body? && Explains(w, s)
    ensures Explains(w + [c], React(Step(s, c, cap)).0)
  {
    if c == START {
      ExplainsStart(w);
    } else if c != END && c != ESCAPE {
      assert Sum([c]) == c;
      OpenSnoc(w, s.body, s.sum, [c], c);
    } else {
      assert (w + [c])[..|w|] == w;
    }
  }

  lemma ExplainsEscape(w: seq<byte>, s: Stream, c: byte, cap: nat)
    requires s.auto.Escape? && Explains(w, s)
    ensures Explains(w + [c], React(Step(s, c, cap)).0)
  {
    var unit, w0 := [ESCAPE, c], w[..|w| - 1];
    assert w + [c] == w0 + unit;
    assert Sum(unit) == ESCAPE + c by {
      assert unit[1..] == [c] && Sum([c]) == c;
    }
    Xor20Involutive(c);
    OpenSnoc(w0, s.body, s.sum, unit, Xor20(c));
  }

  lemma ExplainsEnd(w: seq<byte>, s: Stream, c: byte, cap: nat)
    requires s.auto.End2? && Explains(w, s)
    requires Step(s, c, cap).auto.Done?
    ensures Framed(w + [c], s.body)
  {
    var n, w' := |w|, w + [c];
    var i: nat :| OpenAt(w[..n - 2], i, s.body, s.sum);
    assert w'[i + 1..n - 2] == w[..n - 2][i + 1..];
    assert FramedAt(w', s.body, i, n - 2);
  }

  lemma ExplainsRpc(w: seq<byte>, s: Stream, c: byte, cap: nat)
    requires s.auto.RpcBody? && Explains(w, s)
    ensures Explains(w + [c], React(Step(s, c, cap)).0)
  {
    if c == RPC_START {
      CallStarts(w);
    } else if c != END {
      CallSnoc(w, s.body, c);
    }
  }

  lemma ExplainsStep(w: seq<byte>, s: Stream, c: byte, cap: nat)
    requires Resting(s.auto) && Explains(w, s)
    ensures Explains(w + [c], React(Step(s, c, cap)).0)
    ensures Step(s, c, cap).auto.Done? ==> Framed(w + [c], s.body)
  {
    match s.auto
    case Idle => if c == START { ExplainsStart(w); } else if c == RPC_START { CallStarts(w); }
    case Body => ExplainsBody(w, s, c, cap);
    case Escape => ExplainsEscape(w, s, c, cap);
    case End1 => assert (w + [c])[..|w| - 1] == w[..|w| - 1];
    case End2 => if Step(s, c, cap).auto.Done? { ExplainsEnd(w, s, c, cap); }
    case RpcBody => ExplainsRpc(w, s, c, cap);
  }

  lemma FramedExtends(w: seq<byte>, x: seq<byte>, p: seq<byte>)
    requires Framed(w, p)
    ensures Framed(w + x, p)
  {
    var i: nat, j: nat :| FramedAt(w, p, i, j);
    assert (w + x)[i + 1..j] == w[i + 1..j];
    assert FramedAt(w + x, p, i, j);
  }

  /** One byte can only execute the command that `s.body` holds, and only by completing a frame. */
  lemma ExecStep(w: seq<byte>, s: Stream, c: byte, p: seq<byte>, cap: nat)
    requires Resting(s.auto) && Bounded(s, cap) && Explains(w, s)
    requires Exec(p) in React(Step(s, c, cap)).1
    ensures p != [] && |p| <= cap && Framed(w + [c], p)
  {
    assert Step(s, c, cap).auto.Done? && Step(s, c, cap).body == s.body == p;
    ExplainsStep(w, s, c, cap);
  }

  lemma BoundedStep(s: Stream, c: byte, cap: nat)
    requires Resting(s.auto) && Bounded(s, cap)
    ensures Bounded(React(Step(s, c, cap)).0, cap)
  {
  }

  lemma {:induction false} ExecSoundFrom(w: seq<byte>, s: Stream, data: seq<byte>, p: seq<byte>, cap: nat)
    requires Resting(s.auto) && Bounded(s, cap) && Explains(w, s)
    requires Exec(p) in Feed(s, data, cap).1
    ensures p != [] && |p| <= cap && Framed(w + data, p)
    decreases |data|
  {
    hide Feed, Step, React, Explains, Bounded, Framed;
    assert data != [] by { FeedNothing(s, cap); }
    var c, rest := data[0], data[1..];
    FeedHead(s, data, cap);
    var (s1, e1) := React(Step(s, c, cap));
    assert (w + [c]) + rest == w + data;
    if Exec(p) in e1 {
      ExecStep(w, s, c, p, cap);
      FramedExtends(w + [c], rest, p);
    } else {
      ExplainsStep(w, s, c, cap);
      BoundedStep(s, c, cap);
      ExecSoundFrom(w + [c], s1, rest, p, cap);
    }
  }

  lemma FeedNothing(s: Stream, cap: nat)
    requires Resting(s.auto)
    ensures Feed(s, [], cap).1 == []
  {
  }

  lemma FeedHead(s: Stream, data: seq<byte>, cap: nat)
    requires Resting(s.auto) && data != []
    ensures
      var (s1, e1) := React(Step(s, data[0], cap));
      Resting(s1.auto) && Feed(s, data, cap).1 == e1 + Feed(s1, data[1..], cap).1
  {
  }

  /** Soundness: every command ever executed was on the wire as one complete frame with the right checksum. */
  lemma ExecSound(s: Stream, w: seq<byte>, p: seq<byte>, cap: nat)
    requires s.auto.Idle? && Bounded(s, cap)
    requires Exec(p) in Feed(s, w, cap).1
    ensures p != [] && |p| <= cap && Framed(w, p)
  {
    ExecSoundFrom([], s, w, p, cap);
    assert [] + w == w;
  }

  // ---- Refusals -----------------------------------------------------------

  /** `v` ends with a complete frame, opened at `i`, whose checksum is wrong. */
  ghost predicate BadSumAt(v: seq<byte>, i: nat) {
    var n := |v|;
    && i + 3 < n && v[i] == START && v[n - 3] == END
    && Unescape(v[i + 1..n - 3]).Some?
    && Octet(v[n - 2], v[n - 1]) != Sum(v[i + 1..n - 3]) % 256
  }

  /** `v` ends with the byte that no longer fits, of a packet or a call opened at `i`. */
  ghost predicate OverflowAt(v: seq<byte>, i: nat, body: seq<byte>, cap: nat) {
    |body| > cap && ((exists sum: nat :: OpenAt(v, i, body, sum)) || CallAt(v, i, body))
  }

  /** The last byte of `v` makes a packet or a call fail. */
  ghost predicate Fails(v: seq<byte>, cap: nat) {
    (exists i: nat :: BadSumAt(v, i)) || (exists i: nat, body: seq<byte> :: OverflowAt(v, i, body, cap))
  }

  lemma OpenOverflows(v: seq<byte>, body: seq<byte>, sum: nat, cap: nat)
    requires Open(v, body, sum) && |body| > cap
    ensures Fails(v, cap)
  {
    var i: nat :| OpenAt(v, i, body, sum);
    assert OverflowAt(v, i, body, cap);
  }

  lemma CallOverflows(v: seq<byte>, body: seq<byte>, cap: nat)
    requires Call(v, body) && |body| > cap
    ensures Fails(v, cap)
  {
    var i: nat :| CallAt(v, i, body);
    assert OverflowAt(v, i, body, cap);
  }

  lemma NackAtEnd(w: seq<byte>, s: Stream, c: byte, cap: nat)
    requires s.auto.End2? && Explains(w, s) && Step(s, c, cap).auto.Error?
    ensures Fails(w + [c], cap)
  {
    var n, v := |w|, w + [c];
    var i: nat :| OpenAt(w[..n - 2], i, s.body, s.sum);
    assert v[i + 1..n - 2] == w[..n - 2][i + 1..];
    assert BadSumAt(v, i);
  }

  /** One byte can only be refused if it makes a packet or a call fail. */
  lemma NackStep(w: seq<byte>, s: Stream, c: byte, cap: nat)
    requires Resting(s.auto) && Bounded(s, cap) && Explains(w, s)
    requires Nack in React(Step(s, c, cap)).1
    ensures Fails(w + [c], cap)
  {
    assert Step(s, c, cap).auto.Error?;
    match s.auto
    case Body =>
      SumOne(c);
      OpenSnoc(w, s.body, s.sum, [c], c);
      OpenOverflows(w + [c], s.body + [c], s.sum + c, cap);
    case Escape =>
      var unit, w0 := [ESCAPE, c], w[..|w| - 1];
      assert w + [c] == w0 + unit;
      Xor20Involutive(c);
      OpenSnoc(w0, s.body, s.sum, unit, Xor20(c));
      OpenOverflows(w0 + unit, s.body + [Xor20(c)], s.sum + Sum(unit), cap);
    case End2 => NackAtEnd(w, s, c, cap);
    case RpcBody =>
      CallSnoc(w, s.body, c);
      CallOverflows(w + [c], s.body + [c], cap);
    case _ =>
  }

  lemma SumOne(c: byte)
    ensures Sum([c]) == c
  {
    assert [c][1..] == [];
  }

  lemma {:induction false} NackSoundFrom(w: seq<byte>, s: Stream, data: seq<byte>, cap: nat) returns (n: nat)
    requires Resting(s.auto) && Bounded(s, cap) && Explains(w, s)
    requires Nack in Feed(s, data, cap).1
    ensures 0 < n <= |data| && Fails(w + data[..n], cap)
    decreases |data|
  {
    hide Feed, Step, React, Explains, Bounded, Fails;
    assert data != [] by { FeedNothing(s, cap); }
    var c, rest := data[0], data[1..];
    FeedHead(s, data, cap);
    var (s1, e1) := React(Step(s, c, cap));
    if Nack in e1 {
      NackStep(w, s, c, cap);
      assert data[..1] == [c];
      n := 1;
    } else {
      ExplainsStep(w, s, c, cap);
      BoundedStep(s, c, cap);
      var m := NackSoundFrom(w + [c], s1, rest, cap);
      assert (w + [c]) + rest[..m] == w + data[..m + 1];
      n := m + 1;
    }
  }

  /** A refusal is only ever sent for a packet with a wrong checksum, or a packet or call that does not fit. */
  lemma NackSound(s: Stream, w: seq<byte>, cap: nat)
    requires s.auto.Idle? && Bounded(s, cap)
    requires Nack in Feed(s, w, cap).1
    ensures exists n: nat :: n <= |w| && Fails(w[..n], cap)
  {
    var n := NackSoundFrom([], s, w, cap);
    assert [] + w[..n] == w[..n];
  }

  // ---- The RPC side channel ----------------------------------------------

  lemma {:induction false} RpcRun(s: Stream, b: seq<byte>, cap: nat)
    requires s.auto.RpcBody? && |s.body| + |b| <= cap
    requires forall i :: 0 <= i < |b| ==> b[i] != END && b[i] != RPC_START
    ensures Feed(s, b, cap) == (s.(body := s.body + b), [])
    decreases |b|
  {
    if b == [] {
      assert s.body + b == s.body;
    } else {
      Quiet(s, b, cap);
      assert s.body + [b[0]] + b[1..] == s.body + b;
      RpcRun(s.(body := s.body + [b[0]]), b[1..], cap);
    }
  }

  /** `!call#` dispatches exactly `call`, and leaves the GDB checksum alone. */
  lemma RpcDelivered(s: Stream, b: seq<byte>, cap: nat)
    requires s.auto.Idle? && |b| <= cap
    requires forall i :: 0 <= i < |b| ==> b[i] != END && b[i] != RPC_START
    ensures Feed(s, [RPC_START] + b + [END], cap) == (s.(body := b), if b == [] then [] else [Rpc(b)])
  {
    var data := [RPC_START] + b + [END];
    var s1 := s.(auto := RpcBody, body := []);
    assert data[1..] == b + [END];
    Quiet(s, data, cap);
    RpcRun(s1, b, cap);
    assert [] + b == b;
    FeedConcat(s1, b, [END], cap);
    assert [END][1..] == [];
    var e := React(Step(s1.(body := b), END, cap)).1;
    assert [] + (e + []) == e;
  }

  /** A second marker inside a call starts it again: only what follows it is dispatched. */
  lemma RpcRestarts(s: Stream, a: seq<byte>, b: seq<byte>, cap: nat)
    requires s.auto.Idle? && |a| <= cap && |b| <= cap
    requires forall i :: 0 <= i < |a| ==> a[i] != 0x23 && a[i] != 0x21
    requires forall i :: 0 <= i < |b| ==> b[i] != 0x23 && b[i] != 0x21
    ensures Feed(s, [0x21] + a + ([0x21] + b + [0x23]), cap).1 == if b == [] then [] else [Rpc(b)]
  {
    var s1 := s.(auto := RpcBody, body := []);
    var again := [RPC_START] + b + [END];
    assert ([RPC_START] + a)[1..] == a;
    Quiet(s, [RPC_START] + a, cap);
    RpcRun(s1, a, cap);
    assert [] + a == a;
    FeedConcat(s, [RPC_START] + a, again, cap);
    var s2 := s1.(body := a);
    assert again[1..] == b + [END];
    Quiet(s2, again, cap);
    Quiet(s, again, cap);
    RpcDelivered(s, b, cap);
    var es := Feed(s, again, cap).1;
    assert [] + es == es;
  }

  /** A call that does not fit is refused, and nothing is dispatched for it. */
  lemma RpcOversized(s: Stream, b: seq<byte>, cap: nat)
    requires s.auto.Idle? && |b| == cap + 1
    requires forall i :: 0 <= i < |b| ==> b[i] != 0x23 && b[i] != 0x21
    ensures Feed(s, [0x21] + b, cap).1 == [Nack, Flush] && Feed(s, [0x21] + b, cap).0.auto.Idle?
  {
    hide Feed;
    var s1 := s.(auto := RpcBody, body := []);
    var a, c := b[..cap], b[cap];
    assert ([RPC_START] + b)[1..] == b && b == a + [c];
    Quiet(s, [RPC_START] + b, cap);
    RpcRun(s1, a, cap);
    assert [] + a == a;
    FeedConcat(s1, a, [c], cap);
    OneByte(s1.(body := a), c, cap);
    assert [] + [Nack, Flush] == [Nack, Flush];
  }

  lemma OneByte(s: Stream, c: byte, cap: nat)
    requires Resting(s.auto)
    ensures Feed(s, [c], cap) == React(Step(s, c, cap))
  {
    hide Step, React;
    var (u, e) := React(Step(s, c, cap));
    assert [c][1..] == [] && e + [] == e;
    StepRests(s, c, cap);
    assert Feed(u, [], cap) == (u, []);
  }
}

/**
 * The WCH one-wire protocol: the probe's transmitter builds a waveform, an
 * independent logic-analyser decoder measures it and rebuilds the frames.
 * Times are in nanoseconds.
 */
module Sdi {
  import opened Bytes
  import opened Bits
  import S = Serialiser

  const HEADER_BITS: nat := 9
  const WORD_BITS: nat := 32
  const MAX_ADDRESS: nat := 127
  const END_OF_WRITE_DELAY: nat := 55_000

  /** One low pulse on the idle-high line. */
  datatype Pulse = Pulse(fall: nat, rise: nat)

  /** One register write as it travels: 7-bit address, direction WRITE, 32 bits. */
  datatype Frame = Frame(adr: byte, data: u32)

  /** `make_sdi_header`: the start bit is or-ed in, so bit 7 of a wider address lands on it. */
  function Header(adr: byte, mode: bool): (h: nat)
    ensures 256 <= h < 512
  {
    (if adr > MAX_ADDRESS then 2 * adr else 256 + 2 * adr) + if mode then 1 else 0
  }

  function FrameBits(f: Frame): (bits: seq<bool>)
    ensures |bits| == 41
  {
    MsbBits(Header(f.adr, true), HEADER_BITS) + MsbBits(f.data, WORD_BITS)
  }

  // ---- The decoder ---------------------------------------------------------

  datatype Field = Hdr(adr: nat, write: bool) | Data(value: nat) | Fragment(count: nat)

  datatype Mark = One | Zero | Error | Stop

  datatype State = State(rising: Option<nat>, bits: seq<bool>, fields: seq<Field>, marks: seq<Mark>)

  const IDLE: State := State(None, [], [], [])

  /** What a low pulse of `low` means with base period `T`. */
  function Classify(T: nat, low: int): Mark {
    if T <= 2 * low && low <= 5 * T then One
    else if 5 * T <= low <= 70 * T then Zero
    else Error
  }

  function MarkOf(b: bool): Mark {
    if b then One else Zero
  }

  function Marks(bits: seq<bool>): (m: seq<Mark>)
    ensures |m| == |bits|
  {
    seq(|bits|, i requires 0 <= i < |bits| => MarkOf(bits[i]))
  }

  /** The fields `parse_frame` reports for the collected bits. */
  function Parse(bits: seq<bool>): seq<Field> {
    if |bits| < HEADER_BITS then []
    else
      var h := Value(bits[..HEADER_BITS]);
      [Hdr(h / 2 % 128, h % 2 == 1)] +
      (if |bits| == HEADER_BITS + WORD_BITS then [Data(Value(bits[HEADER_BITS..]))]
       else if |bits| > HEADER_BITS then [Fragment(|bits| - HEADER_BITS)]
       else [])
  }

  function Flush(s: State): State {
    s.(fields := s.fields + Parse(s.bits), bits := [])
  }

  /** A falling edge after a long high level closes the frame before it. */
  function OnFall(T: nat, s: State, fall: nat): State {
    if s.rising.Some? && fall - s.rising.value >= 16 * T
    then Flush(s.(marks := s.marks + [Stop]))
    else s
  }

  /** A rising edge ends a pulse: one bit, or a pulse that is no bit. */
  function OnRise(T: nat, s: State, p: Pulse): State {
    var mark := Classify(T, p.rise - p.fall);
    s.(rising := Some(p.rise), marks := s.marks + [mark],
       bits := s.bits + if mark.Error? then [] else [mark.One?])
  }

  function Run(T: nat, s: State, pulses: seq<Pulse>): State
    decreases |pulses|
  {
    if pulses == [] then s
    else Run(T, OnRise(T, OnFall(T, s, pulses[0].fall), pulses[0]), pulses[1..])
  }

  /** A whole trace; `hangs` is a last falling edge with no rising edge after it. */
  function Decode(T: nat, pulses: seq<Pulse>, hangs: Option<nat>): State {
    var s := Run(T, IDLE, pulses);
    if hangs.None? then Flush(s) else OnFall(T, s, hangs.value)
  }

  class Decoder {
    const T: nat
    var rising: Option<nat>
    var bits: seq<bool>
    var fields: seq<Field>
    var marks: seq<Mark>

    constructor (T: nat)
      ensures this.T == T && Snapshot() == IDLE
    {
      this.T := T;
      rising, bits, fields, marks := None, [], [], [];
    }

    ghost function Snapshot(): State
      reads this
    {
      State(rising, bits, fields, marks)
    }

    method ParseFrame()
      modifies this
      ensures Snapshot() == Flush(old(Snapshot()))
    {
      if bits == [] {
        assert fields + Parse(bits) == fields;
        return;
      }
      if |bits| >= HEADER_BITS {
        var h := ValueOf(bits[..HEADER_BITS]);
        fields := fields + [Hdr(h / 2 % 128, h % 2 == 1)];
        if |bits| == HEADER_BITS + WORD_BITS {
          var d := ValueOf(bits[HEADER_BITS..]);
          fields := fields + [Data(d)];
        } else if |bits| > HEADER_BITS {
          fields := fields + [Fragment(|bits| - HEADER_BITS)];
        }
      } else {
        assert fields + Parse(bits) == fields;
      }
      bits := [];
    }

    method Fall(fall: nat)
      modifies this
      ensures Snapshot() == OnFall(T, old(Snapshot()), fall)
    {
      if rising.Some? {
        var high := fall - rising.value;
        if high >= 16 * T {
          marks := marks + [Stop];
          ParseFrame();
        }
      }
    }

    method Rise(p: Pulse)
      modifies this
      ensures Snapshot() == OnRise(T, old(Snapshot()), p)
    {
      rising := Some(p.rise);
      var low := p.rise - p.fall;
      if T <= 2 * low && low <= 5 * T {
        marks := marks + [One];
        bits := bits + [true];
      } else if 5 * T <= low <= 70 * T {
        marks := marks + [Zero];
        bits := bits + [false];
      } else {
        marks := marks + [Error];
        assert bits + [] == bits;
      }
    }

    /** The edge loop over one trace. */
    method DecodeTrace(pulses: seq<Pulse>, hangs: Option<nat>)
      requires Snapshot() == IDLE
      modifies this
      ensures Snapshot() == Decode(T, pulses, hangs)
    {
      hide OnFall, OnRise, Flush;
      var i := 0;
      while i < |pulses|
        invariant i <= |pulses|
        invariant Run(T, IDLE, pulses) == Run(T, Snapshot(), pulses[i..])
      {
        assert pulses[i..][1..] == pulses[i + 1..];
        Fall(pulses[i].fall);
        Rise(pulses[i]);
        i := i + 1;
      }
      if hangs.Some? {
        Fall(hangs.value);
        return;
      }
      ParseFrame();
    }
  }

  /** The accumulating loop over collected bits. */
  method ValueOf(bits: seq<bool>) returns (v: nat)
    ensures v == Value(bits)
  {
    v := 0;
    for i := 0 to |bits|
      invariant v == Value(bits[..i])
    {
      v := 2 * v + if bits[i] then 1 else 0;
      assert bits[..i + 1] == bits[..i] + [bits[i]];
      ValueSnoc(bits[..i], bits[i]);
    }
    assert bits[..|bits|] == bits;
  }

  // ---- What the decoder recovers -------------------------------------------

  /** The low times the decoder takes for each bit. */
  predicate Window(T: nat, bit: bool, low: int) {
    if bit then T <= 2 * low && low <= 5 * T else 5 * T < low <= 70 * T
  }

  lemma ClassifyIffWindow(T: nat, bit: bool, low: int)
    ensures Classify(T, low) == MarkOf(bit) <==> Window(T, bit, low)
  {
  }

  /** A pulse in neither window is marked as an error and adds no bit. */
  lemma StrayPulse(T: nat, s: State, p: Pulse)
    requires !Window(T, true, p.rise - p.fall) && !Window(T, false, p.rise - p.fall)
    ensures OnRise(T, s, p) == State(Some(p.rise), s.bits, s.fields, s.marks + [Error])
  {
    assert s.bits + [] == s.bits;
  }

  /** `pulses` carry `bits`: every low time in its window, no long high level inside. */
  ghost predicate Carries(T: nat, pulses: seq<Pulse>, bits: seq<bool>) {
    && |pulses| == |bits|
    && (forall i :: 0 <= i < |bits| ==> Window(T, bits[i], pulses[i].rise - pulses[i].fall))
    && (forall i :: 0 < i < |bits| ==> pulses[i].fall - pulses[i - 1].rise < 16 * T)
  }

  lemma {:induction false} RunBits(T: nat, s: State, pulses: seq<Pulse>, bits: seq<bool>)
    requires Carries(T, pulses, bits)
    requires pulses != [] && s.rising.Some? ==> pulses[0].fall - s.rising.value < 16 * T
    ensures Run(T, s, pulses).fields == s.fields
    ensures Run(T, s, pulses).bits == s.bits + bits
    ensures Run(T, s, pulses).marks == s.marks + Marks(bits)
    ensures Run(T, s, pulses).rising == if pulses == [] then s.rising else Some(pulses[|pulses| - 1].rise)
    decreases |pulses|
  {
    hide Window, Classify;
    if pulses == [] {
      assert s.bits + bits == s.bits && s.marks + Marks(bits) == s.marks;
    } else {
      ClassifyIffWindow(T, bits[0], pulses[0].rise - pulses[0].fall);
      var s1 := OnRise(T, OnFall(T, s, pulses[0].fall), pulses[0]);
      assert s1.bits == s.bits + [bits[0]];
      RunBits(T, s1, pulses[1..], bits[1..]);
      assert s.bits + [bits[0]] + bits[1..] == s.bits + bits;
      assert s.marks + [MarkOf(bits[0])] + Marks(bits[1..]) == s.marks + Marks(bits);
    }
  }

  /** A frame after a long high level: the frame before it is flushed, this one is held. */
  lemma RunFrame(T: nat, s: State, pulses: seq<Pulse>, bits: seq<bool>)
    requires Carries(T, pulses, bits) && bits != []
    requires if s.rising.Some? then pulses[0].fall - s.rising.value >= 16 * T else s.bits == []
    ensures Run(T, s, pulses).fields == Flush(s).fields
    ensures Run(T, s, pulses).bits == bits
    ensures Run(T, s, pulses).marks == s.marks + (if s.rising.Some? then [Stop] else []) + Marks(bits)
    ensures Run(T, s, pulses).rising == Some(pulses[|pulses| - 1].rise)
  {
    hide Parse, Marks, Run, OnRise;
    var s0 := OnFall(T, s, pulses[0].fall);
    assert s0.bits == [];
    assert s.rising.None? ==> Parse([]) == [] && s.marks + [] == s.marks by { ParseNothing(); }
    assert s0.fields == Flush(s).fields;
    RunAfterFall(T, s, pulses);
    RunBits(T, s0.(rising := None), pulses, bits);
    assert [] + bits == bits;
  }

  lemma ParseNothing()
    ensures Parse([]) == []
  {
  }

  lemma RunAfterFall(T: nat, s: State, pulses: seq<Pulse>)
    requires pulses != []
    ensures Run(T, s, pulses) == Run(T, OnFall(T, s, pulses[0].fall).(rising := None), pulses)
  {
  }

  function Flatten(trains: seq<seq<Pulse>>): seq<Pulse> {
    if trains == [] then [] else trains[0] + Flatten(trains[1..])
  }

  function LastRise(train: seq<Pulse>): nat {
    if train == [] then 0 else train[|train| - 1].rise
  }

  /** One pulse train per frame, each after a long high level. */
  ghost predicate Timeline(T: nat, prev: Option<nat>, trains: seq<seq<Pulse>>, frames: seq<Frame>)
    decreases |frames|
  {
    && |trains| == |frames|
    && (frames == [] ||
        (&& Carries(T, trains[0], FrameBits(frames[0])) && |trains[0]| == 41
         && (prev.Some? ==> trains[0][0].fall - prev.value >= 16 * T)
         && Timeline(T, Some(LastRise(trains[0])), trains[1..], frames[1..])))
  }

  /** What was sent, field by field. */
  function Sent(frames: seq<Frame>): seq<Field> {
    if frames == [] then []
    else [Hdr(frames[0].adr, true), Data(frames[0].data)] + Sent(frames[1..])
  }

  /** What can be seen of a frame: the address loses its top bit. */
  function FieldsOf(f: Frame): seq<Field> {
    [Hdr(f.adr % 128, true), Data(f.data)]
  }

  function Seen(frames: seq<Frame>): seq<Field> {
    if frames == [] then [] else FieldsOf(frames[0]) + Seen(frames[1..])
  }

  /** The nine bits of a header read as a number, and the fields in it. */
  lemma HeaderValue(adr: byte, write: bool)
    ensures
      var h := Header(adr, write);
      h / 2 % 128 == adr % 128 && (h % 2 == 1 <==> write) && Value(MsbBits(h, 9)) == h
  {
    hide MsbBits, Value, Pow2, Low;
    var h := Header(adr, write);
    Pow2Values();
    Pow2Nine();
    ValueOfBits(h, 9);
    LowOfSum(0, 9, h);
  }

  /** The first nine bits are reported as address and direction, for either direction; what follows by its length. */
  lemma HeaderParsed(adr: byte, write: bool, rest: seq<bool>)
    ensures
      Parse(MsbBits(Header(adr, write), 9) + rest) ==
      [Hdr(adr % 128, write)] +
      (if |rest| == 0 then [] else if |rest| == 32 then [Data(Value(rest))] else [Fragment(|rest|)])
  {
    hide MsbBits, Value, Header;
    var bits := MsbBits(Header(adr, write), 9) + rest;
    HeaderValue(adr, write);
    assert bits[..9] == MsbBits(Header(adr, write), 9) && bits[9..] == rest;
  }

  lemma FrameParsed(f: Frame)
    ensures Parse(FrameBits(f)) == FieldsOf(f)
  {
    hide MsbBits, Value, Pow2, Low, Parse;
    Pow2Values();
    HeaderParsed(f.adr, true, MsbBits(f.data, 32));
    ValueOfBits(f.data, 32);
    LowOfSum(0, 32, f.data);
  }

  /** Fewer bits than a header are reported as nothing. */
  lemma ShortFrameIgnored(bits: seq<bool>)
    requires |bits| < 9
    ensures Parse(bits) == []
  {
  }

  lemma Pow2Nine()
    ensures Pow2(9) == 2 * Pow2(8)
  {
  }

  lemma {:induction false} RunConcat(T: nat, s: State, a: seq<Pulse>, b: seq<Pulse>)
    ensures Run(T, s, a + b) == Run(T, Run(T, s, a), b)
    decreases |a|
  {
    hide OnFall, OnRise;
    if a == [] {
      assert [] + b == b;
    } else {
      assert (a + b)[1..] == a[1..] + b;
      RunConcat(T, OnRise(T, OnFall(T, s, a[0].fall), a[0]), a[1..], b);
    }
  }

  lemma {:induction false} RunFrames(T: nat, s: State, trains: seq<seq<Pulse>>, frames: seq<Frame>)
    requires Timeline(T, s.rising, trains, frames)
    requires s.rising.None? ==> s.bits == []
    ensures Flush(Run(T, s, Flatten(trains))).fields == Flush(s).fields + Seen(frames)
    ensures Error !in s.marks ==> Error !in Run(T, s, Flatten(trains)).marks
    decreases |frames|
  {
    hide Carries, FrameBits, Run, Flush;
    if frames == [] {
      RunNothing(T, s);
      assert Flush(s).fields + Seen(frames) == Flush(s).fields;
    } else {
      RunConcat(T, s, trains[0], Flatten(trains[1..]));
      FrameFlushed(T, s, trains[0], frames[0]);
      var s1 := Run(T, s, trains[0]);
      RunFrames(T, s1, trains[1..], frames[1..]);
      SeenCons(Flush(s).fields, frames);
    }
  }

  lemma SeenCons(before: seq<Field>, frames: seq<Frame>)
    requires frames != []
    ensures before + FieldsOf(frames[0]) + Seen(frames[1..]) == before + Seen(frames)
  {
  }

  /** A frame, once flushed, adds its two fields. */
  lemma FrameFlushed(T: nat, s: State, train: seq<Pulse>, f: Frame)
    requires Carries(T, train, FrameBits(f))
    requires |train| == 41
    requires if s.rising.Some? then train[0].fall - s.rising.value >= 16 * T else s.bits == []
    ensures Flush(Run(T, s, train)).fields == Flush(s).fields + FieldsOf(f)
    ensures Run(T, s, train).rising == Some(LastRise(train)) && Run(T, s, train).fields == Flush(s).fields
    ensures Error !in s.marks ==> Error !in Run(T, s, train).marks
  {
    hide Carries, FrameBits, Run, Parse;
    RunFrame(T, s, train, FrameBits(f));
    FrameParsed(f);
  }

  lemma RunNothing(T: nat, s: State)
    ensures Run(T, s, []) == s
  {
  }

  /**
   * Any timeline inside the decoder's windows decodes to exactly its frames, the
   * last one flushed by the end of the trace, without one error mark. Only bit 7
   * of an address is lost.
   */
  lemma WaveformDecodes(T: nat, trains: seq<seq<Pulse>>, frames: seq<Frame>)
    requires Timeline(T, None, trains, frames)
    ensures Decode(T, Flatten(trains), None).fields == Seen(frames)
    ensures Error !in Decode(T, Flatten(trains), None).marks
  {
    hide Run, Timeline, Parse;
    RunFrames(T, IDLE, trains, frames);
    ParseNothing();
    assert [] + Seen(frames) == Seen(frames);
  }

  /** The frame last received is still held. */
  lemma {:induction false} LastIsHeld(T: nat, s: State, trains: seq<seq<Pulse>>, frames: seq<Frame>)
    requires Timeline(T, s.rising, trains, frames) && frames != []
    requires s.rising.None? ==> s.bits == []
    ensures Run(T, s, Flatten(trains)).fields == Flush(s).fields + Seen(frames[..|frames| - 1])
    ensures |trains| == |frames|
    ensures Run(T, s, Flatten(trains)).rising == Some(LastRise(trains[|trains| - 1]))
    decreases |frames|
  {
    hide Carries, FrameBits, Run, Flush;
    var rest, n := Flatten(trains[1..]), |frames| - 1;
    RunConcat(T, s, trains[0], rest);
    FrameFlushed(T, s, trains[0], frames[0]);
    var s1 := Run(T, s, trains[0]);
    if n == 0 {
      RunNothing(T, s1);
      assert Seen(frames[..0]) == [];
      assert Flush(s).fields + [] == Flush(s).fields;
    } else {
      LastIsHeld(T, s1, trains[1..], frames[1..]);
      assert frames[1..][..n - 1] == frames[..n][1..];
      assert Flush(s).fields + FieldsOf(frames[0]) + Seen(frames[..n][1..]) == Flush(s).fields + Seen(frames[..n]);
    }
  }

  /**
   * A trace that stops while the line is low: the last frame is reported if and
   * only if a long high level came before that falling edge.
   */
  lemma HangingTrace(T: nat, trains: seq<seq<Pulse>>, frames: seq<Frame>, fall: nat)
    requires Timeline(T, None, trains, frames) && frames != []
    ensures var n := |trains| - 1;
            Decode(T, Flatten(trains), Some(fall)).fields ==
            Seen(if fall - LastRise(trains[n]) >= 16 * T then frames else frames[..n])
  {
    hide Run, Timeline, Parse, Seen;
    LastIsHeld(T, IDLE, trains, frames);
    RunFrames(T, IDLE, trains, frames);
    ParseNothing();
    var n := |frames| - 1;
    assert [] + Seen(frames) == Seen(frames) && [] + Seen(frames[..n]) == Seen(frames[..n]);
  }

  /** The address guard is exactly what the round trip needs. */
  lemma {:induction false} SeenIsSentIff(frames: seq<Frame>)
    ensures Seen(frames) == Sent(frames) <==> forall f :: f in frames ==> f.adr <= MAX_ADDRESS
  {
    if frames != [] {
      SeenIsSentIff(frames[1..]);
      var h, g := FieldsOf(frames[0]), [Hdr(frames[0].adr, true), Data(frames[0].data)];
      assert h + Seen(frames[1..]) == g + Sent(frames[1..]) <==> h == g && Seen(frames[1..]) == Sent(frames[1..]) by {
        SplitEqual(h, Seen(frames[1..]), g, Sent(frames[1..]));
      }
      assert h == g <==> frames[0].adr % 128 == frames[0].adr by {
        assert h[0].adr == frames[0].adr % 128 && g[0].adr == frames[0].adr;
      }
      assert frames == [frames[0]] + frames[1..];
    }
  }

  lemma SplitEqual(a: seq<Field>, b: seq<Field>, c: seq<Field>, d: seq<Field>)
    requires |a| == |c|
    ensures a + b == c + d <==> a == c && b == d
  {
    if a + b == c + d {
      assert a == (a + b)[..|a|] && c == (c + d)[..|a|];
      assert b == (a + b)[|a|..] && d == (c + d)[|a|..];
    }
  }

  // ---- The transmitter -----------------------------------------------------

  datatype Timing = Timing(tbit: nat, low1: nat, low0: nat)

  const DEFAULT_TIMING: Timing := Timing(1400, 200, 1050)
  const DEFAULT_T: nat := 125

  function LowTime(t: Timing, bit: bool): nat {
    if bit then t.low1 else t.low0
  }

  function CellTime(t: Timing, bit: bool): (d: nat)
    ensures d >= LowTime(t, bit)
  {
    if t.tbit < LowTime(t, bit) then LowTime(t, bit) else t.tbit
  }

  function Cells(t: Timing, now: nat, bits: seq<bool>): (pulses: seq<Pulse>)
    ensures |pulses| == |bits|
    decreases |bits|
  {
    if bits == [] then []
    else [Pulse(now, now + LowTime(t, bits[0]))] + Cells(t, now + CellTime(t, bits[0]), bits[1..])
  }

  function CellsEnd(t: Timing, now: nat, bits: seq<bool>): (end: nat)
    ensures end >= now
    decreases |bits|
  {
    if bits == [] then now else CellsEnd(t, now + CellTime(t, bits[0]), bits[1..])
  }

  lemma {:induction false} CellsConcat(t: Timing, now: nat, a: seq<bool>, b: seq<bool>)
    ensures Cells(t, now, a + b) == Cells(t, now, a) + Cells(t, CellsEnd(t, now, a), b)
    ensures CellsEnd(t, now, a + b) == CellsEnd(t, CellsEnd(t, now, a), b)
    decreases |a|
  {
    if a == [] {
      assert a + b == b;
    } else {
      assert (a + b)[1..] == a[1..] + b;
      CellsConcat(t, now + CellTime(t, a[0]), a[1..], b);
    }
  }

  /** The pad and the timer. */
  class Pad {
    const timing: Timing
    var now: nat
    var pulses: seq<Pulse>

    constructor (timing: Timing)
      ensures this.timing == timing && now == 0 && pulses == []
    {
      this.timing := timing;
      now, pulses := 0, [];
    }

    method SendCell(low: nat)
      modifies this
      ensures pulses == old(pulses) + [Pulse(old(now), old(now) + low)]
      ensures now == old(now) + if timing.tbit < low then low else timing.tbit
    {
      var start := now;
      now := start + low;
      pulses := pulses + [Pulse(start, now)];
      if now < start + timing.tbit {
        now := start + timing.tbit;
      }
    }

    method SendBit(bit: bool)
      modifies this
      ensures pulses == old(pulses) + Cells(timing, old(now), [bit])
      ensures now == CellsEnd(timing, old(now), [bit])
    {
      if bit {
        SendCell(timing.low1);
      } else {
        SendCell(timing.low0);
      }
    }

    /** The bit loop of a header or a word. */
    method SendBits(x: nat, n: nat)
      modifies this
      ensures pulses == old(pulses) + Cells(timing, old(now), MsbBits(x, n))
      ensures now == CellsEnd(timing, old(now), MsbBits(x, n))
    {
      hide MsbBits, Shr, S.MaskBits, Cells, CellsEnd;
      S.MaskIsMsb(x, n);
      NoCells(timing, now);
      ghost var sent: seq<bool> := [];
      assert [] + S.MaskBits(x, n) == S.MaskBits(x, n);
      for i := 0 to n
        invariant sent + S.MaskBits(x, n - i) == MsbBits(x, n)
        invariant pulses == old(pulses) + Cells(timing, old(now), sent)
        invariant now == CellsEnd(timing, old(now), sent)
      {
        var bit := Shr(x, n - 1 - i) % 2 == 1;
        NextBit(sent, bit, x, n - i);
        CellsConcat(timing, old(now), sent, [bit]);
        SendBit(bit);
        sent := sent + [bit];
      }
      NextNone(sent, x);
    }

    method WriteFrame(adr: byte, data: u32)
      modifies this
      ensures pulses == old(pulses) + Cells(timing, old(now), FrameBits(Frame(adr, data)))
      ensures now == CellsEnd(timing, old(now), FrameBits(Frame(adr, data))) + 55_000
    {
      hide MsbBits, Cells, CellsEnd;
      SendBits(Header(adr, true), HEADER_BITS);
      SendBits(data, WORD_BITS);
      CellsConcat(timing, old(now), MsbBits(Header(adr, true), 9), MsbBits(data, 32));
      now := now + END_OF_WRITE_DELAY;
    }

    /** `sdi_dm_write`: an address wider than 7 bits is refused and nothing is sent. */
    method DmWrite(adr: byte, data: u32) returns (ok: bool)
      modifies this
      ensures ok <==> adr <= 127
      ensures ok ==> pulses == old(pulses) + Cells(timing, old(now), FrameBits(Frame(adr, data)))
      ensures ok ==> now == CellsEnd(timing, old(now), FrameBits(Frame(adr, data))) + 55_000
      ensures !ok ==> pulses == old(pulses) && now == old(now)
    {
      hide Cells, CellsEnd, FrameBits;
      if adr > MAX_ADDRESS {
        return false;
      }
      WriteFrame(adr, data);
      return true;
    }
  }

  lemma NoCells(t: Timing, now: nat)
    ensures Cells(t, now, []) == [] && CellsEnd(t, now, []) == now
  {
  }

  /** The next bit a mask picks, moved to the bits that have been sent. */
  lemma NextBit(sent: seq<bool>, bit: bool, x: nat, left: nat)
    requires left > 0 && bit == (Shr(x, left - 1) % 2 == 1)
    ensures sent + S.MaskBits(x, left) == sent + [bit] + S.MaskBits(x, left - 1)
  {
    hide Shr;
    assert sent + ([bit] + S.MaskBits(x, left - 1)) == sent + [bit] + S.MaskBits(x, left - 1);
  }

  lemma NextNone(sent: seq<bool>, x: nat)
    ensures sent + S.MaskBits(x, 0) == sent
  {
  }

  // ---- Both ends together --------------------------------------------------

  /** A register write asked for, `idle` nanoseconds after the one before it returned. */
  datatype Write = Write(idle: nat, adr: byte, data: u32)

  /** The frames that pass the address guard. */
  function Accepted(writes: seq<Write>): seq<Frame> {
    if writes == [] then []
    else
      (if writes[0].adr <= MAX_ADDRESS then [Frame(writes[0].adr, writes[0].data)] else []) + Accepted(writes[1..])
  }

  /** The pulse trains `DmWrite` puts on the wire over a whole session. */
  function Session(t: Timing, now: nat, writes: seq<Write>): seq<seq<Pulse>>
    decreases |writes|
  {
    if writes == [] then []
    else
      var w := writes[0];
      var start := now + w.idle;
      if w.adr > MAX_ADDRESS then Session(t, start, writes[1..])
      else
        var bits := FrameBits(Frame(w.adr, w.data));
        [Cells(t, start, bits)] + Session(t, CellsEnd(t, start, bits) + END_OF_WRITE_DELAY, writes[1..])
  }

  /** Both cells inside the decoder's windows, the delay between frames above its limit. */
  predicate TimingFits(T: nat, t: Timing) {
    && Window(T, true, t.low1) && Window(T, false, t.low0)
    && CellTime(t, true) - t.low1 < 16 * T && CellTime(t, false) - t.low0 < 16 * T
    && 16 * T <= END_OF_WRITE_DELAY
  }

  lemma DefaultsFit()
    ensures TimingFits(DEFAULT_T, DEFAULT_TIMING)
    ensures DEFAULT_T == 125 && DEFAULT_TIMING == Timing(1400, 200, 1050)
  {
  }

  lemma {:induction false} CellsCarry(T: nat, t: Timing, now: nat, bits: seq<bool>)
    requires TimingFits(T, t)
    ensures Carries(T, Cells(t, now, bits), bits)
    ensures bits != [] ==> Cells(t, now, bits)[0].fall == now
    ensures bits != [] ==> Cells(t, now, bits)[|bits| - 1].rise <= CellsEnd(t, now, bits)
    decreases |bits|
  {
    hide Window, Carries;
    if bits == [] {
      CarriesNothing(T);
    } else {
      var next := now + CellTime(t, bits[0]);
      CellsCarry(T, t, next, bits[1..]);
      CarriesCons(T, Pulse(now, now + LowTime(t, bits[0])), bits[0], Cells(t, next, bits[1..]), bits[1..]);
      assert [bits[0]] + bits[1..] == bits;
    }
  }

  lemma CarriesNothing(T: nat)
    ensures Carries(T, [], [])
  {
  }

  lemma CarriesCons(T: nat, p: Pulse, bit: bool, pulses: seq<Pulse>, bits: seq<bool>)
    requires Window(T, bit, p.rise - p.fall) && Carries(T, pulses, bits)
    requires bits != [] ==> pulses[0].fall - p.rise < 16 * T
    ensures Carries(T, [p] + pulses, [bit] + bits)
  {
    hide Window;
    var q, b := [p] + pulses, [bit] + bits;
    forall i | 0 <= i < |b|
      ensures Window(T, b[i], q[i].rise - q[i].fall)
      ensures i > 0 ==> q[i].fall - q[i - 1].rise < 16 * T
    {
      if i > 0 {
        assert q[i] == pulses[i - 1] && b[i] == bits[i - 1];
      }
    }
  }

  lemma {:induction false} SessionTimeline(T: nat, t: Timing, prev: Option<nat>, now: nat, writes: seq<Write>)
    requires TimingFits(T, t)
    requires prev.Some? ==> now - prev.value >= 16 * T
    ensures Timeline(T, prev, Session(t, now, writes), Accepted(writes))
    decreases |writes|
  {
    hide FrameBits, Cells, CellsEnd, Carries, Timeline;
    if writes == [] {
      NoTimeline(T, prev);
    } else {
      var w := writes[0];
      var start := now + w.idle;
      if w.adr > MAX_ADDRESS {
        SessionTimeline(T, t, prev, start, writes[1..]);
        assert [] + Accepted(writes[1..]) == Accepted(writes[1..]);
      } else {
        var f := Frame(w.adr, w.data);
        var train, end := Cells(t, start, FrameBits(f)), CellsEnd(t, start, FrameBits(f)) + END_OF_WRITE_DELAY;
        CellsCarry(T, t, start, FrameBits(f));
        SessionTimeline(T, t, Some(LastRise(train)), end, writes[1..]);
        TimelineCons(T, prev, train, f, Session(t, end, writes[1..]), Accepted(writes[1..]));
      }
    }
  }

  lemma NoTimeline(T: nat, prev: Option<nat>)
    ensures Timeline(T, prev, [], [])
  {
  }

  lemma TimelineCons(T: nat, prev: Option<nat>, train: seq<Pulse>, f: Frame,
                     trains: seq<seq<Pulse>>, frames: seq<Frame>)
    requires Carries(T, train, FrameBits(f)) && |train| == 41
    requires prev.Some? ==> train[0].fall - prev.value >= 16 * T
    requires Timeline(T, Some(LastRise(train)), trains, frames)
    ensures Timeline(T, prev, [train] + trains, [f] + frames)
  {
    hide Carries, FrameBits;
    assert ([train] + trains)[1..] == trains && ([f] + frames)[1..] == frames;
  }

  lemma {:induction false} AcceptedInRange(writes: seq<Write>)
    ensures forall f :: f in Accepted(writes) ==> f.adr <= MAX_ADDRESS
  {
    if writes != [] {
      AcceptedInRange(writes[1..]);
    }
  }

  /**
   * For any session of register writes, whatever their addresses and the idle times
   * between them, the decoder reports exactly the accepted writes, in order.
   */
  lemma TransmitThenDecode(T: nat, t: Timing, now: nat, writes: seq<Write>)
    requires TimingFits(T, t)
    ensures Decode(T, Flatten(Session(t, now, writes)), None).fields == Sent(Accepted(writes))
    ensures Error !in Decode(T, Flatten(Session(t, now, writes)), None).marks
  {
    hide Decode, Session, Timeline, Accepted;
    SessionTimeline(T, t, None, now, writes);
    WaveformDecodes(T, Session(t, now, writes), Accepted(writes));
    AcceptedInRange(writes);
    SeenIsSentIff(Accepted(writes));
  }
}

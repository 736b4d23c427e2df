/** The packet decoder object and the loop that drives it, after `decoder.rs` and `swindle.rs`. */
module Decoder {
  import opened Bytes
  import opened Packet
  import Hex

  /** `RESULT_AUTOMATON`. */
  datatype Verdict = Continue | Ready | RpcReady | ResetSeen | Failed

  function VerdictOf(a: Automaton): Verdict {
    match a
    case Error => Failed
    case Done => Ready
    case RpcDone => RpcReady
    case Reset => ResetSeen
    case _ => Continue
  }

  /** `k` bytes into `data` the scan that began in `s0` is in state `s` and has not stopped. */
  ghost predicate ScannedTo(s0: Stream, data: seq<byte>, k: nat, s: Stream, cap: nat) {
    && k <= |data| && Resting(s0.auto) && Resting(s.auto)
    && Scan(s0, data, cap) == (Scan(s, data[k..], cap).0 + k, Scan(s, data[k..], cap).1)
  }

  lemma ScanAdvances(s0: Stream, data: seq<byte>, k: nat, s: Stream, cap: nat)
    requires ScannedTo(s0, data, k, s, cap) && k < |data|
    ensures
      var s1 := Step(s, data[k], cap);
      if Terminal(s1.auto) then Scan(s0, data, cap) == (k + 1, s1) else ScannedTo(s0, data, k + 1, s1, cap)
  {
    assert data[k..][0] == data[k] && data[k..][1..] == data[k + 1..];
  }

  /** With `slice` left to process, the transducer started on `data` still has `Feed(s, slice)` to add to `es`. */
  ghost predicate FedTo(s0: Stream, data: seq<byte>, es: seq<Event>, s: Stream, slice: seq<byte>, cap: nat) {
    && Resting(s0.auto) && Resting(s.auto)
    && Feed(s0, data, cap) == (Feed(s, slice, cap).0, es + Feed(s, slice, cap).1)
  }

  lemma FeedAdvances(s0: Stream, data: seq<byte>, es: seq<Event>, s: Stream, slice: seq<byte>, cap: nat)
    requires FedTo(s0, data, es, s, slice, cap)
    ensures
      var (n, t) := Scan(s, slice, cap);
      var (u, e) := React(t);
      FedTo(s0, data, es + e, u, slice[n..], cap)
  {
    hide Scan, Feed;
    ScanThenFeed(s, slice, cap);
    var (n, t) := Scan(s, slice, cap);
    var (u, e) := React(t);
    var f := Feed(u, slice[n..], cap).1;
    assert es + (e + f) == es + e + f;
  }

  lemma FeedEnds(s0: Stream, data: seq<byte>, es: seq<Event>, s: Stream, cap: nat)
    requires FedTo(s0, data, es, s, [], cap)
    ensures Feed(s0, data, cap) == (s, es)
  {
    assert es + [] == es;
  }

  class GdbStream {
    const inputBuffer: array<byte>
    const checksumReceived: array<byte>
    var automaton: Automaton
    var indx: nat
    var checksum: nat

    ghost predicate Valid()
      reads this
    {
      checksumReceived.Length == 2 && inputBuffer != checksumReceived && indx <= inputBuffer.Length
    }

    /** The value the theorems speak about. Bytes of the buffer beyond `indx` are not part of it. */
    ghost function Abs(): Stream
      requires Valid()
      reads this, inputBuffer, checksumReceived
    {
      Stream(automaton, inputBuffer[..indx], checksum, checksumReceived[0], checksumReceived[1])
    }

    constructor (inputBufferSize: nat)
      ensures Valid() && fresh(inputBuffer) && fresh(checksumReceived)
      ensures inputBuffer.Length == inputBufferSize
      ensures Abs() == Stream(Idle, [], 0, 0, 0)
    {
      inputBuffer := new byte[inputBufferSize](_ => 0);
      checksumReceived := new byte[2](_ => 0);
      automaton, indx, checksum := Idle, 0, 0;
    }

    /** `init`: idle, with the whole buffer cleared. */
    method Initialise()
      requires Valid()
      modifies this, inputBuffer, checksumReceived
      ensures Valid() && Abs() == Stream(Idle, [], 0, 0, 0)
      ensures forall i :: 0 <= i < inputBuffer.Length ==> inputBuffer[i] == 0
    {
      automaton := Idle;
      forall i | 0 <= i < inputBuffer.Length { inputBuffer[i] := 0; }
      indx, checksum := 0, 0;
      checksumReceived[0], checksumReceived[1] := 0, 0;
    }

    method GetResult() returns (packet: seq<byte>)
      requires Valid()
      modifies this`automaton
      ensures Valid() && Abs() == old(Abs()).(auto := Idle)
      ensures packet == Abs().body
    {
      automaton := Idle;
      packet := inputBuffer[..indx];
    }

    method StoreByte(c: byte, next: Automaton)
      requires Valid()
      modifies this, inputBuffer
      ensures Valid()
      ensures Abs() == if old(indx) >= inputBuffer.Length then old(Abs()).(auto := Error)
                       else old(Abs()).(auto := next, body := old(Abs()).body + [c])
    {
      if indx >= inputBuffer.Length {
        automaton := Error;
      } else {
        inputBuffer[indx] := c;
        indx := indx + 1;
        automaton := next;
      }
    }

    /** The transition for one byte; the panicking arms are shown unreachable. */
    method Consume(c: byte)
      requires Valid() && !Panics(automaton)
      modifies this, inputBuffer, checksumReceived
      ensures Valid() && Abs() == Step(old(Abs()), c, inputBuffer.Length)
    {
      match automaton
      case Init =>
      case Idle =>
        if c == START {
          indx, checksum, automaton := 0, 0, Body;
        } else if c == RPC_START {
          indx, automaton := 0, RpcBody;
        }
      case Rpc2Head1 =>
        automaton := Idle;
      case RpcBody =>
        if c == END {
          automaton := RpcDone;
        } else if c == RPC_START {
          indx := 0;
        } else {
          StoreByte(c, RpcBody);
        }
      case Body =>
        if c == START {
          indx, checksum := 0, 0;
        } else if c == END {
          automaton := End1;
        } else if c == ESCAPE {
          automaton := Escape;
        } else {
          checksum := checksum + c;
          StoreByte(c, Body);
        }
      case Escape =>
        checksum := checksum + ESCAPE;
        checksum := checksum + c;
        StoreByte(Xor20(c), Body);
      case End1 =>
        checksumReceived[0] := c;
        automaton := End2;
      case End2 =>
        checksumReceived[1] := c;
        var chk := Hex.Octet(checksumReceived[0], checksumReceived[1]);
        automaton := if chk == checksum % 256 then Done else Error;
      case _ =>
        assert false;
    }

    /** `parse`: bytes are consumed up to and including the one that ends a packet. */
    method Parse(data: seq<byte>) returns (consumed: nat, result: Verdict)
      requires Valid() && (Resting(automaton) || automaton.Error?)
      modifies this, inputBuffer, checksumReceived
      ensures Valid()
      ensures
        var s0 := if old(automaton).Error? then old(Abs()).(auto := Idle) else old(Abs());
        var (n, t) := Scan(s0, data, inputBuffer.Length);
        && consumed == n && result == VerdictOf(t.auto)
        && Abs() == if t.auto.Error? || t.auto.Reset? then t.(auto := Idle) else t
    {
      if automaton.Error? {
        automaton := Idle;
      }
      ghost var s0 := Abs();
      ghost var cap := inputBuffer.Length;
      consumed := 0;
      while consumed < |data|
        invariant consumed <= |data|
        invariant Valid() && ScannedTo(s0, data, consumed, Abs(), cap)
      {
        var c := data[consumed];
        ScanAdvances(s0, data, consumed, Abs(), cap);
        Consume(c);
        consumed := consumed + 1;
        match automaton {
          case Error =>
            automaton := Idle;
            return consumed, Failed;
          case Done =>
            return consumed, Ready;
          case RpcDone =>
            return consumed, RpcReady;
          case Reset =>
            automaton := Idle;
            return consumed, ResetSeen;
          case _ =>
        }
      }
      result := Continue;
    }
  }

  /** The stub's static decoder together with what it has sent and dispatched so far. */
  class Stub {
    const engine: GdbStream
    var log: seq<Event>

    constructor (inputBufferSize: nat)
      ensures engine.Valid() && fresh(engine) && fresh(engine.inputBuffer) && fresh(engine.checksumReceived)
      ensures engine.inputBuffer.Length == inputBufferSize && engine.Abs() == Stream(Idle, [], 0, 0, 0)
      ensures log == []
    {
      engine := new GdbStream(inputBufferSize);
      log := [];
    }

    /** The reaction to one `parse` result; `t` is the state in which the automaton stopped. */
    method Dispatch(state: Verdict, ghost t: Stream)
      requires engine.Valid() && state == VerdictOf(t.auto)
      requires engine.Abs() == if t.auto.Error? || t.auto.Reset? then t.(auto := Idle) else t
      modifies this`log, engine`automaton
      ensures engine.Valid() && engine.Abs() == React(t).0
      ensures log == old(log) + React(t).1
    {
      match state
      case RpcReady =>
        var call := engine.GetResult();
        if call != [] {
          log := log + [Rpc(call)];
        }
      case Ready =>
        var cmd := engine.GetResult();
        if cmd != [] {
          log := log + [Ack];
          log := log + [Flush];
          log := log + [Exec(cmd)];
        }
      case Failed =>
        log := log + [Nack];
        log := log + [Flush];
      case Continue =>
      case ResetSeen =>
    }

    /** `run_parser`: terminates, never panics, and is the transducer `Feed` on any slice of input. */
    method RunParser(data: seq<byte>)
      requires engine.Valid() && Resting(engine.automaton)
      modifies this, engine, engine.inputBuffer, engine.checksumReceived
      ensures engine.Valid() && Resting(engine.automaton)
      ensures
        var (t, es) := Feed(old(engine.Abs()), data, engine.inputBuffer.Length);
        engine.Abs() == t && log == old(log) + es
    {
      hide Scan, Feed, React;
      var slice := data;
      ghost var s0, cap := engine.Abs(), engine.inputBuffer.Length;
      ghost var es: seq<Event> := [];
      assert es + Feed(s0, data, cap).1 == Feed(s0, data, cap).1;
      while slice != []
        invariant engine.Valid()
        invariant log == old(log) + es && FedTo(s0, data, es, engine.Abs(), slice, cap)
        decreases |slice|
      {
        ghost var s, log0 := engine.Abs(), log;
        FeedAdvances(s0, data, es, s, slice, cap);
        var consumed, state := engine.Parse(slice);
        ghost var t := Scan(s, slice, cap).1;
        Dispatch(state, t);
        es := es + React(t).1;
        slice := slice[consumed..];
      }
      FeedEnds(s0, data, es, engine.Abs(), cap);
    }
  }

  /** The checksum of a stub with the firmware's buffer stays far below the 32-bit range. */
  lemma ChecksumFits(data: seq<byte>)
    ensures Feed(Stream(Idle, [], 0, 0, 0), data, INPUT_BUFFER_SIZE).0.sum < TWO32
  {
    FeedBounded(Stream(Idle, [], 0, 0, 0), data, INPUT_BUFFER_SIZE);
  }
}

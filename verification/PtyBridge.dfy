/** The relay as it runs: two bounded buffers and a partial frame, updated in place, turn by turn. */
module PtyBridge {
  import opened Common
  import opened PtyControl
  import opened PtyRelay

  /** `struct relay_buffer`: one slot, from `offset` on. */
  class RelayBuffer {
    const bytes: array<byte>
    var offset: nat
    var length: nat

    ghost predicate Valid()
      reads this
    {
      bytes.Length == HEADER + BUFFER && offset + length <= bytes.Length
    }

    ghost function Pending(): Bytes
      reads this, bytes
      requires Valid()
    {
      bytes[offset..offset + length]
    }

    constructor ()
      ensures Valid() && fresh(bytes) && Pending() == []
    {
      bytes := new byte[HEADER + BUFFER];
      offset, length := 0, 0;
    }

    /** Puts `p` at index `at`; the slot is what `Set` makes it afterwards. */
    method Store(at: nat, p: Bytes)
      requires Valid() && at + |p| <= bytes.Length
      modifies bytes
      ensures bytes[..at] == old(bytes[..at]) && bytes[at..at + |p|] == p
    {
      for i := 0 to |p|
        invariant bytes[..at] == old(bytes[..at]) && bytes[at..at + i] == p[..i]
      {
        bytes[at + i] := p[i];
      }
    }

    method Fill(p: Bytes)
      requires Valid() && |p| <= bytes.Length
      modifies this, bytes
      ensures Valid() && Pending() == p
    {
      Store(0, p);
      offset, length := 0, |p|;
    }

    /** The payload is in place already; the header goes in front of it. */
    method FillFrame(kind: byte, payload: Bytes)
      requires Valid() && |payload| <= BUFFER
      modifies this, bytes
      ensures Valid() && Pending() == EncodeFrame(Frame(kind, payload))
    {
      var h := Header(kind, |payload|);
      Store(0, h);
      Store(HEADER, payload);
      offset, length := 0, HEADER + |payload|;
      assert bytes[0..length] == bytes[..HEADER] + bytes[HEADER..length];
    }

    /** `queue_frame`: refused when the slot is occupied or the payload too long. */
    method Queue(kind: byte, payload: Bytes) returns (ok: bool)
      requires Valid()
      modifies this, bytes
      ensures Valid() && ok == (old(Pending()) == [] && |payload| <= BUFFER)
      ensures Pending() == if ok then EncodeFrame(Frame(kind, payload)) else old(Pending())
    {
      if length != 0 || |payload| > BUFFER {
        return false;
      }
      FillFrame(kind, payload);
      ok := true;
    }

    /** `flush_buffer`. */
    method Flush(w: WriteResult) returns (moved: Bytes, ok: bool, eio: bool)
      requires Valid()
      modifies this
      ensures Valid() && (moved, ok, eio) == Flushed(w, old(Pending())) && Pending() == old(Pending())[|moved|..]
    {
      match w
      case Wrote(n) =>
        if n == 0 {
          return [], false, true;
        }
        var count := if n < length then n else length;
        moved, ok, eio := bytes[offset..offset + count], true, false;
        assert Pending()[..count] == moved;
        offset, length := offset + count, length - count;
      case NoRoom => moved, ok, eio := [], true, false;
      case WriteFailed(e) => moved, ok, eio := [], false, e;
    }

    method Drop()
      requires Valid()
      modifies this
      ensures Valid() && Pending() == []
    {
      length := 0;
    }
  }

  /** `struct control_frame`. */
  class ControlFrame {
    const header: array<byte>
    const resize: array<byte>
    var headerUsed: nat
    var remaining: nat
    var resizeUsed: nat

    ghost predicate Valid()
      reads this
    {
      && header.Length == HEADER && resize.Length == RESIZE_PAYLOAD && header != resize
      && headerUsed <= HEADER && resizeUsed <= RESIZE_PAYLOAD
    }

    /** The partial frame. Between headers the other fields are leftovers. */
    ghost function Parser(): Parser
      reads this, header, resize
      requires Valid()
    {
      if headerUsed < HEADER then PtyControl.Parser(header[..headerUsed], 0, [])
      else PtyControl.Parser(header[..], remaining, if header[0] == DATA then [] else resize[..resizeUsed])
    }

    constructor ()
      ensures Valid() && fresh(header) && fresh(resize) && Parser() == START
    {
      header, resize := new byte[HEADER], new byte[RESIZE_PAYLOAD];
      headerUsed, remaining, resizeUsed := 0, 0, 0;
    }

    method Room() returns (n: nat)
      requires Valid() && ValidParser(Parser())
      ensures n == Capacity(Parser())
    {
      if headerUsed < HEADER {
        n := HEADER - headerUsed;
      } else if header[0] == DATA {
        n := if remaining < BUFFER then remaining else BUFFER;
      } else {
        n := RESIZE_PAYLOAD - resizeUsed;
      }
    }

    /** The part of `read_control` after its read: where the bytes go and what they complete. */
    method Accept(chunk: Bytes, framed: bool) returns (events: seq<Event>, ok: bool)
      requires Valid() && ValidParser(Parser()) && 0 < |chunk| <= Capacity(Parser())
      modifies this, header, resize
      ensures Valid() && Fed(Parser(), events, ok) == Feed(old(Parser()), chunk, framed)
    {
      if headerUsed < HEADER {
        events, ok := AcceptHeader(chunk, framed);
      } else if header[0] == DATA {
        remaining := remaining - |chunk|;
        if remaining == 0 {
          headerUsed := 0;
        }
        events, ok := Inputs(chunk), true;
      } else {
        events, ok := AcceptResize(chunk);
      }
    }

    method AcceptHeader(chunk: Bytes, framed: bool) returns (events: seq<Event>, ok: bool)
      requires Valid() && headerUsed < HEADER && 0 < |chunk| <= HEADER - headerUsed
      modifies this, header
      ensures Valid() && Fed(Parser(), events, ok) == Feed(old(Parser()), chunk, framed)
    {
      Copy(header, headerUsed, chunk);
      headerUsed := headerUsed + |chunk|;
      if headerUsed < HEADER {
        return [], true;
      }
      assert header[..] == header[..HEADER];
      remaining := DecodeU32(header[1..]);
      resizeUsed := 0;
      match KindOf(header[..], framed) {
        case DataOf(n) =>
          if remaining == 0 {
            headerUsed := 0;
          }
          events, ok := [], true;
        case ResizeOf => events, ok := [], true;
        case QueryOf(kind) =>
          headerUsed := 0;
          events, ok := [Query(kind)], true;
        case Bad =>
          headerUsed := 0;
          events, ok := [], false;
      }
    }

    method AcceptResize(chunk: Bytes) returns (events: seq<Event>, ok: bool)
      requires Valid() && headerUsed == HEADER && ValidParser(Parser()) && header[0] != DATA && 0 < |chunk| <= remaining
      modifies this, resize
      ensures Valid() && forall framed :: Fed(Parser(), events, ok) == Feed(old(Parser()), chunk, framed)
    {
      Copy(resize, resizeUsed, chunk);
      remaining := remaining - |chunk|;
      resizeUsed := resizeUsed + |chunk|;
      events, ok := [], true;
      if remaining == 0 {
        headerUsed := 0;
        assert resize[..] == resize[..RESIZE_PAYLOAD];
        var rows, columns := DecodeU32(resize[..4]), DecodeU32(resize[4..]);
        if ValidSize(rows, columns) {
          events := [Resize(rows, columns)];
        } else {
          ok := false;
        }
      }
    }
  }

  /** The locals of `relay_pty`; the trace exists only in the proof. */
  class Bridge {
    const frame: ControlFrame
    const input: RelayBuffer
    const output: RelayBuffer
    const framed: bool
    var eof: bool
    var closed: bool
    ghost var trace: Trace

    ghost predicate Valid()
      reads this, frame, input, output
    {
      && frame.Valid() && input.Valid() && output.Valid() && input != output && input.bytes != output.bytes
      && {input.bytes, output.bytes} !! {frame.header, frame.resize}
    }

    ghost function State(): Relay
      reads this, frame, frame.header, frame.resize, input, input.bytes, output, output.bytes
      requires Valid()
    {
      Relay(frame.Parser(), input.Pending(), output.Pending(), eof, closed, trace)
    }

    constructor (framed: bool)
      ensures Valid() && State() == INITIAL && this.framed == framed
      ensures fresh({frame, frame.header, frame.resize, input, input.bytes, output, output.bytes})
    {
      frame := new ControlFrame();
      input := new RelayBuffer();
      output := new RelayBuffer();
      this.framed, eof, closed := framed, false, false;
      trace := INITIAL.trace;
    }

    method FlushOutput(e: Poll) returns (x: Exit)
      requires Valid()
      modifies this, output
      ensures Valid() && (x, State()) == PtyRelay.FlushOutput(old(State()), e)
    {
      hide Flushed;
      x := Running;
      if output.length > 0 && e.outputWritable {
        var moved, ok, _ := output.Flush(e.outputWrite);
        trace := trace.(shown := trace.shown + moved);
        if !ok {
          x := Broken;
        }
      }
    }

    method FlushInput(e: Poll) returns (x: Exit)
      requires Valid()
      modifies this, input
      ensures Valid() && (x, State()) == PtyRelay.FlushInput(old(State()), e)
    {
      hide Flushed, PtyRelay.FlushInput;
      FlushInputCases(State(), e);
      x := Running;
      if !closed && input.length > 0 && e.masterWritable {
        x := MoveInput(e.masterWrite);
      }
    }

    /** One write of pending input to the terminal. */
    method MoveInput(w: WriteResult) returns (x: Exit)
      requires Valid()
      modifies this, input
      ensures Valid()
      ensures var s := old(State());
              var (moved, ok, eio) := Flushed(w, s.input);
              (x, State())
              == if ok
                 then (Running, s.(input := s.input[|moved|..], trace := s.trace.(typed := s.trace.typed + moved)))
                 else if eio then (Running, s.(closed := true, input := []))
                 else (Broken, s)
    {
      hide Flushed;
      var moved, ok, eio := input.Flush(w);
      if ok {
        trace := trace.(typed := trace.typed + moved);
        return Running;
      }
      if eio {
        closed := true;
        input.Drop();
        return Running;
      }
      x := Broken;
    }

    /** `read_control`. It is never entered with a frame pending, so a query finds room for its reply. */
    method ReadControl(e: Poll) returns (x: Exit)
      requires Valid() && ValidParser(frame.Parser()) && output.length == 0
      modifies this, frame, frame.header, frame.resize, input, input.bytes, output, output.bytes
      ensures Valid() && (x, State()) == PtyRelay.ReadControl(old(State()), e, framed)
    {
      hide Feed, Upto, Capacity, ValidParser, PtyRelay.Obey, PtyRelay.ReadControl;
      ReadControlCases(State(), e, framed);
      if e.controlRead.NotReady? {
        return Running;
      }
      if e.controlRead.ReadFailed? {
        return PeerClosed;
      }
      var room := frame.Room();
      var chunk := Upto(e.controlRead.data, room);
      if |chunk| == 0 {
        return PeerClosed;
      }
      x := Take(chunk, e);
    }

    /** A chunk that was read: what it completes is obeyed. */
    method Take(chunk: Bytes, e: Poll) returns (x: Exit)
      requires Valid() && ValidParser(frame.Parser()) && output.length == 0 && 0 < |chunk| <= Capacity(frame.Parser())
      modifies this, frame, frame.header, frame.resize, input, input.bytes, output, output.bytes
      ensures Valid()
      ensures var s := old(State());
              var r := Feed(s.parser, chunk, framed);
              var s1 := s.(parser := r.parser,
                           trace := s.trace.(control := s.trace.control + chunk, events := s.trace.events + r.events));
              (x, State()) == if !r.ok then (PeerClosed, s1) else PtyRelay.Obey(s1, chunk, r.events, e)
    {
      hide Feed, Capacity, ValidParser, PtyRelay.Obey;
      FeedEvents(frame.Parser(), chunk, framed);
      var events, ok := frame.Accept(chunk, framed);
      trace := trace.(control := trace.control + chunk, events := trace.events + events);
      if !ok {
        return PeerClosed;
      }
      x := Obey(chunk, events, e);
    }

    method Obey(chunk: Bytes, events: seq<Event>, e: Poll) returns (x: Exit)
      requires Valid() && output.length == 0 && (events != [] && events[0].Input? ==> |chunk| <= BUFFER)
      modifies this, input, input.bytes, output, output.bytes
      ensures Valid() && (x, State()) == PtyRelay.Obey(old(State()), chunk, events, e)
    {
      hide EncodeFrame;
      x := Running;
      if events != [] {
        match events[0] {
          case Input(_) => input.Fill(chunk);
          case Resize(_, _) => if !e.resized { x := PeerClosed; }
          case Query(kind) =>
            if e.answer.None? {
              return PeerClosed;
            }
            var queued := output.Queue(ReplyKind(kind), e.answer.value);
            if !queued {
              return PeerClosed;
            }
            trace := trace.(frames := trace.frames + [Frame(ReplyKind(kind), e.answer.value)]);
        }
      }
    }

    method ReadMaster(e: Poll) returns (x: Exit)
      requires Valid()
      modifies this, input, output, output.bytes
      ensures Valid() && (x, State()) == PtyRelay.ReadMaster(old(State()), e, framed)
    {
      hide EncodeFrame, Upto;
      x := Running;
      var chunk := if e.masterRead.Got? then Upto(e.masterRead.data, BUFFER) else [];
      if chunk != [] {
        if framed {
          output.FillFrame(OUTPUT, chunk);
          trace := trace.(produced := trace.produced + chunk, frames := trace.frames + [Frame(OUTPUT, chunk)]);
        } else {
          output.Fill(chunk);
          trace := trace.(produced := trace.produced + chunk);
        }
      } else if e.masterRead.Got? || (e.masterRead.ReadFailed? && e.masterRead.eio) {
        eof, closed := true, true;
        input.Drop();
      } else if e.masterRead.ReadFailed? {
        x := Broken;
      }
    }

    /** One turn of the loop in `relay_pty`. */
    method Turn(e: Poll) returns (x: Exit)
      requires Valid() && ValidParser(frame.Parser())
      modifies this, frame, frame.header, frame.resize, input, input.bytes, output, output.bytes
      ensures Valid() && (x, State()) == Step(old(State()), e, framed)
    {
      hide PtyRelay.FlushOutput, PtyRelay.FlushInput, PtyRelay.ReadControl, Master, ValidParser;
      ghost var s := State();
      if eof && output.length == 0 {
        return MasterEnded;
      }
      var readsControl := !eof && !closed && input.length == 0 && output.length == 0;
      var readsMaster := !eof && output.length == 0;
      var pollsMaster := readsMaster || (!closed && input.length > 0);
      if e.failed {
        return Broken;
      }
      if e.interrupted {
        return Running;
      }
      if e.stop {
        return Stopped;
      }
      if e.controlHangup {
        return PeerClosed;
      }
      if output.length > 0 && e.outputBroken {
        return Broken;
      }
      x := FlushOutput(e);
      if x != Running {
        return;
      }
      x := FlushInput(e);
      if x != Running {
        return;
      }
      if readsControl && output.length == 0 && e.controlReadable {
        x := ReadControl(e);
        if x != Running {
          return;
        }
      }
      x := MasterSide(e, readsMaster, pollsMaster, s);
    }

    /** The terminal's side of a turn whose descriptors were polled in state `s`. */
    method MasterSide(e: Poll, readsMaster: bool, pollsMaster: bool, ghost s: Relay) returns (x: Exit)
      requires Valid() && readsMaster == ReadsMaster(s) && pollsMaster == PollsMaster(s)
      modifies this, input, output, output.bytes
      ensures Valid() && (x, State()) == Master(s, old(State()), e, framed)
    {
      hide PtyRelay.ReadMaster;
      x := Running;
      if readsMaster && output.length == 0 && (e.masterReadable || e.masterHangup) {
        x := ReadMaster(e);
      } else if pollsMaster && e.masterHangup {
        closed := true;
        input.Drop();
      }
      if x == Running && pollsMaster && e.masterInvalid {
        x := Broken;
      }
    }
  }

  /** `relay_pty` for as long as the environment answers: it carries the streams faithfully, and when
      the terminal has ended nothing is left undelivered. */
  method RelayPty(b: Bridge, polls: seq<Poll>) returns (x: Exit)
    requires b.Valid() && Inv(b.State(), b.framed)
    modifies b, b.frame, b.frame.header, b.frame.resize, b.input, b.input.bytes, b.output, b.output.bytes
    ensures b.Valid() && (x, b.State()) == Run(old(b.State()), polls, b.framed)
    ensures Streams(b.State(), b.framed)
    ensures x == MasterEnded ==> Delivered(b.State(), b.framed)
  {
    hide Inv, Streams, Step, Delivered;
    ParserOk(b.State(), b.framed);
    RunKeeps(b.State(), polls, b.framed);
    for i := 0 to |polls|
      invariant b.Valid() && ValidParser(b.State().parser)
      invariant Run(old(b.State()), polls, b.framed) == Run(b.State(), polls[i..], b.framed)
    {
      assert polls[i..][0] == polls[i] && polls[i..][1..] == polls[i + 1..];
      x := b.Turn(polls[i]);
      if x != Running {
        return;
      }
    }
    x := Running;
  }
}

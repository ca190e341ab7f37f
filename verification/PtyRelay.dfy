/** The PTY relay as a state machine over its polls, with the streams it has carried. */
module PtyRelay {
  import opened Common
  import opened PtyControl

  const OUTPUT: byte := 18
  const CWD: byte := 19
  const FOREGROUND: byte := 20

  /** A frame towards the peer. */
  datatype Frame = Frame(kind: byte, payload: Bytes)

  predicate Fits(f: Frame) { |f.payload| <= BUFFER }

  function EncodeFrame(f: Frame): Bytes
    requires Fits(f)
  {
    Header(f.kind, |f.payload|) + f.payload
  }

  function EncodeFrames(fs: seq<Frame>): Bytes
    requires forall i :: 0 <= i < |fs| ==> Fits(fs[i])
  {
    if fs == [] then [] else EncodeFrames(fs[..|fs| - 1]) + EncodeFrame(fs[|fs| - 1])
  }

  /** The payload bytes of the frames of one kind, in order. */
  function PayloadOf(fs: seq<Frame>, kind: byte): Bytes {
    if fs == [] then []
    else PayloadOf(fs[..|fs| - 1], kind) + if fs[|fs| - 1].kind == kind then fs[|fs| - 1].payload else []
  }

  /** The kinds of the frames that answer queries, in order. */
  function Replies(fs: seq<Frame>): seq<byte> {
    if fs == [] then []
    else Replies(fs[..|fs| - 1]) + if fs[|fs| - 1].kind == OUTPUT then [] else [fs[|fs| - 1].kind]
  }

  function ReplyKind(query: byte): byte { if query == QUERY_CWD then CWD else FOREGROUND }

  /** The reply kinds that a list of events calls for, and the input bytes it carries. */
  function Asked(es: seq<Event>): seq<byte> {
    if es == [] then []
    else Asked(es[..|es| - 1]) + if es[|es| - 1].Query? then [ReplyKind(es[|es| - 1].kind)] else []
  }

  function Typed(es: seq<Event>): Bytes {
    if es == [] then []
    else Typed(es[..|es| - 1]) + if es[|es| - 1].Input? then [es[|es| - 1].b] else []
  }

  // ----- what the environment does in one turn of the loop -----

  datatype WriteResult = Wrote(n: nat) | NoRoom | WriteFailed(eio: bool)
  datatype ReadResult = Got(data: Bytes) | NotReady | ReadFailed(eio: bool)

  /** The results of one `poll` and of the calls that may follow it. */
  datatype Poll = Poll(
    interrupted: bool, failed: bool, stop: bool,
    controlHangup: bool, controlReadable: bool, controlRead: ReadResult,
    outputBroken: bool, outputWritable: bool, outputWrite: WriteResult,
    masterReadable: bool, masterRead: ReadResult, masterWritable: bool, masterWrite: WriteResult,
    masterHangup: bool, masterInvalid: bool,
    answer: Option<Bytes>, resized: bool)

  /** A `write` moves a prefix of what it was given; zero bytes count as EIO. */
  function Flushed(w: WriteResult, pending: Bytes): (r: (Bytes, bool, bool))
    ensures r.0 <= pending && (!r.1 ==> r.0 == [])
  {
    match w
    case Wrote(n) =>
      if n == 0 then ([], false, true) else (pending[..if n < |pending| then n else |pending|], true, false)
    case NoRoom => ([], true, false)
    case WriteFailed(eio) => ([], false, eio)
  }

  function Upto(data: Bytes, n: nat): (d: Bytes)
    ensures |d| <= n
  {
    if |data| <= n then data else data[..n]
  }

  // ----- the relay -----

  /** Everything the relay has moved so far, per stream. */
  datatype Trace = Trace(
    control: Bytes, events: seq<Event>, typed: Bytes, produced: Bytes, frames: seq<Frame>, shown: Bytes)

  datatype Relay = Relay(parser: Parser, input: Bytes, output: Bytes, eof: bool, closed: bool, trace: Trace)

  /** Why the loop returned. Only `MasterEnded` means the terminal itself is finished. */
  datatype Exit = Running | MasterEnded | Stopped | PeerClosed | Broken

  const INITIAL := Relay(START, [], [], false, false, Trace([], [], [], [], [], []))

  predicate ReadsControl(s: Relay) { !s.eof && !s.closed && s.input == [] && s.output == [] }
  predicate ReadsMaster(s: Relay) { !s.eof && s.output == [] }
  predicate WritesMaster(s: Relay) { !s.closed && s.input != [] }
  predicate PollsMaster(s: Relay) { ReadsMaster(s) || WritesMaster(s) }

  function FlushOutput(s: Relay, e: Poll): (r: (Exit, Relay))
    ensures r.1.parser == s.parser && r.0 != MasterEnded
    ensures r.1.trace == s.trace.(shown := r.1.trace.shown)
  {
    if s.output == [] || !e.outputWritable then (Running, s)
    else
      var (moved, ok, _) := Flushed(e.outputWrite, s.output);
      (if ok then Running else Broken,
       s.(output := s.output[|moved|..], trace := s.trace.(shown := s.trace.shown + moved)))
  }

  /** A terminal that takes no more input loses what is pending, and nothing else. */
  function FlushInput(s: Relay, e: Poll): (r: (Exit, Relay))
    ensures r.1.parser == s.parser && r.0 != MasterEnded
    ensures r.1.trace == s.trace.(typed := r.1.trace.typed)
  {
    if !WritesMaster(s) || !e.masterWritable then (Running, s)
    else
      var (moved, ok, eio) := Flushed(e.masterWrite, s.input);
      if ok then (Running, s.(input := s.input[|moved|..], trace := s.trace.(typed := s.trace.typed + moved)))
      else if eio then (Running, s.(closed := true, input := []))
      else (Broken, s)
  }

  lemma FlushInputCases(s: Relay, e: Poll)
    ensures !WritesMaster(s) || !e.masterWritable ==> FlushInput(s, e) == (Running, s)
    ensures WritesMaster(s) && e.masterWritable ==>
              var (moved, ok, eio) := Flushed(e.masterWrite, s.input);
              FlushInput(s, e)
              == if ok
                 then (Running, s.(input := s.input[|moved|..], trace := s.trace.(typed := s.trace.typed + moved)))
                 else if eio then (Running, s.(closed := true, input := []))
                 else (Broken, s)
  {
    hide Flushed;
  }

  /** `read_control`: one read, then the frame it completes, if any. */
  function ReadControl(s: Relay, e: Poll, framed: bool): (r: (Exit, Relay))
    requires ValidParser(s.parser)
    ensures r.0 == Running ==> ValidParser(r.1.parser)
    ensures r.0 != MasterEnded
    ensures var t := r.1.trace; t == s.trace.(control := t.control, events := t.events, frames := t.frames)
  {
    match e.controlRead
    case NotReady => (Running, s)
    case ReadFailed(_) => (PeerClosed, s)
    case Got(data) =>
      var chunk := Upto(data, Capacity(s.parser));
      if chunk == [] then (PeerClosed, s)
      else
        var r := Feed(s.parser, chunk, framed);
        var s1 := s.(trace := s.trace.(control := s.trace.control + chunk, events := s.trace.events + r.events));
        if !r.ok then (PeerClosed, s1.(parser := r.parser)) else Obey(s1.(parser := r.parser), chunk, r.events, e)
  }

  lemma ReadControlCases(s: Relay, e: Poll, framed: bool)
    requires ValidParser(s.parser)
    ensures e.controlRead.NotReady? ==> ReadControl(s, e, framed) == (Running, s)
    ensures e.controlRead.ReadFailed? ==> ReadControl(s, e, framed) == (PeerClosed, s)
    ensures e.controlRead.Got? ==>
              var chunk := Upto(e.controlRead.data, Capacity(s.parser));
              if chunk == [] then ReadControl(s, e, framed) == (PeerClosed, s)
              else
                var r := Feed(s.parser, chunk, framed);
                var s1 := s.(parser := r.parser,
                             trace := s.trace.(control := s.trace.control + chunk,
                                               events := s.trace.events + r.events));
                ReadControl(s, e, framed) == if !r.ok then (PeerClosed, s1) else Obey(s1, chunk, r.events, e)
  {
    hide Feed, Obey, Upto, Capacity, ValidParser;
  }

  /** Input goes to the terminal's buffer, a query is answered into the output buffer. */
  function Obey(s: Relay, chunk: Bytes, events: seq<Event>, e: Poll): (r: (Exit, Relay))
    ensures r.1.parser == s.parser && r.0 != MasterEnded
    ensures r.1.trace == s.trace.(frames := r.1.trace.frames)
  {
    if events == [] then (Running, s)
    else
      match events[0]
      case Input(_) => (Running, s.(input := chunk))
      case Resize(_, _) => (if e.resized then Running else PeerClosed, s)
      case Query(kind) =>
        if e.answer.None? || |e.answer.value| > BUFFER || s.output != [] then (PeerClosed, s)
        else
          var f := Frame(ReplyKind(kind), e.answer.value);
          (Running, s.(output := EncodeFrame(f), trace := s.trace.(frames := s.trace.frames + [f])))
  }

  function ReadMaster(s: Relay, e: Poll, framed: bool): (r: (Exit, Relay))
    ensures r.1.parser == s.parser && r.0 != MasterEnded
    ensures var t := r.1.trace; t == s.trace.(produced := t.produced, frames := t.frames)
  {
    match e.masterRead
    case Got(data) =>
      var chunk := Upto(data, BUFFER);
      if chunk == [] then (Running, s.(eof := true, closed := true, input := []))
      else
        var t := s.trace.(produced := s.trace.produced + chunk);
        var f := Frame(OUTPUT, chunk);
        if framed then (Running, s.(output := EncodeFrame(f), trace := t.(frames := t.frames + [f])))
        else (Running, s.(output := chunk, trace := t))
    case NotReady => (Running, s)
    case ReadFailed(eio) => if eio then (Running, s.(eof := true, closed := true, input := [])) else (Broken, s)
  }

  /** One turn of the loop. Which descriptors are polled is decided before anything moves. */
  function Step(s: Relay, e: Poll, framed: bool): (r: (Exit, Relay))
    requires ValidParser(s.parser)
    ensures r.0 == Running ==> ValidParser(r.1.parser)
  {
    if s.eof && s.output == [] then (MasterEnded, s)
    else if e.failed then (Broken, s)
    else if e.interrupted then (Running, s)
    else if e.stop then (Stopped, s)
    else if e.controlHangup then (PeerClosed, s)
    else if s.output != [] && e.outputBroken then (Broken, s)
    else
      var (x1, s1) := FlushOutput(s, e);
      if x1 != Running then (x1, s1)
      else
        var (x2, s2) := FlushInput(s1, e);
        if x2 != Running then (x2, s2)
        else
          var (x3, s3) := if ReadsControl(s) && s2.output == [] && e.controlReadable then ReadControl(s2, e, framed)
                          else (Running, s2);
          if x3 != Running then (x3, s3) else Master(s, s3, e, framed)
  }

  /** The terminal's side of a turn; `s` is the state the descriptors were polled in. */
  function Master(s: Relay, s3: Relay, e: Poll, framed: bool): (r: (Exit, Relay))
    ensures r.1.parser == s3.parser && r.0 != MasterEnded
    ensures var t := r.1.trace; t == s3.trace.(produced := t.produced, frames := t.frames)
  {
    var (x4, s4) :=
      if ReadsMaster(s) && s3.output == [] && (e.masterReadable || e.masterHangup) then ReadMaster(s3, e, framed)
      else if PollsMaster(s) && e.masterHangup then (Running, s3.(closed := true, input := []))
      else (Running, s3);
    (if x4 == Running && PollsMaster(s) && e.masterInvalid then Broken else x4, s4)
  }

  function Run(s: Relay, polls: seq<Poll>, framed: bool): (r: (Exit, Relay))
    requires ValidParser(s.parser)
    decreases |polls|
  {
    if polls == [] then (Running, s)
    else
      var (x, s1) := Step(s, polls[0], framed);
      if x != Running then (x, s1) else Run(s1, polls[1..], framed)
  }

  // ----- what every turn keeps -----

  /** The reader has parsed exactly the control bytes read. */
  ghost predicate Tracks(s: Relay, framed: bool)
    requires ValidParser(s.parser)
  {
    forall t: Bytes {:trigger Parse(s.trace.control + t, framed)} ::
      Parse(s.trace.control + t, framed) == Then(s.trace.events, Resume(s.parser, t, framed))
  }

  /** Until the terminal stops taking input, what was typed into it plus what is pending are the
      input bytes of the control stream. Afterwards what was typed is a prefix of them. */
  ghost predicate InputKept(s: Relay) {
    if s.closed then s.input == [] && s.trace.typed <= Typed(s.trace.events)
    else s.trace.typed + s.input == Typed(s.trace.events)
  }

  /** What was shown plus what is pending are whole frames whose output payloads are exactly what
      the terminal produced; unframed, they are what it produced. */
  ghost predicate OutputKept(s: Relay, framed: bool) {
    && (forall i :: 0 <= i < |s.trace.frames| ==> Fits(s.trace.frames[i]))
    && (if framed then
          && s.trace.shown + s.output == EncodeFrames(s.trace.frames)
          && PayloadOf(s.trace.frames, OUTPUT) == s.trace.produced
        else s.trace.shown + s.output == s.trace.produced && s.trace.frames == [])
  }

  /** Queries are answered in order, one frame each. */
  ghost predicate QueriesAnswered(s: Relay) { Replies(s.trace.frames) == Asked(s.trace.events) }

  ghost predicate Inv(s: Relay, framed: bool) {
    && ValidParser(s.parser) && Tracks(s, framed) && InputKept(s) && OutputKept(s, framed) && QueriesAnswered(s)
    && (s.eof ==> s.closed) && |s.input| <= BUFFER && |s.output| <= HEADER + BUFFER
  }

  /** What is left of the invariant when the loop has returned for whatever reason. */
  ghost predicate Streams(s: Relay, framed: bool) {
    && InputKept(s) && OutputKept(s, framed)
    && Replies(s.trace.frames) <= Asked(s.trace.events)
    && Parse(s.trace.control, framed).events == s.trace.events
  }

  /** Nothing the terminal produced or was asked is still on its way. */
  ghost predicate Delivered(s: Relay, framed: bool)
    requires OutputKept(s, framed)
  {
    s.output == [] && s.trace.shown == if framed then EncodeFrames(s.trace.frames) else s.trace.produced
  }

  lemma InitialInv(framed: bool)
    ensures Inv(INITIAL, framed)
  {
    forall t: Bytes
      ensures Parse(INITIAL.trace.control + t, framed) == Then([], Resume(START, t, framed))
    {
      assert [] + t == t;
      ResumeStart(t, framed);
      ThenNone(Parse(t, framed));
    }
  }

  lemma InvStreams(s: Relay, framed: bool)
    requires Inv(s, framed)
    ensures Streams(s, framed)
  {
    assert s.trace.control + [] == s.trace.control;
    assert Parse(s.trace.control + [], framed) == Then(s.trace.events, Resume(s.parser, [], framed));
    ResumeNothing(s.parser, framed);
    assert s.trace.events + [] == s.trace.events;
  }

  lemma AddFrame(fs: seq<Frame>, f: Frame)
    requires Fits(f) && forall i :: 0 <= i < |fs| ==> Fits(fs[i])
    ensures var gs := fs + [f];
            && EncodeFrames(gs) == EncodeFrames(fs) + EncodeFrame(f)
            && PayloadOf(gs, OUTPUT) == PayloadOf(fs, OUTPUT) + (if f.kind == OUTPUT then f.payload else [])
            && Replies(gs) == Replies(fs) + (if f.kind == OUTPUT then [] else [f.kind])
  {
    assert (fs + [f])[..|fs|] == fs;
  }

  lemma {:induction false} AddInputs(es: seq<Event>, chunk: Bytes)
    ensures Typed(es + Inputs(chunk)) == Typed(es) + chunk && Asked(es + Inputs(chunk)) == Asked(es)
    decreases |chunk|
  {
    if chunk == [] {
      assert es + Inputs(chunk) == es;
    } else {
      hide Inputs;
      var init := chunk[..|chunk| - 1];
      var all := es + Inputs(chunk);
      AddInputs(es, init);
      assert all[..|all| - 1] == es + Inputs(init) && all[|all| - 1] == Input(chunk[|chunk| - 1]);
      assert init + [chunk[|chunk| - 1]] == chunk;
    }
  }

  lemma AddEvent(es: seq<Event>, e: Event)
    requires !e.Input?
    ensures Typed(es + [e]) == Typed(es)
    ensures Asked(es + [e]) == Asked(es) + if e.Query? then [ReplyKind(e.kind)] else []
  {
    assert (es + [e])[..|es|] == es;
  }

  lemma TracksSame(s: Relay, s1: Relay, framed: bool)
    requires ValidParser(s.parser) && Tracks(s, framed)
    requires s1.parser == s.parser && s1.trace.control == s.trace.control && s1.trace.events == s.trace.events
    ensures Tracks(s1, framed)
  {}

  lemma FlushOutputKeeps(s: Relay, e: Poll, framed: bool)
    requires Inv(s, framed)
    ensures Inv(FlushOutput(s, e).1, framed)
  {
    hide Tracks, EncodeFrames, EncodeFrame, PayloadOf, Replies, Typed, Asked;
    var s1 := FlushOutput(s, e).1;
    assert s1.trace.shown + s1.output == s.trace.shown + s.output;
    TracksSame(s, s1, framed);
  }

  lemma FlushInputKeeps(s: Relay, e: Poll, framed: bool)
    requires Inv(s, framed)
    ensures Inv(FlushInput(s, e).1, framed)
  {
    hide Tracks, EncodeFrames, EncodeFrame, PayloadOf, Replies, Typed, Asked;
    var s1 := FlushInput(s, e).1;
    assert !s1.closed ==> s1.trace.typed + s1.input == s.trace.typed + s.input;
    assert s1.closed && !s.closed ==> s.trace.typed <= Typed(s.trace.events);
    TracksSame(s, s1, framed);
  }

  lemma ParseGoesOn(s: Relay, chunk: Bytes, u: Bytes, framed: bool)
    requires ValidParser(s.parser) && Tracks(s, framed) && 0 < |chunk| <= Capacity(s.parser)
    ensures var r := Feed(s.parser, chunk, framed);
            Parse(s.trace.control + chunk + u, framed)
            == if r.ok then Then(s.trace.events + r.events, Resume(r.parser, u, framed))
               else Parsed(s.trace.events + r.events, Rejected(u))
  {
    hide Feed, Parse, Resume, Capacity, ValidParser;
    var r := Feed(s.parser, chunk, framed);
    assert s.trace.control + chunk + u == s.trace.control + (chunk + u);
    FeedStep(s.parser, chunk, u, framed);
    if r.ok {
      var rest := Resume(r.parser, u, framed).events;
      assert s.trace.events + (r.events + rest) == s.trace.events + r.events + rest;
    }
  }

  /** What a read adds to the trace: the chunk, parsed as the one-pass parser would. */
  lemma TracksFeed(s: Relay, chunk: Bytes, framed: bool)
    requires ValidParser(s.parser) && Tracks(s, framed) && 0 < |chunk| <= Capacity(s.parser)
    ensures var r := Feed(s.parser, chunk, framed);
            var t := s.trace.(control := s.trace.control + chunk, events := s.trace.events + r.events);
            && (r.ok ==> Tracks(s.(parser := r.parser, trace := t), framed))
            && Parse(t.control, framed).events == t.events
  {
    hide Feed, Parse, Resume, Capacity, ValidParser;
    var r := Feed(s.parser, chunk, framed);
    forall u: Bytes
      ensures Parse(s.trace.control + chunk + u, framed)
           == if r.ok then Then(s.trace.events + r.events, Resume(r.parser, u, framed))
              else Parsed(s.trace.events + r.events, Rejected(u))
    {
      ParseGoesOn(s, chunk, u, framed);
    }
    assert s.trace.control + chunk + [] == s.trace.control + chunk;
    if r.ok {
      ResumeNothing(r.parser, framed);
      assert s.trace.events + r.events + [] == s.trace.events + r.events;
    }
  }

  /** What one `read` can complete: input bytes, one resize, one query, or nothing. */
  predicate OneRead(chunk: Bytes, events: seq<Event>, framed: bool) {
    || events == []
    || (events == Inputs(chunk) && 0 < |chunk| <= BUFFER)
    || (|events| == 1 && events[0].Resize?)
    || (|events| == 1 && events[0].Query? && framed && events[0].kind in [QUERY_CWD, QUERY_FOREGROUND])
  }

  lemma FeedEvents(p: Parser, chunk: Bytes, framed: bool)
    requires ValidParser(p) && 0 < |chunk| <= Capacity(p)
    ensures var r := Feed(p, chunk, framed);
            (!r.ok ==> r.events == []) && OneRead(chunk, r.events, framed)
  {}

  lemma ReadControlKeeps(s: Relay, e: Poll, framed: bool)
    requires Inv(s, framed) && ReadsControl(s)
    ensures var (x, s1) := ReadControl(s, e, framed);
            if x == Running then Inv(s1, framed) else Streams(s1, framed)
  {
    InvStreams(s, framed);
    if e.controlRead.Got? && Upto(e.controlRead.data, Capacity(s.parser)) != [] {
      var chunk := Upto(e.controlRead.data, Capacity(s.parser));
      var r := Feed(s.parser, chunk, framed);
      TracksFeed(s, chunk, framed);
      FeedEvents(s.parser, chunk, framed);
      var s1 := s.(trace := s.trace.(control := s.trace.control + chunk, events := s.trace.events + r.events));
      if !r.ok {
        assert s.trace.events + [] == s.trace.events;
      } else {
        ObeyKeeps(s, s1.(parser := r.parser), chunk, r.events, e, framed);
      }
    }
  }

  lemma ObeyKeeps(s: Relay, s1: Relay, chunk: Bytes, events: seq<Event>, e: Poll, framed: bool)
    requires Inv(s, framed) && ReadsControl(s)
    requires s1 == s.(parser := s1.parser,
                      trace := s.trace.(control := s1.trace.control, events := s.trace.events + events))
    requires ValidParser(s1.parser) && Tracks(s1, framed) && Parse(s1.trace.control, framed).events == s1.trace.events
    requires OneRead(chunk, events, framed)
    ensures var (x, s2) := Obey(s1, chunk, events, e);
            if x == Running then Inv(s2, framed) else Streams(s2, framed)
  {
    hide Tracks, EncodeFrames, PayloadOf, Replies, Typed, Asked;
    var (x, s2) := Obey(s1, chunk, events, e);
    TracksSame(s1, s2, framed);
    if events == [] {
      assert s.trace.events + [] == s.trace.events;
    } else if events[0].Input? {
      AddInputs(s.trace.events, chunk);
      assert s.trace.typed + [] == s.trace.typed;
    } else {
      AddEvent(s.trace.events, events[0]);
      assert events == [events[0]];
      if events[0].Query? && x == Running {
        AddFrame(s.trace.frames, Frame(ReplyKind(events[0].kind), e.answer.value));
        assert s.trace.shown + [] == s.trace.shown;
        assert s.trace.produced + [] == s.trace.produced;
      }
    }
  }

  lemma ReadMasterKeeps(s: Relay, e: Poll, framed: bool)
    requires Inv(s, framed) && s.output == []
    ensures Inv(ReadMaster(s, e, framed).1, framed)
  {
    hide Tracks, EncodeFrames, PayloadOf, Replies, Typed, Asked;
    var s1 := ReadMaster(s, e, framed).1;
    TracksSame(s, s1, framed);
    assert s.trace.shown + [] == s.trace.shown;
    assert s.trace.typed <= Typed(s.trace.events);
    if e.masterRead.Got? && Upto(e.masterRead.data, BUFFER) != [] && framed {
      AddFrame(s.trace.frames, Frame(OUTPUT, Upto(e.masterRead.data, BUFFER)));
      assert Replies(s.trace.frames) + [] == Replies(s.trace.frames);
    }
  }

  lemma HangupKeeps(s: Relay, framed: bool)
    requires Inv(s, framed)
    ensures Inv(s.(closed := true, input := []), framed)
  {
    var s1 := s.(closed := true, input := []);
    TracksSame(s, s1, framed);
    assert s.trace.typed <= Typed(s.trace.events);
  }

  lemma StepKeeps(s: Relay, e: Poll, framed: bool)
    requires Inv(s, framed)
    ensures var (x, s1) := Step(s, e, framed);
            && (if x == Running then Inv(s1, framed) else Streams(s1, framed))
            && (x == MasterEnded ==> s1.eof && s1.output == [])
  {
    hide Inv, Streams, FlushOutput, FlushInput, ReadControl, ReadMaster, Tracks;
    InvStreams(s, framed);
    ParserOk(s, framed);
    var (x1, s1) := FlushOutput(s, e);
    FlushOutputKeeps(s, e, framed);
    InvStreams(s1, framed);
    ParserOk(s1, framed);
    var (x2, s2) := FlushInput(s1, e);
    FlushInputKeeps(s1, e, framed);
    InvStreams(s2, framed);
    ParserOk(s2, framed);
    FlushesKeepEmpty(s, e);
    if ReadsControl(s) {
      ReadControlKeeps(s2, e, framed);
    }
    var (x3, s3) := if ReadsControl(s) && s2.output == [] && e.controlReadable then ReadControl(s2, e, framed)
                    else (Running, s2);
    if x1 == x2 == x3 == Running {
      MasterKeeps(s, s3, e, framed);
    }
  }

  lemma ParserOk(s: Relay, framed: bool)
    requires Inv(s, framed)
    ensures ValidParser(s.parser)
  {}

  /** A turn that may read control bytes has nothing to flush. */
  lemma FlushesKeepEmpty(s: Relay, e: Poll)
    ensures ReadsControl(s) ==> FlushInput(FlushOutput(s, e).1, e).1 == s
  {}

  lemma MasterKeeps(s: Relay, s3: Relay, e: Poll, framed: bool)
    requires Inv(s3, framed)
    ensures var (x, s4) := Master(s, s3, e, framed);
            x != MasterEnded && Inv(s4, framed) && Streams(s4, framed)
  {
    hide Inv, Streams, Tracks;
    if s3.output == [] {
      ReadMasterKeeps(s3, e, framed);
    }
    HangupKeeps(s3, framed);
    InvStreams(Master(s, s3, e, framed).1, framed);
  }

  /** On every run of the relay, and however it ends: the terminal has received a prefix of the
      peer's input and lost none before it stopped taking input; the peer has received a prefix of
      whole frames that carry exactly the terminal's output and the answers to its queries in
      order; and when the terminal itself has ended, every one of those frames was delivered. */
  lemma {:induction false} RunKeeps(s: Relay, polls: seq<Poll>, framed: bool)
    requires Inv(s, framed)
    ensures var (x, s1) := Run(s, polls, framed);
            && Streams(s1, framed)
            && (x == Running ==> Inv(s1, framed))
            && (x == MasterEnded ==> Delivered(s1, framed))
    decreases |polls|
  {
    hide Tracks;
    InvStreams(s, framed);
    if polls != [] {
      StepKeeps(s, polls[0], framed);
      var (x, s1) := Step(s, polls[0], framed);
      if x == Running {
        RunKeeps(s1, polls[1..], framed);
      } else if x == MasterEnded {
        assert s1.trace.shown + [] == s1.trace.shown;
      }
    }
  }

  /** The same from the start, and with what the answered queries and the typed bytes are. */
  lemma RelayCorrect(polls: seq<Poll>, framed: bool)
    ensures var (x, s) := Run(INITIAL, polls, framed);
            && Streams(s, framed)
            && s.trace.typed <= Typed(Parse(s.trace.control, framed).events)
            && (!s.closed ==> s.trace.typed + s.input == Typed(Parse(s.trace.control, framed).events))
            && (framed ==> s.trace.shown <= EncodeFrames(s.trace.frames))
            && (x == MasterEnded ==> Delivered(s, framed))
  {
    InitialInv(framed);
    RunKeeps(INITIAL, polls, framed);
    var s := Run(INITIAL, polls, framed).1;
    assert !s.closed ==> s.trace.typed <= s.trace.typed + s.input;
    assert framed ==> s.trace.shown <= s.trace.shown + s.output;
  }

  // ----- no direction waits for the other -----

  /** A turn in which nothing ends the relay. */
  predicate Quiet(e: Poll) { !e.failed && !e.interrupted && !e.stop && !e.controlHangup && !e.outputBroken }

  predicate Accepts(w: WriteResult) { w.Wrote? && w.n > 0 }

  predicate Offers(r: ReadResult) { r.Got? && r.data != [] }

  lemma StepTrace(s: Relay, e: Poll, framed: bool)
    requires ValidParser(s.parser) && Quiet(e) && !(s.eof && s.output == [])
    ensures var s1 := Step(s, e, framed).1;
            && FlushOutput(s, e).1.trace.shown <= s1.trace.shown
            && (FlushOutput(s, e).0 == Running ==> FlushInput(FlushOutput(s, e).1, e).1.trace.typed <= s1.trace.typed)
  {
    hide FlushOutput, FlushInput, ReadControl, Master;
  }

  /** Pending output moves in the very turn its descriptor accepts bytes, and so does pending input unless the write of
      output ends the relay. */
  lemma PendingMoves(s: Relay, e: Poll, framed: bool)
    requires ValidParser(s.parser) && Quiet(e)
    ensures s.output != [] && e.outputWritable && Accepts(e.outputWrite) ==>
              |s.trace.shown| < |Step(s, e, framed).1.trace.shown|
    ensures WritesMaster(s) && !(s.eof && s.output == []) && FlushOutput(s, e).0 == Running
            && e.masterWritable && Accepts(e.masterWrite) ==>
              |s.trace.typed| < |Step(s, e, framed).1.trace.typed|
  {
    hide ReadControl, Master;
    if !(s.eof && s.output == []) {
      StepTrace(s, e, framed);
    }
  }

  // ----- progress over a run -----

  /** Nothing shown or pending is taken back; nor typed or pending, until the terminal takes no more. */
  ghost predicate Extends(s: Relay, s1: Relay) {
    && s.trace.shown + s.output <= s1.trace.shown + s1.output && s.trace.shown <= s1.trace.shown
    && (s.closed ==> s1.closed) && s.trace.typed <= s1.trace.typed
    && (!s1.closed ==> s.trace.typed + s.input <= s1.trace.typed + s1.input)
  }

  lemma ExtendsTransitive(s: Relay, s1: Relay, s2: Relay)
    requires Extends(s, s1) && Extends(s1, s2)
    ensures Extends(s, s2)
  {
  }

  lemma FlushesExtend(s: Relay, e: Poll)
    ensures Extends(s, FlushOutput(s, e).1) && Extends(s, FlushInput(s, e).1)
  {
    hide Flushed;
    var s1, s2 := FlushOutput(s, e).1, FlushInput(s, e).1;
    assert s1.trace.shown + s1.output == s.trace.shown + s.output;
    assert !s2.closed ==> s2.trace.typed + s2.input == s.trace.typed + s.input;
  }

  lemma ReadControlExtends(s: Relay, e: Poll, framed: bool)
    requires ValidParser(s.parser) && s.input == [] && s.output == []
    ensures Extends(s, ReadControl(s, e, framed).1)
  {
    hide Feed, Capacity, ValidParser, Upto, EncodeFrame;
  }

  lemma MasterExtends(s: Relay, s3: Relay, e: Poll, framed: bool)
    ensures Extends(s3, Master(s, s3, e, framed).1)
  {
    hide EncodeFrame, Upto;
  }

  lemma StepExtends(s: Relay, e: Poll, framed: bool)
    requires ValidParser(s.parser)
    ensures Extends(s, Step(s, e, framed).1)
  {
    hide Extends, FlushOutput, FlushInput, ReadControl, Master;
    ExtendsItself(s);
    FlushesExtend(s, e);
    var s1 := FlushOutput(s, e).1;
    FlushesExtend(s1, e);
    var s2 := FlushInput(s1, e).1;
    ExtendsTransitive(s, s1, s2);
    FlushesKeepEmpty(s, e);
    if ReadsControl(s) {
      ReadControlExtends(s, e, framed);
      var s3 := ReadControl(s, e, framed).1;
      MasterExtends(s, s3, e, framed);
      ExtendsTransitive(s, s3, Master(s, s3, e, framed).1);
    }
    MasterExtends(s, s2, e, framed);
    ExtendsTransitive(s, s2, Master(s, s2, e, framed).1);
  }

  lemma ExtendsItself(s: Relay)
    ensures Extends(s, s)
  {
  }

  lemma PrefixByLength(a: Bytes, b: Bytes, c: Bytes)
    requires a <= b + c && |a| <= |b|
    ensures a <= b
  {
    assert b == (b + c)[..|b|];
  }

  /** Over any run whose descriptor keeps taking bytes, pending output is delivered within as many turns as it has
      bytes, and a relay that ends because the terminal has ended has delivered all of it. */
  lemma {:induction false} OutputDelivered(s: Relay, polls: seq<Poll>, framed: bool)
    requires Inv(s, framed)
    requires forall i :: 0 <= i < |polls| ==>
               Quiet(polls[i]) && polls[i].outputWritable && Accepts(polls[i].outputWrite)
    ensures var (x, s1) := Run(s, polls, framed);
            && (x == Running ==> s.trace.shown + s.output <= s1.trace.shown + s1.output)
            && (x == Running && |polls| < |s.output| ==> |s1.trace.shown| >= |s.trace.shown| + |polls|)
            && ((x == Running && |polls| >= |s.output|) || x == MasterEnded ==>
                  s.trace.shown + s.output <= s1.trace.shown)
    decreases |polls|
  {
    hide Step, Inv, Quiet;
    if polls != [] {
      DeliverOne(s, polls[0], framed);
      var (x, s1) := Step(s, polls[0], framed);
      if x == Running {
        OutputDelivered(s1, polls[1..], framed);
        var s2 := Run(s1, polls[1..], framed).1;
        if |polls| >= |s.output| && Run(s1, polls[1..], framed).0 == Running {
          PrefixByLength(s.trace.shown + s.output, s2.trace.shown, s2.output);
        }
      }
    }
  }

  lemma DeliverOne(s: Relay, e: Poll, framed: bool)
    requires Inv(s, framed) && Quiet(e) && e.outputWritable && Accepts(e.outputWrite)
    ensures var (x, s1) := Step(s, e, framed);
            && (x == Running ==> Inv(s1, framed)) && ValidParser(s.parser) && Extends(s, s1)
            && (s.output != [] ==> |s.trace.shown| < |s1.trace.shown|)
            && (x == MasterEnded ==> s.trace.shown + s.output <= s1.trace.shown)
  {
    hide Step;
    ParserOk(s, framed);
    StepKeeps(s, e, framed);
    StepExtends(s, e, framed);
    PendingMoves(s, e, framed);
  }

  /** Likewise pending input is typed within as many turns as it has bytes, while the terminal takes input. */
  lemma {:induction false} InputTyped(s: Relay, polls: seq<Poll>, framed: bool)
    requires Inv(s, framed) && Run(s, polls, framed).0 == Running && !Run(s, polls, framed).1.closed
    requires forall i :: 0 <= i < |polls| ==>
               Quiet(polls[i]) && polls[i].masterWritable && Accepts(polls[i].masterWrite)
    ensures var s1 := Run(s, polls, framed).1;
            && !s.closed && s.trace.typed + s.input <= s1.trace.typed + s1.input
            && (if |polls| < |s.input| then |s1.trace.typed| >= |s.trace.typed| + |polls|
                else s.trace.typed + s.input <= s1.trace.typed)
    decreases |polls|
  {
    hide Step, Inv, Quiet;
    if polls != [] {
      TypeOne(s, polls[0], framed);
      InputTyped(Step(s, polls[0], framed).1, polls[1..], framed);
      var s1 := Run(s, polls, framed).1;
      if |polls| >= |s.input| {
        PrefixByLength(s.trace.typed + s.input, s1.trace.typed, s1.input);
      }
    }
  }

  lemma TypeOne(s: Relay, e: Poll, framed: bool)
    requires Inv(s, framed) && Quiet(e) && e.masterWritable && Accepts(e.masterWrite)
    ensures var (x, s1) := Step(s, e, framed);
            && (x == Running ==> Inv(s1, framed)) && ValidParser(s.parser) && Extends(s, s1)
            && (x == Running && !s1.closed && s.input != [] ==> |s.trace.typed| < |s1.trace.typed|)
  {
    hide Step, FlushOutput;
    ParserOk(s, framed);
    StepKeeps(s, e, framed);
    StepExtends(s, e, framed);
    PendingMoves(s, e, framed);
    if Step(s, e, framed).0 == Running {
      RunningFlushed(s, e, framed);
    }
  }

  lemma RunningFlushed(s: Relay, e: Poll, framed: bool)
    requires ValidParser(s.parser) && Quiet(e) && Step(s, e, framed).0 == Running
    ensures FlushOutput(s, e).0 == Running && !(s.eof && s.output == [])
  {
    hide FlushOutput, FlushInput, ReadControl, Master;
  }
}

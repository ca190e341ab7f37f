/** Whether the PTY relay gets round to each of its sources. Control bytes are read again within a bounded number of
    turns. The terminal is too, except that each answered query may take its turn. */
module PtyFairness {
  import opened Common
  import opened PtyControl
  import opened PtyRelay

  /** A turn that ends nothing and in which the output descriptor takes bytes. */
  predicate Drains(e: Poll) { Quiet(e) && e.outputWritable && Accepts(e.outputWrite) }

  predicate TerminalOffers(e: Poll) { e.masterReadable && Offers(e.masterRead) }

  predicate TerminalTakes(e: Poll) { e.masterWritable && Accepts(e.masterWrite) }

  predicate PeerOffers(e: Poll) { e.controlReadable && Offers(e.controlRead) }

  /** The turn goes on; nothing has been read. */
  predicate NothingRead(s: Relay, s1: Relay) {
    s1.eof == s.eof && s1.trace.produced == s.trace.produced && s1.trace.control == s.trace.control
    && s1.trace.events == s.trace.events
  }

  // ----- one turn -----

  /** While output is pending a turn reads nothing, and it moves some of that output. */
  lemma OutputShrinks(s: Relay, e: Poll, framed: bool)
    requires ValidParser(s.parser) && Drains(e) && s.output != [] && Step(s, e, framed).0 == Running
    ensures var s1 := Step(s, e, framed).1;
            |s1.output| < |s.output| && NothingRead(s, s1) && (s.input == [] ==> s1.input == [])
  {
    hide ReadControl, ReadMaster;
  }

  /** While input is pending no control bytes are read, and a terminal that takes bytes takes some of it. */
  lemma InputShrinks(s: Relay, e: Poll, framed: bool)
    requires ValidParser(s.parser) && Quiet(e) && TerminalTakes(e) && s.input != []
    requires Step(s, e, framed).0 == Running && !s.closed
    ensures var s1 := Step(s, e, framed).1; |s1.input| < |s.input| && s1.trace.control == s.trace.control
  {
    hide ReadControl, EncodeFrame;
  }

  /** Control bytes occupy the output buffer exactly when they complete a query. */
  lemma ControlOccupies(s: Relay, e: Poll, framed: bool)
    requires ValidParser(s.parser) && ReadsControl(s) && ReadControl(s, e, framed).0 == Running
    ensures var s1 := ReadControl(s, e, framed).1;
            && (s1.output == [] ==> Asked(s1.trace.events) == Asked(s.trace.events))
            && (s1.output != [] ==> |Asked(s.trace.events)| < |Asked(s1.trace.events)|)
            && s1.eof == s.eof && s1.trace.produced == s.trace.produced
  {
    hide Feed, Asked, Typed, Capacity, ValidParser;
    ReadControlCases(s, e, framed);
    if e.controlRead.Got? {
      var chunk := Upto(e.controlRead.data, Capacity(s.parser));
      var r := Feed(s.parser, chunk, framed);
      FeedEvents(s.parser, chunk, framed);
      if r.events == [] {
        assert s.trace.events + [] == s.trace.events;
      } else if r.events[0].Input? {
        AddInputs(s.trace.events, chunk);
      } else {
        AddEvent(s.trace.events, r.events[0]);
        assert r.events == [r.events[0]];
      }
    }
  }

  /** A turn that polls a terminal with bytes to offer reads it, unless it completes a query of the peer: then it reads
      nothing from the terminal. */
  lemma ReadOrAsked(s: Relay, e: Poll, framed: bool)
    requires ValidParser(s.parser) && Quiet(e) && TerminalOffers(e) && ReadsMaster(s)
    requires Step(s, e, framed).0 == Running
    ensures var s1 := Step(s, e, framed).1;
            && !s1.eof
            && (|Asked(s.trace.events)| < |Asked(s1.trace.events)| || Asked(s1.trace.events) == Asked(s.trace.events))
            && s1.trace.produced == if Asked(s1.trace.events) == Asked(s.trace.events)
                                    then s.trace.produced + Upto(e.masterRead.data, BUFFER) else s.trace.produced
  {
    hide ReadControl, Asked, EncodeFrame, Flushed;
    FlushesKeepEmpty(s, e);
    if ReadsControl(s) && e.controlReadable {
      ControlOccupies(s, e, framed);
    }
  }

  /** A turn that finds both buffers free reads the control bytes that are offered. */
  lemma ControlReadNow(s: Relay, e: Poll, framed: bool)
    requires ValidParser(s.parser) && Quiet(e) && PeerOffers(e) && ReadsControl(s)
    ensures |s.trace.control| < |Step(s, e, framed).1.trace.control|
  {
    hide Feed, Obey, ReadMaster;
    FlushesKeepEmpty(s, e);
  }

  lemma ControlGrows(s: Relay, e: Poll, framed: bool)
    requires ValidParser(s.parser)
    ensures |s.trace.control| <= |Step(s, e, framed).1.trace.control|
  {
    hide Feed, Obey, FlushOutput, FlushInput, Master;
  }

  // ----- runs -----

  /** Over every run whose output descriptor takes bytes and whose terminal offers them, the terminal is read within
      one turn more than there are pending bytes of output, unless a query was answered instead. */
  lemma {:induction false} TerminalServed(s: Relay, polls: seq<Poll>, framed: bool)
    requires Inv(s, framed) && !s.eof && Run(s, polls, framed).0 == Running
    requires forall i :: 0 <= i < |polls| ==> Drains(polls[i]) && TerminalOffers(polls[i])
    ensures var s1 := Run(s, polls, framed).1;
            && |s.trace.produced| <= |s1.trace.produced| && |Asked(s.trace.events)| <= |Asked(s1.trace.events)|
            && (|polls| > |s.output| ==> |s.trace.produced| < |s1.trace.produced|
                                         || |Asked(s.trace.events)| < |Asked(s1.trace.events)|)
    decreases |polls|
  {
    hide Step, Inv, Drains, TerminalOffers, Asked;
    if polls != [] {
      ServedOne(s, polls[0], framed);
      TerminalServed(Step(s, polls[0], framed).1, polls[1..], framed);
    }
  }

  lemma ServedOne(s: Relay, e: Poll, framed: bool)
    requires Inv(s, framed) && !s.eof && Drains(e) && TerminalOffers(e)
    ensures ValidParser(s.parser)
    ensures Step(s, e, framed).0 == Running ==>
              var s1 := Step(s, e, framed).1;
              && Inv(s1, framed) && !s1.eof
              && |s.trace.produced| <= |s1.trace.produced| && |Asked(s.trace.events)| <= |Asked(s1.trace.events)|
              && (s.output != [] ==> |s1.output| < |s.output|)
              && (s.output == [] ==> |s.trace.produced| < |s1.trace.produced|
                                     || |Asked(s.trace.events)| < |Asked(s1.trace.events)|)
  {
    hide Step, Inv, Asked;
    ParserOk(s, framed);
    StepKeeps(s, e, framed);
    if Step(s, e, framed).0 == Running {
      if s.output != [] {
        OutputShrinks(s, e, framed);
      } else {
        ReadOrAsked(s, e, framed);
      }
    }
  }

  /** Control bytes are read within a bounded number of turns in every run whose descriptors take and offer bytes and
      whose terminal stays open for input: pending input, and at most one bufferful of output, come first. */
  lemma {:induction false} ControlServed(s: Relay, polls: seq<Poll>, framed: bool)
    requires Inv(s, framed) && Run(s, polls, framed).0 == Running && !Run(s, polls, framed).1.closed
    requires forall i :: 0 <= i < |polls| ==> Drains(polls[i]) && TerminalTakes(polls[i]) && PeerOffers(polls[i])
    ensures !s.closed && |s.trace.control| <= |Run(s, polls, framed).1.trace.control|
    ensures |polls| > Ahead(s) ==> |s.trace.control| < |Run(s, polls, framed).1.trace.control|
    decreases |polls|
  {
    hide Step, Inv, Drains, TerminalTakes, PeerOffers;
    if polls != [] {
      ControlOne(s, polls[0], framed);
      ControlServed(Step(s, polls[0], framed).1, polls[1..], framed);
    }
  }

  /** Turns that may pass before control bytes are read. */
  function Ahead(s: Relay): nat { if s.input == [] then |s.output| else |s.input| + HEADER + BUFFER }

  lemma ControlOne(s: Relay, e: Poll, framed: bool)
    requires Inv(s, framed) && Drains(e) && TerminalTakes(e) && PeerOffers(e)
    ensures ValidParser(s.parser)
    ensures Step(s, e, framed).0 == Running ==>
              var s1 := Step(s, e, framed).1;
              && Inv(s1, framed) && (s.closed ==> s1.closed)
              && |s.trace.control| <= |s1.trace.control|
              && (!s1.closed && |s.trace.control| == |s1.trace.control| ==> Ahead(s1) < Ahead(s))
  {
    hide Step, Tracks, OutputKept, QueriesAnswered;
    ParserOk(s, framed);
    StepKeeps(s, e, framed);
    StepExtends(s, e, framed);
    ControlGrows(s, e, framed);
    if Step(s, e, framed).0 == Running && !s.closed {
      if s.input != [] {
        InputShrinks(s, e, framed);
      } else if s.output != [] {
        OutputShrinks(s, e, framed);
      } else {
        ControlReadNow(s, e, framed);
      }
    }
  }

  // ----- what a full output buffer pauses -----

  /** As long as the output descriptor takes nothing, pending output keeps both sources unread: the terminal, and the
      peer's control bytes too. */
  lemma {:induction false} FullOutputPauses(s: Relay, polls: seq<Poll>, framed: bool)
    requires ValidParser(s.parser) && s.output != []
    requires forall i :: 0 <= i < |polls| ==> !polls[i].outputWritable
    ensures var s1 := Run(s, polls, framed).1; s1.output == s.output && NothingRead(s, s1)
    decreases |polls|
  {
    hide Step;
    if polls != [] {
      PausedOne(s, polls[0], framed);
      if Step(s, polls[0], framed).0 == Running {
        FullOutputPauses(Step(s, polls[0], framed).1, polls[1..], framed);
      }
    }
  }

  lemma PausedOne(s: Relay, e: Poll, framed: bool)
    requires ValidParser(s.parser) && s.output != [] && !e.outputWritable
    ensures var s1 := Step(s, e, framed).1; s1.output == s.output && NothingRead(s, s1)
  {
    hide ReadControl, ReadMaster;
  }

  // ----- queries come before the terminal -----

  /** A turn in which everything is ready and the peer sends a whole query. */
  const ASKING := Poll(
    false, false, false, false, true, Got([QUERY_CWD, 0, 0, 0, 0]), false, true, Wrote(HEADER),
    true, Got([0]), true, Wrote(1), false, false, Some([]), false)

  predicate Idle(s: Relay) { s.parser == START && ReadsControl(s) }

  /** The first turn of a round answers the query, the second writes the answer; neither reads the terminal. */
  lemma QueryRound(s: Relay)
    requires Idle(s)
    ensures var (x, s1) := Step(s, ASKING, true);
            && x == Running
            && var (y, s2) := Step(s1, ASKING, true);
               y == Running && Idle(s2) && s2.trace.produced == s.trace.produced
  {
    AskingFed();
    hide Feed, KindOf;
    FlushesKeepEmpty(s, ASKING);
    ReadControlCases(s, ASKING, true);
  }

  lemma AskingFed()
    ensures Feed(START, [QUERY_CWD, 0, 0, 0, 0], true) == Fed(START, [Query(QUERY_CWD)], true)
  {
    var h := [QUERY_CWD, 0, 0, 0, 0];
    assert [] + h == h;
    assert h[1..] == [0, 0, 0, 0];
  }

  /** Without the exception `TerminalServed` is false: a peer that always has a query ready keeps the terminal unread
      for as long as it goes on. */
  lemma {:induction false} QueriesFirst(s: Relay, rounds: nat)
    requires Idle(s)
    ensures var polls := seq(2 * rounds, _ => ASKING); var (x, s1) := Run(s, polls, true);
            && (forall i :: 0 <= i < |polls| ==> Drains(polls[i]) && TerminalOffers(polls[i]))
            && x == Running && Idle(s1) && s1.trace.produced == s.trace.produced
    decreases rounds
  {
    hide Step;
    if rounds > 0 {
      var polls := seq(2 * rounds, _ => ASKING);
      QueryRound(s);
      var s2 := Step(Step(s, ASKING, true).1, ASKING, true).1;
      QueriesFirst(s2, rounds - 1);
      assert polls[1..][1..] == seq(2 * (rounds - 1), _ => ASKING);
    }
  }
}

/** The pipe shell: a command's stdout and stderr framed into one stream, its stdin fed from another. */
module PipeShell {
  import opened Common
  import opened PtyControl
  import opened PtyRelay
  import opened PtyBridge

  const PIPE_STDOUT: byte := 33
  const PIPE_STDERR: byte := 34

  /** The results of one `poll` and of the calls that may follow it. */
  datatype Turn = Turn(
    interrupted: bool, failed: bool, stop: bool, peerBroken: bool,
    peerReadable: bool, peerRead: ReadResult, peerWritable: bool, peerWrite: WriteResult,
    inputWritable: bool, inputWrite: WriteResult, inputBroken: bool,
    stdoutReady: bool, stdoutRead: ReadResult, stderrReady: bool, stderrRead: ReadResult)

  datatype Log = Log(sent: Bytes, fed: Bytes, stdout: Bytes, stderr: Bytes, frames: seq<Frame>, shown: Bytes)
  datatype Pipe = Pipe(input: Bytes, output: Bytes, stdin: bool, stdout: bool, stderr: bool, log: Log)
  datatype Result = Going | Done | Failed

  const OPENED := Pipe([], [], true, true, true, Log([], [], [], [], [], []))

  function ReadPeer(s: Pipe, e: Turn): (r: (Result, Pipe))
    ensures r.0 != Done
  {
    if s.input != [] || !e.peerReadable then (Going, s)
    else
      match e.peerRead
      case NotReady => (Going, s)
      case ReadFailed(_) => (Failed, s)
      case Got(data) =>
        var chunk := Upto(data, BUFFER);
        if chunk == [] then (Failed, s)
        else (Going, s.(input := chunk, log := s.log.(sent := s.log.sent + chunk)))
  }

  function WritePeer(s: Pipe, e: Turn): (r: (Result, Pipe))
    ensures r.0 != Done
  {
    if s.output == [] || !e.peerWritable then (Going, s)
    else
      var (moved, ok, _) := Flushed(e.peerWrite, s.output);
      (if ok then Going else Failed, s.(output := s.output[|moved|..], log := s.log.(shown := s.log.shown + moved)))
  }

  /** `polled` says that the command's stdin was asked for room before anything moved. */
  function WriteInput(s: Pipe, e: Turn, polled: bool): (r: (Result, Pipe))
    ensures r.0 != Done
  {
    if !polled || !e.inputWritable then (Going, s)
    else
      var (moved, ok, _) := Flushed(e.inputWrite, s.input);
      (if ok then Going else Failed, s.(input := s.input[|moved|..], log := s.log.(fed := s.log.fed + moved)))
  }

  function CloseInput(s: Pipe, e: Turn): Pipe {
    if s.stdin && e.inputBroken then s.(stdin := false, input := []) else s
  }

  /** One of the command's two outputs, if it was polled, is ready and the slot is still free. */
  function ReadCommand(s: Pipe, kind: byte, polled: bool, ready: bool, read: ReadResult): (r: (Result, Pipe))
    requires kind == PIPE_STDOUT || kind == PIPE_STDERR
    ensures r.0 != Done
  {
    if !polled || !ready || s.output != [] then (Going, s)
    else
      match read
      case NotReady => (Going, s)
      case ReadFailed(_) => (Failed, s)
      case Got(data) =>
        var chunk := Upto(data, BUFFER);
        if chunk == [] then (Going, if kind == PIPE_STDOUT then s.(stdout := false) else s.(stderr := false))
        else
          var f := Frame(kind, chunk);
          var log := if kind == PIPE_STDOUT then s.log.(stdout := s.log.stdout + chunk)
                     else s.log.(stderr := s.log.stderr + chunk);
          (Going, s.(output := EncodeFrame(f), log := log.(frames := s.log.frames + [f])))
  }

  /** One turn of the loop, stdout tried before stderr. */
  function Advance(s: Pipe, e: Turn): (Result, Pipe) {
    if !s.stdout && !s.stderr && s.output == [] then (Done, s)
    else if e.interrupted && !e.failed then (Going, s)
    else if e.failed || e.stop || e.peerBroken then (Failed, s)
    else
      var (x1, s1) := ReadPeer(s, e);
      if x1 != Going then (x1, s1)
      else
        var (x2, s2) := WritePeer(s1, e);
        if x2 != Going then (x2, s2)
        else
          var (x3, s3) := WriteInput(s2, e, s.stdin && s.input != []);
          if x3 != Going then (x3, s3) else Command(s, CloseInput(s3, e), e)
  }

  function Command(s: Pipe, s4: Pipe, e: Turn): (Result, Pipe) {
    var (x5, s5) := ReadCommand(s4, PIPE_STDOUT, s.stdout && s.output == [], e.stdoutReady, e.stdoutRead);
    if x5 != Going then (x5, s5)
    else ReadCommand(s5, PIPE_STDERR, s.stderr && s.output == [], e.stderrReady, e.stderrRead)
  }

  function Drive(s: Pipe, turns: seq<Turn>): (Result, Pipe)
    decreases |turns|
  {
    if turns == [] then (Going, s)
    else var (x, s1) := Advance(s, turns[0]); if x != Going then (x, s1) else Drive(s1, turns[1..])
  }

  // ----- what every turn keeps -----

  /** Both outputs of the command are in the frames, each in order and complete; while its stdin is
      open, it was fed everything the peer sent except what is pending. */
  ghost predicate PipeInv(s: Pipe) {
    && (forall i :: 0 <= i < |s.log.frames| ==> Fits(s.log.frames[i]))
    && s.log.shown + s.output == EncodeFrames(s.log.frames)
    && PayloadOf(s.log.frames, PIPE_STDOUT) == s.log.stdout
    && PayloadOf(s.log.frames, PIPE_STDERR) == s.log.stderr
    && s.log.fed <= s.log.sent
    && (s.stdin ==> s.log.fed + s.input == s.log.sent)
    && |s.input| <= BUFFER && |s.output| <= HEADER + BUFFER
  }

  lemma AddPayload(fs: seq<Frame>, f: Frame)
    requires Fits(f) && forall i :: 0 <= i < |fs| ==> Fits(fs[i])
    ensures EncodeFrames(fs + [f]) == EncodeFrames(fs) + EncodeFrame(f)
    ensures forall kind :: PayloadOf(fs + [f], kind) == PayloadOf(fs, kind) + (if f.kind == kind then f.payload else [])
  {
    assert (fs + [f])[..|fs|] == fs;
  }

  lemma ReadPeerKeeps(s: Pipe, e: Turn)
    requires PipeInv(s)
    ensures PipeInv(ReadPeer(s, e).1)
  {
    var s1 := ReadPeer(s, e).1;
    assert s1.log.fed <= s1.log.sent;
    assert s.log.fed + [] == s.log.fed;
  }

  lemma WritePeerKeeps(s: Pipe, e: Turn)
    requires PipeInv(s)
    ensures PipeInv(WritePeer(s, e).1)
  {
    var s1 := WritePeer(s, e).1;
    assert s1.log.shown + s1.output == s.log.shown + s.output;
  }

  lemma WriteInputKeeps(s: Pipe, e: Turn, polled: bool)
    requires PipeInv(s) && (polled ==> s.stdin)
    ensures PipeInv(CloseInput(WriteInput(s, e, polled).1, e)) && PipeInv(WriteInput(s, e, polled).1)
  {
    var s1 := WriteInput(s, e, polled).1;
    if s.stdin {
      assert s1.log.fed + s1.input == s.log.fed + s.input;
      assert s1.log.fed <= s1.log.sent;
    }
  }

  lemma ReadCommandKeeps(s: Pipe, kind: byte, polled: bool, ready: bool, read: ReadResult)
    requires PipeInv(s) && (kind == PIPE_STDOUT || kind == PIPE_STDERR)
    ensures PipeInv(ReadCommand(s, kind, polled, ready, read).1)
  {
    hide EncodeFrames, PayloadOf;
    if polled && ready && s.output == [] && read.Got? && Upto(read.data, BUFFER) != [] {
      AddPayload(s.log.frames, Frame(kind, Upto(read.data, BUFFER)));
      assert s.log.shown + [] == s.log.shown;
      assert s.log.stdout + [] == s.log.stdout && s.log.stderr + [] == s.log.stderr;
    }
  }

  lemma AdvanceKeeps(s: Pipe, e: Turn)
    requires PipeInv(s)
    ensures var (x, s1) := Advance(s, e);
            PipeInv(s1) && (x == Done ==> !s1.stdout && !s1.stderr && s1.output == [])
  {
    hide PipeInv, ReadPeer, WritePeer, ReadCommand;
    var s1 := ReadPeer(s, e).1;
    ReadPeerKeeps(s, e);
    var s2 := WritePeer(s1, e).1;
    WritePeerKeeps(s1, e);
    StdinKept(s, e);
    WriteInputKeeps(s2, e, s.stdin && s.input != []);
    var s4 := CloseInput(WriteInput(s2, e, s.stdin && s.input != []).1, e);
    var s5 := ReadCommand(s4, PIPE_STDOUT, s.stdout && s.output == [], e.stdoutReady, e.stdoutRead).1;
    ReadCommandKeeps(s4, PIPE_STDOUT, s.stdout && s.output == [], e.stdoutReady, e.stdoutRead);
    ReadCommandKeeps(s5, PIPE_STDERR, s.stderr && s.output == [], e.stderrReady, e.stderrRead);
  }

  lemma StdinKept(s: Pipe, e: Turn)
    ensures WritePeer(ReadPeer(s, e).1, e).1.stdin == s.stdin
  {}

  /** On every run: splitting what was written and is pending by frame kind gives exactly what was
      read from the command's stdout and from its stderr; and the relay finishes only when both
      have ended and every frame was written. */
  lemma {:induction false} DriveKeeps(s: Pipe, turns: seq<Turn>)
    requires PipeInv(s)
    ensures var (x, s1) := Drive(s, turns);
            && PipeInv(s1)
            && (x == Done ==> !s1.stdout && !s1.stderr && s1.log.shown == EncodeFrames(s1.log.frames))
    decreases |turns|
  {
    if turns != [] {
      AdvanceKeeps(s, turns[0]);
      var (x, s1) := Advance(s, turns[0]);
      if x == Going {
        DriveKeeps(s1, turns[1..]);
      } else {
        assert s1.log.shown + [] == s1.log.shown;
      }
    }
  }

  /** The demultiplexer at the other end recovers each stream from the finished byte stream. */
  lemma FinishedStreams(turns: seq<Turn>)
    requires Drive(OPENED, turns).0 == Done
    ensures var s := Drive(OPENED, turns).1;
            && (forall i :: 0 <= i < |s.log.frames| ==> Fits(s.log.frames[i]))
            && Split(s.log.shown) == s.log.frames
            && PayloadOf(Split(s.log.shown), PIPE_STDOUT) == s.log.stdout
            && PayloadOf(Split(s.log.shown), PIPE_STDERR) == s.log.stderr
  {
    DriveKeeps(OPENED, turns);
    SplitBack(Drive(OPENED, turns).1.log.frames, []);
    var s := Drive(OPENED, turns).1;
    assert s.log.shown + [] == s.log.shown && s.log.frames + [] == s.log.frames;
  }

  /** The frames at the front of a byte stream. */
  function Split(s: Bytes): seq<Frame>
    decreases |s|
  {
    if |s| < HEADER then []
    else
      var n := DecodeU32(s[1..HEADER]);
      if HEADER + n > |s| then [] else [Frame(s[0], s[HEADER..HEADER + n])] + Split(s[HEADER + n..])
  }

  lemma {:induction false} SplitBack(fs: seq<Frame>, rest: Bytes)
    requires forall i :: 0 <= i < |fs| ==> Fits(fs[i])
    ensures Split(EncodeFrames(fs) + rest) == fs + Split(rest)
    decreases |fs|
  {
    hide Split, EncodeFrame;
    if fs == [] {
      assert [] + rest == rest && [] + Split(rest) == Split(rest);
    } else {
      var init, f := fs[..|fs| - 1], fs[|fs| - 1];
      var e := EncodeFrame(f);
      assert EncodeFrames(fs) == EncodeFrames(init) + e;
      assert EncodeFrames(fs) + rest == EncodeFrames(init) + (e + rest);
      SplitBack(init, e + rest);
      SplitOne(f, rest);
      assert init + ([f] + Split(rest)) == fs + Split(rest);
    }
  }

  lemma SplitOne(f: Frame, rest: Bytes)
    requires Fits(f)
    ensures Split(EncodeFrame(f) + rest) == [f] + Split(rest)
  {
    var n := |f.payload|;
    var s := EncodeFrame(f) + rest;
    HeaderBack(f.kind, n, f.payload + rest);
    assert s == Header(f.kind, n) + (f.payload + rest);
    assert s[..HEADER][1..] == s[1..HEADER];
    assert s[HEADER..HEADER + n] == f.payload && s[HEADER + n..] == rest;
  }

  // ----- the loop as it runs -----

  /** The locals of `relay_pipe_shell`; the log exists only in the proof. */
  class Shell {
    const input: RelayBuffer
    const output: RelayBuffer
    var stdin: bool
    var stdout: bool
    var stderr: bool
    ghost var log: Log

    ghost predicate Valid()
      reads this, input, output
    {
      input.Valid() && output.Valid() && input != output && input.bytes != output.bytes
    }

    ghost function State(): Pipe
      reads this, input, input.bytes, output, output.bytes
      requires Valid()
    {
      Pipe(input.Pending(), output.Pending(), stdin, stdout, stderr, log)
    }

    constructor ()
      ensures Valid() && State() == OPENED && fresh({input, input.bytes, output, output.bytes})
    {
      input := new RelayBuffer();
      output := new RelayBuffer();
      stdin, stdout, stderr := true, true, true;
      log := OPENED.log;
    }

    method Peer(e: Turn) returns (x: Result)
      requires Valid()
      modifies this, input, input.bytes, output
      ensures Valid()
      ensures var (x1, s1) := ReadPeer(old(State()), e);
              (x, State()) == if x1 != Going then (x1, s1) else WritePeer(s1, e)
    {
      x := Going;
      if input.length == 0 && e.peerReadable {
        if e.peerRead.ReadFailed? {
          return Failed;
        }
        if e.peerRead.Got? {
          var chunk := Upto(e.peerRead.data, BUFFER);
          if chunk == [] {
            return Failed;
          }
          input.Fill(chunk);
          log := log.(sent := log.sent + chunk);
        }
      }
      assert State() == ReadPeer(old(State()), e).1;
      if output.length > 0 && e.peerWritable {
        var moved, ok, _ := output.Flush(e.peerWrite);
        log := log.(shown := log.shown + moved);
        if !ok {
          x := Failed;
        }
      }
    }

    method Input(e: Turn, polled: bool) returns (x: Result)
      requires Valid()
      modifies this, input
      ensures Valid()
      ensures var (x1, s1) := WriteInput(old(State()), e, polled);
              (x, State()) == if x1 != Going then (x1, s1) else (Going, CloseInput(s1, e))
    {
      hide Flushed;
      x := Going;
      if polled && e.inputWritable {
        var moved, ok, _ := input.Flush(e.inputWrite);
        log := log.(fed := log.fed + moved);
        if !ok {
          return Failed;
        }
      }
      assert (Going, State()) == WriteInput(old(State()), e, polled);
      if stdin && e.inputBroken {
        stdin := false;
        input.Drop();
      }
    }

    method Read(kind: byte, polled: bool, ready: bool, read: ReadResult) returns (x: Result)
      requires Valid() && (kind == PIPE_STDOUT || kind == PIPE_STDERR)
      modifies this, output, output.bytes
      ensures Valid() && (x, State()) == ReadCommand(old(State()), kind, polled, ready, read)
    {
      x := Going;
      if polled && ready && output.length == 0 {
        if read.ReadFailed? {
          return Failed;
        }
        if read.Got? {
          var chunk := Upto(read.data, BUFFER);
          if chunk == [] {
            if kind == PIPE_STDOUT { stdout := false; } else { stderr := false; }
          } else {
            var queued := output.Queue(kind, chunk);
            assert queued;
            if kind == PIPE_STDOUT {
              log := log.(stdout := log.stdout + chunk);
            } else {
              log := log.(stderr := log.stderr + chunk);
            }
            log := log.(frames := log.frames + [Frame(kind, chunk)]);
          }
        }
      }
    }

    method TurnOnce(e: Turn) returns (x: Result)
      requires Valid()
      modifies this, input, input.bytes, output, output.bytes
      ensures Valid() && (x, State()) == Advance(old(State()), e)
    {
      hide ReadPeer, WritePeer, WriteInput, CloseInput, Command;
      ghost var s := State();
      if !stdout && !stderr && output.length == 0 {
        return Done;
      }
      var feeds, free := stdin && input.length > 0, output.length == 0;
      var out, err := stdout && free, stderr && free;
      if e.failed {
        return Failed;
      }
      if e.interrupted {
        return Going;
      }
      if e.stop || e.peerBroken {
        return Failed;
      }
      x := Peer(e);
      if x != Going {
        return;
      }
      x := Input(e, feeds);
      if x != Going {
        return;
      }
      x := Outputs(e, out, err, s);
    }

    /** The command's side of a turn whose descriptors were polled in state `s`. */
    method Outputs(e: Turn, out: bool, err: bool, ghost s: Pipe) returns (x: Result)
      requires Valid() && out == (s.stdout && s.output == []) && err == (s.stderr && s.output == [])
      modifies this, output, output.bytes
      ensures Valid() && (x, State()) == Command(s, old(State()), e)
    {
      hide ReadCommand;
      x := Read(PIPE_STDOUT, out, e.stdoutReady, e.stdoutRead);
      if x != Going {
        return;
      }
      x := Read(PIPE_STDERR, err, e.stderrReady, e.stderrRead);
    }
  }

  /** `relay_pipe_shell` for as long as the environment answers. */
  method RelayPipe(b: Shell, turns: seq<Turn>) returns (x: Result)
    requires b.Valid() && PipeInv(b.State())
    modifies b, b.input, b.input.bytes, b.output, b.output.bytes
    ensures b.Valid() && (x, b.State()) == Drive(old(b.State()), turns) && PipeInv(b.State())
    ensures x == Done ==> !b.stdout && !b.stderr && b.log.shown == EncodeFrames(b.log.frames)
  {
    hide PipeInv, Advance;
    DriveKeeps(b.State(), turns);
    for i := 0 to |turns|
      invariant b.Valid() && Drive(old(b.State()), turns) == Drive(b.State(), turns[i..])
    {
      assert turns[i..][0] == turns[i] && turns[i..][1..] == turns[i + 1..];
      x := b.TurnOnce(turns[i]);
      if x != Going {
        return;
      }
    }
    x := Going;
  }
}

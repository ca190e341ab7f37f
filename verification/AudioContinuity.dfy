/** The capture probe's incremental silence detector and its phase markers. */
module AudioContinuity {
  import opened Common

  const BLOCK_FRAMES: nat := 480
  const BLOCK_BYTES: nat := 1920
  const WARM_UP: nat := 96000

  /** A stretch of exact silence, with the times at which its first block and its end were observed. */
  datatype Span = Span(startFrame: nat, frames: nat, firstObserved: int, lastObserved: int)

  /** One block of samples and the time of the read that completed it. */
  datatype Block = Block(bytes: Bytes, at: int)

  datatype Detector = Detector(frames: nat, silentFrom: Option<(nat, int)>, spans: seq<Span>)

  const START := Detector(0, None, [])

  predicate Silent(bytes: Bytes) { forall i :: 0 <= i < |bytes| ==> bytes[i] == 0 }

  function Finish(d: Detector, at: int): Detector {
    match d.silentFrom
    case None => d
    case Some(first) =>
      if first.0 <= d.frames
      then d.(spans := d.spans + [Span(first.0, d.frames - first.0, first.1, at)], silentFrom := None)
      else d.(silentFrom := None)
  }

  /** The detector after one more block. */
  function Take(d: Detector, b: Block): Detector {
    var e := if d.frames >= WARM_UP && Silent(b.bytes)
             then if d.silentFrom.None? then d.(silentFrom := Some((d.frames, b.at))) else d
             else Finish(d, b.at);
    e.(frames := d.frames + BLOCK_FRAMES)
  }

  function TakeAll(d: Detector, blocks: seq<Block>): Detector {
    if blocks == [] then d else Take(TakeAll(d, blocks[..|blocks| - 1]), blocks[|blocks| - 1])
  }

  // ----- what the detector is for -----

  predicate Quiet(blocks: seq<Block>, k: int)
    requires 0 <= k < |blocks|
  {
    k * BLOCK_FRAMES >= WARM_UP && Silent(blocks[k].bytes)
  }

  /** Blocks `i` to `j` are a maximal run of quiet blocks that has come to its end. */
  predicate IsRun(blocks: seq<Block>, i: int, j: int) {
    && 0 <= i < j < |blocks|
    && (forall k :: i <= k < j ==> Quiet(blocks, k))
    && (i > 0 ==> !Quiet(blocks, i - 1)) && !Quiet(blocks, j)
  }

  /** The quiet blocks from `i` on reach the last block. */
  predicate IsTail(blocks: seq<Block>, i: int): (b: bool)
    ensures b ==> 0 <= i < |blocks|
  {
    && 0 <= i < |blocks|
    && (forall k :: i <= k < |blocks| ==> Quiet(blocks, k))
    && (i > 0 ==> !Quiet(blocks, i - 1))
  }

  function RunSpan(blocks: seq<Block>, i: nat, j: nat): Span
    requires i < j < |blocks|
  {
    Span(i * BLOCK_FRAMES, (j - i) * BLOCK_FRAMES, blocks[i].at, blocks[j].at)
  }

  /** The spans are the ended runs, each once, in order and apart. */
  ghost predicate Reports(spans: seq<Span>, blocks: seq<Block>) {
    && (forall s :: 0 <= s < |spans| ==> IsReport(spans[s], blocks))
    && (forall i, j :: IsRun(blocks, i, j) ==> RunSpan(blocks, i, j) in spans)
    && (forall s, t :: 0 <= s < t < |spans| ==> spans[s].startFrame + spans[s].frames < spans[t].startFrame)
  }

  ghost predicate IsReport(span: Span, blocks: seq<Block>) {
    exists i, j :: IsRun(blocks, i, j) && span == RunSpan(blocks, i, j)
  }

  /** The open silence is the run that reaches the last block. */
  ghost predicate Open(silentFrom: Option<(nat, int)>, blocks: seq<Block>) {
    match silentFrom
    case None => blocks == [] || !Quiet(blocks, |blocks| - 1)
    case Some(first) => exists i :: IsTail(blocks, i) && first == (i * BLOCK_FRAMES, blocks[i].at)
  }

  ghost predicate Detects(d: Detector, blocks: seq<Block>) {
    d.frames == |blocks| * BLOCK_FRAMES && Reports(d.spans, blocks) && Open(d.silentFrom, blocks)
  }

  // ----- one block more -----

  lemma RunsGrow(blocks: seq<Block>, b: Block, i: int, j: int)
    requires j < |blocks|
    ensures IsRun(blocks + [b], i, j) <==> IsRun(blocks, i, j)
    ensures IsRun(blocks, i, j) ==> RunSpan(blocks + [b], i, j) == RunSpan(blocks, i, j)
  {
    var more := blocks + [b];
    assert forall k :: 0 <= k < |blocks| ==> more[k] == blocks[k];
    assert forall k :: 0 <= k < |blocks| ==> Quiet(more, k) == Quiet(blocks, k);
  }

  lemma ReportGrows(span: Span, blocks: seq<Block>, b: Block)
    requires IsReport(span, blocks)
    ensures IsReport(span, blocks + [b])
    ensures span.startFrame + span.frames < |blocks| * BLOCK_FRAMES
  {
    var i, j :| IsRun(blocks, i, j) && span == RunSpan(blocks, i, j);
    RunsGrow(blocks, b, i, j);
  }

  /** A run that the new block ends is the open one. */
  lemma NewRun(blocks: seq<Block>, b: Block, i: int)
    ensures IsRun(blocks + [b], i, |blocks|) <==> IsTail(blocks, i) && !Quiet(blocks + [b], |blocks|)
  {
    var more := blocks + [b];
    assert forall k :: 0 <= k < |blocks| ==> more[k] == blocks[k];
    assert forall k :: 0 <= k < |blocks| ==> Quiet(more, k) == Quiet(blocks, k);
  }

  lemma TailUnique(blocks: seq<Block>, i: int, j: int)
    requires IsTail(blocks, i) && IsTail(blocks, j)
    ensures i == j
  {
    var low := if i < j then i else j;
    assert forall k :: low <= k < |blocks| ==> Quiet(blocks, k);
  }

  /** Nothing open: a block that ends no run leaves the reports as they are. */
  lemma ReportsSame(spans: seq<Span>, blocks: seq<Block>, b: Block)
    requires Reports(spans, blocks)
    requires forall i :: !IsRun(blocks + [b], i, |blocks|)
    ensures Reports(spans, blocks + [b])
  {
    var more := blocks + [b];
    forall s | 0 <= s < |spans|
      ensures IsReport(spans[s], more)
    {
      ReportGrows(spans[s], blocks, b);
    }
    forall i, j | IsRun(more, i, j)
      ensures RunSpan(more, i, j) in spans
    {
      RunsGrow(blocks, b, i, j);
    }
  }

  /** A block that ends the open run adds its span at the end. */
  lemma ReportsMore(spans: seq<Span>, blocks: seq<Block>, b: Block, i: int)
    requires Reports(spans, blocks) && IsTail(blocks, i) && !Quiet(blocks + [b], |blocks|)
    ensures Reports(spans + [Span(i * BLOCK_FRAMES, (|blocks| - i) * BLOCK_FRAMES, blocks[i].at, b.at)], blocks + [b])
  {
    var more, n := blocks + [b], |blocks|;
    NewRun(blocks, b, i);
    var last := Span(i * BLOCK_FRAMES, (n - i) * BLOCK_FRAMES, blocks[i].at, b.at);
    assert last == RunSpan(more, i, n) && IsReport(last, more);
    forall s | 0 <= s < |spans|
      ensures IsReport(spans[s], more) && spans[s].startFrame + spans[s].frames < last.startFrame
    {
      ReportGrows(spans[s], blocks, b);
      ReportBefore(spans[s], blocks, i);
    }
    forall k, j | IsRun(more, k, j)
      ensures RunSpan(more, k, j) in spans + [last]
    {
      if j < n {
        RunsGrow(blocks, b, k, j);
      } else {
        NewRun(blocks, b, k);
        TailUnique(blocks, i, k);
      }
    }
  }

  lemma ReportBefore(span: Span, blocks: seq<Block>, i: int)
    requires IsReport(span, blocks) && IsTail(blocks, i)
    ensures span.startFrame + span.frames < i * BLOCK_FRAMES
  {
    var k, j :| IsRun(blocks, k, j) && span == RunSpan(blocks, k, j);
    assert !Quiet(blocks, j);
  }

  lemma TakeDetects(d: Detector, blocks: seq<Block>, b: Block)
    requires Detects(d, blocks)
    ensures Detects(Take(d, b), blocks + [b])
  {
    hide Reports, IsTail, IsRun;
    var more, n := blocks + [b], |blocks|;
    assert Quiet(more, n) == (d.frames >= WARM_UP && Silent(b.bytes));
    forall i
      ensures IsRun(more, i, n) <==> IsTail(blocks, i) && !Quiet(more, n)
    {
      NewRun(blocks, b, i);
    }
    NoTail(blocks);
    if d.silentFrom.None? {
      ReportsSame(d.spans, blocks, b);
      if Quiet(more, n) {
        TailStarts(blocks, b);
      }
    } else {
      var i :| IsTail(blocks, i) && d.silentFrom.value == (i * BLOCK_FRAMES, blocks[i].at);
      if Quiet(more, n) {
        ReportsSame(d.spans, blocks, b);
        TailGrows(blocks, b, i);
      } else {
        ReportsMore(d.spans, blocks, b, i);
      }
    }
  }

  lemma NoTail(blocks: seq<Block>)
    ensures blocks == [] || !Quiet(blocks, |blocks| - 1) ==> forall i :: !IsTail(blocks, i)
  {
  }

  lemma TailStarts(blocks: seq<Block>, b: Block)
    requires (blocks == [] || !Quiet(blocks, |blocks| - 1)) && Quiet(blocks + [b], |blocks|)
    ensures IsTail(blocks + [b], |blocks|)
  {
    assert blocks != [] ==> (blocks + [b])[|blocks| - 1] == blocks[|blocks| - 1];
  }

  lemma TailGrows(blocks: seq<Block>, b: Block, i: int)
    requires IsTail(blocks, i) && Quiet(blocks + [b], |blocks|)
    ensures IsTail(blocks + [b], i) && (blocks + [b])[i] == blocks[i]
  {
    var more := blocks + [b];
    assert forall k :: 0 <= k < |blocks| ==> more[k] == blocks[k];
    assert forall k :: 0 <= k < |blocks| ==> Quiet(more, k) == Quiet(blocks, k);
  }

  /** However many blocks there are, the spans are exactly their maximal runs of silence after the warm-up. */
  lemma {:induction false} DetectsRuns(blocks: seq<Block>)
    ensures Detects(TakeAll(START, blocks), blocks)
    decreases |blocks|
  {
    if blocks != [] {
      hide Detects, Take;
      var n := |blocks| - 1;
      DetectsRuns(blocks[..n]);
      TakeDetects(TakeAll(START, blocks[..n]), blocks[..n], blocks[n]);
      assert blocks[..n] + [blocks[n]] == blocks;
    }
  }

  /** Closing the open run at the end of the capture reports it like one ended by a noisy block. */
  lemma FinishReports(blocks: seq<Block>, at: int, noise: Bytes)
    requires !Silent(noise)
    ensures Reports(Finish(TakeAll(START, blocks), at).spans, blocks + [Block(noise, at)])
    ensures Finish(TakeAll(START, blocks), at).silentFrom == None
  {
    hide Detects, Reports;
    var d, b := TakeAll(START, blocks), Block(noise, at);
    DetectsRuns(blocks);
    TakeDetects(d, blocks, b);
    assert Take(d, b).spans == Finish(d, at).spans;
    DetectsReports(Take(d, b), blocks + [b]);
  }

  lemma DetectsReports(d: Detector, blocks: seq<Block>)
    requires Detects(d, blocks)
    ensures Reports(d.spans, blocks)
  {
  }

  // ----- feeding -----

  /** The whole blocks of `bytes`, all completed at `at`. */
  function Blocks(bytes: Bytes, at: int): seq<Block> {
    seq(|bytes| / BLOCK_BYTES, k requires 0 <= k < |bytes| / BLOCK_BYTES => Block(Nth(bytes, k), at))
  }

  function Nth(bytes: Bytes, k: nat): (b: Bytes)
    requires k < |bytes| / BLOCK_BYTES
    ensures |b| == BLOCK_BYTES
  {
    bytes[k * BLOCK_BYTES..k * BLOCK_BYTES + BLOCK_BYTES]
  }

  function Rest(bytes: Bytes): (b: Bytes)
    ensures |b| < BLOCK_BYTES
  {
    bytes[|bytes| / BLOCK_BYTES * BLOCK_BYTES..]
  }

  /** A capture: the bytes of each read and its time. */
  type Feeds = seq<(Bytes, int)>

  function Joined(h: Feeds): Bytes {
    if h == [] then [] else Joined(h[..|h| - 1]) + h[|h| - 1].0
  }

  /** When block `k` of the capture was completed. */
  function Stamp(h: Feeds, k: nat): int
    requires k < |Joined(h)| / BLOCK_BYTES
  {
    if k < |Joined(h[..|h| - 1])| / BLOCK_BYTES then Stamp(h[..|h| - 1], k) else h[|h| - 1].1
  }

  /** The blocks of a whole capture, cut from its bytes without regard to the reads. */
  function Cut(h: Feeds): seq<Block> {
    seq(|Joined(h)| / BLOCK_BYTES,
        k requires 0 <= k < |Joined(h)| / BLOCK_BYTES => Block(Nth(Joined(h), k), Stamp(h, k)))
  }

  /** The detector as the reads arrive. */
  function Fed(pending: Bytes, d: Detector, data: Bytes, at: int): (Bytes, Detector) {
    (Rest(pending + data), TakeAll(d, Blocks(pending + data, at)))
  }

  function FeedAll(h: Feeds): (Bytes, Detector) {
    if h == [] then ([], START)
    else var (pending, d) := FeedAll(h[..|h| - 1]); Fed(pending, d, h[|h| - 1].0, h[|h| - 1].1)
  }

  lemma {:induction false} TakeAllConcat(d: Detector, a: seq<Block>, b: seq<Block>)
    ensures TakeAll(d, a + b) == TakeAll(TakeAll(d, a), b)
    decreases |b|
  {
    hide Take;
    if b == [] {
      assert a + b == a;
    } else {
      var n := |b| - 1;
      assert (a + b)[..|a| + n] == a + b[..n];
      TakeAllConcat(d, a, b[..n]);
    }
  }

  /** Cutting the leftover with the new data cuts the whole capture. */
  lemma CutGrows(all: Bytes, data: Bytes)
    ensures Rest(Rest(all) + data) == Rest(all + data)
    ensures |all + data| / BLOCK_BYTES == |all| / BLOCK_BYTES + |Rest(all) + data| / BLOCK_BYTES
    ensures forall k :: 0 <= k < |all| / BLOCK_BYTES ==> Nth(all + data, k) == Nth(all, k)
    ensures forall k :: 0 <= k < |Rest(all) + data| / BLOCK_BYTES
              ==> Nth(all + data, |all| / BLOCK_BYTES + k) == Nth(Rest(all) + data, k)
  {
    var n := |all| / BLOCK_BYTES;
    var rest := Rest(all) + data;
    var m := |rest| / BLOCK_BYTES;
    assert all + data == all[..n * BLOCK_BYTES] + rest;
    assert |all + data| == n * BLOCK_BYTES + |rest|;
    assert |all + data| / BLOCK_BYTES == n + m;
  }

  lemma CutSplit(h: Feeds)
    requires h != []
    ensures var front, last := h[..|h| - 1], h[|h| - 1];
            Cut(h) == Cut(front) + Blocks(Rest(Joined(front)) + last.0, last.1)
  {
    hide Nth, Rest;
    var front, data, at := h[..|h| - 1], h[|h| - 1].0, h[|h| - 1].1;
    CutGrows(Joined(front), data);
    var a, b := Cut(front), Blocks(Rest(Joined(front)) + data, at);
    assert |Cut(h)| == |a| + |b|;
    forall k | 0 <= k < |Cut(h)|
      ensures Cut(h)[k] == (a + b)[k]
    {
      if k >= |a| {
        assert Nth(Joined(front) + data, |a| + (k - |a|)) == Nth(Rest(Joined(front)) + data, k - |a|);
      }
    }
  }

  /** After any run of reads the detector has taken the blocks of the joined capture, and keeps less than a block. */
  lemma {:induction false} FeedsCut(h: Feeds)
    ensures FeedAll(h) == (Rest(Joined(h)), TakeAll(START, Cut(h)))
    decreases |h|
  {
    if h == [] {
      assert Cut(h) == [] && Rest(Joined(h)) == [];
    } else {
      hide Rest, TakeAll, Cut, Blocks;
      var n := |h| - 1;
      var front, data, at := h[..n], h[n].0, h[n].1;
      FeedsCut(front);
      CutGrows(Joined(front), data);
      TakeAllConcat(START, Cut(front), Blocks(Rest(Joined(front)) + data, at));
      CutSplit(h);
    }
  }

  /** However the capture was split into reads, the spans reported are its maximal runs of silence. */
  lemma CaptureDetected(h: Feeds)
    ensures Detects(FeedAll(h).1, Cut(h))
    ensures FeedAll(h).0 == Rest(Joined(h))
  {
    hide Detects;
    FeedsCut(h);
    DetectsRuns(Cut(h));
  }

  /** The same silences, whatever the times. */
  predicate SameShape(d: Detector, e: Detector) {
    && d.frames == e.frames && d.silentFrom.Some? == e.silentFrom.Some? && |d.spans| == |e.spans|
    && (d.silentFrom.Some? ==> d.silentFrom.value.0 == e.silentFrom.value.0)
    && forall i :: 0 <= i < |d.spans| ==>
         d.spans[i].startFrame == e.spans[i].startFrame && d.spans[i].frames == e.spans[i].frames
  }

  lemma {:induction false} TakeAllShape(a: seq<Block>, b: seq<Block>)
    requires |a| == |b| && forall k :: 0 <= k < |a| ==> a[k].bytes == b[k].bytes
    ensures SameShape(TakeAll(START, a), TakeAll(START, b))
    decreases |a|
  {
    if a != [] {
      var n := |a| - 1;
      TakeAllShape(a[..n], b[..n]);
    }
  }

  /** Two captures of the same samples report silences at the same frames, whatever the reads were. */
  lemma SplitIndependent(g: Feeds, h: Feeds)
    requires Joined(g) == Joined(h)
    ensures FeedAll(g).0 == FeedAll(h).0 && SameShape(FeedAll(g).1, FeedAll(h).1)
  {
    hide SameShape, Rest, TakeAll;
    FeedsCut(g);
    FeedsCut(h);
    TakeAllShape(Cut(g), Cut(h));
  }

  /** The probe's window over the PCM stream. */
  class PCMWindow {
    var pending: Bytes
    var frames: nat
    var silentFrom: Option<(nat, int)>
    var spans: seq<Span>

    ghost predicate Valid()
      reads this
    {
      silentFrom.Some? ==> silentFrom.value.0 <= frames
    }

    ghost function Now(): Detector
      reads this
    {
      Detector(frames, silentFrom, spans)
    }

    constructor ()
      ensures Valid() && pending == [] && Now() == START
    {
      pending, frames, silentFrom, spans := [], 0, None, [];
    }

    method FinishSpan(at: int)
      requires Valid()
      modifies this`spans, this`silentFrom
      ensures Valid() && Now() == Finish(old(Now()), at)
    {
      if silentFrom.Some? {
        var (frame, first) := silentFrom.value;
        spans := spans + [Span(frame, frames - frame, first, at)];
        silentFrom := None;
      }
    }

    method TakeBlock(block: Bytes, at: int)
      requires Valid()
      modifies this`spans, this`silentFrom, this`frames
      ensures Valid() && Now() == Take(old(Now()), Block(block, at))
    {
      if frames >= WARM_UP && Silent(block) {
        if silentFrom.None? {
          silentFrom := Some((frames, at));
        }
      } else {
        FinishSpan(at);
      }
      frames := frames + BLOCK_FRAMES;
    }

    method Feed(data: Bytes, at: int)
      requires Valid()
      modifies this
      ensures Valid() && (pending, Now()) == Fed(old(pending), old(Now()), data, at)
    {
      hide Take, Nth;
      pending := pending + data;
      var consumed, all := 0, pending;
      ghost var n, blocks := 0, Blocks(all, at);
      while |all| - consumed >= BLOCK_BYTES
        invariant 0 <= consumed <= |all| && consumed == n * BLOCK_BYTES && 0 <= n <= |blocks|
        invariant Valid() && pending == all && Now() == TakeAll(old(Now()), blocks[..n])
        decreases |all| - consumed
      {
        assert n < |blocks|;
        NthIs(all, n);
        TakeAllNext(old(Now()), blocks, n);
        TakeBlock(all[consumed..consumed + BLOCK_BYTES], at);
        consumed, n := consumed + BLOCK_BYTES, n + 1;
      }
      assert n == |blocks| && blocks[..n] == blocks;
      pending := all[consumed..];
    }
  }

  const RATE: nat := 48000

  /** A block no detector takes for silence. */
  const NOISE: Bytes := [1]

  /** The recording loop: reads until the wanted frames are there, then closes the open silence. Whatever the sizes
      of the reads, the report is the maximal silent runs of the blocks read, the last one ended by the close. */
  method Record(input: Feeds, seconds: nat) returns (r: Option<seq<Span>>, used: nat)
    requires seconds > 0
    ensures used <= |input|
    ensures r.Some? ==> used > 0 && |Cut(input[..used])| * BLOCK_FRAMES >= seconds * RATE
    ensures r.Some? ==> Reports(r.value, Cut(input[..used]) + [Block(NOISE, input[used - 1].1)])
    ensures r.None? ==> (used < |input| && input[used].0 == []) || |Cut(input)| * BLOCK_FRAMES < seconds * RATE
  {
    hide Detects, Reports, Finish, Fed, TakeAll, Cut;
    var pcm := new PCMWindow();
    used := 0;
    CaptureFrames(input[..used]);
    while pcm.frames < seconds * RATE
      invariant 0 <= used <= |input| && pcm.Valid() && fresh(pcm)
      invariant (pcm.pending, pcm.Now()) == FeedAll(input[..used])
      invariant pcm.frames == |Cut(input[..used])| * BLOCK_FRAMES && (used == 0 ==> pcm.frames == 0)
      decreases |input| - used
    {
      if used == |input| {
        assert input[..used] == input;
        return None, used;
      }
      if input[used].0 == [] {
        return None, used;
      }
      assert input[..used + 1][..used] == input[..used];
      pcm.Feed(input[used].0, input[used].1);
      used := used + 1;
      CaptureFrames(input[..used]);
    }
    FeedsCut(input[..used]);
    pcm.FinishSpan(input[used - 1].1);
    assert NOISE[0] == 1;
    FinishReports(Cut(input[..used]), input[used - 1].1, NOISE);
    return Some(pcm.spans), used;
  }

  lemma CaptureFrames(h: Feeds)
    ensures FeedAll(h).1.frames == |Cut(h)| * BLOCK_FRAMES
  {
    CaptureDetected(h);
  }

  lemma NthIs(bytes: Bytes, k: nat)
    requires k < |bytes| / BLOCK_BYTES
    ensures Nth(bytes, k) == bytes[k * BLOCK_BYTES..k * BLOCK_BYTES + BLOCK_BYTES]
  {
  }

  lemma TakeAllNext(d: Detector, blocks: seq<Block>, n: nat)
    requires n < |blocks|
    ensures TakeAll(d, blocks[..n + 1]) == Take(TakeAll(d, blocks[..n]), blocks[n])
  {
    hide Take;
    assert blocks[..n + 1][..n] == blocks[..n];
  }

  // ----- phases -----

  datatype Phase = Phase(name: string, frame: nat)
  datatype Marker = Marker(phase: Phase, observedFrame: nat, observed: int)

  function PhaseOf(m: seq<Marker>): seq<Phase> { seq(|m|, i requires 0 <= i < |m| => m[i].phase) }

  predicate Ascending(p: seq<Phase>) { forall i, j :: 0 <= i < j < |p| ==> p[i].frame < p[j].frame }

  /** Where phase `i` starts: after the seconds of the phases before it. */
  function StartOf(spec: seq<(string, nat)>, rate: nat, i: nat): nat
    requires i <= |spec|
  {
    if i == 0 then 0 else StartOf(spec, rate, i - 1) + spec[i - 1].1 * rate
  }

  lemma StartStep(spec: seq<(string, nat)>, rate: nat, i: nat)
    requires i <= |spec|
    ensures StartOf(spec, rate, i) == if i == 0 then 0 else StartOf(spec, rate, i - 1) + spec[i - 1].1 * rate
  {
  }

  lemma {:induction false} StartsAscend(spec: seq<(string, nat)>, rate: nat, i: nat, j: nat)
    requires i < j <= |spec| && rate > 0 && forall k :: 0 <= k < |spec| ==> spec[k].1 > 0
    ensures StartOf(spec, rate, i) < StartOf(spec, rate, j)
    decreases j
  {
    assert spec[j - 1].1 * rate > 0;
    if i < j - 1 {
      StartsAscend(spec, rate, i, j - 1);
    }
  }

  method Schedule(spec: seq<(string, nat)>, rate: nat) returns (list: seq<Phase>)
    requires rate > 0 && forall i :: 0 <= i < |spec| ==> spec[i].1 > 0
    ensures Ascending(list) && |list| == |spec|
    ensures forall i :: 0 <= i < |spec| ==> list[i] == Phase(spec[i].0, StartOf(spec, rate, i))
  {
    hide StartOf;
    list := [];
    var end: nat, k := 0, 0;
    StartStep(spec, rate, 0);
    while k < |spec|
      invariant 0 <= k == |list| <= |spec| && end == StartOf(spec, rate, k)
      invariant forall i :: 0 <= i < k ==> list[i] == Phase(spec[i].0, StartOf(spec, rate, i))
    {
      StartStep(spec, rate, k + 1);
      list := list + [Phase(spec[k].0, end)];
      end := end + spec[k].1 * rate;
      k := k + 1;
    }
    forall i, j | 0 <= i < j < |list|
      ensures list[i].frame < list[j].frame
    {
      StartsAscend(spec, rate, i, j);
    }
  }

  /** Consecutive phases, each marked once when the capture reaches it. */
  class PhaseTimeline {
    var pending: seq<Phase>
    var markers: seq<Marker>
    ghost const phases: seq<Phase>

    /** The markers and the pending phases are all the phases in order; every marker was seen at or after its frame. */
    ghost predicate Valid()
      reads this
    {
      && PhaseOf(markers) + pending == phases && Ascending(phases)
      && forall i :: 0 <= i < |markers| ==> markers[i].phase.frame <= markers[i].observedFrame
    }

    constructor (spec: seq<(string, nat)>, rate: nat)
      requires rate > 0 && forall i :: 0 <= i < |spec| ==> spec[i].1 > 0
      ensures Valid() && markers == []
      ensures |phases| == |spec|
      ensures forall i :: 0 <= i < |spec| ==> phases[i] == Phase(spec[i].0, StartOf(spec, rate, i))
    {
      var list := Schedule(spec, rate);
      assert PhaseOf([]) + list == list;
      pending, markers, phases := list, [], list;
    }

    /** Marks exactly the pending phases the capture has reached. */
    method Advance(frames: nat, at: int) returns (added: seq<Marker>)
      requires Valid()
      modifies this`pending, this`markers
      ensures Valid() && markers == old(markers) + added
      ensures forall i :: 0 <= i < |added| ==> added[i].observedFrame == frames && added[i].observed == at
      ensures forall i :: 0 <= i < |pending| ==> frames < pending[i].frame
    {
      added := [];
      while pending != [] && frames >= pending[0].frame
        invariant PhaseOf(markers + added) + pending == phases && markers == old(markers)
        invariant forall i :: 0 <= i < |added| ==>
                    added[i] == Marker(added[i].phase, frames, at) && added[i].phase.frame <= frames
        decreases |pending|
      {
        var m := Marker(pending[0], frames, at);
        assert PhaseOf(markers + (added + [m])) == PhaseOf(markers + added) + [pending[0]];
        added := added + [m];
        pending := pending[1..];
      }
      markers := markers + added;
      assert forall i :: 0 <= i < |pending| ==> pending[i] == phases[|markers| + i];
    }
  }
}

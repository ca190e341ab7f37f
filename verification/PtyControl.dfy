/** The control stream of the PTY bridge: frames of type, length and payload. `Parse` reads a whole
    stream at once; `Feed` is the incremental reader, given whatever one `read` returned. */
module PtyControl {
  import opened Common

  const DATA: byte := 1
  const RESIZE: byte := 2
  const QUERY_CWD: byte := 3
  const QUERY_FOREGROUND: byte := 4
  const HEADER: nat := 5
  const RESIZE_PAYLOAD: nat := 8
  const MAX_DATA: nat := 0x10_0000
  const BUFFER: nat := 8192

  datatype Event = Input(b: byte) | Resize(rows: nat, columns: nat) | Query(kind: byte)

  /** What a stream means: its events, and either that more is awaited or what follows the point
      where it is rejected. */
  datatype Status = Open | Rejected(rest: Bytes)
  datatype Parsed = Parsed(events: seq<Event>, status: Status)

  function Inputs(s: Bytes): (es: seq<Event>)
    ensures |es| == |s| && forall i :: 0 <= i < |s| ==> es[i] == Input(s[i])
  {
    seq(|s|, i requires 0 <= i < |s| => Input(s[i]))
  }

  function Then(events: seq<Event>, p: Parsed): Parsed { Parsed(events + p.events, p.status) }

  predicate ValidSize(rows: nat, columns: nat) { 2 <= rows <= 0xFFFF && 2 <= columns <= 0xFFFF }

  function Header(kind: byte, length: u32): (h: Bytes)
    ensures |h| == HEADER
  {
    [kind] + EncodeU32(length)
  }

  /** How a complete header continues. */
  datatype Kind = DataOf(n: nat) | ResizeOf | QueryOf(kind: byte) | Bad

  function KindOf(h: Bytes, framed: bool): Kind
    requires |h| == HEADER
  {
    var n := DecodeU32(h[1..]);
    if h[0] == DATA && n <= MAX_DATA then DataOf(n)
    else if h[0] == RESIZE && n == RESIZE_PAYLOAD then ResizeOf
    else if (h[0] == QUERY_CWD || h[0] == QUERY_FOREGROUND) && n == 0 && framed then QueryOf(h[0])
    else Bad
  }

  /** The whole stream in one pass, frame by frame. Queries need framed output. */
  function Parse(s: Bytes, framed: bool): Parsed
    decreases |s|
  {
    if |s| < HEADER then Parsed([], Open)
    else
      var body := s[HEADER..];
      match KindOf(s[..HEADER], framed)
      case DataOf(n) =>
        if |body| < n then Parsed(Inputs(body), Open) else Then(Inputs(body[..n]), Parse(body[n..], framed))
      case ResizeOf => if |body| < RESIZE_PAYLOAD then Parsed([], Open) else ParseResize(body, framed)
      case QueryOf(kind) => Then([Query(kind)], Parse(body, framed))
      case Bad => Parsed([], Rejected(body))
  }

  function ParseResize(body: Bytes, framed: bool): Parsed
    requires |body| >= RESIZE_PAYLOAD
    decreases |body|
  {
    var (rows, columns) := (DecodeU32(body[..4]), DecodeU32(body[4..8]));
    if ValidSize(rows, columns) then Then([Resize(rows, columns)], Parse(body[RESIZE_PAYLOAD..], framed))
    else Parsed([], Rejected(body[RESIZE_PAYLOAD..]))
  }

  // ----- the incremental reader -----

  /** `struct control_frame`: the header bytes so far, the payload still due, the resize bytes so far. */
  datatype Parser = Parser(header: Bytes, remaining: nat, resize: Bytes)

  predicate ValidParser(p: Parser) {
    && |p.header| <= HEADER
    && (|p.header| == HEADER ==>
          && p.remaining > 0
          && (if p.header[0] == DATA then p.remaining <= MAX_DATA
              else p.header[0] == RESIZE && p.remaining + |p.resize| == RESIZE_PAYLOAD))
  }

  /** How much the next `read` may ask for. */
  function Capacity(p: Parser): (n: nat)
    requires ValidParser(p)
    ensures n > 0
  {
    if |p.header| < HEADER then HEADER - |p.header|
    else if p.header[0] == DATA && p.remaining > BUFFER then BUFFER
    else p.remaining
  }

  datatype Fed = Fed(parser: Parser, events: seq<Event>, ok: bool)

  const START := Parser([], 0, [])

  /** One successful `read` of between one byte and `Capacity` bytes. */
  function Feed(p: Parser, chunk: Bytes, framed: bool): (r: Fed)
    requires ValidParser(p) && 0 < |chunk| <= Capacity(p)
    ensures r.ok ==> ValidParser(r.parser)
  {
    if |p.header| < HEADER then
      var h := p.header + chunk;
      if |h| < HEADER then Fed(p.(header := h), [], true) else FeedHeader(h, framed)
    else if p.header[0] == DATA then
      var left := p.remaining - |chunk|;
      Fed(if left == 0 then START else p.(remaining := left), Inputs(chunk), true)
    else
      var payload := p.resize + chunk;
      if |payload| < RESIZE_PAYLOAD then Fed(p.(remaining := p.remaining - |chunk|, resize := payload), [], true)
      else
        var (rows, columns) := (DecodeU32(payload[..4]), DecodeU32(payload[4..]));
        if ValidSize(rows, columns) then Fed(START, [Resize(rows, columns)], true) else Fed(START, [], false)
  }

  function FeedHeader(h: Bytes, framed: bool): (r: Fed)
    requires |h| == HEADER
    ensures r.ok ==> ValidParser(r.parser)
  {
    match KindOf(h, framed)
    case DataOf(n) => Fed(if n == 0 then START else Parser(h, n, []), [], true)
    case ResizeOf => Fed(Parser(h, RESIZE_PAYLOAD, []), [], true)
    case QueryOf(kind) => Fed(START, [Query(kind)], true)
    case Bad => Fed(START, [], false)
  }

  // ----- fragmentation does not matter -----

  /** What a stream means to a reader already in state `p`. */
  function Resume(p: Parser, s: Bytes, framed: bool): Parsed
    requires ValidParser(p)
  {
    if |p.header| < HEADER then Parse(p.header + s, framed)
    else if p.header[0] == DATA then
      if |s| < p.remaining then Parsed(Inputs(s), Open)
      else Then(Inputs(s[..p.remaining]), Parse(s[p.remaining..], framed))
    else
      if |p.resize + s| < RESIZE_PAYLOAD then Parsed([], Open) else ParseResize(p.resize + s, framed)
  }

  lemma ResumeStart(s: Bytes, framed: bool)
    ensures Resume(START, s, framed) == Parse(s, framed)
  {
    assert [] + s == s;
  }

  lemma ThenNone(p: Parsed)
    ensures Then([], p) == p
  {
    assert [] + p.events == p.events;
  }

  /** One read, then the rest: the same events, and a rejection at the same point. */
  lemma FeedStep(p: Parser, chunk: Bytes, s: Bytes, framed: bool)
    requires ValidParser(p) && 0 < |chunk| <= Capacity(p)
    ensures var r := Feed(p, chunk, framed);
            Resume(p, chunk + s, framed)
            == if r.ok then Then(r.events, Resume(r.parser, s, framed)) else Parsed(r.events, Rejected(s))
  {
    if |p.header| < HEADER {
      var h := p.header + chunk;
      assert p.header + (chunk + s) == h + s;
      if |h| < HEADER {
        ThenNone(Resume(p.(header := h), s, framed));
      } else {
        HeaderStep(h, s, framed);
      }
    } else if p.header[0] == DATA {
      DataStep(p, chunk, s, framed);
    } else {
      ResizeStep(p, chunk, s, framed);
    }
  }

  lemma HeaderStep(h: Bytes, s: Bytes, framed: bool)
    requires |h| == HEADER
    ensures var r := FeedHeader(h, framed);
            Parse(h + s, framed)
            == if r.ok then Then(r.events, Resume(r.parser, s, framed)) else Parsed(r.events, Rejected(s))
  {
    assert (h + s)[..HEADER] == h && (h + s)[HEADER..] == s;
    match KindOf(h, framed)
    case DataOf(n) =>
      var p := FeedHeader(h, framed).parser;
      ThenNone(Resume(p, s, framed));
      if n == 0 {
        assert s[..0] == [] && s[0..] == s && [] + s == s && Inputs([]) == [];
        ThenNone(Parse(s, framed));
      }
    case ResizeOf =>
      assert [] + s == s;
      ThenNone(Resume(Parser(h, RESIZE_PAYLOAD, []), s, framed));
    case QueryOf(_) => ResumeStart(s, framed);
    case Bad =>
  }

  lemma DataStep(p: Parser, chunk: Bytes, s: Bytes, framed: bool)
    requires ValidParser(p) && |p.header| == HEADER && p.header[0] == DATA && 0 < |chunk| <= p.remaining
    ensures var left := p.remaining - |chunk|;
            Resume(p, chunk + s, framed)
            == Then(Inputs(chunk), Resume(if left == 0 then START else p.(remaining := left), s, framed))
  {
    var all, left := chunk + s, p.remaining - |chunk|;
    if |all| < p.remaining {
      assert Inputs(all) == Inputs(chunk) + Inputs(s);
    } else {
      assert all[p.remaining..] == s[left..];
      assert Inputs(all[..p.remaining]) == Inputs(chunk) + Inputs(s[..left]);
      if left == 0 {
        assert s[0..] == s && s[..0] == [] && Inputs(chunk) + [] == Inputs(chunk);
        ResumeStart(s, framed);
      } else {
        var rest := Parse(s[left..], framed);
        assert Inputs(chunk) + Inputs(s[..left]) + rest.events == Inputs(chunk) + (Inputs(s[..left]) + rest.events);
      }
    }
  }

  lemma ResizeStep(p: Parser, chunk: Bytes, s: Bytes, framed: bool)
    requires ValidParser(p) && |p.header| == HEADER && p.header[0] != DATA && 0 < |chunk| <= p.remaining
    ensures var r := Feed(p, chunk, framed);
            Resume(p, chunk + s, framed)
            == if r.ok then Then(r.events, Resume(r.parser, s, framed)) else Parsed(r.events, Rejected(s))
  {
    var payload := p.resize + chunk;
    var body := payload + s;
    assert p.resize + (chunk + s) == body;
    if |payload| < RESIZE_PAYLOAD {
      ThenNone(Resume(Feed(p, chunk, framed).parser, s, framed));
    } else {
      assert body[RESIZE_PAYLOAD..] == s && body[..4] == payload[..4] && body[4..8] == payload[4..];
      ResumeStart(s, framed);
    }
  }

  /** The reader driven by a list of reads, up to a rejection. */
  datatype Drained = Drained(events: seq<Event>, parser: Parser, ok: bool, unread: seq<Bytes>)

  ghost predicate Readable(p: Parser, chunks: seq<Bytes>, framed: bool)
    requires ValidParser(p)
    decreases |chunks|
  {
    chunks == [] ||
    (0 < |chunks[0]| <= Capacity(p) &&
     var r := Feed(p, chunks[0], framed);
     r.ok ==> Readable(r.parser, chunks[1..], framed))
  }

  function Drain(p: Parser, chunks: seq<Bytes>, framed: bool): (d: Drained)
    requires ValidParser(p) && Readable(p, chunks, framed)
    ensures d.ok ==> ValidParser(d.parser)
    decreases |chunks|
  {
    if chunks == [] then Drained([], p, true, [])
    else
      var r := Feed(p, chunks[0], framed);
      if !r.ok then Drained(r.events, r.parser, false, chunks[1..])
      else var d := Drain(r.parser, chunks[1..], framed); d.(events := r.events + d.events)
  }

  function Joined(chunks: seq<Bytes>): Bytes {
    if chunks == [] then [] else chunks[0] + Joined(chunks[1..])
  }

  lemma {:induction false} DrainIsResume(p: Parser, chunks: seq<Bytes>, framed: bool)
    requires ValidParser(p) && Readable(p, chunks, framed)
    ensures var d := Drain(p, chunks, framed);
            Resume(p, Joined(chunks), framed)
            == if d.ok then Then(d.events, Resume(d.parser, [], framed))
               else Parsed(d.events, Rejected(Joined(d.unread)))
    decreases |chunks|
  {
    if chunks == [] {
      ThenNone(Resume(p, [], framed));
    } else {
      var rest := Joined(chunks[1..]);
      FeedStep(p, chunks[0], rest, framed);
      var r := Feed(p, chunks[0], framed);
      if r.ok {
        DrainIsResume(r.parser, chunks[1..], framed);
        var d := Drain(r.parser, chunks[1..], framed);
        var tail := if d.ok then Resume(d.parser, [], framed).events else [];
        assert r.events + (d.events + tail) == r.events + d.events + tail;
        assert r.events + d.events + [] == r.events + d.events;
        assert d.events + [] == d.events;
      }
    }
  }

  /** Nothing more is known to a reader that stands at a stream's end: it waits without events. */
  lemma ResumeNothing(p: Parser, framed: bool)
    requires ValidParser(p)
    ensures Resume(p, [], framed) == Parsed([], Open)
  {
    assert p.header + [] == p.header && p.resize + [] == p.resize;
  }

  /** However a stream is cut into reads, the reader produces the events of the one-pass parser,
      and rejects exactly where it rejects: what it leaves unread is what follows that point. */
  lemma FragmentationIndependent(chunks: seq<Bytes>, framed: bool)
    requires Readable(START, chunks, framed)
    ensures var d := Drain(START, chunks, framed);
            Parse(Joined(chunks), framed) == Parsed(d.events, if d.ok then Open else Rejected(Joined(d.unread)))
  {
    var d := Drain(START, chunks, framed);
    DrainIsResume(START, chunks, framed);
    ResumeStart(Joined(chunks), framed);
    if d.ok {
      ResumeNothing(d.parser, framed);
      assert d.events + [] == d.events;
    }
  }

  // ----- the peer's encoder -----

  /** What the Java peer writes. */
  datatype Request = Keys(data: Bytes) | Size(rows: nat, columns: nat) | Ask(kind: byte)

  predicate Sendable(q: Request) {
    match q
    case Keys(data) => 0 < |data| <= MAX_DATA
    case Size(rows, columns) => ValidSize(rows, columns)
    case Ask(kind) => kind == QUERY_CWD || kind == QUERY_FOREGROUND
  }

  function Encode(q: Request): Bytes
    requires Sendable(q)
  {
    match q
    case Keys(data) => Header(DATA, |data|) + data
    case Size(rows, columns) => Header(RESIZE, RESIZE_PAYLOAD) + (EncodeU32(rows) + EncodeU32(columns))
    case Ask(kind) => Header(kind, 0)
  }

  function EncodeAll(qs: seq<Request>): Bytes
    requires forall i :: 0 <= i < |qs| ==> Sendable(qs[i])
  {
    if qs == [] then [] else Encode(qs[0]) + EncodeAll(qs[1..])
  }

  function MeaningOf(q: Request): seq<Event> {
    match q
    case Keys(data) => Inputs(data)
    case Size(rows, columns) => [Resize(rows, columns)]
    case Ask(kind) => [Query(kind)]
  }

  function Meaning(qs: seq<Request>): seq<Event> {
    if qs == [] then [] else MeaningOf(qs[0]) + Meaning(qs[1..])
  }

  lemma HeaderBack(kind: byte, n: u32, body: Bytes)
    ensures var s := Header(kind, n) + body;
            s[..HEADER] == Header(kind, n) && s[HEADER..] == body && s[0] == kind && DecodeU32(s[..HEADER][1..]) == n
  {
    var s := Header(kind, n) + body;
    assert s[..HEADER] == Header(kind, n);
    assert s[..HEADER][1..] == EncodeU32(n);
    U32RoundTrip(n, EncodeU32(n));
  }

  lemma KeysBack(data: Bytes, rest: Bytes)
    requires Sendable(Keys(data))
    ensures Parse(Encode(Keys(data)) + rest, true) == Then(Inputs(data), Parse(rest, true))
  {
    hide EncodeU32, DecodeU32, Header;
    var body := data + rest;
    HeaderBack(DATA, |data|, body);
    assert Encode(Keys(data)) + rest == Header(DATA, |data|) + body;
    assert body[..|data|] == data && body[|data|..] == rest;
  }

  lemma SizeBack(rows: nat, columns: nat, rest: Bytes)
    requires ValidSize(rows, columns)
    ensures Parse(Encode(Size(rows, columns)) + rest, true) == Then([Resize(rows, columns)], Parse(rest, true))
  {
    hide EncodeU32, DecodeU32, Header;
    var payload := EncodeU32(rows) + EncodeU32(columns);
    var body := payload + rest;
    HeaderBack(RESIZE, RESIZE_PAYLOAD, body);
    assert Encode(Size(rows, columns)) + rest == Header(RESIZE, RESIZE_PAYLOAD) + body;
    assert body[..4] == EncodeU32(rows) && body[4..8] == EncodeU32(columns) && body[8..] == rest;
    U32RoundTrip(rows, EncodeU32(rows));
    U32RoundTrip(columns, EncodeU32(columns));
  }

  lemma ParseEncoded(q: Request, rest: Bytes)
    requires Sendable(q)
    ensures Parse(Encode(q) + rest, true) == Then(MeaningOf(q), Parse(rest, true))
  {
    match q
    case Keys(data) => KeysBack(data, rest);
    case Size(rows, columns) => SizeBack(rows, columns, rest);
    case Ask(kind) => HeaderBack(kind, 0, rest);
  }

  /** The bridge understands its peer: every list of requests is parsed to exactly its meaning. */
  lemma {:induction false} PeerUnderstood(qs: seq<Request>)
    requires forall i :: 0 <= i < |qs| ==> Sendable(qs[i])
    ensures Parse(EncodeAll(qs), true) == Parsed(Meaning(qs), Open)
  {
    hide Parse, Encode, MeaningOf;
    if qs == [] {
      EmptyStream();
    } else {
      ParseEncoded(qs[0], EncodeAll(qs[1..]));
      PeerUnderstood(qs[1..]);
    }
  }

  lemma EmptyStream()
    ensures Parse([], true) == Parsed([], Open)
  {}
}

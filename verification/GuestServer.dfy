/** The guest file server's wire: request framing, two-phase uploads and the import quota. */
module GuestServer {
  import opened Common

  const MAX_FILE: nat := 128 * 0x10_0000
  const MAX_TOTAL: nat := 256 * 0x10_0000
  const MAX_IMPORTS: nat := 128
  const MAX_PATH: nat := 4096
  const CHUNK: nat := 65536

  const OPEN: byte := 1
  const IMPORT: byte := 2
  const MKDIR: byte := 3
  const PUT: byte := 4
  const REMOVE: byte := 5
  const DIRECTORY: byte := 6

  // ----- sizes on the wire -----

  function EncodeU64(v: nat): (p: Bytes)
    requires v < 0x1_0000_0000_0000_0000
    ensures |p| == 8
  {
    EncodeU32(v / 0x1_0000_0000) + EncodeU32(v % 0x1_0000_0000)
  }

  /** The server's shift-and-or over the bytes read so far. */
  function Fold(p: Bytes): nat {
    if p == [] then 0 else Fold(p[..|p| - 1]) * 0x100 + p[|p| - 1] as int
  }

  lemma FoldOne(p: Bytes, b: byte)
    ensures Fold(p + [b]) == Fold(p) * 0x100 + b as int
  {
    assert (p + [b])[..|p|] == p;
  }

  lemma FoldFour(p: Bytes, q: Bytes)
    requires |q| == 4
    ensures Fold(p + q) == Fold(p) * 0x1_0000_0000 + DecodeU32(q)
  {
    var (p1, p2, p3) := (p + [q[0]], p + [q[0]] + [q[1]], p + [q[0]] + [q[1]] + [q[2]]);
    FoldOne(p, q[0]);
    FoldOne(p1, q[1]);
    FoldOne(p2, q[2]);
    FoldOne(p3, q[3]);
    assert p + q == p3 + [q[3]];
  }

  /** The server reads back every 64-bit size the client writes. */
  lemma SizeRoundTrip(v: nat)
    requires v < 0x1_0000_0000_0000_0000
    ensures Fold(EncodeU64(v)) == v
  {
    var h, l := EncodeU32(v / 0x1_0000_0000), EncodeU32(v % 0x1_0000_0000);
    FoldFour(h, l);
    FoldFour([], h);
    assert [] + h == h;
    U32RoundTrip(v / 0x1_0000_0000, h);
    U32RoundTrip(v % 0x1_0000_0000, l);
  }

  // ----- the client -----

  datatype Request = Request(op: byte, path: Bytes, body: Bytes)

  predicate Expressible(r: Request) { |r.path| < 0x1_0000_0000 && |r.body| < 0x1_0000_0000_0000_0000 }

  /** What is sent of a request before anything comes back. An upload's body is withheld. */
  function Opening(r: Request): Bytes
    requires Expressible(r)
  {
    [r.op] + EncodeU32(|r.path|) + r.path
    + (if r.op == IMPORT || r.op == PUT then EncodeU64(|r.body|) else [])
    + (if r.op == IMPORT then r.body else [])
  }

  /** What is sent of `n` requests from `i` on. */
  function Sent(requests: seq<Request>, i: nat, n: nat): Bytes
    requires i + n <= |requests| && forall k :: 0 <= k < |requests| ==> Expressible(requests[k])
    decreases n
  {
    if n == 0 then [] else Opening(requests[i]) + Sent(requests, i + 1, n - 1)
  }

  lemma {:induction false} SentOne(requests: seq<Request>, i: nat, n: nat)
    requires i + n < |requests| && forall k :: 0 <= k < |requests| ==> Expressible(requests[k])
    ensures Sent(requests, i, n + 1) == Sent(requests, i, n) + Opening(requests[i + n])
    decreases n
  {
    hide Opening, Expressible;
    if n > 0 {
      SentOne(requests, i + 1, n - 1);
      var first, rest := Opening(requests[i]), Sent(requests, i + 1, n - 1);
      assert first + (rest + Opening(requests[i + n])) == first + rest + Opening(requests[i + n]);
    }
  }

  /** A client that sends requests in order, any number of them ahead of the replies, but after an upload's size waits
      for the admission byte and sends the body only if it is zero. The connection may break after any number of
      bytes. */
  class Peer {
    const requests: seq<Request>
    /** How many requests are sent ahead, as far as the client may. */
    const bursts: nat -> nat
    /** The first request not yet begun, and the number of requests sent from there on. */
    var next: nat
    var ahead: nat
    var unread: Bytes
    var withheld: Bytes
    var readable: nat

    ghost predicate Valid()
      reads this
    {
      && next + ahead <= |requests| && (forall i :: 0 <= i < |requests| ==> Expressible(requests[i]))
      && forall k :: next <= k < next + ahead - 1 ==> requests[k].op != PUT
    }

    /** What was sent of the requests that have not begun, and the body that waits for the last of them. */
    ghost function Tail(): Bytes
      reads this
      requires Valid()
    {
      Sent(requests, next, ahead)
    }

    ghost function Owed(): Bytes
      reads this
      requires Valid()
    {
      if ahead > 0 && requests[next + ahead - 1].op == PUT then requests[next + ahead - 1].body else []
    }

    /** The next byte to read is the first of a request. */
    ghost predicate AtBoundary()
      reads this
    {
      Valid() && unread == Tail() && withheld == Owed()
    }

    constructor (requests: seq<Request>, bursts: nat -> nat, readable: nat)
      requires forall i :: 0 <= i < |requests| ==> Expressible(requests[i])
      ensures Valid() && AtBoundary() && next == 0 && this.requests == requests && this.readable == readable
    {
      this.requests, this.bursts, next, ahead := requests, bursts, 0, 0;
      unread, withheld, this.readable := [], [], readable;
    }

    /** Sends the next request, and more while none of them is an upload. */
    method Send()
      requires AtBoundary() && ahead == 0 && next < |requests|
      modifies this`ahead, this`unread, this`withheld
      ensures AtBoundary() && ahead > 0
    {
      hide Opening;
      var more := true;
      while more
        invariant AtBoundary() && (more ==> next + ahead < |requests| && Owed() == [])
        invariant more ==> forall k :: next <= k < next + ahead ==> requests[k].op != PUT
        invariant more || ahead > 0
        decreases more, |requests| - next - ahead
      {
        var r := requests[next + ahead];
        SentOne(requests, next, ahead);
        unread := unread + Opening(r);
        withheld := if r.op == PUT then r.body else [];
        ahead := ahead + 1;
        more := r.op != PUT && ahead <= bursts(next) && next + ahead < |requests|;
      }
    }

    method Begin() returns (more: bool)
      requires AtBoundary()
      modifies this`next, this`ahead, this`unread, this`withheld
      ensures Valid() && more == (old(next) < |requests|)
      ensures more ==> next == old(next) + 1 && unread == Opening(requests[old(next)]) + Tail()
      ensures more ==> Pending(this, requests[old(next)])
      ensures !more ==> next == old(next) && AtBoundary()
    {
      hide Opening;
      more := next < |requests|;
      if more {
        if ahead == 0 {
          Send();
        }
        next, ahead := next + 1, ahead - 1;
      }
    }

    /** `transfer` for reading: all of it, or the connection is done for. */
    method Recv(n: nat) returns (data: Option<Bytes>)
      requires Valid()
      modifies this`unread, this`readable
      ensures Valid()
      ensures data.Some? <==> n <= |old(unread)| && n <= old(readable)
      ensures data.Some? ==>
                data.value == old(unread)[..n] && unread == old(unread)[n..] && readable == old(readable) - n
    {
      if n > |unread| || n > readable {
        return None;
      }
      data := Some(unread[..n]);
      unread, readable := unread[n..], readable - n;
    }

    /** The admission byte reaches the client. */
    method Admit(status: byte)
      requires Valid()
      modifies this`unread, this`withheld
      ensures Valid() && withheld == []
      ensures unread == old(unread) + if status == 0 then old(withheld) else []
    {
      if status == 0 {
        unread := unread + withheld;
      }
      withheld := [];
    }
  }

  // ----- the server -----

  /** How the guest and the socket treat one request. `writes` gives the result of each `write`. */
  datatype Env = Env(
    directoryOk: bool, parentOk: bool, createOk: bool, fsyncOk: bool, strdupOk: bool, sendOk: bool,
    writes: nat -> nat)

  /** Nothing goes wrong in the guest or on the socket. */
  ghost predicate AllWell(e: Env) {
    && e.directoryOk && e.parentOk && e.createOk && e.fsyncOk && e.strdupOk && e.sendOk
    && forall k :: e.writes(k) > 0
  }

  /** `struct imports`, with the sizes and contents of the imports kept. */
  class Imports {
    var count: nat
    var bytes: nat
    ghost var kept: seq<Bytes>

    ghost predicate Valid()
      reads this
    {
      count == |kept| <= MAX_IMPORTS && bytes == Total(kept) <= MAX_TOTAL
    }

    constructor ()
      ensures Valid() && kept == []
    {
      count, bytes, kept := 0, 0, [];
    }

    method Keep(content: Bytes)
      requires Valid() && count < MAX_IMPORTS && |content| <= MAX_TOTAL - bytes
      modifies this
      ensures Valid() && kept == old(kept) + [content]
    {
      count, bytes := count + 1, bytes + |content|;
      kept := kept + [content];
      assert kept[..|kept| - 1] == old(kept);
    }
  }

  ghost function Total(files: seq<Bytes>): nat {
    if files == [] then 0 else Total(files[..|files| - 1]) + |files[|files| - 1]|
  }

  /** The inner loop of `receive_file`: one chunk, over as many short writes as it takes. */
  method WriteChunk(buffer: Bytes, writes: nat -> nat, first: nat) returns (ok: bool, written: Bytes, calls: nat)
    ensures written <= buffer && (ok ==> written == buffer) && calls >= first
    ensures (forall k :: writes(k) > 0) ==> ok
  {
    var at := 0;
    calls := first;
    written := [];
    while at < |buffer|
      invariant at <= |buffer| && written == buffer[..at] && calls >= first
      decreases |buffer| - at
    {
      var n := writes(calls);
      calls := calls + 1;
      if n == 0 {
        return false, written, calls;
      }
      var moved := if n < |buffer| - at then n else |buffer| - at;
      written := written + buffer[at..at + moved];
      at := at + moved;
    }
    ok := true;
  }

  /** `receive_file`: the file holds exactly the next `size` bytes of the stream, or a prefix of them. */
  method ReceiveFile(p: Peer, size: nat, e: Env) returns (ok: bool, content: Bytes)
    requires p.Valid()
    modifies p`unread, p`readable
    ensures p.Valid()
    ensures ok ==> size <= |old(p.unread)| && content == old(p.unread)[..size] && p.unread == old(p.unread)[size..]
    ensures content <= old(p.unread)
    ensures AllWell(e) && size <= |old(p.unread)| && size <= old(p.readable) ==> ok
  {
    var copied, calls := 0, 0;
    content := [];
    while copied < size
      invariant p.Valid()
      invariant copied <= size && copied <= |old(p.unread)|
      invariant content == old(p.unread)[..copied] && p.unread == old(p.unread)[copied..]
      invariant p.readable == old(p.readable) - copied
    {
      var count := if size - copied > CHUNK then CHUNK else size - copied;
      var buffer := p.Recv(count);
      if buffer.None? {
        return false, content;
      }
      assert old(p.unread)[..copied] + buffer.value == old(p.unread)[..copied + count];
      assert old(p.unread)[copied..][count..] == old(p.unread)[copied + count..];
      var done, written, next := WriteChunk(buffer.value, e.writes, calls);
      calls := next;
      content := content + written;
      if !done {
        assert content <= old(p.unread)[..copied + count];
        return false, content;
      }
      copied := copied + count;
    }
    ok := e.fsyncOk;
  }

  /** `read_size`. */
  method ReadSize(p: Peer) returns (size: Option<nat>)
    requires p.Valid()
    modifies p`unread, p`readable
    ensures p.Valid()
    ensures size.Some? ==> |old(p.unread)| >= 8 && size.value == Fold(old(p.unread)[..8]) <= MAX_FILE
                           && p.unread == old(p.unread)[8..] && p.readable == old(p.readable) - 8
    ensures |old(p.unread)| >= 8 && old(p.readable) >= 8 && Fold(old(p.unread)[..8]) <= MAX_FILE ==> size.Some?
  {
    var encoded := p.Recv(8);
    if encoded.None? {
      return None;
    }
    var value := 0;
    for i := 0 to 8
      invariant value == Fold(encoded.value[..i])
    {
      assert encoded.value[..i + 1][..i] == encoded.value[..i];
      value := value * 0x100 + encoded.value[i] as int;
    }
    assert encoded.value[..8] == encoded.value;
    size := if value > MAX_FILE then None else Some(value);
  }

  predicate GoodName(name: Bytes) {
    0 < |name| <= 240 && 47 !in name && 92 !in name && name != [46] && name != [46, 46]
  }

  /** `r` has begun: an upload is the last request sent, and its body is withheld. */
  ghost predicate Pending(p: Peer, r: Request)
    reads p
  {
    p.Valid() && if r.op == PUT then p.ahead == 0 && p.withheld == r.body else p.withheld == p.Owed()
  }

  /** What is sent of a request after its path. */
  function Rest(r: Request): Bytes
    requires Expressible(r)
  {
    (if r.op == IMPORT || r.op == PUT then EncodeU64(|r.body|) else []) + (if r.op == IMPORT then r.body else [])
  }

  /** The part of `r` that follows its path is next to be read. */
  ghost predicate AfterPath(p: Peer, r: Request)
    reads p
  {
    Pending(p, r) && Expressible(r) && p.unread == Rest(r) + p.Tail()
  }

  /** `import_file`: kept whole and counted, or the connection ends and nothing is counted. */
  method ImportFile(p: Peer, files: Imports, name: Bytes, ghost body: Bytes, e: Env) returns (ok: bool)
    requires AfterPath(p, Request(IMPORT, name, body)) && files.Valid()
    modifies p`unread, p`withheld, p`readable, files
    ensures p.Valid() && files.Valid()
    ensures ok ==> p.AtBoundary()
    ensures files.kept == old(files.kept) || files.kept == old(files.kept) + [body]
    ensures ok ==> files.kept == old(files.kept) + [body]
    ensures AllWell(e) && old(p.readable) >= 8 + |body| ==>
              (ok <==> GoodName(name) && |body| <= MAX_FILE
                       && |body| <= MAX_TOTAL - old(files.bytes) && old(files.count) < MAX_IMPORTS)
  {
    hide Sent;
    ghost var sent, tail := p.unread, p.Tail();
    assert sent == EncodeU64(|body|) + (body + tail);
    assert sent[..8] == EncodeU64(|body|) && sent[8..] == body + tail;
    SizeRoundTrip(|body|);
    var size := ReadSize(p);
    if size.None? {
      return false;
    }
    if !GoodName(name) || size.value > MAX_TOTAL - files.bytes || files.count == MAX_IMPORTS {
      return false;
    }
    if !e.directoryOk || !e.createOk {
      return false;
    }
    var received, content := ReceiveFile(p, size.value, e);
    if !received || !e.strdupOk {
      return false;
    }
    assert content == body && p.unread == tail;
    files.Keep(content);
    ok := e.sendOk;
  }

  /** `mutate_import` as the wire sees it. An upload refused before its body costs nothing; one that
      fails inside its body ends the connection. */
  method Mutate(p: Peer, op: byte, path: Bytes, ghost body: Bytes, e: Env) returns (ok: bool, content: Bytes)
    requires AfterPath(p, Request(op, path, body)) && op in [MKDIR, PUT, REMOVE]
    modifies p`unread, p`withheld, p`readable
    ensures p.Valid()
    ensures ok ==> p.AtBoundary()
    ensures ok && op == PUT && e.createOk ==> content == body
    ensures AllWell(e) && old(p.readable) >= 8 + |body| ==> (ok <==> op == PUT ==> |body| <= MAX_FILE)
  {
    content := [];
    if op == PUT {
      assert p.Tail() == [] && p.unread == EncodeU64(|body|);
      SizeRoundTrip(|body|);
      assert p.unread[..8] == p.unread;
      var size := ReadSize(p);
      if size.None? || !e.parentOk || !e.sendOk {
        return false, [];
      }
      p.Admit(if e.createOk then 0 else 5);
      if !e.createOk {
        return true, [];
      }
      ok, content := ReceiveFile(p, size.value, e);
      return;
    }
    ok := e.parentOk && e.sendOk;
  }

  /** The rest of a request whose operation and path have been read. */
  method Dispatch(p: Peer, files: Imports, op: byte, path: Bytes, ghost body: Bytes, e: Env) returns (ok: bool)
    requires AfterPath(p, Request(op, path, body)) && files.Valid() && path != []
    modifies p`unread, p`withheld, p`readable, files
    ensures p.Valid() && files.Valid()
    ensures files.kept == old(files.kept) || (op == IMPORT && files.kept == old(files.kept) + [body])
    ensures ok ==> p.AtBoundary()
  {
    if op == DIRECTORY {
      ok := e.directoryOk && e.sendOk;
    } else if MKDIR <= op <= REMOVE {
      var content;
      ok, content := Mutate(p, op, path, body, e);
    } else if op == IMPORT {
      ok := ImportFile(p, files, path, body, e);
    } else {
      ok := op == OPEN && path[0] == 47 && e.sendOk;
    }
  }

  /** `c` is the body of one of the first `n` requests, an import. */
  ghost predicate Imported(requests: seq<Request>, n: nat, c: Bytes)
    requires n <= |requests|
  {
    exists i :: 0 <= i < n && requests[i].op == IMPORT && requests[i].body == c
  }

  lemma ImportedSince(requests: seq<Request>, n: nat)
    requires n < |requests|
    ensures forall c :: Imported(requests, n, c) ==> Imported(requests, n + 1, c)
    ensures requests[n].op == IMPORT ==> Imported(requests, n + 1, requests[n].body)
  {
  }

  /** `serve`: every operation byte is read at a request boundary, on every run and after every
      failure it survives. The imports stay within their quota and each is what a client sent. */
  method Serve(p: Peer, files: Imports, env: nat -> Env) returns (code: nat, ghost ops: seq<byte>)
    requires p.AtBoundary() && p.next == 0 && files.Valid() && files.kept == []
    modifies p, files
    ensures p.Valid() && files.Valid()
    ensures p.next - 1 <= |ops| <= p.next && forall i :: 0 <= i < |ops| ==> ops[i] == p.requests[i].op
    ensures forall k :: 0 <= k < |files.kept| ==> Imported(p.requests, p.next, files.kept[k])
  {
    hide Imported, Opening, AfterPath, Pending, Total, Sent;
    ops := [];
    while true
      invariant p.AtBoundary() && files.Valid()
      invariant |ops| == p.next && forall i :: 0 <= i < |ops| ==> ops[i] == p.requests[i].op
      invariant forall k :: 0 <= k < |files.kept| ==> Imported(p.requests, p.next, files.kept[k])
      decreases |p.requests| - p.next
    {
      ghost var before := p.next;
      var more := p.Begin();
      if !more {
        return 0, ops;
      }
      ghost var r := p.requests[before];
      ImportedSince(p.requests, before);
      var e := env(p.next - 1);
      var header, failure, op := ReadHeader(p, r);
      ops := ops + op;
      if header.None? {
        return failure, ops;
      }
      var ok := Dispatch(p, files, header.value.0, header.value.1, r.body, e);
      if !ok {
        return 1, ops;
      }
    }
  }

  /** The start of one turn of `serve`: operation, path length and path. */
  method ReadHeader(p: Peer, ghost r: Request) returns (header: Option<(byte, Bytes)>, code: nat, ghost op: seq<byte>)
    requires Pending(p, r) && Expressible(r) && p.unread == Opening(r) + p.Tail()
    modifies p`unread, p`readable
    ensures p.Valid() && (op == [] || op == [r.op])
    ensures header.Some? ==> op == [r.op] && header.value == (r.op, r.path) && r.path != [] && AfterPath(p, r)
  {
    hide Opening, EncodeU64, EncodeU32, Rest, Sent;
    OpeningParts(r, p.Tail());
    header, code, op := None, 0, [];
    var operation := p.Recv(1);
    if operation.None? {
      return;
    }
    op := operation.value;
    var length := p.Recv(4);
    if length.None? {
      return;
    }
    U32RoundTrip(|r.path|, length.value);
    var n := DecodeU32(length.value);
    code := 1;
    if n == 0 || n > MAX_PATH {
      return;
    }
    var path := p.Recv(n);
    if path.None? || 0 in path.value {
      return;
    }
    header := Some((operation.value[0], path.value));
  }

  /** Operation, length, path and the rest stand one after the other in front of whatever was sent later. */
  lemma OpeningParts(r: Request, tail: Bytes)
    requires Expressible(r)
    ensures var s := Opening(r) + tail;
            && |s| >= 5 + |r.path| && s[..1] == [r.op] && s[1..][..4] == EncodeU32(|r.path|)
            && s[1..][4..][..|r.path|] == r.path
            && s[1..][4..][|r.path|..] == Rest(r) + tail
  {
    hide EncodeU32, EncodeU64;
    var s, rest := Opening(r) + tail, Rest(r) + tail;
    assert s == [r.op] + (EncodeU32(|r.path|) + (r.path + rest));
    assert s[1..] == EncodeU32(|r.path|) + (r.path + rest);
    assert s[1..][4..] == r.path + rest;
  }
}

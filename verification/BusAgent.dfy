/** Responses of the bus agent: a reply that does not fit is taken back, descriptors included,
    and what the descriptor table keeps over every run of responses and releases. */
module BusAgent {
  import opened Common
  import opened DBusValues
  import opened BusDescriptors
  import opened BusRoundTrip
  import BusCodec
  import W = BusWire
  import BusTransfer

  const EVENT: u32 := 2

  /** A D-Bus message as a response forwards it; absent header fields are empty texts. */
  datatype Message = Message(sender: Bytes, path: Bytes, interface: Bytes, member: Bytes, args: seq<Value>)
  datatype Reply = Reply(id: u32, kind: u32, bus: u32, message: Option<Message>, error: Bytes, detail: Bytes)

  /** "LIMIT_EXCEEDED" and its explanation, sent in place of a reply that does not fit. */
  function LimitReply(id: u32, bus: u32): Reply {
    Reply(id, 1, bus, None,
          [76, 73, 77, 73, 84, 95, 69, 88, 67, 69, 69, 68, 69, 68],
          [68, 45, 66, 117, 115, 32, 114, 101, 115, 117, 108, 116, 32, 101, 120, 99, 101, 101, 100, 115, 32,
           116, 114, 97, 110, 115, 112, 111, 114, 116, 32, 108, 105, 109, 105, 116, 115])
  }

  /** The texts of a reply in wire order. */
  function Texts(r: Reply): seq<Bytes> {
    (match r.message
     case None => [[], [], [], []]
     case Some(m) => [m.sender, m.path, m.interface, m.member]) + [r.error, r.detail]
  }

  function PutTexts(w: BusCodec.Writer, texts: seq<Bytes>): (w': BusCodec.Writer)
    ensures w'.fds == w.fds
    decreases |texts|
  {
    if texts == [] then w else PutTexts(BusCodec.PutText(w, texts[0]), texts[1..])
  }

  function PutHeader(w: BusCodec.Writer, r: Reply): (w': BusCodec.Writer)
    ensures w'.fds == w.fds
  {
    PutTexts(BusCodec.PutU32(BusCodec.PutU32(BusCodec.PutU32(w, r.id), r.kind), r.bus), Texts(r))
  }

  /** The whole frame of a reply: header, texts and arguments. */
  function WriteReply(w: BusCodec.Writer, r: Reply, dbl: Doubles): (res: (bool, BusCodec.Writer))
    requires Sized(w.fds)
    ensures Sized(res.1.fds)
  {
    var w1 := PutHeader(w, r);
    if r.message.Some? then BusCodec.WriteValues(w1, r.message.value.args, dbl)
    else var w2 := BusCodec.PutU32(w1, 0); (!w2.failed, w2)
  }

  function Fresh(f: Table): BusCodec.Writer { BusCodec.Writer([], 0, false, f) }

  /** `response` up to the socket: the frame to send, or nothing for an event that does not fit. */
  function Respond(f: Table, r: Reply, dbl: Doubles): (res: (Option<Bytes>, Table))
    requires Sized(f)
    ensures Sized(res.1)
  {
    var (ok, w) := WriteReply(Fresh(f), r, dbl);
    if ok && !w.failed then (Some(w.bytes), w.fds)
    else
      var g := CloseAbove(w.fds, f.next, |w.fds.fd|);
      if r.kind == EVENT then (None, g)
      else
        var (_, w2) := WriteReply(Fresh(g), LimitReply(r.id, r.bus), dbl);
        (Some(w2.bytes), g)
  }

  // ----- the substitute always fits -----

  function TextsSize(texts: seq<Bytes>): nat {
    if texts == [] then 0 else 4 + |texts[0]| + TextsSize(texts[1..])
  }

  lemma {:induction false} TextsFit(w: BusCodec.Writer, texts: seq<Bytes>)
    requires !w.failed && |w.bytes| + TextsSize(texts) <= BusCodec.FRAME_LIMIT
    ensures var w' := PutTexts(w, texts); !w'.failed && |w'.bytes| == |w.bytes| + TextsSize(texts)
    decreases |texts|
  {
    if texts != [] {
      TextsFit(BusCodec.PutText(w, texts[0]), texts[1..]);
    }
  }

  lemma LimitReplyFits(f: Table, id: u32, bus: u32, dbl: Doubles)
    requires Sized(f)
    ensures var (ok, w) := WriteReply(Fresh(f), LimitReply(id, bus), dbl); ok && w.fds == f
  {
    var r := LimitReply(id, bus);
    var w := BusCodec.PutU32(BusCodec.PutU32(BusCodec.PutU32(Fresh(f), r.id), r.kind), r.bus);
    LimitTextsSize(id, bus);
    TextsFit(w, Texts(r));
  }

  lemma LimitTextsSize(id: u32, bus: u32)
    ensures TextsSize(Texts(LimitReply(id, bus))) <= 100
  {
    var r := LimitReply(id, bus);
    var last := [r.error, r.detail];
    assert last[1..] == [r.detail] && [r.detail][1..] == [];
    assert TextsSize([r.detail]) == 4 + 37;
    assert TextsSize(last) == 4 + 14 + 4 + 37;
    SkipEmpty(last);
    SkipEmpty([[]] + last);
    SkipEmpty([[]] + ([[]] + last));
    SkipEmpty([[]] + ([[]] + ([[]] + last)));
    assert Texts(r) == [[]] + ([[]] + ([[]] + ([[]] + last)));
  }

  lemma SkipEmpty(ts: seq<Bytes>)
    ensures TextsSize([[]] + ts) == 4 + TextsSize(ts)
  {
    assert ([[]] + ts)[1..] == ts;
  }

  // ----- one response -----

  lemma {:induction false} PutTextsContinue(w: BusCodec.Writer, texts: seq<Bytes>)
    requires Valid(w.fds)
    ensures Continues(w, PutTexts(w, texts))
    decreases |texts|
  {
    hide Valid, Grew;
    if texts == [] {
      GrewReflexive(w.fds);
    } else {
      var w1 := BusCodec.PutText(w, texts[0]);
      PutTextContinues(w, texts[0]);
      PutTextsContinue(w1, texts[1..]);
      ContinuesTransitive(w, w1, PutTexts(w1, texts[1..]));
    }
  }

  lemma WriteReplyKeeps(f: Table, r: Reply, dbl: Doubles)
    requires Valid(f)
    ensures var (ok, w) := WriteReply(Fresh(f), r, dbl); Valid(w.fds) && Grew(f, w.fds) && (ok ==> !w.failed)
  {
    hide Valid, Grew;
    var w1 := PutHeader(Fresh(f), r);
    GrewReflexive(f);
    if r.message.Some? {
      WriteValuesKeeps(w1, r.message.value.args, dbl);
    }
  }

  /** A response that does not fit leaves exactly the descriptors that were held before it, slot by
      slot under the same serials; one that fits only adds descriptors. */
  lemma RespondKeeps(f: Table, r: Reply, dbl: Doubles)
    requires Valid(f)
    ensures var (ok, w) := WriteReply(Fresh(f), r, dbl);
            var (frame, g) := Respond(f, r, dbl);
            && Valid(g) && f.next <= g.next
            && (ok ==> frame == Some(w.bytes) && Grew(f, g))
            && (!ok ==> g.fd == f.fd && forall i :: Live(f, i) ==> g.serial[i] == f.serial[i])
            && (frame.None? <==> !ok && r.kind == EVENT)
  {
    hide Valid, Grew, WriteReply;
    WriteReplyKeeps(f, r, dbl);
    var (ok, w) := WriteReply(Fresh(f), r, dbl);
    GrewNext(f, w.fds);
    RollbackRestores(f, w.fds);
  }

  lemma GrewNext(f: Table, g: Table)
    requires Grew(f, g)
    ensures f.next <= g.next
  {}

  // ----- runs -----

  datatype Op = Response(reply: Reply) | Close(handle: Bytes) | Disconnect

  function Step(f: Table, op: Op, dbl: Doubles): (g: Table)
    requires Sized(f)
    ensures Sized(g)
  {
    match op
    case Response(r) => Respond(f, r, dbl).1
    case Close(handle) => Release(f, handle).1
    case Disconnect => Clear(f, |f.fd|)
  }

  function Run(f: Table, ops: seq<Op>, dbl: Doubles): (g: Table)
    requires Sized(f)
    ensures Sized(g)
    decreases |ops|
  {
    if ops == [] then f else Run(Step(f, ops[0], dbl), ops[1..], dbl)
  }

  /** Nothing live bears serial `id`. */
  ghost predicate Dead(f: Table, id: nat)
    requires Sized(f)
  {
    forall i :: Live(f, i) ==> f.serial[i] != id
  }

  lemma StepKeeps(f: Table, op: Op, dbl: Doubles)
    requires Valid(f)
    ensures var g := Step(f, op, dbl); Valid(g) && f.next <= g.next
    ensures forall id :: 0 < id <= f.next && Dead(f, id) ==> Dead(Step(f, op, dbl), id)
  {
    match op
    case Response(r) =>
      RespondKeeps(f, r, dbl);
      var ok := WriteReply(Fresh(f), r, dbl).0;
      var g := Respond(f, r, dbl).1;
      if ok {
        GrewKeepsDead(f, g);
      } else {
        assert forall i :: Live(g, i) ==> Live(f, i) && g.serial[i] == f.serial[i];
      }
    case Close(handle) =>
      var slot := HandleSlot(f, handle);
      if slot.Some? {
        CloseSlotKeeps(f, slot.value);
        assert forall i :: Live(CloseSlot(f, slot.value), i) ==> Live(f, i);
      }
    case Disconnect => ClearClosesAll(f);
  }

  lemma GrewKeepsDead(f: Table, g: Table)
    requires Grew(f, g)
    ensures forall id: nat :: id <= f.next && Dead(f, id) ==> Dead(g, id)
  {
    forall id: nat, i | id <= f.next && Dead(f, id) && Live(g, i)
      ensures g.serial[i] != id
    {
      if f.fd[i] >= 0 {
        assert Live(f, i);
      }
    }
  }

  /** Over every run: the table stays valid, so live serials are distinct and issued and every
      descriptor received is held once or closed once; and a handle that was issued and closed,
      by release, rollback or disconnect, never resolves again. */
  lemma {:induction false} RunKeeps(f: Table, ops: seq<Op>, dbl: Doubles, handle: Bytes)
    requires Valid(f)
    ensures var g := Run(f, ops, dbl); Valid(g) && f.next <= g.next
    ensures HandleId(handle).Some? && HandleId(handle).value <= f.next && HandleSlot(f, handle).None? ==>
              HandleSlot(Run(f, ops, dbl), handle).None?
    decreases |ops|
  {
    if ops != [] {
      hide Valid;
      var g := Step(f, ops[0], dbl);
      StepKeeps(f, ops[0], dbl);
      if HandleId(handle).Some? && HandleId(handle).value <= f.next && HandleSlot(f, handle).None? {
        var id := HandleId(handle).value;
        assert Dead(f, id);
        assert Dead(g, id);
        assert HandleSlot(g, handle).None?;
      }
      RunKeeps(g, ops[1..], dbl, handle);
    }
  }

  /** A released handle is among those that never resolve again. */
  lemma ReleasedIsDead(f: Table, handle: Bytes, other: Bytes)
    requires Valid(f) && Release(f, handle).0 && HandleId(other) == HandleId(handle)
    ensures HandleSlot(Release(f, handle).1, other).None?
    ensures HandleId(handle).value <= Release(f, handle).1.next
  {
    var i := HandleSlot(f, handle).value;
    var g := Release(f, handle).1;
    forall k | Live(g, k)
      ensures g.serial[k] != HandleId(handle).value
    {
      assert Live(f, k) && k != i;
    }
  }

  /** A run that ends by disconnecting has closed every descriptor it ever received, once. */
  lemma DisconnectClosesAll(ops: seq<Op>, dbl: Doubles)
    ensures var g := Step(Run(Empty(), ops, dbl), Disconnect, dbl);
            g.closed == g.received && forall i :: !Live(g, i)
  {
    EmptyValid();
    RunKeeps(Empty(), ops, dbl, []);
    ClearClosesAll(Run(Empty(), ops, dbl));
  }

  // ----- the agent's method -----

  /** `response`, recursing once into the substitute when the reply does not fit. */
  method SendResponse(f: W.Fds, r: Reply, dbl: Doubles) returns (frame: Option<Bytes>)
    requires f.Valid()
    modifies f, f.fd, f.serial
    ensures f.Valid() && (frame, f.Table()) == Respond(old(f.Table()), r, dbl)
    decreases if r == LimitReply(r.id, r.bus) then 0 else 1
  {
    var w := new W.Wire();
    var before := f.next;
    var ok := WriteFrame(w, f, r, dbl);
    if !ok || w.failed {
      f.CloseAbove(before);
      LimitReplyFits(old(f.Table()), r.id, r.bus, dbl);
      if r.kind == EVENT {
        return None;
      }
      LimitReplyFits(f.Table(), r.id, r.bus, dbl);
      frame := SendResponse(f, LimitReply(r.id, r.bus), dbl);
      return;
    }
    frame := Some(w.data[..w.size]);
  }

  method WriteFrame(w: W.Wire, f: W.Fds, r: Reply, dbl: Doubles) returns (ok: bool)
    requires W.Apart(w, f)
    modifies w, w.data, f, f.fd, f.serial
    ensures W.Apart(w, f) && (fresh(w.data) || w.data == old(w.data))
    ensures (ok, W.WriterOf(w, f)) == WriteReply(old(W.WriterOf(w, f)), r, dbl)
  {
    W.WriteU32(w, f, r.id);
    W.WriteU32(w, f, r.kind);
    W.WriteU32(w, f, r.bus);
    ghost var start := W.WriterOf(w, f);
    var texts := Texts(r);
    for i := 0 to |texts|
      invariant W.Apart(w, f) && (fresh(w.data) || w.data == old(w.data))
      invariant PutTexts(start, texts) == PutTexts(W.WriterOf(w, f), texts[i..])
    {
      assert texts[i..][0] == texts[i] && texts[i..][1..] == texts[i + 1..];
      W.WriteText(w, f, texts[i]);
    }
    if r.message.Some? {
      ok := BusTransfer.WriteValues(w, f, r.message.value.args, dbl);
    } else {
      W.WriteU32(w, f, 0);
      ok := !w.failed;
    }
  }
}

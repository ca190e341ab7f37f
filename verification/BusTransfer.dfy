/** `write_value`, `read_value` and their callers, running over the wire and the table. */
module BusTransfer {
  import opened Common
  import opened DBusTypes
  import opened DBusValues
  import opened BusWire
  import BusDescriptors
  import C = BusCodec

  method WriteScalar(w: Wire, f: Fds, v: Value, dbl: Doubles) returns (ok: bool)
    requires Apart(w, f)
    modifies w, w.data, f, f.fd, f.serial
    ensures Apart(w, f) && (fresh(w.data) || w.data == old(w.data))
    ensures (ok, WriterOf(w, f)) == C.WriteScalar(old(WriterOf(w, f)), v, dbl)
  {
    var text: Bytes;
    if v.Handle? {
      var id := f.Insert(v.fd);
      if id.None? {
        return false;
      }
      text := BusDescriptors.Handle(id.value);
    } else {
      var printed := C.ScalarText(v, dbl);
      if printed.None? {
        return false;
      }
      text := printed.value;
    }
    WriteText(w, f, text);
    ok := !w.failed;
  }

  method WriteValue(w: Wire, f: Fds, v: Value, depth: nat, dbl: Doubles) returns (ok: bool)
    requires Apart(w, f)
    modifies w, w.data, f, f.fd, f.serial
    ensures Apart(w, f) && (fresh(w.data) || w.data == old(w.data))
    ensures (ok, WriterOf(w, f)) == C.WriteValue(old(WriterOf(w, f)), v, depth, dbl)
    decreases Nodes(v), 1
  {
    hide C.PutText, C.PutU32, C.WriteAll, C.WriteScalar, Print, TypeOf;
    if depth > C.DEPTH_LIMIT {
      return false;
    }
    w.values := w.values + 1;
    if w.values > C.VALUE_LIMIT {
      return false;
    }
    WriteText(w, f, Print(TypeOf(v)));
    if IsContainer(v) {
      if v.VariantOf? {
        WriteText(w, f, Print(TypeOf(v.child)));
      }
      WriteU32(w, f, |Children(v)|);
      NodesOfChildren(v);
      ok := WriteEach(w, f, Children(v), depth + 1, dbl);
    } else {
      ok := WriteScalar(w, f, v, dbl);
    }
  }

  /** The loop over the children of a container or the arguments of a message. */
  method WriteEach(w: Wire, f: Fds, vs: seq<Value>, depth: nat, dbl: Doubles) returns (ok: bool)
    requires Apart(w, f)
    modifies w, w.data, f, f.fd, f.serial
    ensures Apart(w, f) && (fresh(w.data) || w.data == old(w.data))
    ensures (ok, WriterOf(w, f)) == C.WriteAll(old(WriterOf(w, f)), vs, depth, dbl)
    decreases NodesAll(vs), 2
  {
    for i := 0 to |vs|
      invariant Apart(w, f) && (fresh(w.data) || w.data == old(w.data))
      invariant C.WriteAll(old(WriterOf(w, f)), vs, depth, dbl) == C.WriteAll(WriterOf(w, f), vs[i..], depth, dbl)
    {
      NodesAt(vs, i);
      assert vs[i..][0] == vs[i] && vs[i..][1..] == vs[i + 1..];
      var sent := WriteValue(w, f, vs[i], depth, dbl);
      if !sent {
        return false;
      }
    }
    ok := !w.failed;
  }

  lemma {:induction false} NodesAt(vs: seq<Value>, i: nat)
    requires i < |vs|
    ensures Nodes(vs[i]) <= NodesAll(vs)
  {
    if i > 0 {
      NodesAt(vs[1..], i - 1);
    }
  }

  /** `md_bus_values_write`. */
  method WriteValues(w: Wire, f: Fds, vs: seq<Value>, dbl: Doubles) returns (ok: bool)
    requires Apart(w, f)
    modifies w, w.data, f, f.fd, f.serial
    ensures Apart(w, f) && (fresh(w.data) || w.data == old(w.data))
    ensures (ok, WriterOf(w, f)) == C.WriteValues(old(WriterOf(w, f)), vs, dbl)
  {
    WriteU32(w, f, |vs|);
    ok := WriteEach(w, f, vs, 0, dbl);
  }

  /** `append_scalar`. */
  method ScanScalar(c: Code, s: Bytes, f: Fds, dbl: Doubles) returns (v: Option<Value>)
    requires f.Valid()
    ensures v == C.ScanScalar(c, s, f.Table(), dbl)
  {
    if c == UNIX_FD {
      var slot := f.Resolve(s);
      if slot.Some? {
        return Some(Value.Handle(f.fd[slot.value]));
      }
      return None;
    }
    v := C.ScanScalar(c, s, BusDescriptors.Empty(), dbl);
  }

  method ReadValue(w: Wire, f: Fds, dbl: Doubles, expected: Option<Type>, depth: nat) returns (v: Option<Value>)
    requires w.Valid() && f.Valid()
    modifies w
    ensures w.Valid() && w.data == old(w.data) && w.size == old(w.size)
    ensures (v, ReaderOf(w)) == C.ReadValue(old(ReaderOf(w)), f.Table(), dbl, expected, depth)
    decreases C.DEPTH_LIMIT + 1 - depth, 1
  {
    hide C.ReadText, C.ScanScalar, C.ReadContainer, C.Declared, Single;
    if depth > C.DEPTH_LIMIT {
      return None;
    }
    w.values := w.values + 1;
    if w.values > C.VALUE_LIMIT {
      return None;
    }
    var sig := w.ReadText();
    if sig.None? {
      return None;
    }
    var declared := C.Declared(sig.value, expected);
    if declared.None? {
      return None;
    }
    var t := declared.value;
    if t.Basic? {
      var text := w.ReadText();
      if text.None? {
        return None;
      }
      v := ScanScalar(t.code, text.value, f, dbl);
      return;
    }
    var kids: C.Kids;
    if t.Variant? {
      var text := w.ReadText();
      if text.None? || Single(text.value).None? {
        return None;
      }
      kids := C.Repeat(Single(text.value).value);
    } else {
      kids := C.KidsOf(t);
    }
    v := ReadContainer(w, f, dbl, t, kids, depth);
  }

  method ReadContainer(w: Wire, f: Fds, dbl: Doubles, t: Type, kids: C.Kids, depth: nat) returns (v: Option<Value>)
    requires w.Valid() && f.Valid() && depth <= C.DEPTH_LIMIT
    modifies w
    ensures w.Valid() && w.data == old(w.data) && w.size == old(w.size)
    ensures (v, ReaderOf(w)) == C.ReadContainer(old(ReaderOf(w)), f.Table(), dbl, t, kids, depth)
    decreases C.DEPTH_LIMIT + 1 - depth, 0
  {
    var count := w.ReadU32();
    if w.failed || count > C.VALUE_LIMIT || (t.Variant? && count != 1) {
      return None;
    }
    var items := ReadEach(w, f, dbl, kids, count, depth + 1);
    if items.None? {
      return None;
    }
    v := C.Build(t, items.value);
  }

  /** The loop over the children of a container. */
  method ReadEach(w: Wire, f: Fds, dbl: Doubles, kids: C.Kids, count: nat, depth: nat) returns (vs: Option<seq<Value>>)
    requires w.Valid() && f.Valid() && depth <= C.DEPTH_LIMIT + 1
    modifies w
    ensures w.Valid() && w.data == old(w.data) && w.size == old(w.size)
    ensures (vs, ReaderOf(w)) == C.ReadItems(old(ReaderOf(w)), f.Table(), dbl, kids, count, depth)
    decreases C.DEPTH_LIMIT + 1 - depth, 2
  {
    hide C.ReadValue;
    var items: seq<Value>, rest := [], kids;
    AfterNone(C.ReadItems(ReaderOf(w), f.Table(), dbl, kids, count, depth).0);
    for i := 0 to count
      invariant w.Valid() && w.data == old(w.data) && w.size == old(w.size)
      invariant var (more, r) := C.ReadItems(ReaderOf(w), f.Table(), dbl, rest, count - i, depth);
                C.ReadItems(old(ReaderOf(w)), f.Table(), dbl, kids, count, depth) == (After(items, more), r)
    {
      if rest.Fields? && rest.types == [] {
        return None;
      }
      var item := ReadValue(w, f, dbl, Some(C.First(rest)), depth);
      if item.None? {
        return None;
      }
      AfterOne(items, item.value, C.ReadItems(ReaderOf(w), f.Table(), dbl, C.Rest(rest), count - i - 1, depth).0);
      items := items + [item.value];
      rest := C.Rest(rest);
    }
    if rest.Fields? && rest.types != [] {
      return None;
    }
    assert items + [] == items;
    vs := Some(items);
  }

  /** `md_bus_values_read`. */
  method ReadValues(w: Wire, f: Fds, dbl: Doubles) returns (vs: Option<seq<Value>>)
    requires w.Valid() && f.Valid()
    modifies w
    ensures w.Valid() && w.data == old(w.data) && w.size == old(w.size)
    ensures (vs, ReaderOf(w)) == C.ReadValues(old(ReaderOf(w)), f.Table(), dbl)
  {
    hide C.ReadValue, C.ReadU32;
    var count := w.ReadU32();
    if count > C.VALUE_LIMIT {
      return None;
    }
    var items: seq<Value> := [];
    ghost var start := ReaderOf(w);
    AfterNone(C.ReadList(start, f.Table(), dbl, count).0);
    for i := 0 to count
      invariant w.Valid() && w.data == old(w.data) && w.size == old(w.size)
      invariant var (more, r) := C.ReadList(ReaderOf(w), f.Table(), dbl, count - i);
                C.ReadList(start, f.Table(), dbl, count) == (After(items, more), r)
    {
      var item := ReadValue(w, f, dbl, None, 0);
      if item.None? {
        return None;
      }
      AfterOne(items, item.value, C.ReadList(ReaderOf(w), f.Table(), dbl, count - i - 1).0);
      items := items + [item.value];
    }
    assert items + [] == items;
    vs := if w.failed then None else Some(items);
  }
}

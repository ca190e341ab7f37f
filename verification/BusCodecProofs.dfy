/** What the reader accepts is well typed and bounded, whatever the bytes. */
module BusCodecProofs {
  import opened Common
  import opened DBusTypes
  import opened DBusValues
  import opened BusDescriptors
  import opened BusCodec

  // ----- every accepted frame yields well-typed, bounded values -----

  ghost predicate Advanced(r: Reader, r': Reader) {
    r'.data == r.data && r.at <= r'.at <= |r.data| && r.values <= r'.values && (r.failed ==> r'.failed)
  }

  /** `v` was read between `r` and `r'`: well typed, of the expected type, within depth and count. */
  ghost predicate Accepted(v: Value, r: Reader, r': Reader, expected: Option<Type>, depth: nat) {
    && WellTyped(v)
    && (if expected.Some? then TypeOf(v) == expected.value else Complete(TypeOf(v)) && WithinLimits(TypeOf(v)))
    && !r'.failed
    && r'.values == r.values + Nodes(v) <= VALUE_LIMIT
    && depth + Height(v) <= DEPTH_LIMIT
  }

  /** The same for the children of a container. */
  ghost predicate AcceptedAll(vs: seq<Value>, r: Reader, r': Reader, kids: Kids, count: nat, depth: nat) {
    && |vs| == count
    && (forall i :: 0 <= i < |vs| ==> WellTyped(vs[i]))
    && (if kids.Repeat? then forall i :: 0 <= i < |vs| ==> TypeOf(vs[i]) == kids.elem
        else TypesOf(vs) == kids.types)
    && !r'.failed
    && r'.values == r.values + NodesAll(vs) <= VALUE_LIMIT
    && (vs != [] ==> depth + HeightAll(vs) <= DEPTH_LIMIT)
  }

  predicate Expectable(t: Type) { Shaped(t) && WithinLimits(t) }

  predicate ExpectableKids(kids: Kids) {
    match kids
    case Repeat(e) => Expectable(e)
    case Fields(ts) => forall i :: 0 <= i < |ts| ==> Expectable(ts[i])
  }

  lemma ReadTextSound(r: Reader)
    requires r.at <= |r.data|
    ensures var (s, r') := ReadText(r);
            && Advanced(r, r') && r'.values == r.values
            && (s.Some? ==> Carries(s.value) && !r'.failed)
  {}

  lemma ScanScalarSound(c: Code, s: Bytes, fds: Table, dbl: Doubles)
    requires Sized(fds) && Carries(s)
    ensures var v := ScanScalar(c, s, fds, dbl);
            v.Some? ==> WellTyped(v.value) && TypeOf(v.value) == Basic(c) && !IsContainer(v.value)
  {}

  lemma DeclaredSound(sig: Bytes, expected: Option<Type>)
    requires expected.Some? ==> Expectable(expected.value)
    ensures var t := Declared(sig, expected);
            t.Some? ==>
              && Expectable(t.value)
              && (if expected.Some? then t == expected else Complete(t.value))
  {
    if expected.Some? && Print(expected.value) == sig && !expected.value.DictEntry? {
      SingleCharacterised(sig, expected.value);
    } else if Single(sig).Some? {
      SingleCharacterised(sig, Single(sig).value);
    }
  }

  lemma KidsExpectable(t: Type)
    requires Expectable(t) && (t.Array? || t.Struct? || t.DictEntry?)
    ensures ExpectableKids(KidsOf(t))
  {
    match t
    case Array(e) => ComponentWithinLimits(e, t);
    case Struct(fs) =>
      forall i | 0 <= i < |fs|
        ensures Expectable(fs[i])
      {
        ComponentWithinLimits(fs[i], t);
      }
    case DictEntry(k, v) => ComponentWithinLimits(v, t); ComponentWithinLimits(Basic(k), t);
  }

  lemma {:induction false} ReadValueSound(r: Reader, fds: Table, dbl: Doubles, expected: Option<Type>, depth: nat)
    requires Sized(fds) && r.at <= |r.data| && (expected.Some? ==> Expectable(expected.value))
    ensures var (v, r') := ReadValue(r, fds, dbl, expected, depth);
            Advanced(r, r') && (v.Some? ==> Accepted(v.value, r, r', expected, depth))
    decreases DEPTH_LIMIT + 1 - depth, 3
  {
    hide WellTyped, Height, Nodes, ReadBody, Declared, Expectable, ReadText, TypeOf;
    if depth <= DEPTH_LIMIT && r.values + 1 <= VALUE_LIMIT {
      var r0 := r.(values := r.values + 1);
      ReadTextSound(r0);
      var (sig, r1) := ReadText(r0);
      if sig.Some? && Declared(sig.value, expected).Some? {
        DeclaredSound(sig.value, expected);
        ReadBodySound(r1, fds, dbl, Declared(sig.value, expected).value, depth);
      }
    }
  }

  /** Between a value's signature and its end: the node itself is already counted. */
  ghost predicate AcceptedBody(v: Value, r: Reader, r': Reader, t: Type, depth: nat) {
    && WellTyped(v) && TypeOf(v) == t && !r'.failed
    && r'.values + 1 == r.values + Nodes(v) && r'.values <= VALUE_LIMIT
    && depth + Height(v) <= DEPTH_LIMIT
  }

  lemma {:induction false} ReadBodySound(r: Reader, fds: Table, dbl: Doubles, t: Type, depth: nat)
    requires Sized(fds) && r.at <= |r.data| && !r.failed && r.values <= VALUE_LIMIT
    requires Expectable(t) && depth <= DEPTH_LIMIT
    ensures var (v, r') := ReadBody(r, fds, dbl, t, depth);
            Advanced(r, r') && (v.Some? ==> AcceptedBody(v.value, r, r', t, depth))
    decreases DEPTH_LIMIT + 1 - depth, 2
  {
    match t
    case Basic(c) =>
      ReadTextSound(r);
      var (text, r1) := ReadText(r);
      if text.Some? {
        ScanScalarSound(c, text.value, fds, dbl);
      }
    case Variant =>
      ReadTextSound(r);
      var (text, r1) := ReadText(r);
      if text.Some? && Single(text.value).Some? {
        SingleCharacterised(text.value, Single(text.value).value);
        ReadContainerSound(r1, fds, dbl, t, Repeat(Single(text.value).value), depth);
      }
    case _ =>
      KidsExpectable(t);
      ReadContainerSound(r, fds, dbl, t, KidsOf(t), depth);
  }

  lemma {:induction false} ReadContainerSound(r: Reader, fds: Table, dbl: Doubles, t: Type, kids: Kids, depth: nat)
    requires Sized(fds) && r.at <= |r.data| && !r.failed && r.values <= VALUE_LIMIT
    requires Expectable(t) && depth <= DEPTH_LIMIT && ExpectableKids(kids)
    requires if t.Variant? then kids.Repeat? && Complete(kids.elem) else !t.Basic? && kids == KidsOf(t)
    ensures var (v, r') := ReadContainer(r, fds, dbl, t, kids, depth);
            Advanced(r, r') && (v.Some? ==> AcceptedBody(v.value, r, r', t, depth))
    decreases DEPTH_LIMIT + 1 - depth, 1
  {
    hide WellTyped, ReadItems, Expectable;
    var (count, r1) := ReadU32(r);
    if !r1.failed && count <= VALUE_LIMIT && (t.Variant? ==> count == 1) {
      ReadItemsSound(r1, fds, dbl, kids, count, depth + 1);
      var (items, r2) := ReadItems(r1, fds, dbl, kids, count, depth + 1);
      if items.Some? {
        BuildSound(t, kids, items.value);
        var v := Build(t, items.value).value;
        NodesOfChildren(v);
      }
    }
  }

  lemma BuildSound(t: Type, kids: Kids, items: seq<Value>)
    requires Expectable(t) && ExpectableKids(kids) && (t.Variant? ==> |items| == 1)
    requires if t.Variant? then kids.Repeat? && Complete(kids.elem) else !t.Basic? && kids == KidsOf(t)
    requires forall i :: 0 <= i < |items| ==> WellTyped(items[i])
    requires if kids.Repeat? then forall i :: 0 <= i < |items| ==> TypeOf(items[i]) == kids.elem
             else TypesOf(items) == kids.types
    ensures var v := Build(t, items);
            v.Some? && WellTyped(v.value) && TypeOf(v.value) == t && Children(v.value) == items
  {
    forall i | 0 <= i < |items|
      ensures TypeOf(items[i]).DictEntry? <==> items[i].Entry?
    {
      WellTypedShape(items[i]);
    }
  }

  lemma AcceptedCons(v: Value, vs: seq<Value>, r: Reader, r1: Reader, r2: Reader, kids: Kids, count: nat, depth: nat)
    requires count > 0 && (kids.Repeat? || kids.types != [])
    requires Accepted(v, r, r1, Some(First(kids)), depth)
    requires AcceptedAll(vs, r1, r2, Rest(kids), count - 1, depth)
    ensures AcceptedAll([v] + vs, r, r2, kids, count, depth)
  {
    var all := [v] + vs;
    assert all[1..] == vs;
    if kids.Fields? {
      assert [kids.types[0]] + kids.types[1..] == kids.types;
    }
  }

  lemma {:induction false} ReadItemsSound(r: Reader, fds: Table, dbl: Doubles, kids: Kids, count: nat, depth: nat)
    requires Sized(fds) && r.at <= |r.data| && !r.failed && r.values <= VALUE_LIMIT
    requires ExpectableKids(kids) && depth <= DEPTH_LIMIT + 1
    ensures var (vs, r') := ReadItems(r, fds, dbl, kids, count, depth);
            Advanced(r, r') && (vs.Some? ==> AcceptedAll(vs.value, r, r', kids, count, depth))
    decreases DEPTH_LIMIT + 1 - depth, 4, count
  {
    hide WellTyped, ReadValue, Expectable, Height, TypeOf;
    if count > 0 && (kids.Repeat? || kids.types != []) {
      ReadValueSound(r, fds, dbl, Some(First(kids)), depth);
      var (v, r1) := ReadValue(r, fds, dbl, Some(First(kids)), depth);
      var whole := ReadItems(r, fds, dbl, kids, count, depth);
      if v.Some? {
        ReadItemsSound(r1, fds, dbl, Rest(kids), count - 1, depth);
        var (vs, r2) := ReadItems(r1, fds, dbl, Rest(kids), count - 1, depth);
        assert whole.1 == r2;
        if vs.Some? {
          AcceptedCons(v.value, vs.value, r, r1, r2, kids, count, depth);
        }
      } else {
        assert whole == (None, r1);
      }
    }
  }

  lemma {:induction false} ReadListSound(r: Reader, fds: Table, dbl: Doubles, count: nat)
    requires Sized(fds) && r.at <= |r.data|
    ensures var (vs, r') := ReadList(r, fds, dbl, count);
            && Advanced(r, r')
            && (vs.Some? ==> |vs.value| == count && IsMessage(vs.value) && !r'.failed
                             && HeightAll(vs.value) <= DEPTH_LIMIT
                             && r'.values == r.values + NodesAll(vs.value) && (count > 0 ==> r'.values <= VALUE_LIMIT))
    decreases count
  {
    hide WellTyped, ReadValue, TypeOf, Height, WithinLimits;
    if count > 0 {
      ReadValueSound(r, fds, dbl, None, 0);
      var (v, r1) := ReadValue(r, fds, dbl, None, 0);
      if v.Some? {
        WellTypedShape(v.value);
        ReadListSound(r1, fds, dbl, count - 1);
        var vs := ReadList(r1, fds, dbl, count - 1).0;
        assert vs.Some? ==> ([v.value] + vs.value)[1..] == vs.value;
      }
    }
  }

  /** Whatever the bytes, the reader stays inside the frame, and an accepted frame yields a message: well-typed
      complete arguments, at most 32 levels deep and 16384 values in all. */
  lemma ReadValuesSound(r: Reader, fds: Table, dbl: Doubles)
    requires Sized(fds) && r.at <= |r.data|
    ensures var (vs, r') := ReadValues(r, fds, dbl);
            && Advanced(r, r')
            && (vs.Some? ==> IsMessage(vs.value) && HeightAll(vs.value) <= DEPTH_LIMIT && !r'.failed
                             && r'.values == r.values + NodesAll(vs.value)
                             && (vs.value != [] ==> r'.values <= VALUE_LIMIT))
  {
    hide ReadList, IsMessage, HeightAll, NodesAll;
    var (count, r1) := ReadU32(r);
    ReadListSound(r1, fds, dbl, count);
  }
}

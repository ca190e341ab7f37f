/** Reading undoes writing: every message the writer accepts is rebuilt identically from its bytes. */
module BusRoundTrip {
  import opened Common
  import opened Decimal
  import opened DBusTypes
  import opened DBusValues
  import opened BusDescriptors
  import opened BusCodec

  predicate Ascii(s: Bytes) { forall i :: 0 <= i < |s| ==> 0 < s[i] < 0x80 }

  // ----- the doubles of a message -----

  function Reals(v: Value): set<nat>
    decreases Nodes(v), 0
  {
    NodesOfChildren(v);
    if v.Real? && v.d.Finite? then {v.d.id} else RealsAll(Children(v))
  }

  function RealsAll(vs: seq<Value>): set<nat>
    decreases NodesAll(vs), 1
  {
    if vs == [] then {} else Reals(vs[0]) + RealsAll(vs[1..])
  }

  /** A text that the wire carries and `append_scalar` hands to its number scanner. */
  predicate Offered(s: Bytes) { Carries(s) && s != [] && s[0] !in [32, 9, 43] }

  /** The printed text of each of these doubles is scanned back as that double. */
  ghost predicate Returns(ids: set<nat>, dbl: Doubles) {
    forall id :: id in ids ==> Offered(dbl.format(id)) && dbl.scan(dbl.format(id)) == Some(id)
  }

  /** Each of them is scanned back as itself or not at all. */
  ghost predicate Honest(ids: set<nat>, dbl: Doubles) {
    forall id :: id in ids ==> dbl.scan(dbl.format(id)) == Some(id) || dbl.scan(dbl.format(id)) == None
  }

  /** What was read for `v`: itself, with the reader at `after`, exactly when its doubles return. A double that is
      refused refuses the whole. */
  ghost predicate Outcome<T>(got: (Option<T>, Reader), v: T, after: Reader, ids: set<nat>, dbl: Doubles) {
    if Returns(ids, dbl) then got == (Some(v), after) else got.0 != Some(v) && (Honest(ids, dbl) ==> got.0 == None)
  }

  // ----- what writing keeps -----

  /** `w'` continues `w`: nothing written is taken back, and descriptors are only added. */
  ghost predicate Continues(w: Writer, w': Writer) {
    && w.bytes <= w'.bytes && (w.failed ==> w'.failed) && w.values <= w'.values
    && Valid(w'.fds) && Grew(w.fds, w'.fds)
  }

  lemma ContinuesTransitive(w: Writer, w1: Writer, w2: Writer)
    requires Continues(w, w1) && Continues(w1, w2)
    ensures Continues(w, w2)
  {
    GrewTransitive(w.fds, w1.fds, w2.fds);
  }

  lemma PutContinues(w: Writer, p: Bytes)
    requires Valid(w.fds)
    ensures Continues(w, Put(w, p))
  {}

  lemma PutTextContinues(w: Writer, text: Bytes)
    requires Valid(w.fds)
    ensures Continues(w, PutText(w, text))
  {
    if |text| <= FRAME_LIMIT {
      var w1 := PutU32(w, |text|);
      PutContinues(w, EncodeU32(|text| % 0x1_0000_0000));
      PutContinues(w1, text);
      ContinuesTransitive(w, w1, Put(w1, text));
    }
  }

  lemma WriteScalarKeeps(w: Writer, v: Value, dbl: Doubles)
    requires Valid(w.fds)
    ensures var (ok, w') := WriteScalar(w, v, dbl); Continues(w, w') && (ok ==> !w'.failed)
  {
    if v.Handle? {
      var (id, fds) := Insert(w.fds, v.fd);
      var w1 := w.(fds := fds);
      assert Continues(w, w1) by { InsertKeeps(w.fds, v.fd); }
      if id.Some? {
        PutTextContinues(w1, BusDescriptors.Handle(id.value));
        ContinuesTransitive(w, w1, WriteScalar(w, v, dbl).1);
      }
    } else if ScalarText(v, dbl).Some? {
      PutTextContinues(w, ScalarText(v, dbl).value);
    }
  }

  lemma WriteContainerKeeps(w: Writer, v: Value)
    requires Valid(w.fds)
    ensures Continues(w, WriteContainer(w, v))
  {
    if v.VariantOf? {
      var w1 := PutText(w, Print(TypeOf(v.child)));
      PutTextContinues(w, Print(TypeOf(v.child)));
      PutContinues(w1, EncodeU32(|Children(v)| % 0x1_0000_0000));
      ContinuesTransitive(w, w1, WriteContainer(w, v));
    } else {
      PutContinues(w, EncodeU32(|Children(v)| % 0x1_0000_0000));
    }
  }

  lemma {:induction false} WriteValueKeeps(w: Writer, v: Value, depth: nat, dbl: Doubles)
    requires Valid(w.fds)
    ensures var (ok, w') := WriteValue(w, v, depth, dbl); Continues(w, w') && (ok ==> !w'.failed)
    decreases Nodes(v), 1
  {
    hide Valid, Grew, PutText, WriteBody, Print;
    GrewReflexive(w.fds);
    if depth <= DEPTH_LIMIT && w.values + 1 <= VALUE_LIMIT {
      var w0 := w.(values := w.values + 1);
      var w1 := PutText(w0, Print(TypeOf(v)));
      PutTextContinues(w0, Print(TypeOf(v)));
      WriteBodyKeeps(w1, v, depth, dbl);
      ContinuesTransitive(w0, w1, WriteBody(w1, v, depth, dbl).1);
    }
  }

  lemma {:induction false} WriteBodyKeeps(w: Writer, v: Value, depth: nat, dbl: Doubles)
    requires Valid(w.fds)
    ensures var (ok, w') := WriteBody(w, v, depth, dbl); Continues(w, w') && (ok ==> !w'.failed)
    decreases Nodes(v), 0
  {
    hide Valid, Grew, WriteAll, WriteScalar, WriteContainer;
    if IsContainer(v) {
      var w1 := WriteContainer(w, v);
      WriteContainerKeeps(w, v);
      NodesOfChildren(v);
      WriteAllKeeps(w1, Children(v), depth + 1, dbl);
      ContinuesTransitive(w, w1, WriteAll(w1, Children(v), depth + 1, dbl).1);
    } else {
      WriteScalarKeeps(w, v, dbl);
    }
  }

  lemma {:induction false} WriteAllKeeps(w: Writer, vs: seq<Value>, depth: nat, dbl: Doubles)
    requires Valid(w.fds)
    ensures var (ok, w') := WriteAll(w, vs, depth, dbl); Continues(w, w') && (ok ==> !w'.failed)
    decreases NodesAll(vs), 2
  {
    if vs != [] {
      hide Valid, Grew, WriteValue;
      WriteValueKeeps(w, vs[0], depth, dbl);
      var (ok, w1) := WriteValue(w, vs[0], depth, dbl);
      if ok {
        WriteAllKeeps(w1, vs[1..], depth, dbl);
        ContinuesTransitive(w, w1, WriteAll(w1, vs[1..], depth, dbl).1);
      }
    }
  }

  lemma WriteValuesKeeps(w: Writer, vs: seq<Value>, dbl: Doubles)
    requires Valid(w.fds)
    ensures var (ok, w') := WriteValues(w, vs, dbl); Continues(w, w') && (ok ==> !w'.failed)
  {
    var w1 := PutU32(w, |vs|);
    PutContinues(w, EncodeU32(|vs| % 0x1_0000_0000));
    WriteAllKeeps(w1, vs, 0, dbl);
    ContinuesTransitive(w, w1, WriteAll(w1, vs, 0, dbl).1);
  }

  // ----- words and texts -----

  /** The reader standing in `data` where the writer stood. */
  function Reading(w: Writer, data: Bytes): Reader { Reader(data, |w.bytes|, w.values, false) }

  lemma U32Back(w: Writer, v: nat, data: Bytes)
    requires var w' := PutU32(w, v); !w'.failed && w'.bytes <= data
    ensures ReadU32(Reading(w, data)) == (v % 0x1_0000_0000, Reading(PutU32(w, v), data))
  {
    var p := EncodeU32(v % 0x1_0000_0000);
    var w' := PutU32(w, v);
    assert data[|w.bytes|..|w.bytes| + 4] == w'.bytes[|w.bytes|..] == p;
    U32RoundTrip(v % 0x1_0000_0000, p);
  }

  lemma TextBack(w: Writer, text: Bytes, data: Bytes)
    requires var w' := PutText(w, text); !w'.failed && w'.bytes <= data
    ensures Carries(text) ==> ReadText(Reading(w, data)) == (Some(text), Reading(PutText(w, text), data))
    ensures !Carries(text) ==> ReadText(Reading(w, data)).0 == None
  {
    hide Carries, EncodeU32;
    var w1 := PutU32(w, |text|);
    var w2 := PutText(w, text);
    assert w1.bytes <= w2.bytes;
    U32Back(w, |text|, data);
    assert data[|w1.bytes|..|w1.bytes| + |text|] == w2.bytes[|w1.bytes|..] == text;
  }

  lemma {:induction false} PrintAscii(t: Type)
    ensures Ascii(Print(t))
    decreases t, 0
  {
    match t
    case Array(e) => PrintAscii(e);
    case Struct(fs) => PrintAllAscii(fs);
    case DictEntry(_, v) => PrintAscii(v);
    case _ =>
  }

  lemma {:induction false} PrintAllAscii(ts: seq<Type>)
    ensures Ascii(PrintAll(ts))
  {
    if ts != [] {
      PrintAscii(ts[0]);
      PrintAllAscii(ts[1..]);
    }
  }

  lemma PrintCarries(t: Type)
    ensures Carries(Print(t))
  {
    PrintAscii(t);
    AsciiCarries(Print(t));
  }

  lemma DecimalAscii(n: int)
    ensures Ascii(PrintInt(n)) && PrintInt(n) != [] && PrintInt(n)[0] !in [32, 9, 43]
    ensures n >= 0 ==> PrintInt(n)[0] != 45
  {
    var m := if n < 0 then -n else n;
    var s := PrintNat(m);
    assert forall i :: 0 <= i < |s| ==> IsDigit(s[i]);
    assert IsDigit(s[0]);
  }

  // ----- one step of the reader -----

  lemma ReadScalarStep(r: Reader, fds: Table, dbl: Doubles, c: Code, depth: nat)
    requires Sized(fds) && depth <= DEPTH_LIMIT
    ensures var (s, r1) := ReadText(r);
            ReadBody(r, fds, dbl, Basic(c), depth) == (if s.None? then None else ScanScalar(c, s.value, fds, dbl), r1)
  {
    hide ReadText, ScanScalar;
  }

  lemma ReadVariantStep(r: Reader, fds: Table, dbl: Doubles, depth: nat, s: Bytes, r1: Reader, t: Type)
    requires Sized(fds) && depth <= DEPTH_LIMIT
    requires ReadText(r) == (Some(s), r1) && Single(s) == Some(t)
    ensures ReadBody(r, fds, dbl, Variant, depth) == ReadContainer(r1, fds, dbl, Variant, Repeat(t), depth)
  {}

  lemma ReadValueStep(
    r: Reader, fds: Table, dbl: Doubles, expected: Option<Type>, depth: nat, sig: Bytes, r1: Reader, t: Type)
    requires Sized(fds) && depth <= DEPTH_LIMIT && r.values < VALUE_LIMIT
    requires ReadText(r.(values := r.values + 1)) == (Some(sig), r1) && Declared(sig, expected) == Some(t)
    ensures ReadValue(r, fds, dbl, expected, depth) == ReadBody(r1, fds, dbl, t, depth)
  {
    hide ReadBody, Declared, ReadText;
  }

  lemma ReadContainerStep(r: Reader, fds: Table, dbl: Doubles, t: Type, kids: Kids, depth: nat, count: nat, r1: Reader)
    requires Sized(fds) && depth <= DEPTH_LIMIT
    requires ReadU32(r) == (count, r1) && !r1.failed && count <= VALUE_LIMIT && (t.Variant? ==> count == 1)
    ensures var (items, r2) := ReadItems(r1, fds, dbl, kids, count, depth + 1);
            ReadContainer(r, fds, dbl, t, kids, depth) == (if items.None? then None else Build(t, items.value), r2)
  {
    hide ReadU32, ReadItems, Build;
  }

  lemma ReadItemsStep(r: Reader, fds: Table, dbl: Doubles, kids: Kids, count: nat, depth: nat)
    requires Sized(fds) && depth <= DEPTH_LIMIT + 1 && (kids.Repeat? || kids.types != [])
    ensures var (v, r1) := ReadValue(r, fds, dbl, Some(First(kids)), depth);
            ReadItems(r, fds, dbl, kids, 1 + count, depth)
            == Consed(v, r1, ReadItems(r1, fds, dbl, Rest(kids), count, depth))
  {
    hide ReadValue, First, Rest;
  }

  /** One value read in front of the others. */
  ghost function Consed(v: Option<Value>, r1: Reader, more: (Option<seq<Value>>, Reader))
    : (Option<seq<Value>>, Reader)
  {
    if v.None? then (None, r1) else (if more.0.None? then None else Some([v.value] + more.0.value), more.1)
  }

  /** Outcomes of a first value and of the rest make the outcome of the list. */
  lemma OutcomeCons(
    got: (Option<Value>, Reader), more: (Option<seq<Value>>, Reader), v: Value, vs: seq<Value>, r1: Reader, r2: Reader,
    ids: set<nat>, rest: set<nat>, dbl: Doubles)
    requires Outcome(got, v, r1, ids, dbl) && (got == (Some(v), r1) ==> Outcome(more, vs, r2, rest, dbl))
    ensures Outcome(Consed(got.0, got.1, more), [v] + vs, r2, ids + rest, dbl)
  {
    var all := Consed(got.0, got.1, more);
    if all.0.Some? {
      assert all.0.value[0] == got.0.value && all.0.value[1..] == more.0.value;
      assert ([v] + vs)[0] == v && ([v] + vs)[1..] == vs;
    }
    assert Returns(ids + rest, dbl) <==> Returns(ids, dbl) && Returns(rest, dbl);
  }

  lemma ReadNoItems(r: Reader, fds: Table, dbl: Doubles, kids: Kids, depth: nat)
    requires Sized(fds) && depth <= DEPTH_LIMIT + 1 && (kids.Repeat? || kids.types == [])
    ensures ReadItems(r, fds, dbl, kids, 0, depth) == (Some([]), r)
  {}

  // ----- scalars -----

  lemma ScalarBack(v: Value, fds: Table, dbl: Doubles)
    requires Sized(fds) && WellTyped(v) && ScalarText(v, dbl).Some? && !v.Real?
    ensures var s := ScalarText(v, dbl).value;
            Carries(s) && ScanScalar(TypeOf(v).code, s, fds, dbl) == Some(v)
  {
    hide PrintInt, Carries;
    var s := ScalarText(v, dbl).value;
    match v
    case Number(c, n) =>
      hide ScanNumber;
      NumberBack(c, n, dbl);
      DecimalAscii(n);
      AsciiCarries(s);
      assert ScanScalar(c, s, fds, dbl) == ScanNumber(c, s, dbl);
    case Bool(_) => AsciiCarries(s);
    case Text(_, _) =>
  }

  /** A double comes back exactly when its text is carried, offered to the scanner and scanned as it. */
  lemma RealBack(id: nat, fds: Table, dbl: Doubles)
    requires Sized(fds)
    ensures var s := dbl.format(id);
            var got := if Carries(s) then ScanScalar(DOUBLE, s, fds, dbl) else None;
            && (Returns({id}, dbl) <==> got == Some(Real(Finite(id))))
            && (Honest({id}, dbl) && !Returns({id}, dbl) ==> got == None)
  {
    hide Carries;
  }

  lemma NumberBack(c: Code, n: int, dbl: Doubles)
    requires InRange(c, n)
    ensures PrintInt(n) != [] && ScanNumber(c, PrintInt(n), dbl) == Some(Number(c, n))
  {
    hide PrintInt, ScanSigned, ScanUnsigned;
    DecimalAscii(n);
    PrintScan(n);
  }

  /** A scalar written is read back, in any later table that kept its descriptor, exactly if it is no double that its
      text does not bring back. */
  lemma WriteScalarBack(w: Writer, v: Value, dbl: Doubles, data: Bytes, fds: Table, depth: nat)
    requires Valid(w.fds) && WellTyped(v) && !IsContainer(v) && depth <= DEPTH_LIMIT
    requires var (ok, w') := WriteScalar(w, v, dbl); ok && w'.bytes <= data && Grew(w'.fds, fds) && Valid(fds)
    ensures Outcome(ReadBody(Reading(w, data), fds, dbl, TypeOf(v), depth), v, Reading(WriteScalar(w, v, dbl).1, data),
                    Reals(v), dbl)
  {
    hide Valid, Grew, WellTyped, ReadText, ReadBody, PutText, Insert, ScanScalar, Carries, Returns, Honest;
    ReadScalarStep(Reading(w, data), fds, dbl, TypeOf(v).code, depth);
    LeafReals(v);
    if v.Handle? {
      var text := BusDescriptors.Handle(Insert(w.fds, v.fd).0.value);
      HandleScanned(w.fds, v.fd, fds, dbl);
      TextBack(w.(fds := Insert(w.fds, v.fd).1), text, data);
    } else if v.Real? {
      TextBack(w, dbl.format(v.d.id), data);
      RealBack(v.d.id, fds, dbl);
    } else {
      hide ScalarText;
      TextBack(w, ScalarText(v, dbl).value, data);
      ScalarBack(v, fds, dbl);
    }
    NoReals(dbl);
  }

  lemma LeafReals(v: Value)
    requires !IsContainer(v)
    ensures Reals(v) == if v.Real? && v.d.Finite? then {v.d.id} else {}
  {
    assert Children(v) == [];
  }

  lemma NoReals(dbl: Doubles)
    ensures Returns({}, dbl)
  {
  }

  lemma HandleScanned(f: Table, x: int, fds: Table, dbl: Doubles)
    requires Valid(f) && Insert(f, x).0.Some? && Grew(Insert(f, x).1, fds) && Valid(fds)
    ensures var text := BusDescriptors.Handle(Insert(f, x).0.value);
            Carries(text) && ScanScalar(UNIX_FD, text, fds, dbl) == Some(Value.Handle(x))
  {
    hide Valid, Grew, Insert, Carries;
    IssuedResolves(f, x, fds);
    HandleCarries(Insert(f, x).0.value);
  }

  lemma IssuedResolves(f: Table, x: int, fds: Table)
    requires Valid(f) && Insert(f, x).0.Some? && Grew(Insert(f, x).1, fds) && Valid(fds)
    ensures var slot := HandleSlot(fds, BusDescriptors.Handle(Insert(f, x).0.value));
            slot.Some? && fds.fd[slot.value] == x
  {
    InsertKeeps(f, x);
    var (id, g) := Insert(f, x);
    var i :| Live(g, i) && g.serial[i] == id.value && g.fd[i] == x;
    assert Live(fds, i);
    HandleResolves(fds, i);
  }

  lemma HandleCarries(id: nat)
    ensures Carries(BusDescriptors.Handle(id))
  {
    DecimalAscii(id);
    AsciiCarries(BusDescriptors.Handle(id));
  }

  // ----- trees -----

  predicate KidsMatch(kids: Kids, vs: seq<Value>) {
    match kids
    case Repeat(e) => forall i :: 0 <= i < |vs| ==> TypeOf(vs[i]) == e
    case Fields(ts) => ts == TypesOf(vs)
  }

  /** `fds` still holds what the writer ended with. */
  ghost predicate Retains(w: Writer, data: Bytes, fds: Table) {
    !w.failed && w.bytes <= data && Valid(fds) && Grew(w.fds, fds)
  }

  lemma GrewReflexive(f: Table)
    requires Sized(f)
    ensures Grew(f, f)
  {}

  lemma RetainsEarlier(w: Writer, w': Writer, data: Bytes, fds: Table)
    requires Continues(w, w') && Retains(w', data, fds)
    ensures Retains(w, data, fds)
  {
    GrewTransitive(w.fds, w'.fds, fds);
  }

  lemma {:induction false} ValueBack(
    w: Writer, v: Value, depth: nat, dbl: Doubles, data: Bytes, fds: Table, expected: Option<Type>)
    requires Valid(w.fds) && WellTyped(v) && WithinLimits(TypeOf(v))
    requires if expected.Some? then expected.value == TypeOf(v) else !v.Entry?
    requires var (ok, w') := WriteValue(w, v, depth, dbl); ok && Retains(w', data, fds)
    ensures Outcome(ReadValue(Reading(w, data), fds, dbl, expected, depth), v,
                    Reading(WriteValue(w, v, depth, dbl).1, data), Reals(v), dbl)
    decreases Nodes(v), 1
  {
    hide Valid, Grew, WellTyped, WithinLimits, ReadText, ReadBody, ReadValue, WriteBody, Declared, Print, PutText;
    hide TypeOf, Outcome, Reals;
    var w0 := w.(values := w.values + 1);
    var w1 := PutText(w0, Print(TypeOf(v)));
    var w' := WriteBody(w1, v, depth, dbl).1;
    WriteBodyKeeps(w1, v, depth, dbl);
    RetainsEarlier(w1, w', data, fds);
    PrintCarries(TypeOf(v));
    TextBack(w0, Print(TypeOf(v)), data);
    DeclaredBack(v, expected);
    ReadValueStep(Reading(w, data), fds, dbl, expected, depth, Print(TypeOf(v)), Reading(w1, data), TypeOf(v));
    BodyBack(w1, v, depth, dbl, data, fds);
  }

  lemma DeclaredBack(v: Value, expected: Option<Type>)
    requires WellTyped(v) && WithinLimits(TypeOf(v))
    requires if expected.Some? then expected.value == TypeOf(v) else !v.Entry?
    ensures Declared(Print(TypeOf(v)), expected) == Some(TypeOf(v))
  {
    WellTypedShape(v);
    SingleCharacterised(Print(TypeOf(v)), TypeOf(v));
  }

  lemma {:induction false} BodyBack(w: Writer, v: Value, depth: nat, dbl: Doubles, data: Bytes, fds: Table)
    requires Valid(w.fds) && WellTyped(v) && WithinLimits(TypeOf(v)) && depth <= DEPTH_LIMIT
    requires var (ok, w') := WriteBody(w, v, depth, dbl); ok && Retains(w', data, fds)
    ensures Outcome(ReadBody(Reading(w, data), fds, dbl, TypeOf(v), depth), v,
                    Reading(WriteBody(w, v, depth, dbl).1, data), Reals(v), dbl)
    decreases Nodes(v), 0
  {
    hide Outcome, Reals, Valid, Grew, WithinLimits, WellTyped, ReadText, ReadContainer, WriteAll, WriteScalar;
    hide PutText, PutU32, Print;
    if !IsContainer(v) {
      WriteScalarKeeps(w, v, dbl);
      WriteScalarBack(w, v, dbl, data, fds, depth);
    } else if v.VariantOf? {
      VariantBack(w, v, depth, dbl, data, fds);
    } else {
      KidsMatchChildren(v);
      ContainerBack(w, v, KidsOf(TypeOf(v)), depth, dbl, data, fds);
    }
  }

  lemma {:induction false} VariantBack(w: Writer, v: Value, depth: nat, dbl: Doubles, data: Bytes, fds: Table)
    requires Valid(w.fds) && v.VariantOf? && WellTyped(v) && WithinLimits(TypeOf(v)) && depth <= DEPTH_LIMIT
    requires var (ok, w') := WriteBody(w, v, depth, dbl); ok && Retains(w', data, fds)
    ensures Outcome(ReadBody(Reading(w, data), fds, dbl, Variant, depth), v,
                    Reading(WriteBody(w, v, depth, dbl).1, data), Reals(v), dbl)
    decreases Nodes(v), 0, 1
  {
    hide Outcome, Reals, Valid, Grew, WithinLimits, ReadText, ReadBody, ReadContainer, WriteAll, PutText, PutU32, Print;
    var text := Print(TypeOf(v.child));
    var w1 := PutText(w, text);
    var w2 := PutU32(w1, |Children(v)|);
    var w' := WriteBody(w, v, depth, dbl).1;
    ContainerBack(w1, v, Repeat(TypeOf(v.child)), depth, dbl, data, fds);
    WellTypedShape(v.child);
    SingleCharacterised(text, TypeOf(v.child));
    PrintCarries(TypeOf(v.child));
    WriteAllKeeps(w2, Children(v), depth + 1, dbl);
    RetainsEarlier(w2, w', data, fds);
    NotFailedEarlier(w1, |Children(v)|, data, fds);
    TextBack(w, text, data);
    ReadVariantStep(Reading(w, data), fds, dbl, depth, text, Reading(w1, data), TypeOf(v.child));
  }

  lemma NotFailedEarlier(w: Writer, count: nat, data: Bytes, fds: Table)
    requires Retains(PutU32(w, count), data, fds)
    ensures !w.failed && w.bytes <= data
  {
    hide EncodeU32;
  }

  lemma KidsMatchChildren(v: Value)
    requires WellTyped(v) && IsContainer(v) && !v.VariantOf?
    ensures !TypeOf(v).Variant? && !TypeOf(v).Basic? && KidsMatch(KidsOf(TypeOf(v)), Children(v))
  {
    if v.Entry? {
      assert [TypeOf(v.fields[0]), TypeOf(v.fields[1])] == TypesOf(v.fields);
    }
  }

  lemma {:induction false} ContainerBack(
    w: Writer, v: Value, kids: Kids, depth: nat, dbl: Doubles, data: Bytes, fds: Table)
    requires Valid(w.fds) && WellTyped(v) && IsContainer(v) && WithinLimits(TypeOf(v))
    requires if v.VariantOf? then kids == Repeat(TypeOf(v.child))
             else !TypeOf(v).Variant? && !TypeOf(v).Basic? && kids == KidsOf(TypeOf(v)) && KidsMatch(kids, Children(v))
    requires depth <= DEPTH_LIMIT
    requires var (ok, w') := WriteAll(PutU32(w, |Children(v)|), Children(v), depth + 1, dbl);
             ok && Retains(w', data, fds)
    ensures Outcome(ReadContainer(Reading(w, data), fds, dbl, TypeOf(v), kids, depth), v,
                    Reading(WriteAll(PutU32(w, |Children(v)|), Children(v), depth + 1, dbl).1, data), Reals(v), dbl)
    decreases Nodes(v), 0, 0
  {
    hide Valid, Grew, WellTyped, WithinLimits, ReadU32, ReadItems, ReadContainer, WriteAll, PutU32, Outcome, Reals;
    var vs := Children(v);
    var w1 := PutU32(w, |vs|);
    var w' := WriteAll(w1, vs, depth + 1, dbl).1;
    WriteAllKeeps(w1, vs, depth + 1, dbl);
    RetainsEarlier(w1, w', data, fds);
    CountBounded(w1, vs, depth + 1, dbl);
    U32Back(w, |vs|, data);
    ChildrenWithinLimits(v);
    NodesOfChildren(v);
    AllBack(w1, vs, kids, depth + 1, dbl, data, fds);
    ReadContainerStep(Reading(w, data), fds, dbl, TypeOf(v), kids, depth, |vs|, Reading(w1, data));
    BuiltOutcome(v, ReadItems(Reading(w1, data), fds, dbl, kids, |vs|, depth + 1), Reading(w', data), dbl);
  }

  /** A container is rebuilt from its children and from no others. */
  lemma BuiltOutcome(v: Value, items: (Option<seq<Value>>, Reader), after: Reader, dbl: Doubles)
    requires IsContainer(v) && WellTyped(v) && Outcome(items, Children(v), after, RealsAll(Children(v)), dbl)
    ensures Outcome((if items.0.None? then None else Build(TypeOf(v), items.0.value), items.1), v, after, Reals(v), dbl)
  {
    hide Returns, Honest, RealsAll;
    if items.0.Some? && Build(TypeOf(v), items.0.value) == Some(v) {
      assert Children(v) == items.0.value;
    }
    assert Build(TypeOf(v), Children(v)) == Some(v);
  }

  lemma ChildrenWithinLimits(v: Value)
    requires WellTyped(v) && IsContainer(v) && WithinLimits(TypeOf(v))
    ensures forall i :: 0 <= i < |Children(v)| ==> WellTyped(Children(v)[i]) && WithinLimits(TypeOf(Children(v)[i]))
  {
    hide WithinLimits;
    if !v.VariantOf? {
      var cs := Children(v);
      forall i | 0 <= i < |cs|
        ensures WithinLimits(TypeOf(cs[i]))
      {
        assert Component(TypeOf(cs[i]), TypeOf(v)) by {
          if v.StructOf? { assert TypesOf(cs)[i] == TypeOf(cs[i]); }
        }
        ComponentWithinLimits(TypeOf(cs[i]), TypeOf(v));
      }
    }
  }

  /** The value limit bounds the children of every container that was written. */
  lemma {:induction false} CountBounded(w: Writer, vs: seq<Value>, depth: nat, dbl: Doubles)
    requires Valid(w.fds) && WriteAll(w, vs, depth, dbl).0
    ensures vs != [] ==> |vs| + w.values <= VALUE_LIMIT
    decreases |vs|
  {
    if vs != [] {
      var w1 := WriteValue(w, vs[0], depth, dbl).1;
      CountsOne(w, vs[0], depth, dbl);
      WriteValueKeeps(w, vs[0], depth, dbl);
      CountBounded(w1, vs[1..], depth, dbl);
    }
  }

  lemma CountsOne(w: Writer, v: Value, depth: nat, dbl: Doubles)
    requires Valid(w.fds) && WriteValue(w, v, depth, dbl).0
    ensures w.values < WriteValue(w, v, depth, dbl).1.values && w.values < VALUE_LIMIT
  {
    var w1 := PutText(w.(values := w.values + 1), Print(TypeOf(v)));
    WriteBodyKeeps(w1, v, depth, dbl);
  }

  lemma {:induction false} AllBack(
    w: Writer, vs: seq<Value>, kids: Kids, depth: nat, dbl: Doubles, data: Bytes, fds: Table)
    requires Valid(w.fds) && depth <= DEPTH_LIMIT + 1
    requires forall i :: 0 <= i < |vs| ==> WellTyped(vs[i]) && WithinLimits(TypeOf(vs[i]))
    requires KidsMatch(kids, vs)
    requires var (ok, w') := WriteAll(w, vs, depth, dbl); ok && Retains(w', data, fds)
    ensures Outcome(ReadItems(Reading(w, data), fds, dbl, kids, |vs|, depth), vs,
                    Reading(WriteAll(w, vs, depth, dbl).1, data), RealsAll(vs), dbl)
    decreases NodesAll(vs), 2
  {
    hide Valid, Grew, WriteValue, ReadValue, ReadItems, WithinLimits, WellTyped, KidsMatch, Returns, Honest, Reals;
    KidsSplit(kids, vs);
    if vs == [] {
      assert WriteAll(w, vs, depth, dbl) == (!w.failed, w);
      ReadNoItems(Reading(w, data), fds, dbl, kids, depth);
      NoReals(dbl);
    } else {
      var w1 := WriteValue(w, vs[0], depth, dbl).1;
      var w' := WriteAll(w1, vs[1..], depth, dbl).1;
      WriteValueKeeps(w, vs[0], depth, dbl);
      WriteAllKeeps(w1, vs[1..], depth, dbl);
      RetainsEarlier(w1, w', data, fds);
      ValueBack(w, vs[0], depth, dbl, data, fds, Some(First(kids)));
      AllBack(w1, vs[1..], Rest(kids), depth, dbl, data, fds);
      ReadItemsStep(Reading(w, data), fds, dbl, kids, |vs| - 1, depth);
      var got := ReadValue(Reading(w, data), fds, dbl, Some(First(kids)), depth);
      OutcomeCons(got, ReadItems(got.1, fds, dbl, Rest(kids), |vs| - 1, depth), vs[0], vs[1..], Reading(w1, data),
                  Reading(w', data), Reals(vs[0]), RealsAll(vs[1..]), dbl);
      assert [vs[0]] + vs[1..] == vs;
    }
  }

  lemma KidsSplit(kids: Kids, vs: seq<Value>)
    requires KidsMatch(kids, vs)
    ensures vs == [] ==> kids.Repeat? || kids.types == []
    ensures vs != [] ==>
              (kids.Repeat? || kids.types != []) && First(kids) == TypeOf(vs[0]) && KidsMatch(Rest(kids), vs[1..])
  {}

  lemma ReadListStep(r: Reader, fds: Table, dbl: Doubles, count: nat)
    requires Sized(fds)
    ensures var (v, r1) := ReadValue(r, fds, dbl, None, 0);
            ReadList(r, fds, dbl, 1 + count) == Consed(v, r1, ReadList(r1, fds, dbl, count))
  {
    hide ReadValue;
  }

  lemma {:induction false} ListBack(w: Writer, vs: seq<Value>, dbl: Doubles, data: Bytes, fds: Table)
    requires Valid(w.fds) && IsMessage(vs)
    requires var (ok, w') := WriteAll(w, vs, 0, dbl); ok && Retains(w', data, fds)
    ensures Outcome(ReadList(Reading(w, data), fds, dbl, |vs|), vs,
                    Reading(WriteAll(w, vs, 0, dbl).1, data), RealsAll(vs), dbl)
    decreases |vs|
  {
    hide Valid, Grew, WriteValue, ReadValue, WithinLimits, WellTyped, TypeOf, Returns, Honest, Reals;
    if vs == [] {
      assert WriteAll(w, vs, 0, dbl) == (!w.failed, w);
      NoReals(dbl);
    } else {
      hide ReadList;
      var w1 := WriteValue(w, vs[0], 0, dbl).1;
      var w' := WriteAll(w1, vs[1..], 0, dbl).1;
      WriteValueKeeps(w, vs[0], 0, dbl);
      WriteAllKeeps(w1, vs[1..], 0, dbl);
      RetainsEarlier(w1, w', data, fds);
      ValueBack(w, vs[0], 0, dbl, data, fds, None);
      ListBack(w1, vs[1..], dbl, data, fds);
      ReadListStep(Reading(w, data), fds, dbl, |vs| - 1);
      var got := ReadValue(Reading(w, data), fds, dbl, None, 0);
      OutcomeCons(got, ReadList(got.1, fds, dbl, |vs| - 1), vs[0], vs[1..], Reading(w1, data), Reading(w', data),
                  Reals(vs[0]), RealsAll(vs[1..]), dbl);
      assert [vs[0]] + vs[1..] == vs;
    }
  }

  // ----- the theorems -----

  /** What the reader makes of the bytes a message was written to. */
  function ReadBack(w: Writer, vs: seq<Value>, dbl: Doubles): (Option<seq<Value>>, Reader)
    requires Sized(w.fds)
  {
    var w' := WriteValues(w, vs, dbl).1;
    ReadValues(Reader(w'.bytes, |w.bytes|, w.values, false), w'.fds, dbl)
  }

  /** Every message the writer accepts is read back from exactly those bytes, rebuilt identically with each handle
      resolving to its descriptor and consumed to the last byte, if and only if each of its doubles is scanned back.
      If some double is refused, and none is mistaken for another, the message is refused. */
  lemma ValuesRoundTrip(w: Writer, vs: seq<Value>, dbl: Doubles)
    requires Valid(w.fds) && IsMessage(vs) && WriteValues(w, vs, dbl).0
    ensures var w' := WriteValues(w, vs, dbl).1;
            && (Returns(RealsAll(vs), dbl) ==>
                  ReadBack(w, vs, dbl) == (Some(vs), Reader(w'.bytes, |w'.bytes|, w'.values, false)))
            && (ReadBack(w, vs, dbl).0 == Some(vs) <==> Returns(RealsAll(vs), dbl))
            && (Honest(RealsAll(vs), dbl) ==>
                  ReadBack(w, vs, dbl).0 == if Returns(RealsAll(vs), dbl) then Some(vs) else None)
  {
    hide Valid, Grew, WellTyped, ReadU32, ReadList, WriteAll, PutU32, Returns, Honest, RealsAll;
    var w1 := PutU32(w, |vs|);
    var w' := WriteValues(w, vs, dbl).1;
    WriteAllKeeps(w1, vs, 0, dbl);
    GrewReflexive(w'.fds);
    RetainsEarlier(w1, w', w'.bytes, w'.fds);
    CountBounded(w1, vs, 0, dbl);
    U32Back(w, |vs|, w'.bytes);
    ListBack(w1, vs, dbl, w'.bytes, w'.fds);
  }

  /** A finite double is written, and its message refused, when `append_scalar` refuses its text: `strtod` may set
      `errno` for a double that it scans exactly, and the code then gives it up. */
  lemma RefusedDouble(w: Writer, id: nat, dbl: Doubles)
    requires Valid(w.fds) && WriteValues(w, [Real(Finite(id))], dbl).0 && dbl.scan(dbl.format(id)) == None
    ensures ReadBack(w, [Real(Finite(id))], dbl).0 == None
  {
    hide Valid, WriteValues, ReadBack;
    var v := Real(Finite(id));
    assert Reals(v) == {id} && [v][1..] == [] && RealsAll([v][1..]) == {};
    assert RealsAll([v]) == {id};
    ValuesRoundTrip(w, [v], dbl);
  }

  // ----- injectivity -----

  /** The texts of these doubles are those of numbers, and tell them apart. */
  ghost predicate ToldApart(ids: set<nat>, dbl: Doubles) {
    && (forall i :: i in ids ==> Offered(dbl.format(i)))
    && (forall i, j :: i in ids && j in ids && dbl.format(i) == dbl.format(j) ==> i == j)
  }

  /** The double among `ids` with a text. */
  ghost function Named(ids: set<nat>, dbl: Doubles, s: Bytes): Option<nat> {
    if i :| i in ids && dbl.format(i) == s then Some(i) else None
  }

  /** The same printer, with a scanner that knows these doubles by their texts. */
  ghost function Knowing(ids: set<nat>, dbl: Doubles): Doubles { Doubles(dbl.format, s => Named(ids, dbl, s)) }

  lemma KnowingReturns(ids: set<nat>, some: set<nat>, dbl: Doubles)
    requires ToldApart(ids, dbl) && some <= ids
    ensures Returns(some, Knowing(ids, dbl))
  {
    hide Offered;
  }

  /** Writing depends on the printer alone. */
  lemma {:induction false} SamePrinter(w: Writer, vs: seq<Value>, depth: nat, dbl: Doubles, other: Doubles)
    requires Sized(w.fds) && dbl.format == other.format
    ensures WriteAll(w, vs, depth, dbl) == WriteAll(w, vs, depth, other)
    decreases NodesAll(vs), 2
  {
    hide PutText, PutU32, Insert, Print, TypeOf;
    if vs != [] {
      SamePrinterValue(w, vs[0], depth, dbl, other);
      var (ok, w1) := WriteValue(w, vs[0], depth, dbl);
      if ok {
        SamePrinter(w1, vs[1..], depth, dbl, other);
      }
    }
  }

  lemma {:induction false} SamePrinterValue(w: Writer, v: Value, depth: nat, dbl: Doubles, other: Doubles)
    requires Sized(w.fds) && dbl.format == other.format
    ensures WriteValue(w, v, depth, dbl) == WriteValue(w, v, depth, other)
    decreases Nodes(v), 1
  {
    hide PutText, PutU32, Insert, Print, TypeOf, WriteAll;
    var w1 := PutText(w.(values := w.values + 1), Print(TypeOf(v)));
    if IsContainer(v) {
      NodesOfChildren(v);
      SamePrinter(WriteContainer(w1, v), Children(v), depth + 1, dbl, other);
    }
  }

  /** Doubles with one text cannot be told apart on the wire. */
  lemma TextsCollide(w: Writer, i: nat, j: nat, dbl: Doubles)
    requires Sized(w.fds) && dbl.format(i) == dbl.format(j)
    ensures WriteValues(w, [Real(Finite(i))], dbl) == WriteValues(w, [Real(Finite(j))], dbl)
  {
    hide PutText, PutU32, Print;
    var (a, b) := (Real(Finite(i)), Real(Finite(j)));
    var one := PutU32(w, 1);
    assert WriteValue(one, a, 0, dbl) == WriteValue(one, b, 0, dbl);
    assert [a][1..] == [] && [b][1..] == [];
  }

  /** Two messages that leave the same bytes and the same table are the same message, provided that the texts of their
      doubles tell them apart; whether the code's scanner takes those texts back does not matter. */
  lemma EncodingInjective(w: Writer, vs: seq<Value>, us: seq<Value>, dbl: Doubles)
    requires Valid(w.fds) && IsMessage(vs) && IsMessage(us) && ToldApart(RealsAll(vs) + RealsAll(us), dbl)
    requires WriteValues(w, vs, dbl).0 && WriteValues(w, us, dbl).0
    requires WriteValues(w, vs, dbl).1.bytes == WriteValues(w, us, dbl).1.bytes
    requires WriteValues(w, vs, dbl).1.fds == WriteValues(w, us, dbl).1.fds
    ensures vs == us
  {
    hide Valid, WriteAll, ReadValues, RealsAll, Returns, Honest, ToldApart;
    var ids := RealsAll(vs) + RealsAll(us);
    var knowing := Knowing(ids, dbl);
    SamePrinter(PutU32(w, |vs|), vs, 0, dbl, knowing);
    SamePrinter(PutU32(w, |us|), us, 0, dbl, knowing);
    KnowingReturns(ids, RealsAll(vs), dbl);
    KnowingReturns(ids, RealsAll(us), dbl);
    ValuesRoundTrip(w, vs, knowing);
    ValuesRoundTrip(w, us, knowing);
  }
}

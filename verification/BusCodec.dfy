/** The wire form of D-Bus arguments as functions on values: what `md_bus_values_write` leaves in
    the frame and in the descriptor table, and what `md_bus_values_read` makes of a frame. */
module BusCodec {
  import opened Common
  import opened Decimal
  import opened DBusTypes
  import opened DBusValues
  import opened BusDescriptors

  const FRAME_LIMIT: nat := 0x10_0000
  const VALUE_LIMIT: nat := 16384
  const DEPTH_LIMIT: nat := 32

  // ----- writing -----

  /** A frame being written, with the table its handles refer to. Failure is sticky. */
  datatype Writer = Writer(bytes: Bytes, values: nat, failed: bool, fds: Table)

  function Put(w: Writer, p: Bytes): (w': Writer)
    ensures w'.fds == w.fds && w'.values == w.values && (w.failed ==> w'.failed)
  {
    if w.failed || |w.bytes| + |p| > FRAME_LIMIT then w.(failed := true)
    else w.(bytes := w.bytes + p)
  }

  function PutU32(w: Writer, v: nat): (w': Writer)
    ensures w'.fds == w.fds && w'.values == w.values && (w.failed ==> w'.failed)
  {
    Put(w, EncodeU32(v % 0x1_0000_0000))
  }

  function PutText(w: Writer, text: Bytes): (w': Writer)
    ensures w'.fds == w.fds && w'.values == w.values && (w.failed ==> w'.failed)
  {
    if |text| > FRAME_LIMIT then w.(failed := true) else Put(PutU32(w, |text|), text)
  }

  /** The text of a number, boolean, string or finite double. */
  function ScalarText(v: Value, dbl: Doubles): Option<Bytes> {
    match v
    case Number(_, n) => Some(PrintInt(n))
    case Bool(b) => Some(if b then [116, 114, 117, 101] else [102, 97, 108, 115, 101])
    case Real(Finite(id)) => Some(dbl.format(id))
    case Text(_, s) => Some(s)
    case _ => None
  }

  /** The body of a basic value. A descriptor moves into the table even when the frame has failed. */
  function WriteScalar(w: Writer, v: Value, dbl: Doubles): (bool, Writer)
    requires Sized(w.fds)
  {
    if v.Handle? then
      var (id, fds) := Insert(w.fds, v.fd);
      var w1 := w.(fds := fds);
      if id.None? then (false, w1)
      else
        var w2 := PutText(w1, BusDescriptors.Handle(id.value));
        (!w2.failed, w2)
    else
      match ScalarText(v, dbl)
      case None => (false, w)
      case Some(text) => var w1 := PutText(w, text); (!w1.failed, w1)
  }

  /** The header of a container: a variant announces the signature it holds, then the child count. */
  function WriteContainer(w: Writer, v: Value): Writer {
    var w1 := if v.VariantOf? then PutText(w, Print(TypeOf(v.child))) else w;
    PutU32(w1, |Children(v)|)
  }

  function WriteValue(w: Writer, v: Value, depth: nat, dbl: Doubles): (r: (bool, Writer))
    requires Sized(w.fds)
    ensures Sized(r.1.fds)
    decreases Nodes(v), 1
  {
    if depth > DEPTH_LIMIT then (false, w)
    else
      var w0 := w.(values := w.values + 1);
      if w0.values > VALUE_LIMIT then (false, w0)
      else WriteBody(PutText(w0, Print(TypeOf(v))), v, depth, dbl)
  }

  /** What follows a value's signature. */
  function WriteBody(w: Writer, v: Value, depth: nat, dbl: Doubles): (r: (bool, Writer))
    requires Sized(w.fds)
    ensures Sized(r.1.fds)
    decreases Nodes(v), 0
  {
    if IsContainer(v) then
      NodesOfChildren(v);
      WriteAll(WriteContainer(w, v), Children(v), depth + 1, dbl)
    else WriteScalar(w, v, dbl)
  }

  function WriteAll(w: Writer, vs: seq<Value>, depth: nat, dbl: Doubles): (r: (bool, Writer))
    requires Sized(w.fds)
    ensures Sized(r.1.fds)
    decreases NodesAll(vs), 2
  {
    if vs == [] then (!w.failed, w)
    else
      var (ok, w1) := WriteValue(w, vs[0], depth, dbl);
      if ok then WriteAll(w1, vs[1..], depth, dbl) else (false, w1)
  }

  /** `md_bus_values_write`. */
  function WriteValues(w: Writer, vs: seq<Value>, dbl: Doubles): (r: (bool, Writer))
    requires Sized(w.fds)
    ensures Sized(r.1.fds)
  {
    WriteAll(PutU32(w, |vs|), vs, 0, dbl)
  }

  // ----- reading -----

  /** A received frame and the cursor in it. */
  datatype Reader = Reader(data: Bytes, at: nat, values: nat, failed: bool)

  function ReadU32(r: Reader): (u32, Reader) {
    if r.failed || r.at + 4 > |r.data| then (0, r.(failed := true))
    else (DecodeU32(r.data[r.at..r.at + 4]), r.(at := r.at + 4))
  }

  function ReadText(r: Reader): (Option<Bytes>, Reader) {
    var (n, r1) := ReadU32(r);
    if r1.failed || r1.at + n > |r1.data| then (None, r1.(failed := true))
    else
      var (s, r2) := (r1.data[r1.at..r1.at + n], r1.(at := r1.at + n));
      if Carries(s) then (Some(s), r2) else (None, r2.(failed := true))
  }

  /** `append_scalar`: the basic value a text denotes. */
  function ScanScalar(c: Code, s: Bytes, fds: Table, dbl: Doubles): Option<Value>
    requires Sized(fds)
  {
    match c
    case STRING => Some(Text(c, s))
    case OBJECT_PATH => if ValidPath(s) then Some(Text(c, s)) else None
    case SIGNATURE => if ValidSignature(s) then Some(Text(c, s)) else None
    case UNIX_FD =>
      var slot := HandleSlot(fds, s);
      if slot.None? then None else Some(Value.Handle(fds.fd[slot.value]))
    case BOOLEAN =>
      if s == [116, 114, 117, 101] then Some(Bool(true))
      else if s == [102, 97, 108, 115, 101] then Some(Bool(false))
      else None
    case _ => if s == [] || s[0] in [32, 9, 43] then None else ScanNumber(c, s, dbl)
  }

  function ScanNumber(c: Code, s: Bytes, dbl: Doubles): Option<Value>
    requires s != []
  {
    if c == DOUBLE then
      match dbl.scan(s) { case None => None case Some(id) => Some(Real(Finite(id))) }
    else if c == INT16 || c == INT32 || c == INT64 then
      match ScanSigned(s) { case None => None case Some(n) => if InRange(c, n) then Some(Number(c, n)) else None }
    else if s[0] == 45 then None
    else
      match ScanUnsigned(s) { case None => None case Some(n) => if InRange(c, n) then Some(Number(c, n)) else None }
  }

  /** The type a value's own signature declares, if it is the expected one. A dict entry is not a
      signature by itself: it is accepted only where its array expects it. */
  function Declared(sig: Bytes, expected: Option<Type>): Option<Type> {
    if expected.Some? && Print(expected.value) != sig then None
    else if expected.Some? && expected.value.DictEntry? then expected
    else Single(sig)
  }

  /** The types a container's children must have: one type over and over, or one type each. */
  datatype Kids = Repeat(elem: Type) | Fields(types: seq<Type>)

  function KidsOf(t: Type): Kids
    requires t.Array? || t.Struct? || t.DictEntry?
  {
    match t
    case Array(e) => Repeat(e)
    case Struct(fs) => Fields(fs)
    case DictEntry(k, v) => Fields([Basic(k), v])
  }

  function Build(t: Type, items: seq<Value>): Option<Value> {
    match t
    case Array(e) => Some(ArrayOf(e, items))
    case Struct(_) => Some(StructOf(items))
    case DictEntry(_, _) => Some(Entry(items))
    case Variant => if |items| == 1 then Some(VariantOf(items[0])) else None
    case Basic(_) => None
  }

  function ReadValue(r: Reader, fds: Table, dbl: Doubles, expected: Option<Type>, depth: nat): (Option<Value>, Reader)
    requires Sized(fds)
    decreases DEPTH_LIMIT + 1 - depth, 3
  {
    if depth > DEPTH_LIMIT then (None, r)
    else
      var r0 := r.(values := r.values + 1);
      if r0.values > VALUE_LIMIT then (None, r0)
      else
        var (sig, r1) := ReadText(r0);
        if sig.None? then (None, r1)
        else
          match Declared(sig.value, expected)
          case None => (None, r1)
          case Some(t) => ReadBody(r1, fds, dbl, t, depth)
  }

  function ReadBody(r: Reader, fds: Table, dbl: Doubles, t: Type, depth: nat): (Option<Value>, Reader)
    requires Sized(fds) && depth <= DEPTH_LIMIT
    decreases DEPTH_LIMIT + 1 - depth, 2
  {
    match t
    case Basic(c) =>
      var (text, r1) := ReadText(r);
      (if text.None? then None else ScanScalar(c, text.value, fds, dbl), r1)
    case Variant =>
      var (text, r1) := ReadText(r);
      if text.None? || Single(text.value).None? then (None, r1)
      else ReadContainer(r1, fds, dbl, t, Repeat(Single(text.value).value), depth)
    case _ => ReadContainer(r, fds, dbl, t, KidsOf(t), depth)
  }

  function ReadContainer(r: Reader, fds: Table, dbl: Doubles, t: Type, kids: Kids, depth: nat): (Option<Value>, Reader)
    requires Sized(fds) && depth <= DEPTH_LIMIT
    decreases DEPTH_LIMIT + 1 - depth, 1
  {
    var (count, r1) := ReadU32(r);
    if r1.failed || count > VALUE_LIMIT || (t.Variant? && count != 1) then (None, r1)
    else
      var (items, r2) := ReadItems(r1, fds, dbl, kids, count, depth + 1);
      (if items.None? then None else Build(t, items.value), r2)
  }

  function ReadItems(r: Reader, fds: Table, dbl: Doubles, kids: Kids, count: nat, depth: nat)
    : (Option<seq<Value>>, Reader)
    requires Sized(fds) && depth <= DEPTH_LIMIT + 1
    decreases DEPTH_LIMIT + 1 - depth, 4, count
  {
    if count == 0 then (if kids.Fields? && kids.types != [] then None else Some([]), r)
    else if kids.Fields? && kids.types == [] then (None, r)
    else
      var (v, r1) := ReadValue(r, fds, dbl, Some(First(kids)), depth);
      if v.None? then (None, r1)
      else
        var (vs, r2) := ReadItems(r1, fds, dbl, Rest(kids), count - 1, depth);
        (if vs.None? then None else Some([v.value] + vs.value), r2)
  }

  function First(kids: Kids): Type
    requires kids.Repeat? || kids.types != []
  {
    if kids.Repeat? then kids.elem else kids.types[0]
  }

  function Rest(kids: Kids): Kids
    requires kids.Repeat? || kids.types != []
  {
    if kids.Repeat? then kids else Fields(kids.types[1..])
  }

  /** The arguments after the count: each declares its own type. */
  function ReadList(r: Reader, fds: Table, dbl: Doubles, count: nat): (Option<seq<Value>>, Reader)
    requires Sized(fds)
    decreases count
  {
    if count == 0 then (if r.failed then None else Some([]), r)
    else
      var (v, r1) := ReadValue(r, fds, dbl, None, 0);
      if v.None? then (None, r1)
      else
        var (vs, r2) := ReadList(r1, fds, dbl, count - 1);
        (if vs.None? then None else Some([v.value] + vs.value), r2)
  }

  /** `md_bus_values_read`. */
  function ReadValues(r: Reader, fds: Table, dbl: Doubles): (Option<seq<Value>>, Reader)
    requires Sized(fds)
  {
    var (count, r1) := ReadU32(r);
    if count > VALUE_LIMIT then (None, r1) else ReadList(r1, fds, dbl, count)
  }
}

/** D-Bus message arguments as typed trees, and the texts libdbus validates inside them. */
module DBusValues {
  import opened Common
  import opened Decimal
  import opened DBusTypes

  /** A double is opaque: finite ones are named by a number. `format` is `%.17g`; `scan` is `strtod` with the tests that
      follow it, so that it refuses what is not finite, what sets `errno` and what leaves text over. */
  datatype Double = Finite(id: nat) | NonFinite
  datatype Doubles = Doubles(format: nat -> Bytes, scan: Bytes -> Option<nat>)

  /** The container constructors hold their children in message order. `Handle` carries the
      descriptor libdbus hands out for a Unix FD argument; it is negative when duplication failed. */
  datatype Value =
    | Number(code: Code, n: int)
    | Bool(b: bool)
    | Real(d: Double)
    | Text(code: Code, text: Bytes)
    | Handle(fd: int)
    | ArrayOf(elem: Type, items: seq<Value>)
    | StructOf(fields: seq<Value>)
    | Entry(fields: seq<Value>)
    | VariantOf(child: Value)

  predicate IsContainer(v: Value) { v.ArrayOf? || v.StructOf? || v.Entry? || v.VariantOf? }

  function Children(v: Value): (cs: seq<Value>)
    ensures forall i :: 0 <= i < |cs| ==> cs[i] < v
    ensures IsContainer(v) && !v.VariantOf? ==> |cs| == |if v.ArrayOf? then v.items else v.fields|
  {
    match v
    case ArrayOf(_, items) => items
    case StructOf(fields) => fields
    case Entry(fields) => fields
    case VariantOf(child) => [child]
    case _ => []
  }

  /** The signature tree libdbus reports for a value. */
  function TypeOf(v: Value): Type
    decreases v, 0
  {
    match v
    case Number(c, _) => Basic(c)
    case Bool(_) => Basic(BOOLEAN)
    case Real(_) => Basic(DOUBLE)
    case Text(c, _) => Basic(c)
    case Handle(_) => Basic(UNIX_FD)
    case ArrayOf(elem, _) => Array(elem)
    case StructOf(fields) => Struct(TypesOf(fields))
    case Entry(fields) =>
      if |fields| == 2 && TypeOf(fields[0]).Basic? then DictEntry(TypeOf(fields[0]).code, TypeOf(fields[1]))
      else Variant
    case VariantOf(_) => Variant
  }

  function TypesOf(vs: seq<Value>): (ts: seq<Type>)
    ensures |ts| == |vs|
    ensures forall i :: 0 <= i < |vs| ==> ts[i] == TypeOf(vs[i])
  {
    if vs == [] then [] else [TypeOf(vs[0])] + TypesOf(vs[1..])
  }

  predicate InRange(c: Code, n: int) {
    match c
    case BYTE => 0 <= n < 0x100
    case INT16 => -0x8000 <= n < 0x8000
    case UINT16 => 0 <= n < 0x1_0000
    case INT32 => -0x8000_0000 <= n < 0x8000_0000
    case UINT32 => 0 <= n < 0x1_0000_0000
    case INT64 => INT64_MIN <= n <= INT64_MAX
    case UINT64 => 0 <= n <= UINT64_MAX
    case _ => false
  }

  predicate Trail(s: Bytes, i: nat, low: byte, high: byte) { i < |s| && low <= s[i] <= high }

  /** Bytes taken by the UTF-8 encoded scalar value at the front of a non-empty text, or zero. */
  function ScalarLength(s: Bytes): (n: nat)
    requires s != []
    ensures n <= |s|
  {
    var b := s[0];
    if b < 0x80 then 1
    else if 0xC2 <= b <= 0xDF then if Trail(s, 1, 0x80, 0xBF) then 2 else 0
    else if 0xE0 <= b <= 0xEF then
      if Trail(s, 1, if b == 0xE0 then 0xA0 else 0x80, if b == 0xED then 0x9F else 0xBF) && Trail(s, 2, 0x80, 0xBF)
      then 3 else 0
    else if 0xF0 <= b <= 0xF4 then
      if Trail(s, 1, if b == 0xF0 then 0x90 else 0x80, if b == 0xF4 then 0x8F else 0xBF)
         && Trail(s, 2, 0x80, 0xBF) && Trail(s, 3, 0x80, 0xBF)
      then 4 else 0
    else 0
  }

  predicate ValidUtf8(s: Bytes)
    decreases |s|
  {
    s == [] || (ScalarLength(s) > 0 && ValidUtf8(s[ScalarLength(s)..]))
  }

  /** A text the wire can carry: UTF-8 without NUL. */
  predicate Carries(s: Bytes) { (forall i :: 0 <= i < |s| ==> s[i] != 0) && ValidUtf8(s) }

  predicate PathChar(b: byte) { 65 <= b <= 90 || 97 <= b <= 122 || 48 <= b <= 57 || b == 95 }

  /** `dbus_validate_path`. */
  predicate ValidPath(s: Bytes) {
    && s != [] && s[0] == 47
    && (forall i :: 0 <= i < |s| ==> s[i] == 47 || PathChar(s[i]))
    && (forall i :: 1 <= i < |s| && s[i] == 47 ==> s[i - 1] != 47 && i < |s| - 1)
  }

  predicate ValidText(c: Code, s: Bytes) {
    && Carries(s)
    && (c == STRING || (c == OBJECT_PATH && ValidPath(s)) || (c == SIGNATURE && ValidSignature(s)))
  }

  /** A value libdbus can hold in a message. */
  predicate WellTyped(v: Value) {
    match v
    case Number(c, n) => InRange(c, n)
    case Bool(_) => true
    case Real(_) => true
    case Text(c, s) => ValidText(c, s)
    case Handle(_) => true
    case ArrayOf(elem, items) =>
      Shaped(elem) && forall i :: 0 <= i < |items| ==> WellTyped(items[i]) && TypeOf(items[i]) == elem
    case StructOf(fields) =>
      fields != [] && forall i :: 0 <= i < |fields| ==> WellTyped(fields[i]) && !fields[i].Entry?
    case Entry(fields) =>
      |fields| == 2 && TypeOf(fields[0]).Basic? && !fields[1].Entry? && WellTyped(fields[0]) && WellTyped(fields[1])
    case VariantOf(child) => WellTyped(child) && !child.Entry? && WithinLimits(TypeOf(child))
  }

  /** Arguments of a message: complete values within the signature limits. */
  predicate IsMessage(vs: seq<Value>) {
    forall i :: 0 <= i < |vs| ==> WellTyped(vs[i]) && !vs[i].Entry? && WithinLimits(TypeOf(vs[i]))
  }

  /** The number of values in a tree. Recursion over trees descends in it. */
  function Nodes(v: Value): (n: nat)
    ensures n > 0
    decreases v, 0
  {
    match v
    case ArrayOf(_, items) => 1 + NodesAll(items)
    case StructOf(fields) => 1 + NodesAll(fields)
    case Entry(fields) => 1 + NodesAll(fields)
    case VariantOf(child) => 1 + Nodes(child)
    case _ => 1
  }

  function NodesAll(vs: seq<Value>): nat {
    if vs == [] then 0 else Nodes(vs[0]) + NodesAll(vs[1..])
  }

  lemma NodesOfChildren(v: Value)
    ensures Nodes(v) == 1 + NodesAll(Children(v))
  {
    if v.VariantOf? {
      assert [v.child][1..] == [];
    }
  }

  /** Levels below a value. */
  function Height(v: Value): nat
    decreases Nodes(v), 0
  {
    NodesOfChildren(v);
    if Children(v) == [] then 0 else 1 + HeightAll(Children(v))
  }

  function HeightAll(vs: seq<Value>): nat
    decreases NodesAll(vs), 1
  {
    if vs == [] then 0
    else
      var (h, k) := (Height(vs[0]), HeightAll(vs[1..]));
      if h > k then h else k
  }

  /** The tree of a well-typed value is shaped like a D-Bus type; only entries are not complete. */
  lemma {:induction false} WellTypedShape(v: Value)
    requires WellTyped(v)
    ensures Shaped(TypeOf(v)) && (TypeOf(v).DictEntry? <==> v.Entry?)
  {
    match v
    case StructOf(fields) =>
      forall i | 0 <= i < |fields|
        ensures Complete(TypesOf(fields)[i])
      {
        WellTypedShape(fields[i]);
      }
    case Entry(fields) =>
      WellTypedShape(fields[1]);
    case _ =>
  }

  lemma {:induction false} AsciiCarries(s: Bytes)
    requires forall i :: 0 <= i < |s| ==> 0 < s[i] < 0x80
    ensures Carries(s)
  {
    if s != [] {
      AsciiCarries(s[1..]);
    }
  }
}

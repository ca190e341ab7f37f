/** D-Bus type signatures: the grammar of the "Type System" section of the D-Bus Specification,
    as `dbus_signature_validate_single` and the signature iterator interpret it. */
module DBusTypes {
  import opened Common

  datatype Code =
    | BYTE | BOOLEAN | INT16 | UINT16 | INT32 | UINT32 | INT64 | UINT64
    | DOUBLE | STRING | OBJECT_PATH | SIGNATURE | UNIX_FD

  /** A complete type. `DictEntry` is complete only as the element of an array. */
  datatype Type =
    | Basic(code: Code)
    | Variant
    | Array(elem: Type)
    | Struct(fields: seq<Type>)
    | DictEntry(key: Code, value: Type)

  const ARRAY: byte := 97
  const VARIANT: byte := 118
  const OPEN: byte := 40
  const CLOSE: byte := 41
  const BRACE_OPEN: byte := 123
  const BRACE_CLOSE: byte := 125
  const MAX_SIGNATURE := 255
  const MAX_NESTING := 32

  function Letter(c: Code): byte {
    match c
    case BYTE => 121 case BOOLEAN => 98 case INT16 => 110 case UINT16 => 113
    case INT32 => 105 case UINT32 => 117 case INT64 => 120 case UINT64 => 116
    case DOUBLE => 100 case STRING => 115 case OBJECT_PATH => 111
    case SIGNATURE => 103 case UNIX_FD => 104
  }

  function CodeOf(b: byte): (c: Option<Code>)
    ensures c.Some? ==> Letter(c.value) == b
  {
    if b == 121 then Some(BYTE) else if b == 98 then Some(BOOLEAN)
    else if b == 110 then Some(INT16) else if b == 113 then Some(UINT16)
    else if b == 105 then Some(INT32) else if b == 117 then Some(UINT32)
    else if b == 120 then Some(INT64) else if b == 116 then Some(UINT64)
    else if b == 100 then Some(DOUBLE) else if b == 115 then Some(STRING)
    else if b == 111 then Some(OBJECT_PATH) else if b == 103 then Some(SIGNATURE)
    else if b == 104 then Some(UNIX_FD) else None
  }

  function Print(t: Type): (s: Bytes)
    ensures s != []
    decreases t, 0
  {
    match t
    case Basic(c) => [Letter(c)]
    case Variant => [VARIANT]
    case Array(e) => [ARRAY] + Print(e)
    case Struct(fs) => [OPEN] + PrintAll(fs) + [CLOSE]
    case DictEntry(k, v) => [BRACE_OPEN, Letter(k)] + Print(v) + [BRACE_CLOSE]
  }

  function PrintAll(ts: seq<Type>): Bytes {
    if ts == [] then [] else Print(ts[0]) + PrintAll(ts[1..])
  }

  /** Structures are not empty and dict entries occur only directly inside arrays. */
  predicate Complete(t: Type) { !t.DictEntry? && Shaped(t) }

  predicate Shaped(t: Type) {
    match t
    case Basic(_) => true
    case Variant => true
    case Array(e) => Shaped(e)
    case Struct(fs) => fs != [] && forall i :: 0 <= i < |fs| ==> !fs[i].DictEntry? && Shaped(fs[i])
    case DictEntry(_, v) => !v.DictEntry? && Shaped(v)
  }

  /** Array codes (`arrays`) or open parentheses (otherwise) on the deepest path of a type. */
  function Nesting(t: Type, arrays: bool): nat
    decreases t, 0
  {
    match t
    case Basic(_) => 0
    case Variant => 0
    case Array(e) => Nesting(e, arrays) + (if arrays then 1 else 0)
    case Struct(fs) => NestingAll(fs, arrays) + (if arrays then 0 else 1)
    case DictEntry(_, v) => Nesting(v, arrays)
  }

  function NestingAll(ts: seq<Type>, arrays: bool): nat {
    if ts == [] then 0
    else
      var (n, m) := (Nesting(ts[0], arrays), NestingAll(ts[1..], arrays));
      if n > m then n else m
  }

  predicate WithinLimits(t: Type) {
    |Print(t)| <= MAX_SIGNATURE && Nesting(t, true) <= MAX_NESTING && Nesting(t, false) <= MAX_NESTING
  }

  /** One complete type at the front of `s`, with the number of bytes it takes. */
  function ParseOne(s: Bytes): (r: Option<(Type, nat)>)
    ensures r.Some? ==> 0 < r.value.1 <= |s|
    decreases |s|, 0
  {
    if s == [] then None
    else if CodeOf(s[0]).Some? then Some((Basic(CodeOf(s[0]).value), 1))
    else if s[0] == VARIANT then Some((Variant, 1))
    else if s[0] == ARRAY then
      if |s| > 1 && s[1] == BRACE_OPEN then ParseDict(s)
      else
        match ParseOne(s[1..]) {
          case Some((e, n)) => Some((Array(e), n + 1))
          case None => None
        }
    else if s[0] == OPEN then
      match ParseFields(s[1..]) {
        case Some((fs, n)) => if fs == [] then None else Some((Struct(fs), n + 1))
        case None => None
      }
    else None
  }

  /** An array of dict entries, whose first two bytes have been seen. */
  function ParseDict(s: Bytes): (r: Option<(Type, nat)>)
    requires |s| > 1
    ensures r.Some? ==> 0 < r.value.1 <= |s|
    decreases |s|, 0, 0
  {
    if |s| == 2 || CodeOf(s[2]).None? then None
    else
      match ParseOne(s[3..])
      case None => None
      case Some((v, n)) =>
        if 3 + n < |s| && s[3 + n] == BRACE_CLOSE then Some((Array(DictEntry(CodeOf(s[2]).value, v)), n + 4))
        else None
  }

  /** Complete types up to and including the closing parenthesis. */
  function ParseFields(s: Bytes): (r: Option<(seq<Type>, nat)>)
    ensures r.Some? ==> 0 < r.value.1 <= |s|
    decreases |s|, 1
  {
    if s == [] then None
    else if s[0] == CLOSE then Some(([], 1))
    else
      match ParseOne(s) {
        case None => None
        case Some((t, n)) =>
          match ParseFields(s[n..]) {
            case Some((ts, m)) => Some(([t] + ts, n + m))
            case None => None
          }
      }
  }

  /** `dbus_signature_validate_single`: the type `s` spells, if it spells exactly one. */
  function Single(s: Bytes): Option<Type> {
    match ParseOne(s)
    case None => None
    case Some((t, n)) => if n == |s| && WithinLimits(t) then Some(t) else None
  }

  /** `dbus_signature_validate`: any number of complete types. */
  predicate ValidSignature(s: Bytes) { |s| <= MAX_SIGNATURE && ValidTypes(s) }

  predicate ValidTypes(s: Bytes)
    decreases |s|
  {
    s == [] ||
    match ParseOne(s)
    case None => false
    case Some((t, n)) => WithinLimits(t) && ValidTypes(s[n..])
  }

  // ----- the text and the tree determine each other -----

  lemma {:induction false} ParsePrinted(t: Type, rest: Bytes)
    requires Complete(t)
    ensures ParseOne(Print(t) + rest) == Some((t, |Print(t)|))
    decreases t, 0
  {
    hide ParseDict, ParseFields, PrintAll;
    var s := Print(t) + rest;
    match t
    case Basic(c) =>
    case Variant =>
    case Array(e) =>
      assert s[0] == ARRAY && s[1..] == Print(e) + rest;
      assert s[1] == Print(e)[0];
      match e {
        case DictEntry(k, v) =>
          assert Shaped(e);
          ParsePrintedDict(k, v, rest);
        case _ =>
          assert Print(e)[0] != BRACE_OPEN;
          ParsePrinted(e, rest);
      }
    case Struct(fs) =>
      assert s[1..] == PrintAll(fs) + [CLOSE] + rest;
      ParsePrintedFields(fs, rest);
  }

  lemma {:induction false} ParsePrintedDict(k: Code, v: Type, rest: Bytes)
    requires Complete(v)
    ensures var t := Array(DictEntry(k, v)); ParseDict(Print(t) + rest) == Some((t, |Print(t)|))
    decreases v, 1
  {
    hide ParseOne, Shaped, Print, Complete;
    ParsePrinted(v, [BRACE_CLOSE] + rest);
    PrintDict(k, v);
    DictParses(k, v, Print(v), rest);
  }

  lemma PrintDict(k: Code, v: Type)
    ensures Print(Array(DictEntry(k, v))) == [ARRAY, BRACE_OPEN, Letter(k)] + Print(v) + [BRACE_CLOSE]
  {
  }

  lemma CodeBack(k: Code)
    ensures CodeOf(Letter(k)) == Some(k)
  {
  }

  lemma DictParses(k: Code, v: Type, text: Bytes, rest: Bytes)
    requires ParseOne(text + ([BRACE_CLOSE] + rest)) == Some((v, |text|))
    ensures var s := [ARRAY, BRACE_OPEN, Letter(k)] + text + [BRACE_CLOSE] + rest;
            ParseDict(s) == Some((Array(DictEntry(k, v)), |text| + 4))
  {
    CodeBack(k);
    hide ParseOne, ParseDict, CodeOf, Letter;
    var s := [ARRAY, BRACE_OPEN, Letter(k)] + text + [BRACE_CLOSE] + rest;
    assert s[3..] == text + ([BRACE_CLOSE] + rest);
    DictStep(s, k, v, |text|);
  }

  lemma DictStep(s: Bytes, k: Code, v: Type, n: nat)
    requires 3 + n < |s| && s[3 + n] == BRACE_CLOSE
    requires CodeOf(s[2]) == Some(k) && ParseOne(s[3..]) == Some((v, n))
    ensures ParseDict(s) == Some((Array(DictEntry(k, v)), n + 4))
  {
    hide ParseOne, CodeOf, Letter;
  }

  lemma PrintStart(t: Type)
    ensures Print(t)[0] != CLOSE
  {
  }

  lemma {:induction false} ParsePrintedFields(fs: seq<Type>, rest: Bytes)
    requires forall i :: 0 <= i < |fs| ==> Complete(fs[i])
    ensures ParseFields(PrintAll(fs) + [CLOSE] + rest) == Some((fs, |PrintAll(fs)| + 1))
    decreases fs, 1
  {
    hide ParseOne, Complete, Print;
    var s := PrintAll(fs) + [CLOSE] + rest;
    if fs != [] {
      PrintStart(fs[0]);
      var tail := PrintAll(fs[1..]) + [CLOSE] + rest;
      assert s == Print(fs[0]) + tail;
      assert s[0] != CLOSE;
      ParsePrinted(fs[0], tail);
      ParsePrintedFields(fs[1..], rest);
      assert s[|Print(fs[0])|..] == tail;
      assert [fs[0]] + fs[1..] == fs;
    } else {
      assert s == [CLOSE] + rest;
    }
  }

  lemma {:induction false} ParsedPrints(s: Bytes)
    ensures ParseOne(s).Some? ==>
              var (t, n) := ParseOne(s).value; Complete(t) && Print(t) == s[..n]
    decreases |s|, 0
  {
    if s == [] || CodeOf(s[0]).Some? || s[0] == VARIANT {
    } else if s[0] == ARRAY {
      if |s| > 1 && s[1] == BRACE_OPEN {
        ParsedDict(s);
      } else {
        ParsedPrints(s[1..]);
        if ParseOne(s[1..]).Some? {
          var n := ParseOne(s[1..]).value.1;
          assert s[..n + 1] == [ARRAY] + s[1..][..n];
        }
      }
    } else if s[0] == OPEN {
      ParsedFieldsPrint(s[1..]);
      if ParseFields(s[1..]).Some? {
        var n := ParseFields(s[1..]).value.1;
        assert s[..n + 1] == [OPEN] + s[1..][..n];
      }
    }
  }

  lemma {:induction false} ParsedDict(s: Bytes)
    requires |s| > 1 && s[0] == ARRAY && s[1] == BRACE_OPEN
    ensures ParseDict(s).Some? ==>
              var (t, n) := ParseDict(s).value; Complete(t) && Print(t) == s[..n]
    decreases |s|, 0, 0
  {
    if ParseDict(s).Some? {
      ParsedPrints(s[3..]);
      var (v, n) := ParseOne(s[3..]).value;
      var e := ParseDict(s).value.0.elem;
      assert Print(e) == [BRACE_OPEN, s[2]] + s[3..][..n] + [BRACE_CLOSE];
      assert s[..n + 4] == [ARRAY] + Print(e);
      assert Shaped(e);
    }
  }

  lemma {:induction false} ParsedFieldsPrint(s: Bytes)
    ensures ParseFields(s).Some? ==>
              var (ts, n) := ParseFields(s).value;
              && PrintAll(ts) + [CLOSE] == s[..n]
              && forall i :: 0 <= i < |ts| ==> Complete(ts[i])
    decreases |s|, 1
  {
    if s != [] && s[0] != CLOSE && ParseFields(s).Some? {
      var (t, n) := ParseOne(s).value;
      var (ts, m) := ParseFields(s[n..]).value;
      ParsedPrints(s);
      ParsedFieldsPrint(s[n..]);
      JoinFields(s, t, n, ts, m);
    }
  }

  lemma JoinFields(s: Bytes, t: Type, n: nat, ts: seq<Type>, m: nat)
    requires n + m <= |s| && Print(t) == s[..n] && PrintAll(ts) + [CLOSE] == s[n..][..m]
    ensures PrintAll([t] + ts) + [CLOSE] == s[..n + m]
  {
    assert ([t] + ts)[1..] == ts;
    assert s[n..][..m] == s[n..n + m];
    assert s[..n + m] == s[..n] + s[n..n + m];
  }

  /** A text is a valid single signature exactly when some complete type within the limits prints it,
      and then the type is that one. */
  lemma SingleCharacterised(s: Bytes, t: Type)
    ensures Single(s) == Some(t) <==> Complete(t) && WithinLimits(t) && Print(t) == s
  {
    if Complete(t) && Print(t) == s {
      ParsePrinted(t, []);
      assert s + [] == s;
    }
    ParsedPrints(s);
    if Single(s).Some? {
      assert s[..|s|] == s;
    }
  }

  // ----- every component of a type within the limits is within the limits -----

  predicate Component(c: Type, t: Type) {
    match t
    case Array(e) => c == e
    case Struct(fs) => c in fs
    case DictEntry(k, v) => c == v || c == Basic(k)
    case _ => false
  }

  lemma {:induction false} FieldSmaller(fs: seq<Type>, i: nat)
    requires i < |fs|
    ensures |Print(fs[i])| <= |PrintAll(fs)|
    ensures forall arrays :: Nesting(fs[i], arrays) <= NestingAll(fs, arrays)
  {
    if i > 0 {
      FieldSmaller(fs[1..], i - 1);
    }
  }

  lemma ComponentWithinLimits(c: Type, t: Type)
    requires WithinLimits(t) && Component(c, t)
    ensures WithinLimits(c)
  {
    if t.Struct? {
      var i :| 0 <= i < |t.fields| && t.fields[i] == c;
      FieldSmaller(t.fields, i);
    }
  }
}

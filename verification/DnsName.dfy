/** Names in a DNS packet, with the compression pointers of section 4.1.4 of RFC 1035. */
module DnsName {
  import opened Common

  const MAX_LABEL: nat := 63

  predicate IsPointer(b: byte) { b >= 0xC0 }

  /** Where the pointer at `o` leads. */
  function Target(p: Bytes, o: nat): nat
    requires o + 1 < |p| && IsPointer(p[o])
  {
    (p[o] - 0xC0) as int * 0x100 + p[o + 1] as int
  }

  predicate IsLabel(text: Bytes) {
    0 < |text| <= MAX_LABEL && forall i :: 0 <= i < |text| ==> text[i] < 0x80
  }

  predicate AreLabels(labels: seq<Bytes>) { forall i :: 0 <= i < |labels| ==> IsLabel(labels[i]) }

  /** An ASCII label starts at `o`, length byte first. */
  predicate LabelAt(p: Bytes, o: nat) {
    o < |p| && 0 < p[o] as int <= MAX_LABEL && o + 1 + p[o] as int <= |p| && IsLabel(p[o + 1..o + 1 + p[o] as int])
  }

  function Label(p: Bytes, o: nat): Bytes
    requires LabelAt(p, o)
  {
    p[o + 1..o + 1 + p[o] as int]
  }

  // ----- what a name is -----

  /** The name at `o` is spelled by `labels` in exactly `n` steps: labels, pointers and the final zero. */
  predicate Spells(p: Bytes, o: nat, labels: seq<Bytes>, n: nat)
    decreases n
  {
    n > 0 && o < |p| &&
    if IsPointer(p[o]) then o + 1 < |p| && Spells(p, Target(p, o), labels, n - 1)
    else if p[o] == 0 then labels == [] && n == 1
    else LabelAt(p, o) && labels != [] && labels[0] == Label(p, o) && Spells(p, o + 1 + p[o] as int, labels[1..], n - 1)
  }

  /** The name at `o` is spelled by `labels`. */
  ghost predicate Names(p: Bytes, o: nat, labels: seq<Bytes>) {
    exists n: nat :: Spells(p, o, labels, n)
  }

  /** Just past the name at `o`: after its zero, or after its first pointer. */
  function EndAt(p: Bytes, o: nat): Option<nat>
    decreases |p| - o
  {
    if o >= |p| then None
    else if IsPointer(p[o]) then if o + 1 < |p| then Some(o + 2) else None
    else if p[o] == 0 then Some(o + 1)
    else if o + 1 + p[o] as int <= |p| then EndAt(p, o + 1 + p[o] as int)
    else None
  }

  /** `'.'.join(labels).lower()`. */
  function Render(labels: seq<Bytes>): Bytes {
    if labels == [] then []
    else if |labels| == 1 then Lower(labels[0])
    else Lower(labels[0]) + [46] + Render(labels[1..])
  }

  function Lower(s: Bytes): (t: Bytes)
    ensures |t| == |s|
  {
    seq(|s|, i requires 0 <= i < |s| => if 65 <= s[i] <= 90 then s[i] + 32 else s[i])
  }

  /** A name has one spelling, reached in one number of steps. */
  lemma {:induction false} SpellingUnique(p: Bytes, o: nat, a: seq<Bytes>, n: nat, b: seq<Bytes>, m: nat)
    requires Spells(p, o, a, n) && Spells(p, o, b, m)
    ensures a == b && n == m
    decreases n
  {
    if IsPointer(p[o]) {
      SpellingUnique(p, Target(p, o), a, n - 1, b, m - 1);
    } else if p[o] != 0 {
      SpellingUnique(p, o + 1 + p[o] as int, a[1..], n - 1, b[1..], m - 1);
      assert a == [a[0]] + a[1..] && b == [b[0]] + b[1..];
    }
  }

  // ----- the reader -----

  /** Offsets not yet looked at. */
  function Unseen(p: Bytes, visited: set<nat>): set<nat> { set i: nat | i < |p| && i !in visited }

  /** The reader from offset `o`, stopping at any offset it has seen. */
  function Read(p: Bytes, o: nat, visited: set<nat>): Option<seq<Bytes>>
    decreases Unseen(p, visited)
  {
    if o in visited || o >= |p| then None
    else
      assert o in Unseen(p, visited) && o !in Unseen(p, visited + {o});
      if IsPointer(p[o]) then if o + 1 < |p| then Read(p, Target(p, o), visited + {o}) else None
      else if p[o] == 0 then Some([])
      else if LabelAt(p, o) then
        match Read(p, o + 1 + p[o] as int, visited + {o})
        case None => None
        case Some(rest) => Some([Label(p, o)] + rest)
      else None
  }

  /** The labels of the name at `o`, if the reader accepts it. */
  function Name(p: Bytes, o: nat): Option<seq<Bytes>> {
    var visited: set<nat> := {};
    Read(p, o, visited)
  }

  /** What the reader accepts is a name. */
  lemma {:induction false} ReadSound(p: Bytes, o: nat, visited: set<nat>) returns (n: nat)
    requires Read(p, o, visited).Some?
    ensures Spells(p, o, Read(p, o, visited).value, n)
    decreases Unseen(p, visited)
  {
    assert o in Unseen(p, visited) && o !in Unseen(p, visited + {o});
    if IsPointer(p[o]) {
      var m := ReadSound(p, Target(p, o), visited + {o});
      n := m + 1;
    } else if p[o] == 0 {
      n := 1;
    } else {
      var m := ReadSound(p, o + 1 + p[o] as int, visited + {o});
      var rest := Read(p, o + 1 + p[o] as int, visited + {o}).value;
      assert ([Label(p, o)] + rest)[1..] == rest;
      n := m + 1;
    }
  }

  /** Everything seen so far takes more steps than `n`, so a name of `n` steps does not come back to it. */
  ghost predicate Ahead(p: Bytes, visited: set<nat>, n: nat) {
    forall v: nat, labels: seq<Bytes>, m: nat :: v in visited && Spells(p, v, labels, m) ==> m > n
  }

  /** Every name is accepted: the reader's guard against loops stops no name. */
  lemma {:induction false} ReadComplete(p: Bytes, o: nat, visited: set<nat>, labels: seq<Bytes>, n: nat)
    requires Spells(p, o, labels, n) && Ahead(p, visited, n)
    ensures Read(p, o, visited) == Some(labels)
    decreases n
  {
    assert o in Unseen(p, visited) && o !in Unseen(p, visited + {o});
    if IsPointer(p[o]) || p[o] != 0 {
      forall v: nat, ls: seq<Bytes>, m: nat | v in visited + {o} && Spells(p, v, ls, m)
        ensures m > n - 1
      {
        if v == o {
          SpellingUnique(p, o, labels, n, ls, m);
        }
      }
      if IsPointer(p[o]) {
        ReadComplete(p, Target(p, o), visited + {o}, labels, n - 1);
      } else {
        ReadComplete(p, o + 1 + p[o] as int, visited + {o}, labels[1..], n - 1);
        assert [labels[0]] + labels[1..] == labels;
      }
    }
  }

  /** The reader accepts exactly the names, and a packet's loops exactly make it refuse. */
  lemma ReadExact(p: Bytes, o: nat, labels: seq<Bytes>)
    ensures Name(p, o) == Some(labels) <==> Names(p, o, labels)
  {
    var visited: set<nat> := {};
    if Name(p, o) == Some(labels) {
      var n := ReadSound(p, o, visited);
      assert Spells(p, o, labels, n);
    }
    if Names(p, o, labels) {
      var n: nat :| Spells(p, o, labels, n);
      ReadComplete(p, o, visited, labels, n);
    }
  }

  // ----- the loop -----

  lemma {:induction false} SmallSet(s: set<nat>, n: nat)
    requires forall i :: i in s ==> i < n
    ensures |s| <= n
  {
    if n == 0 {
      assert s == {};
    } else {
      SmallSet(s - {n - 1}, n - 1);
    }
  }

  lemma NameIsRead(p: Bytes, o: nat)
    ensures Name(p, o) == Read(p, o, {})
  {
    var visited: set<nat> := {};
    assert Name(p, o) == Read(p, o, visited);
  }

  /** One step of the reader. */
  lemma ReadStep(p: Bytes, o: nat, visited: set<nat>)
    ensures o in visited || o >= |p| ==> Read(p, o, visited) == None
    ensures o !in visited && o < |p| ==>
              Read(p, o, visited)
              == if IsPointer(p[o]) then if o + 1 < |p| then Read(p, Target(p, o), visited + {o}) else None
                 else if p[o] == 0 then Some([])
                 else if LabelAt(p, o) then After([Label(p, o)], Read(p, o + 1 + p[o] as int, visited + {o}))
                 else None
  {
    hide LabelAt;
  }

  lemma EndStep(p: Bytes, o: nat)
    requires o < |p|
    ensures EndAt(p, o)
         == if IsPointer(p[o]) then if o + 1 < |p| then Some(o + 2) else None
            else if p[o] == 0 then Some(o + 1)
            else if o + 1 + p[o] as int <= |p| then EndAt(p, o + 1 + p[o] as int)
            else None
  {
  }

  lemma UnseenShrinks(p: Bytes, o: nat, visited: set<nat>)
    requires o < |p| && o !in visited
    ensures Unseen(p, visited + {o}) < Unseen(p, visited)
  {
    assert o in Unseen(p, visited) && o !in Unseen(p, visited + {o});
  }

  lemma LabelInside(p: Bytes, o: nat)
    requires LabelAt(p, o)
    ensures o + 1 + p[o] as int <= |p| && Label(p, o) == p[o + 1..o + 1 + p[o] as int]
  {
  }

  /** `dns_name`: the rendered name and the offset after it, or a refusal; within |packet| steps. */
  method ReadName(packet: Bytes, start: nat) returns (r: Option<(Bytes, nat)>, steps: nat)
    ensures steps <= |packet|
    ensures r.Some? <==> Name(packet, start).Some?
    ensures r.Some? ==> r.value.0 == Render(Name(packet, start).value) && Some(r.value.1) == EndAt(packet, start)
  {
    hide Read, Name, EndAt, Unseen, LabelAt, Render;
    var labels: seq<Bytes>, end: Option<nat>, visited: set<nat>, offset: nat := [], None, {}, start;
    steps := 0;
    AfterNone(Name(packet, start));
    NameIsRead(packet, start);
    while true
      invariant |visited| == steps && forall v :: v in visited ==> v < |packet|
      invariant After(labels, Read(packet, offset, visited)) == Name(packet, start)
      invariant if end.Some? then end == EndAt(packet, start) else EndAt(packet, offset) == EndAt(packet, start)
      decreases Unseen(packet, visited)
    {
      SmallSet(visited, |packet|);
      ReadStep(packet, offset, visited);
      if offset in visited || offset >= |packet| {
        return None, steps;
      }
      ghost var at := offset;
      EndStep(packet, at);
      UnseenShrinks(packet, at, visited);
      visited := visited + {offset};
      SmallSet(visited, |packet|);
      steps := steps + 1;
      var length := packet[offset];
      offset := offset + 1;
      if IsPointer(length) {
        if offset >= |packet| {
          return None, steps;
        }
        if end.None? {
          end := Some(offset + 1);
        }
        offset := Target(packet, offset - 1);
      } else if length == 0 {
        assert labels + [] == labels;
        return Some((Render(labels), if end.Some? then end.value else offset)), steps;
      } else {
        if !LabelAt(packet, offset - 1) {
          return None, steps;
        }
        LabelInside(packet, at);
        AfterOne(labels, Label(packet, at), Read(packet, offset + length as int, visited));
        labels := labels + [Label(packet, offset - 1)];
        offset := offset + length as int;
      }
    }
  }

  // ----- the encoder and compression -----

  function Prefixed(text: Bytes): Bytes
    requires |text| < 0x100
  {
    var size: byte := |text|;
    [size] + text
  }

  /** The query encoder: each label after its length. */
  function EncodeLabels(labels: seq<Bytes>): Bytes
    requires forall i :: 0 <= i < |labels| ==> |labels[i]| < 0x100
  {
    if labels == [] then [] else Prefixed(labels[0]) + EncodeLabels(labels[1..])
  }

  lemma LabelThen(p: Bytes, o: nat, text: Bytes, rest: seq<Bytes>, n: nat)
    requires IsLabel(text) && At(p, o, Prefixed(text)) && Spells(p, o + 1 + |text|, rest, n)
    ensures Spells(p, o, [text] + rest, n + 1)
    ensures EndAt(p, o) == EndAt(p, o + 1 + |text|)
  {
    var next := o + 1 + |text|;
    assert p[o..next][0] == p[o] && p[o..next][1..] == p[o + 1..next];
    assert LabelAt(p, o) && Label(p, o) == text;
    assert ([text] + rest)[1..] == rest;
  }

  /** Encoded labels standing in a packet are read as themselves in front of whatever name follows. */
  lemma {:induction false} LabelsThen(p: Bytes, o: nat, labels: seq<Bytes>, rest: seq<Bytes>, n: nat)
    requires AreLabels(labels)
    requires At(p, o, EncodeLabels(labels)) && Spells(p, o + |EncodeLabels(labels)|, rest, n)
    ensures Spells(p, o, labels + rest, |labels| + n)
    ensures EndAt(p, o) == EndAt(p, o + |EncodeLabels(labels)|)
    decreases |labels|
  {
    hide Spells, EndAt, At;
    if labels == [] {
      assert labels + rest == rest;
    } else {
      var head, tail := Prefixed(labels[0]), EncodeLabels(labels[1..]);
      AtSplit(p, o, head, tail);
      LabelsThen(p, o + |head|, labels[1..], rest, n);
      LabelThen(p, o, labels[0], labels[1..] + rest, |labels| - 1 + n);
      assert [labels[0]] + (labels[1..] + rest) == labels + rest;
    }
  }

  lemma ZeroEnds(p: Bytes, o: nat)
    requires o < |p| && p[o] == 0
    ensures Spells(p, o, [], 1) && EndAt(p, o) == Some(o + 1)
  {
  }

  /** Every label a name is spelled with is one. */
  lemma {:induction false} SpelledLabels(p: Bytes, o: nat, labels: seq<Bytes>, n: nat)
    requires Spells(p, o, labels, n)
    ensures AreLabels(labels)
    decreases n
  {
    if IsPointer(p[o]) {
      SpelledLabels(p, Target(p, o), labels, n - 1);
    } else if p[o] != 0 {
      SpelledLabels(p, o + 1 + p[o] as int, labels[1..], n - 1);
      assert forall i :: 0 < i < |labels| ==> labels[i] == labels[1..][i - 1];
    }
  }

  lemma EncodedNames(pre: Bytes, labels: seq<Bytes>, post: Bytes)
    requires AreLabels(labels)
    ensures var p := pre + (EncodeLabels(labels) + [0]) + post;
            Names(p, |pre|, labels) && EndAt(p, |pre|) == Some(|pre| + |EncodeLabels(labels)| + 1)
  {
    hide Spells, EndAt, EncodeLabels;
    var code := EncodeLabels(labels);
    var p := pre + (code + [0]) + post;
    assert p[|pre|..|pre| + |code|] == code && p[|pre| + |code|] == 0;
    ZeroEnds(p, |pre| + |code|);
    var none: seq<Bytes> := [];
    LabelsThen(p, |pre|, labels, none, 1);
    assert labels + none == labels;
    assert Names(p, |pre|, labels);
  }

  /** The two bytes of a pointer to `q`. */
  function Pointer(q: nat): (p: Bytes)
    requires q < 0x4000
    ensures |p| == 2 && IsPointer(p[0]) && Target(p, 0) == q
  {
    var (high: byte, low: byte) := (0xC0 + q / 0x100, q % 0x100);
    [high, low]
  }

  lemma PointerNames(p: Bytes, o: nat, q: nat, suffix: seq<Bytes>, n: nat)
    requires q < 0x4000 && At(p, o, Pointer(q)) && Spells(p, q, suffix, n)
    ensures Spells(p, o, suffix, n + 1) && EndAt(p, o) == Some(o + 2)
  {
    assert p[o..o + 2][0] == p[o] && p[o..o + 2][1] == p[o + 1];
    assert Target(p, o) == q;
  }

  /** Replacing a name's suffix by a pointer to an equal suffix elsewhere in the packet gives the same
      labels, and the name ends just past the pointer. */
  lemma SuffixCompressed(p: Bytes, o: nat, labels: seq<Bytes>, q: nat, suffix: seq<Bytes>, n: nat)
    requires AreLabels(labels)
    requires q < 0x4000 && Spells(p, q, suffix, n)
    requires At(p, o, EncodeLabels(labels) + Pointer(q))
    ensures Name(p, o) == Some(labels + suffix)
    ensures EndAt(p, o) == Some(o + |EncodeLabels(labels)| + 2)
  {
    hide Spells, EndAt, Name, EncodeLabels, Pointer;
    var code, pointer := EncodeLabels(labels), Pointer(q);
    AtSplit(p, o, code, pointer);
    PointerNames(p, o + |code|, q, suffix, n);
    LabelsThen(p, o, labels, suffix, n + 1);
    assert Names(p, o, labels + suffix);
    ReadExact(p, o, labels + suffix);
  }

  // ----- the query -----

  /** UTF-8. */
  function Utf8(c: char): Bytes {
    var n := c as int;
    if n < 0x80 then [n]
    else if n < 0x800 then [0xC0 + n / 0x40, 0x80 + n % 0x40]
    else if n < 0x1_0000 then [0xE0 + n / 0x1000, 0x80 + n / 0x40 % 0x40, 0x80 + n % 0x40]
    else [0xF0 + n / 0x4_0000 % 8, 0x80 + n / 0x1000 % 0x40, 0x80 + n / 0x40 % 0x40, 0x80 + n % 0x40]
  }

  function Encoded(s: string): Bytes {
    if s == "" then [] else Utf8(s[0]) + Encoded(s[1..])
  }

  predicate IsAscii(s: string) { forall i :: 0 <= i < |s| ==> s[i] as int < 0x80 }

  /** A part of a host name that is a label: between 1 and 63 ASCII characters. */
  predicate IsPart(s: string) { 0 < |s| <= MAX_LABEL && IsAscii(s) }

  predicate AreParts(parts: seq<string>): (b: bool)
    ensures b ==> forall i :: 0 <= i < |parts| ==> |parts[i]| < 0x100
  {
    forall i :: 0 <= i < |parts| ==> IsPart(parts[i])
  }

  function EncodedParts(parts: seq<string>): (labels: seq<Bytes>)
    ensures |labels| == |parts| && forall i :: 0 <= i < |parts| ==> labels[i] == Encoded(parts[i])
  {
    seq(|parts|, i requires 0 <= i < |parts| => Encoded(parts[i]))
  }

  /** The query encoder: the bytes of each part after its length in characters, which must fit one byte. */
  function Query(parts: seq<string>): Bytes
    requires forall i :: 0 <= i < |parts| ==> |parts[i]| < 0x100
  {
    if parts == [] then []
    else
      var size: byte := |parts[0]|;
      [size] + Encoded(parts[0]) + Query(parts[1..])
  }

  /** Exactly the ASCII characters have ASCII encodings, of one byte each. */
  lemma {:induction false} AsciiEncoded(s: string)
    ensures |Encoded(s)| >= |s|
    ensures IsAscii(s) <==> forall i :: 0 <= i < |Encoded(s)| ==> Encoded(s)[i] < 0x80
    ensures IsAscii(s) ==> |Encoded(s)| == |s| && forall i :: 0 <= i < |s| ==> Encoded(s)[i] == s[i] as int
  {
    if s != "" {
      AsciiEncoded(s[1..]);
      var head, tail := Utf8(s[0]), Encoded(s[1..]);
      assert Encoded(s) == head + tail && |head| >= 1;
      assert forall i :: 0 < i < |s| ==> s[i] == s[1..][i - 1];
      assert forall i :: 0 <= i < |tail| ==> Encoded(s)[|head| + i] == tail[i];
      assert Encoded(s)[0] == head[0] && (head[0] < 0x80 <==> s[0] as int < 0x80);
    }
  }

  /** The encoding of a part is a label exactly when the part is one. */
  lemma PartIsLabel(s: string)
    ensures IsLabel(Encoded(s)) <==> IsPart(s)
  {
    AsciiEncoded(s);
  }

  /** A query of labels is those labels, encoded. */
  lemma {:induction false} QueryLabels(parts: seq<string>)
    requires AreParts(parts)
    ensures AreLabels(EncodedParts(parts)) && Query(parts) == EncodeLabels(EncodedParts(parts))
    decreases |parts|
  {
    hide Encoded, IsLabel;
    forall i | 0 <= i < |parts|
      ensures IsLabel(Encoded(parts[i]))
    {
      PartIsLabel(parts[i]);
    }
    if parts != [] {
      QueryLabels(parts[1..]);
      AsciiEncoded(parts[0]);
      LabelLength(EncodedParts(parts));
      assert EncodedParts(parts)[1..] == EncodedParts(parts[1..]);
    }
  }

  lemma LabelLength(labels: seq<Bytes>)
    requires AreLabels(labels)
    ensures forall i :: 0 <= i < |labels| ==> |labels[i]| < 0x100
  {
  }

  /** Reading gives back the encoded parts of a query, wherever it stands in a packet, if and only if every part has
      between 1 and 63 ASCII characters; and then the name ends just past the zero. */
  lemma EncoderInverted(pre: Bytes, parts: seq<string>, post: Bytes)
    requires forall i :: 0 <= i < |parts| ==> |parts[i]| < 0x100
    ensures var p := pre + (Query(parts) + [0]) + post;
            && (Name(p, |pre|) == Some(EncodedParts(parts)) <==> AreParts(parts))
            && (Name(p, |pre|) == Some(EncodedParts(parts)) ==> EndAt(p, |pre|) == Some(|pre| + |Query(parts)| + 1))
  {
    hide Spells, EndAt, Name, EncodeLabels, Query, Encoded, IsLabel, IsPart;
    var p, labels := pre + (Query(parts) + [0]) + post, EncodedParts(parts);
    ReadExact(p, |pre|, labels);
    if AreParts(parts) {
      QueryLabels(parts);
      EncodedNames(pre, labels, post);
    }
    if Names(p, |pre|, labels) {
      var n: nat :| Spells(p, |pre|, labels, n);
      SpelledLabels(p, |pre|, labels, n);
      forall i | 0 <= i < |parts|
        ensures IsPart(parts[i])
      {
        assert IsLabel(labels[i]);
        PartIsLabel(parts[i]);
      }
    }
  }

  /** `hostname.split('.')`. */
  function Parts(s: string): (parts: seq<string>)
    ensures parts != []
    decreases |s|
  {
    var n := Upto(s);
    if n == |s| then [s] else [s[..n]] + Parts(s[n + 1..])
  }

  /** The length of the part a host name starts with. */
  function Upto(s: string): (n: nat)
    ensures n <= |s| && '.' !in s[..n] && (n < |s| ==> s[n] == '.')
  {
    if s == "" || s[0] == '.' then 0
    else
      assert s[..Upto(s[1..]) + 1] == [s[0]] + s[1..][..Upto(s[1..])];
      Upto(s[1..]) + 1
  }

  lemma {:induction false} EncodedConcat(s: string, t: string)
    ensures Encoded(s + t) == Encoded(s) + Encoded(t)
  {
    if s == "" {
      assert s + t == t;
    } else {
      assert (s + t)[1..] == s[1..] + t;
      EncodedConcat(s[1..], t);
    }
  }

  lemma LowerConcat(a: Bytes, b: Bytes)
    ensures Lower(a + b) == Lower(a) + Lower(b)
  {
  }

  /** Joining the parts with dots gives the host name back, in lower case. */
  lemma {:induction false} PartsJoined(s: string)
    ensures Render(EncodedParts(Parts(s))) == Lower(Encoded(s))
    decreases |s|
  {
    hide Encoded, Lower, Render, EncodedParts;
    var n := Upto(s);
    if n == |s| {
      OnePart(s);
    } else {
      var rest := s[n + 1..];
      PartsJoined(rest);
      PartThen(s[..n], Parts(rest));
      DotBetween(s[..n], rest);
      assert s == s[..n] + ("." + rest);
    }
  }

  lemma OnePart(s: string)
    ensures Render(EncodedParts([s])) == Lower(Encoded(s))
  {
    hide Encoded, Lower;
  }

  lemma PartThen(part: string, parts: seq<string>)
    requires parts != []
    ensures Render(EncodedParts([part] + parts)) == Lower(Encoded(part)) + [46] + Render(EncodedParts(parts))
  {
    hide Encoded, Lower;
    assert EncodedParts([part] + parts)[1..] == EncodedParts(parts);
  }

  lemma DotBetween(a: string, b: string)
    ensures Lower(Encoded(a + ("." + b))) == Lower(Encoded(a)) + [46] + Lower(Encoded(b))
  {
    hide Encoded, Lower;
    EncodedConcat(a, "." + b);
    EncodedConcat(".", b);
    DotEncoded();
    var dot: Bytes := [46];
    LowerConcat(Encoded(a), dot + Encoded(b));
    LowerConcat(dot, Encoded(b));
    assert Lower(Encoded(a)) + (dot + Lower(Encoded(b))) == Lower(Encoded(a)) + dot + Lower(Encoded(b));
  }

  lemma DotEncoded()
    ensures Encoded(".") == [46] && Lower([46]) == [46]
  {
    assert "."[1..] == "" && Encoded("") == [];
    assert Encoded(".") == Utf8('.') + Encoded("."[1..]);
  }

  /** The name read from the query for a host name is that host name in lower case, the text answers are compared to. */
  lemma HostRead(pre: Bytes, host: string, post: Bytes)
    requires AreParts(Parts(host))
    ensures var p := pre + (Query(Parts(host)) + [0]) + post;
            Name(p, |pre|).Some? && Render(Name(p, |pre|).value) == Lower(Encoded(host))
  {
    hide Name, Query, Parts, Render, EndAt;
    EncoderInverted(pre, Parts(host), post);
    PartsJoined(host);
  }
}

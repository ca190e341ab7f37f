/** Exactly which messages the writer accepts: the frame, value, depth and descriptor limits, and nothing else. */
module BusLimits {
  import opened Common
  import opened Decimal
  import opened DBusTypes
  import opened DBusValues
  import opened BusDescriptors
  import opened BusCodec

  // ----- what a value needs -----

  /** No negative descriptor and no non-finite double anywhere in the tree. */
  predicate Sound(v: Value)
    decreases Nodes(v), 0
  {
    NodesOfChildren(v);
    (v.Handle? ==> v.fd >= 0) && v != Real(NonFinite) && SoundAll(Children(v))
  }

  predicate SoundAll(vs: seq<Value>)
    decreases NodesAll(vs), 1
  {
    vs == [] || (Sound(vs[0]) && SoundAll(vs[1..]))
  }

  /** Descriptors in a tree. */
  function Handles(v: Value): nat
    decreases Nodes(v), 0
  {
    NodesOfChildren(v);
    if v.Handle? then 1 else HandlesAll(Children(v))
  }

  function HandlesAll(vs: seq<Value>): nat
    decreases NodesAll(vs), 1
  {
    if vs == [] then 0 else Handles(vs[0]) + HandlesAll(vs[1..])
  }

  function TextSize(s: Bytes): nat { 4 + |s| }

  function HeaderSize(v: Value): nat { (if v.VariantOf? then TextSize(Print(TypeOf(v.child))) else 0) + 4 }

  /** Bytes of a value on the wire, when `next` serials have been issued before it. */
  function Size(v: Value, next: nat, dbl: Doubles): nat
    decreases Nodes(v), 1
  {
    TextSize(Print(TypeOf(v))) + BodySize(v, next, dbl)
  }

  function BodySize(v: Value, next: nat, dbl: Doubles): nat
    decreases Nodes(v), 0
  {
    NodesOfChildren(v);
    if IsContainer(v) then HeaderSize(v) + SizeAll(Children(v), next, dbl)
    else if v.Handle? then TextSize(BusDescriptors.Handle(next + 1))
    else match ScalarText(v, dbl) case Some(text) => TextSize(text) case None => 0
  }

  function SizeAll(vs: seq<Value>, next: nat, dbl: Doubles): nat
    decreases NodesAll(vs), 2
  {
    if vs == [] then 0 else Size(vs[0], next, dbl) + SizeAll(vs[1..], next + Handles(vs[0]), dbl)
  }

  /** Free slots. */
  function Free(fd: seq<int>): nat {
    if fd == [] then 0 else (if fd[0] < 0 then 1 else 0) + Free(fd[1..])
  }

  /** The writer has room for so many bytes, values and descriptors, and the nesting is within its limit. */
  predicate Room(w: Writer, bytes: nat, nodes: nat, levels: nat, handles: nat) {
    && !w.failed && |w.bytes| + bytes <= FRAME_LIMIT && w.values + nodes <= VALUE_LIMIT && levels <= DEPTH_LIMIT
    && handles <= Free(w.fds.fd) && w.fds.next + handles <= UINT64_MAX
  }

  ghost predicate Took(w: Writer, w': Writer, bytes: nat, nodes: nat, handles: nat) {
    && !w'.failed && |w'.bytes| == |w.bytes| + bytes && w'.values == w.values + nodes
    && w'.fds.next == w.fds.next + handles && Free(w'.fds.fd) + handles == Free(w.fds.fd)
  }

  // ----- slots -----

  lemma {:induction false} FreeUpdate(fd: seq<int>, i: nat, x: int)
    requires i < |fd| && fd[i] < 0 && x >= 0
    ensures Free(fd[i := x]) + 1 == Free(fd)
  {
    if i > 0 {
      assert fd[i := x][1..] == fd[1..][i - 1 := x];
      FreeUpdate(fd[1..], i - 1, x);
    }
  }

  lemma {:induction false} FreeNone(fd: seq<int>)
    ensures Free(fd) == 0 <==> forall i :: 0 <= i < |fd| ==> fd[i] >= 0
  {
    if fd != [] {
      FreeNone(fd[1..]);
      assert forall i :: 0 < i < |fd| ==> fd[i] == fd[1..][i - 1];
    }
  }

  /** A descriptor finds a place exactly when it is one, a slot is free and a serial is left. */
  lemma InsertRoom(f: Table, x: int)
    requires Sized(f)
    ensures var (id, g) := Insert(f, x);
            && (id.Some? <==> x >= 0 && Free(f.fd) >= 1 && f.next + 1 <= UINT64_MAX)
            && (id.Some? ==> id.value == f.next + 1 == g.next && Free(g.fd) + 1 == Free(f.fd))
  {
    hide Free;
    var slot := FreeSlot(f.fd, |f.fd|);
    FreeNone(f.fd);
    if slot < FD_LIMIT && x >= 0 {
      FreeUpdate(f.fd, slot, x);
    }
  }

  // ----- the exact condition -----

  lemma PutTextRoom(w: Writer, s: Bytes)
    requires |w.bytes| <= FRAME_LIMIT
    ensures var w' := PutText(w, s);
            && (!w'.failed <==> !w.failed && |w.bytes| + TextSize(s) <= FRAME_LIMIT)
            && (!w'.failed ==> |w'.bytes| == |w.bytes| + TextSize(s)) && |w'.bytes| <= FRAME_LIMIT
  {}

  lemma HeaderRoom(w: Writer, v: Value)
    requires |w.bytes| <= FRAME_LIMIT
    ensures var w' := WriteContainer(w, v);
            && (!w'.failed <==> !w.failed && |w.bytes| + HeaderSize(v) <= FRAME_LIMIT)
            && (!w'.failed ==> |w'.bytes| == |w.bytes| + HeaderSize(v)) && |w'.bytes| <= FRAME_LIMIT
            && w'.values == w.values && w'.fds == w.fds
  {
    if v.VariantOf? {
      PutTextRoom(w, Print(TypeOf(v.child)));
    }
  }

  /** A value is written at any depth exactly when it is sound and there is room for it; then it takes just that. */
  lemma {:induction false} ValueAccepted(w: Writer, v: Value, depth: nat, dbl: Doubles)
    requires Sized(w.fds) && w.fds.next <= UINT64_MAX && |w.bytes| <= FRAME_LIMIT
    ensures var (ok, w') := WriteValue(w, v, depth, dbl);
            var size := Size(v, w.fds.next, dbl);
            && (ok <==> Sound(v) && Room(w, size, Nodes(v), depth + Height(v), Handles(v)))
            && (ok ==> Took(w, w', size, Nodes(v), Handles(v)))
    decreases Nodes(v), 1
  {
    hide PutText, Print, TypeOf, WriteBody, BodySize, Sound, Handles, Free;
    NodesOfChildren(v);
    if depth <= DEPTH_LIMIT && w.values + 1 <= VALUE_LIMIT {
      var w0 := w.(values := w.values + 1);
      var w1 := PutText(w0, Print(TypeOf(v)));
      PutTextRoom(w0, Print(TypeOf(v)));
      BodyAccepted(w1, v, depth, dbl);
    }
  }

  lemma {:induction false} BodyAccepted(w: Writer, v: Value, depth: nat, dbl: Doubles)
    requires Sized(w.fds) && w.fds.next <= UINT64_MAX && |w.bytes| <= FRAME_LIMIT && w.values <= VALUE_LIMIT
    requires depth <= DEPTH_LIMIT
    ensures var (ok, w') := WriteBody(w, v, depth, dbl);
            var size := BodySize(v, w.fds.next, dbl);
            && (ok <==> Sound(v) && Room(w, size, Nodes(v) - 1, depth + Height(v), Handles(v)))
            && (ok ==> Took(w, w', size, Nodes(v) - 1, Handles(v)))
    decreases Nodes(v), 0
  {
    hide Sound, Handles, BodySize, Nodes, Height, WriteContainer, WriteAll, WriteScalar;
    hide SizeAll, HeightAll, NodesAll, SoundAll, HandlesAll, Free, Children;
    if IsContainer(v) {
      ContainerNeeds(v, w.fds.next, dbl);
      HeaderRoom(w, v);
      AllAccepted(WriteContainer(w, v), Children(v), depth + 1, dbl);
    } else {
      LeafShape(v);
      ScalarAccepted(w, v, dbl);
    }
  }

  lemma ContainerNeeds(v: Value, next: nat, dbl: Doubles)
    requires IsContainer(v)
    ensures Sound(v) == SoundAll(Children(v)) && Handles(v) == HandlesAll(Children(v))
    ensures BodySize(v, next, dbl) == HeaderSize(v) + SizeAll(Children(v), next, dbl)
    ensures Nodes(v) == 1 + NodesAll(Children(v))
    ensures Height(v) == if Children(v) == [] then 0 else 1 + HeightAll(Children(v))
  {
    hide SoundAll, HandlesAll, SizeAll, HeightAll, NodesAll, HeaderSize;
    NodesOfChildren(v);
  }

  lemma LeafNeeds(v: Value, next: nat, dbl: Doubles)
    requires !IsContainer(v)
    ensures v.Handle? ==> Handles(v) == 1 && (Sound(v) <==> v.fd >= 0)
    ensures v.Handle? ==> BodySize(v, next, dbl) == TextSize(BusDescriptors.Handle(next + 1))
    ensures !v.Handle? ==> Handles(v) == 0 && (Sound(v) <==> ScalarText(v, dbl).Some?)
    ensures !v.Handle? && Sound(v) ==> BodySize(v, next, dbl) == TextSize(ScalarText(v, dbl).value)
  {
    hide BusDescriptors.Handle;
    assert Children(v) == [];
  }

  lemma LeafShape(v: Value)
    requires !IsContainer(v)
    ensures Nodes(v) == 1 && Height(v) == 0
  {
    NodesOfChildren(v);
  }

  lemma ScalarAccepted(w: Writer, v: Value, dbl: Doubles)
    requires Sized(w.fds) && w.fds.next <= UINT64_MAX && |w.bytes| <= FRAME_LIMIT && w.values <= VALUE_LIMIT
    requires !IsContainer(v)
    ensures var (ok, w') := WriteScalar(w, v, dbl);
            var size := BodySize(v, w.fds.next, dbl);
            && (ok <==> Sound(v) && Room(w, size, 0, 0, Handles(v)))
            && (ok ==> Took(w, w', size, 0, Handles(v)))
  {
    hide PutText, Insert, Free, BusDescriptors.Handle;
    LeafNeeds(v, w.fds.next, dbl);
    hide Sound, Handles, BodySize, ScalarText;
    if v.Handle? {
      InsertRoom(w.fds, v.fd);
      PutTextRoom(w.(fds := Insert(w.fds, v.fd).1), BusDescriptors.Handle(w.fds.next + 1));
    } else if ScalarText(v, dbl).Some? {
      PutTextRoom(w, ScalarText(v, dbl).value);
    }
  }

  lemma {:induction false} AllAccepted(w: Writer, vs: seq<Value>, depth: nat, dbl: Doubles)
    requires Sized(w.fds) && w.fds.next <= UINT64_MAX && |w.bytes| <= FRAME_LIMIT && w.values <= VALUE_LIMIT
    ensures var (ok, w') := WriteAll(w, vs, depth, dbl);
            var size := SizeAll(vs, w.fds.next, dbl);
            && (ok <==> SoundAll(vs)
                        && Room(w, size, NodesAll(vs), if vs == [] then 0 else depth + HeightAll(vs), HandlesAll(vs)))
            && (ok ==> Took(w, w', size, NodesAll(vs), HandlesAll(vs)))
    decreases NodesAll(vs), 2
  {
    hide WriteValue, Size, Sound, Handles, Height, Nodes, Free;
    if vs != [] {
      ValueAccepted(w, vs[0], depth, dbl);
      var (ok, w1) := WriteValue(w, vs[0], depth, dbl);
      if ok {
        AllAccepted(w1, vs[1..], depth, dbl);
      }
    }
  }

  /** A message is written exactly when no descriptor in it is negative and no double non-finite, its bytes fit the
      frame, its values are within 16384 and its nesting within 32, and the table has a free slot and an unused serial
      for each of its descriptors. */
  lemma MessageAccepted(w: Writer, vs: seq<Value>, dbl: Doubles)
    requires Valid(w.fds) && |w.bytes| <= FRAME_LIMIT && w.values <= VALUE_LIMIT
    ensures var (ok, w') := WriteValues(w, vs, dbl);
            var size := 4 + SizeAll(vs, w.fds.next, dbl);
            && (ok <==> SoundAll(vs) && Room(w, size, NodesAll(vs), HeightAll(vs), HandlesAll(vs)))
            && (ok ==> Took(w, w', size, NodesAll(vs), HandlesAll(vs)))
  {
    hide WriteAll, SizeAll, SoundAll, HandlesAll, Free;
    AllAccepted(PutU32(w, |vs|), vs, 0, dbl);
  }
}

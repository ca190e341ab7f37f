/** The import directory of the guest file server: paths walked one component at a time without
    following links, and trees removed beneath it. Nodes are inodes, so a link may point anywhere. */
module GuestTree {
  import opened Common

  type Id = nat
  type Name = Bytes

  datatype Node = Dir(entries: map<Name, Id>) | File(content: Bytes) | Link(target: Bytes)
  type Fs = map<Id, Node>

  /** Entries lead to nodes, and directories form no cycles: a directory lies deeper than the
      directories that hold it. */
  ghost predicate WellFormed(fs: Fs, depth: map<Id, nat>, limit: nat): (good: bool)
    ensures good ==> depth.Keys == fs.Keys
  {
    && depth.Keys == fs.Keys
    && (forall d, n :: d in fs && fs[d].Dir? && n in fs[d].entries ==> Below(fs, depth, limit, d, fs[d].entries[n]))
    && (forall d :: d in fs ==> depth[d] <= limit)
  }

  ghost predicate Below(fs: Fs, depth: map<Id, nat>, limit: nat, d: Id, c: Id)
    requires d in fs && depth.Keys == fs.Keys
  {
    c in fs && (fs[c].Dir? ==> depth[d] < depth[c] <= limit)
  }

  /** `s` holds, with each of its directories, the directories inside it. The least such set around
      a directory is what lies beneath it; links do not count. */
  ghost predicate Closed(fs: Fs, s: set<Id>) {
    forall d, n :: d in s && d in fs && fs[d].Dir? && n in fs[d].entries && IsDir(fs, fs[d].entries[n]) ==>
                     fs[d].entries[n] in s
  }

  predicate IsDir(fs: Fs, d: Id) { d in fs && fs[d].Dir? }

  /** The directory a name leads to, links not followed. */
  function Child(fs: Fs, d: Id, n: Name): Option<Id> {
    if IsDir(fs, d) && n in fs[d].entries && IsDir(fs, fs[d].entries[n]) then Some(fs[d].entries[n]) else None
  }

  // ----- path strings -----

  const SLASH: byte := 47
  const DOT: byte := 46
  const BACKSLASH: byte := 92

  function Component(path: Bytes): (c: Bytes)
    ensures c <= path && SLASH !in c && (|c| < |path| ==> path[|c|] == SLASH)
  {
    if path == [] || path[0] == SLASH then [] else [path[0]] + Component(path[1..])
  }

  predicate GoodName(n: Name) { n != [] && n != [DOT] && n != [DOT, DOT] && SLASH !in n }

  /** Where a relative path leads: the directory of its last component, and that component. */
  function Walk(fs: Fs, d: Id, path: Bytes): Option<(Id, Name)>
    decreases |path|
  {
    var c := Component(path);
    if !GoodName(c) then None
    else if |c| == |path| then Some((d, c))
    else
      match Child(fs, d, c)
      case None => None
      case Some(next) => Walk(fs, next, path[|c| + 1..])
  }

  predicate Admissible(path: Bytes) { path != [] && path[0] != SLASH && BACKSLASH !in path }

  /** A walk from a directory of a closed set ends in a directory of that set. */
  lemma {:induction false} WalkStays(fs: Fs, d: Id, path: Bytes, s: set<Id>)
    requires Closed(fs, s) && d in s && IsDir(fs, d)
    ensures var r := Walk(fs, d, path); r.Some? ==> r.value.0 in s && IsDir(fs, r.value.0) && GoodName(r.value.1)
    decreases |path|
  {
    var c := Component(path);
    if GoodName(c) && |c| < |path| && Child(fs, d, c).Some? {
      WalkStays(fs, Child(fs, d, c).value, path[|c| + 1..], s);
    }
  }

  // ----- the disk -----

  /** A file system and the descriptors held open on it. Any call may be denied by the environment. */
  class Disk {
    var fs: Fs
    ghost var depth: map<Id, nat>
    ghost var limit: nat
    ghost var open: multiset<Id>
    var unused: Id
    var calls: nat
    const deny: nat -> bool

    ghost predicate Valid()
      reads this
    {
      WellFormed(fs, depth, limit) && forall d :: d in fs ==> d < unused
    }

    constructor (fs: Fs, ghost depth: map<Id, nat>, ghost limit: nat, unused: Id, deny: nat -> bool)
      requires WellFormed(fs, depth, limit) && forall d :: d in fs ==> d < unused
      ensures Valid() && this.fs == fs && open == multiset{} && this.deny == deny
    {
      this.fs, this.depth, this.limit, this.unused, this.deny := fs, depth, limit, unused, deny;
      open, calls := multiset{}, 0;
    }

    method Denied() returns (b: bool)
      modifies this
      ensures fs == old(fs) && depth == old(depth) && limit == old(limit) && open == old(open) && unused == old(unused)
      ensures (forall k :: !deny(k)) ==> !b
    {
      b := deny(calls);
      calls := calls + 1;
    }

    /** `openat` with O_DIRECTORY and O_NOFOLLOW. */
    method OpenDir(parent: Id, n: Name) returns (fd: Option<Id>)
      requires Valid() && IsDir(fs, parent)
      modifies this
      ensures Valid() && fs == old(fs) && depth == old(depth) && limit == old(limit) && unused == old(unused)
      ensures fd.Some? ==> fd == Child(fs, parent, n) && open == old(open) + multiset{fd.value}
      ensures fd.None? ==> open == old(open)
      ensures (forall k :: !deny(k)) ==> fd == Child(fs, parent, n)
    {
      var denied := Denied();
      fd := if denied then None else Child(fs, parent, n);
      if fd.Some? {
        open := open + multiset{fd.value};
      }
    }

    method Close(d: Id)
      requires Valid() && d in open
      modifies this
      ensures Valid() && fs == old(fs) && depth == old(depth) && limit == old(limit) && unused == old(unused)
      ensures open == old(open) - multiset{d}
    {
      open := open - multiset{d};
    }

    /** Takes one name out of a directory, if `may`. */
    method Drop(parent: Id, n: Name, may: bool) returns (ok: bool)
      requires Valid() && IsDir(fs, parent)
      modifies this
      ensures Valid() && depth == old(depth) && limit == old(limit) && open == old(open) && unused == old(unused)
      ensures ok ==> may && fs == Without(old(fs), parent, n)
      ensures !ok ==> fs == old(fs)
      ensures may && (forall k :: !deny(k)) ==> ok
    {
      var denied := Denied();
      ok := may && !denied;
      if ok {
        fs := Without(fs, parent, n);
      }
    }

    /** A new node under a name that was free. */
    method Add(parent: Id, n: Name, node: Node) returns (id: Option<Id>)
      requires Valid() && IsDir(fs, parent) && (node.Dir? ==> node.entries == map[])
      modifies this
      ensures Valid() && open == old(open)
      ensures id.Some? ==> n !in old(fs)[parent].entries && id.value !in old(fs)
                           && fs == With(old(fs), parent, n, id.value, node)
      ensures id.None? ==> fs == old(fs)
      ensures n !in old(fs)[parent].entries && (forall k :: !deny(k)) ==> id.Some?
    {
      var denied := Denied();
      if denied || n in fs[parent].entries {
        return None;
      }
      AddWellFormed(fs, depth, limit, parent, n, node, unused);
      id := Some(unused);
      fs := With(fs, parent, n, unused, node);
      depth := depth[unused := depth[parent] + 1];
      limit := if depth[unused] > limit then depth[unused] else limit;
      unused := unused + 1;
    }

    /** `openat` with O_CREAT and O_EXCL: a new empty file, held open. */
    method Create(parent: Id, n: Name) returns (id: Option<Id>)
      requires Valid() && IsDir(fs, parent)
      modifies this
      ensures Valid()
      ensures id.Some? ==>
                && n !in old(fs)[parent].entries && id.value !in old(fs)
                && fs == With(old(fs), parent, n, id.value, File([]))
      ensures id.Some? ==> open == old(open) + multiset{id.value}
      ensures id.None? ==> fs == old(fs) && open == old(open)
      ensures n !in old(fs)[parent].entries && (forall k :: !deny(k)) ==> id.Some?
    {
      hide WellFormed, With;
      id := Add(parent, n, File([]));
      if id.Some? {
        open := open + multiset{id.value};
      }
    }

    /** What was written to a file. */
    method Fill(id: Id, content: Bytes)
      requires Valid() && id in fs && fs[id].File?
      modifies this`fs
      ensures Valid() && fs == old(fs)[id := File(content)]
    {
      hide WellFormed;
      FillWellFormed(fs, depth, limit, id, content);
      fs := fs[id := File(content)];
    }
  }

  /** A new node `id` under the name `n` of `parent`. */
  function With(fs: Fs, parent: Id, n: Name, id: Id, node: Node): Fs
    requires IsDir(fs, parent)
  {
    fs[id := node][parent := Dir(fs[parent].entries[n := id])]
  }

  /** A new leaf under a free name keeps the tree well formed. */
  lemma AddWellFormed(fs: Fs, depth: map<Id, nat>, limit: nat, parent: Id, n: Name, node: Node, id: Id)
    requires WellFormed(fs, depth, limit) && IsDir(fs, parent) && id !in fs && (node.Dir? ==> node.entries == map[])
    ensures var d := depth[id := depth[parent] + 1];
            WellFormed(With(fs, parent, n, id, node), d, if d[id] > limit then d[id] else limit)
  {
    var d := depth[id := depth[parent] + 1];
    var more, most := With(fs, parent, n, id, node), if d[id] > limit then d[id] else limit;
    forall e, m | e in more && more[e].Dir? && m in more[e].entries
      ensures Below(more, d, most, e, more[e].entries[m])
    {
      if e != id && !(e == parent && m == n) {
        assert Below(fs, depth, limit, e, fs[e].entries[m]);
      }
    }
  }

  /** Filling a file keeps the tree well formed. */
  lemma FillWellFormed(fs: Fs, depth: map<Id, nat>, limit: nat, id: Id, content: Bytes)
    requires WellFormed(fs, depth, limit) && id in fs && fs[id].File?
    ensures WellFormed(fs[id := File(content)], depth, limit)
  {
    var filled := fs[id := File(content)];
    forall e, m | e in filled && filled[e].Dir? && m in filled[e].entries
      ensures Below(filled, depth, limit, e, filled[e].entries[m])
    {
      assert Below(fs, depth, limit, e, fs[e].entries[m]);
    }
  }

  function Without(fs: Fs, d: Id, n: Name): Fs
    requires IsDir(fs, d)
  {
    fs[d := Dir(fs[d].entries - {n})]
  }

  // ----- what removal changes -----

  /** Nothing but names disappeared, only inside `s` and for `n` in `parent`, and nothing at
      `parent`'s depth or above except there. */
  ghost predicate Shrunk(was: Fs, fs: Fs, depth: map<Id, nat>, s: set<Id>, parent: Id, n: Name) {
    && was.Keys == fs.Keys == depth.Keys && IsDir(was, parent) && IsDir(fs, parent)
    && (fs[parent].entries == was[parent].entries || fs[parent].entries == was[parent].entries - {n})
    && (forall d :: d in was && d != parent && (d !in s || depth[d] <= depth[parent]) ==> fs[d] == was[d])
    && (forall d :: d in was && d != parent ==> Fewer(was[d], fs[d]))
  }

  predicate Fewer(a: Node, b: Node) {
    if a.Dir? then b.Dir? && forall n :: n in b.entries ==> n in a.entries && a.entries[n] == b.entries[n] else a == b
  }

  lemma ClosedShrinks(was: Fs, fs: Fs, s: set<Id>)
    requires Closed(was, s) && was.Keys == fs.Keys && forall d :: d in was ==> Fewer(was[d], fs[d])
    ensures Closed(fs, s)
  {
    forall d, n | d in s && d in fs && fs[d].Dir? && n in fs[d].entries && IsDir(fs, fs[d].entries[n])
      ensures fs[d].entries[n] in s
    {
      assert Fewer(was[d], fs[d]) && Fewer(was[fs[d].entries[n]], fs[fs[d].entries[n]]);
    }
  }

  lemma DropShrinks(was: Fs, fs: Fs, depth: map<Id, nat>, s: set<Id>, parent: Id, n: Name)
    requires IsDir(was, parent) && depth.Keys == was.Keys && (fs == was || fs == Without(was, parent, n))
    ensures Shrunk(was, fs, depth, s, parent, n)
  {}

  /** Emptying a directory and then dropping its name shrinks just that name and what lies beneath. */
  lemma EmptyDropShrinks(was: Fs, mid: Fs, fs: Fs, depth: map<Id, nat>, s: set<Id>, parent: Id, n: Name, d: Id)
    requires IsDir(was, parent) && depth.Keys == was.Keys == mid.Keys && d in was && depth[parent] < depth[d]
    requires forall e :: e in mid && (e !in s || depth[e] < depth[d]) ==> mid[e] == was[e]
    requires forall e :: e in mid ==> Fewer(was[e], mid[e])
    requires IsDir(mid, parent) && (fs == mid || fs == Without(mid, parent, n))
    ensures Shrunk(was, fs, depth, s, parent, n)
  {
    assert mid[parent] == was[parent];
  }

  /** `remove_tree`: on success the name is gone. Whatever fails, every descriptor is closed again,
      only names in the subtree disappear, and no link is followed. */
  method RemoveTree(k: Disk, parent: Id, n: Name, ghost s: set<Id>) returns (ok: bool)
    requires k.Valid() && IsDir(k.fs, parent) && Closed(k.fs, s)
    requires Child(k.fs, parent, n).Some? ==> Child(k.fs, parent, n).value in s
    modifies k
    ensures k.Valid() && k.open == old(k.open)
    ensures k.depth == old(k.depth) && k.limit == old(k.limit) && k.unused == old(k.unused)
    ensures Shrunk(old(k.fs), k.fs, k.depth, s, parent, n)
    ensures ok ==> n !in k.fs[parent].entries
    ensures (forall i :: !k.deny(i)) ==> ok
    decreases k.limit - k.depth[parent]
  {
    hide Shrunk, Closed, WellFormed;
    var fd := k.OpenDir(parent, n);
    if fd.None? {
      var plain := n in k.fs[parent].entries && !IsDir(k.fs, k.fs[parent].entries[n]);
      var missing := n !in k.fs[parent].entries;
      var gone := k.Drop(parent, n, plain);
      DropShrinks(old(k.fs), k.fs, k.depth, s, parent, n);
      return gone || missing;
    }
    var d := fd.value;
    ChildBelow(k.fs, k.depth, k.limit, parent, n);
    var noStream := k.Denied();
    if noStream {
      k.Close(d);
      DropShrinks(old(k.fs), k.fs, k.depth, s, parent, n);
      return false;
    }
    ok := Empty(k, parent, d, s);
    ghost var mid := k.fs;
    k.Close(d);
    var bare := k.fs[d].entries == map[];
    var removed := k.Drop(parent, n, bare);
    EmptyDropShrinks(old(k.fs), mid, k.fs, k.depth, s, parent, n, d);
    ok := ok && removed;
  }

  lemma ChildBelow(fs: Fs, depth: map<Id, nat>, limit: nat, d: Id, n: Name)
    requires WellFormed(fs, depth, limit) && Child(fs, d, n).Some?
    ensures var c := Child(fs, d, n).value; c in fs && d in fs && depth.Keys == fs.Keys && depth[d] < depth[c] <= limit
  {
    assert Below(fs, depth, limit, d, fs[d].entries[n]);
  }

  /** The loop over a directory's entries. */
  method Empty(k: Disk, ghost parent: Id, d: Id, ghost s: set<Id>) returns (ok: bool)
    requires k.Valid() && IsDir(k.fs, d) && Closed(k.fs, s) && d in s
    requires IsDir(k.fs, parent) && k.depth[parent] < k.depth[d]
    modifies k
    ensures k.Valid() && k.open == old(k.open)
    ensures k.depth == old(k.depth) && k.limit == old(k.limit) && k.unused == old(k.unused)
    ensures old(k.fs).Keys == k.fs.Keys && IsDir(k.fs, d)
    ensures forall e :: e in k.fs && (e !in s || k.depth[e] < k.depth[d]) ==> k.fs[e] == old(k.fs)[e]
    ensures forall e :: e in k.fs ==> Fewer(old(k.fs)[e], k.fs[e])
    ensures ok ==> k.fs[d].entries == map[]
    ensures (forall i :: !k.deny(i)) ==> ok
    decreases k.limit - k.depth[parent], 0
  {
    ok := true;
    var todo := k.fs[d].entries.Keys;
    while todo != {}
      invariant k.Valid() && k.open == old(k.open)
      invariant k.depth == old(k.depth) && k.limit == old(k.limit) && k.unused == old(k.unused)
      invariant old(k.fs).Keys == k.fs.Keys && IsDir(k.fs, d) && Closed(k.fs, s)
      invariant forall e :: e in k.fs && (e !in s || k.depth[e] < k.depth[d]) ==> k.fs[e] == old(k.fs)[e]
      invariant forall e :: e in k.fs ==> Fewer(old(k.fs)[e], k.fs[e])
      invariant ok ==> k.fs[d].entries.Keys <= todo
      invariant (forall i :: !k.deny(i)) ==> ok
      decreases todo
    {
      var n :| n in todo;
      todo := todo - {n};
      ghost var before := k.fs;
      var gone := RemoveTree(k, d, n, s);
      ok := ok && gone;
      ShrunkFewer(before, k.fs, k.depth, s, d, n);
      ClosedShrinks(before, k.fs, s);
    }
  }

  lemma ShrunkFewer(was: Fs, fs: Fs, depth: map<Id, nat>, s: set<Id>, parent: Id, n: Name)
    requires Shrunk(was, fs, depth, s, parent, n)
    ensures forall d :: d in was ==> Fewer(was[d], fs[d])
  {}

  // ----- the walk -----

  lemma WalkStep(fs: Fs, d: Id, path: Bytes)
    ensures var c := Component(path);
            Walk(fs, d, path)
            == if !GoodName(c) then None
               else if |c| == |path| then Some((d, c))
               else if Child(fs, d, c).None? then None
               else Walk(fs, Child(fs, d, c).value, path[|c| + 1..])
  {}

  /** One component further: the child is opened, then its directory closed. */
  method Descend(k: Disk, d: Id, c: Name, ghost base: multiset<Id>) returns (next: Option<Id>)
    requires k.Valid() && IsDir(k.fs, d) && k.open == base + multiset{d}
    modifies k
    ensures k.Valid() && k.fs == old(k.fs)
    ensures k.depth == old(k.depth) && k.limit == old(k.limit) && k.unused == old(k.unused)
    ensures next.Some? ==> next == Child(k.fs, d, c) && k.open == base + multiset{next.value}
    ensures next.None? ==> k.open == base
    ensures (forall i :: !k.deny(i)) ==> next == Child(k.fs, d, c)
  {
    hide WellFormed;
    next := k.OpenDir(d, c);
    k.Close(d);
    assert k.open == base + if next.Some? then multiset{next.value} else multiset{};
  }

  /** `relative_parent`: the directory of the last component, held open, or nothing held. */
  method RelativeParent(k: Disk, root: Id, path: Bytes, ghost s: set<Id>) returns (r: Option<(Id, Name)>)
    requires k.Valid() && IsDir(k.fs, root) && Closed(k.fs, s) && root in s
    modifies k
    ensures k.Valid() && k.fs == old(k.fs)
    ensures k.depth == old(k.depth) && k.limit == old(k.limit) && k.unused == old(k.unused)
    ensures k.open == old(k.open) + if r.Some? then multiset{r.value.0} else multiset{}
    ensures r.Some? ==> Admissible(path) && r == Walk(k.fs, root, path)
    ensures r.Some? ==> r.value.0 in s && IsDir(k.fs, r.value.0) && GoodName(r.value.1)
    ensures (forall i :: !k.deny(i)) && Admissible(path) ==> r == Walk(k.fs, root, path)
  {
    hide Closed, WellFormed, Walk, Component, GoodName, Admissible;
    WalkStays(k.fs, root, path, s);
    if !Admissible(path) {
      return None;
    }
    var denied := k.Denied();
    if denied {
      return None;
    }
    k.open := k.open + multiset{root};
    r := WalkOpen(k, root, path, old(k.open));
  }

  /** The loop of `relative_parent`, entered with `root` open on top of `base`. */
  method WalkOpen(k: Disk, root: Id, path: Bytes, ghost base: multiset<Id>) returns (r: Option<(Id, Name)>)
    requires k.Valid() && IsDir(k.fs, root) && k.open == base + multiset{root}
    modifies k
    ensures k.Valid() && k.fs == old(k.fs)
    ensures k.depth == old(k.depth) && k.limit == old(k.limit) && k.unused == old(k.unused)
    ensures k.open == base + if r.Some? then multiset{r.value.0} else multiset{}
    ensures r.Some? ==> r == Walk(k.fs, root, path)
    ensures (forall i :: !k.deny(i)) ==> r == Walk(k.fs, root, path)
  {
    hide WellFormed, Walk, Component, GoodName;
    var parent, rest := root, path;
    while true
      invariant k.Valid() && k.fs == old(k.fs)
      invariant k.depth == old(k.depth) && k.limit == old(k.limit) && k.unused == old(k.unused)
      invariant IsDir(k.fs, parent) && k.open == base + multiset{parent}
      invariant Walk(k.fs, root, path) == Walk(k.fs, parent, rest)
      decreases |rest|
    {
      var c := Component(rest);
      WalkStep(k.fs, parent, rest);
      if !GoodName(c) {
        k.Close(parent);
        return None;
      }
      if |c| == |rest| {
        return Some((parent, c));
      }
      var next := Descend(k, parent, c, base);
      if next.None? {
        return None;
      }
      parent, rest := next.value, rest[|c| + 1..];
    }
  }

  /** An upload is received whole, or leaves a part of its body. */
  datatype Change = MakeDir | Upload(received: Option<Bytes>, part: Bytes) | RemoveAll

  /** Only the named place has changed, and for a removal what lies beneath it: `b` holds the directory the name led
      to and, with each of its directories, the directories inside it. */
  ghost predicate Confined(was: Fs, fs: Fs, place: (Id, Name), b: set<Id>) {
    && IsDir(was, place.0) && IsDir(fs, place.0) && fs[place.0].entries - {place.1} == was[place.0].entries - {place.1}
    && forall d :: d in was && d != place.0 && d !in b ==> d in fs && fs[d] == was[d]
  }

  /** `mutate_import` on the disk. Whatever the path says and whatever fails: nothing changes but the named entry of
      one directory inside the import directory `s` and, for a removal, what lies beneath it; no link is followed,
      and no descriptor stays open. */
  method Mutate(k: Disk, root: Id, path: Bytes, change: Change, ghost s: set<Id>, ghost b: set<Id>) returns (ok: bool)
    requires k.Valid() && IsDir(k.fs, root) && Closed(k.fs, s) && root in s && Closed(k.fs, b)
    requires var place := Walk(k.fs, root, path);
             place.Some? && change.RemoveAll? && Child(k.fs, place.value.0, place.value.1).Some?
             ==> Child(k.fs, place.value.0, place.value.1).value in b
    modifies k
    ensures k.Valid() && k.open == old(k.open)
    ensures var place := Walk(old(k.fs), root, path);
            if place.Some? && Admissible(path)
            then place.value.0 in s && Confined(old(k.fs), k.fs, place.value, if change.RemoveAll? then b * s else {})
            else k.fs == old(k.fs)
    ensures ok ==> Admissible(path) && Walk(old(k.fs), root, path).Some? &&
                   Done(old(k.fs), k.fs, Walk(old(k.fs), root, path).value, change)
    ensures (forall i :: !k.deny(i)) ==>
              (ok <==> Admissible(path) && Walk(old(k.fs), root, path).Some?
                       && Possible(old(k.fs), Walk(old(k.fs), root, path).value, change))
  {
    hide Done, Possible, Closed, WellFormed, Confined, Child, Walk;
    if Admissible(path) && Walk(k.fs, root, path).Some? {
      WalkStays(k.fs, root, path, s);
      Unchanged(k.fs, Walk(k.fs, root, path).value, if change.RemoveAll? then b * s else {});
    }
    var found := RelativeParent(k, root, path, s);
    if found.None? {
      return false;
    }
    var (parent, leaf) := found.value;
    match change {
      case MakeDir => ok := MakeDirectory(k, parent, leaf);
      case Upload(received, part) => ok := Store(k, parent, leaf, received, part);
      case RemoveAll =>
        BothClosed(k.fs, parent, leaf, s, b);
        ok := RemoveLeaf(k, parent, leaf, b * s);
    }
    k.Close(parent);
    assert k.open == old(k.open);
  }

  lemma Unchanged(fs: Fs, place: (Id, Name), b: set<Id>)
    requires IsDir(fs, place.0)
    ensures Confined(fs, fs, place, b)
  {
  }

  /** What lies beneath a name and inside the import directory is closed, and holds what the name leads to. */
  lemma BothClosed(fs: Fs, parent: Id, n: Name, s: set<Id>, b: set<Id>)
    requires Closed(fs, s) && Closed(fs, b) && parent in s
    requires Child(fs, parent, n).Some? ==> Child(fs, parent, n).value in b
    ensures Closed(fs, b * s) && (Child(fs, parent, n).Some? ==> Child(fs, parent, n).value in b * s)
  {
  }

  method MakeDirectory(k: Disk, parent: Id, leaf: Name) returns (ok: bool)
    requires k.Valid() && IsDir(k.fs, parent)
    modifies k
    ensures k.Valid() && k.open == old(k.open) && Confined(old(k.fs), k.fs, (parent, leaf), {})
    ensures ok ==> Done(old(k.fs), k.fs, (parent, leaf), MakeDir)
    ensures (forall i :: !k.deny(i)) ==> (ok <==> Possible(old(k.fs), (parent, leaf), MakeDir))
  {
    hide WellFormed, Done, Confined, With;
    Unchanged(k.fs, (parent, leaf), {});
    var id := k.Add(parent, leaf, Dir(map[]));
    if id.Some? {
      AddedDone(old(k.fs), parent, leaf, id.value, Dir(map[]));
    }
    ok := id.Some?;
  }

  /** A new node under a free name: only that entry is new. */
  lemma AddedDone(was: Fs, parent: Id, leaf: Name, id: Id, node: Node)
    requires IsDir(was, parent) && leaf !in was[parent].entries && id !in was
    ensures var fs := With(was, parent, leaf, id, node);
            && Confined(was, fs, (parent, leaf), {})
            && (node == Dir(map[]) ==> Done(was, fs, (parent, leaf), MakeDir))
            && (node.File? ==> forall part :: Done(was, fs, (parent, leaf), Upload(Some(node.content), part)))
  {
    var fs := With(was, parent, leaf, id, node);
    assert fs[parent].entries - {leaf} == was[parent].entries - {leaf};
  }

  method RemoveLeaf(k: Disk, parent: Id, leaf: Name, ghost b: set<Id>) returns (ok: bool)
    requires k.Valid() && IsDir(k.fs, parent) && Closed(k.fs, b)
    requires Child(k.fs, parent, leaf).Some? ==> Child(k.fs, parent, leaf).value in b
    modifies k
    ensures k.Valid() && k.open == old(k.open) && Confined(old(k.fs), k.fs, (parent, leaf), b)
    ensures ok ==> Done(old(k.fs), k.fs, (parent, leaf), RemoveAll)
    ensures (forall i :: !k.deny(i)) ==> (ok <==> Possible(old(k.fs), (parent, leaf), RemoveAll))
  {
    hide WellFormed, Confined, Closed;
    ok := RemoveTree(k, parent, leaf, b);
    ShrunkConfined(old(k.fs), k.fs, k.depth, b, parent, leaf);
  }

  lemma ShrunkConfined(was: Fs, fs: Fs, depth: map<Id, nat>, b: set<Id>, parent: Id, n: Name)
    requires Shrunk(was, fs, depth, b, parent, n)
    ensures Confined(was, fs, (parent, n), b)
  {
    assert fs[parent].entries - {n} == was[parent].entries - {n};
  }

  /** The upload's file: created under a free name and filled; a failed one is taken back, and if that fails too a part
      of its body stays under its name. */
  method Store(k: Disk, parent: Id, leaf: Name, received: Option<Bytes>, part: Bytes) returns (ok: bool)
    requires k.Valid() && IsDir(k.fs, parent)
    modifies k
    ensures k.Valid() && k.open == old(k.open) && Confined(old(k.fs), k.fs, (parent, leaf), {})
    ensures ok ==> received.Some? && Done(old(k.fs), k.fs, (parent, leaf), Upload(received, part))
    ensures (forall i :: !k.deny(i)) ==> (ok <==> Possible(old(k.fs), (parent, leaf), Upload(received, part)))
    ensures received.None? && (forall i :: !k.deny(i)) ==>
              leaf in old(k.fs)[parent].entries || leaf !in k.fs[parent].entries
  {
    hide WellFormed, Done, Confined, With;
    Unchanged(k.fs, (parent, leaf), {});
    var id := k.Create(parent, leaf);
    if id.None? {
      return false;
    }
    var content := if received.Some? then received.value else part;
    StoredNode(old(k.fs), parent, leaf, id.value, content);
    k.Fill(id.value, content);
    k.Close(id.value);
    AddedDone(old(k.fs), parent, leaf, id.value, File(content));
    assert k.open == old(k.open);
    ok := received.Some?;
    if !ok {
      TakenBack(old(k.fs), k.fs, parent, leaf);
      var taken := k.Drop(parent, leaf, true);
    }
  }

  /** Filling a new file is creating it with its content. */
  lemma StoredNode(was: Fs, parent: Id, leaf: Name, id: Id, content: Bytes)
    requires IsDir(was, parent) && id !in was
    ensures var fs := With(was, parent, leaf, id, File([]));
            && id in fs && fs[id] == File([]) && IsDir(fs, parent)
            && fs[id := File(content)] == With(was, parent, leaf, id, File(content))
  {
  }

  lemma TakenBack(was: Fs, fs: Fs, parent: Id, leaf: Name)
    requires Confined(was, fs, (parent, leaf), {})
    ensures IsDir(fs, parent) && Confined(was, Without(fs, parent, leaf), (parent, leaf), {})
    ensures leaf !in Without(fs, parent, leaf)[parent].entries
  {
    assert fs[parent].entries - {leaf} - {leaf} == fs[parent].entries - {leaf};
  }

  /** What a successful change leaves at its place; everything else in that directory stays. */
  ghost predicate Done(was: Fs, fs: Fs, place: (Id, Name), change: Change) {
    var (d, n) := place;
    && IsDir(was, d) && IsDir(fs, d)
    && fs[d].entries - {n} == was[d].entries - {n}
    && match change
       case MakeDir =>
         n !in was[d].entries && n in fs[d].entries && fs[d].entries[n] !in was
         && fs[d].entries[n] in fs && fs[fs[d].entries[n]] == Dir(map[])
       case Upload(received, _) =>
         n !in was[d].entries && n in fs[d].entries && fs[d].entries[n] !in was && received.Some?
         && fs[d].entries[n] in fs && fs[fs[d].entries[n]] == File(received.value)
       case RemoveAll => n !in fs[d].entries
  }

  ghost predicate Possible(fs: Fs, place: (Id, Name), change: Change) {
    IsDir(fs, place.0) &&
    match change
    case MakeDir => place.1 !in fs[place.0].entries
    case Upload(received, _) => received.Some? && place.1 !in fs[place.0].entries
    case RemoveAll => true
  }
}

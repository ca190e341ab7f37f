/** Installing k3s over a guest and putting the guest back: a manifest first, then originals moved
    aside, so that cleanup can restore them from any interruption. */
module K3sInstall {
  import opened Common

  type Path = string

  /** A file, link or whole directory tree, as opaque content. */
  type Content = int
  type Files = map<Path, Content>

  const DIRECTORY: Content := 0

  // ----- the paths -----

  const BIN: Path := "/usr/local/bin/"
  const UNITS: Path := "/etc/systemd/system/"
  const K3S: Path := BIN + "k3s"
  const STATE: Path := "/var/lib/rancher/k3s"

  /** What an installation creates; nothing of it may exist before. */
  function Created(systemd: bool): seq<Path> { Programs() + Service(systemd) }

  function Programs(): seq<Path> {
    [K3S, BIN + "k3s-killall.sh", BIN + "k3s-uninstall.sh", "/etc/rancher/k3s", "/etc/rancher/node", STATE,
     "/var/log/k3s.log"]
  }

  function Service(systemd: bool): seq<Path> {
    if systemd
    then [UNITS + "k3s.service", UNITS + "k3s.service.env", UNITS + ("multi-user.target.wants/" + "k3s.service")]
    else ["/etc/init.d/k3s", "/etc/logrotate.d/k3s", "/etc/runlevels/default/k3s"]
  }

  /** Commands the installer adds only where they are missing. */
  function Tools(): seq<Path> { [BIN + "kubectl", BIN + "crictl", BIN + "ctr"] }

  /** What is moved aside if present. */
  function Replaced(): seq<Path> {
    ["/var/lib/kubelet", "/var/lib/cni", "/var/log/pods", "/var/log/containers",
     "/etc/init.d/" + "magicdesk-session", "/etc/runlevels/default/" + "magicdesk-session"]
  }

  /** Directories made if missing. */
  function Roots(): seq<Path> { ["/etc/rancher", "/var/lib/rancher"] }

  function Saved(name: Path, root: string): Path { name + ".md-" + root }

  /** `q` lies inside the directory `p`. */
  predicate Beneath(p: Path, q: Path) { |q| > |p| && q[..|p|] == p && q[|p|] == '/' }

  // ----- saved names never meet the others -----

  predicate Unmarked(p: Path) { forall i :: 0 <= i < |p| - 1 && p[i] == '.' ==> p[i + 1] != 'm' }

  lemma UnmarkedConcat(a: Path, b: Path)
    requires Unmarked(a) && Unmarked(b) && a != [] && a[|a| - 1] != '.'
    ensures Unmarked(a + b)
  {
    var p := a + b;
    forall i | 0 <= i < |p| - 1 && p[i] == '.'
      ensures p[i + 1] != 'm'
    {
      if i >= |a| {
        assert p[i] == b[i - |a|] && p[i + 1] == b[i + 1 - |a|];
      }
    }
  }

  lemma ProgramsUnmarked()
    ensures forall i :: 0 <= i < |Programs()| ==> Unmarked(Programs()[i])
  {
    UnmarkedConcat(BIN, "k3s");
    UnmarkedConcat(BIN, "k3s-killall.sh");
    UnmarkedConcat(BIN, "k3s-uninstall.sh");
  }

  lemma ServiceUnmarked(systemd: bool)
    ensures forall i :: 0 <= i < |Service(systemd)| ==> Unmarked(Service(systemd)[i])
  {
    if systemd {
      UnmarkedConcat(UNITS, "k3s.service");
      UnmarkedConcat(UNITS, "k3s.service.env");
      UnmarkedConcat("multi-user.target.wants/", "k3s.service");
      UnmarkedConcat(UNITS, "multi-user.target.wants/" + "k3s.service");
    }
  }

  lemma OthersUnmarked()
    ensures forall i :: 0 <= i < |Tools()| ==> Unmarked(Tools()[i])
    ensures forall i :: 0 <= i < |Replaced()| ==> Unmarked(Replaced()[i])
  {
    UnmarkedConcat(BIN, "kubectl");
    UnmarkedConcat(BIN, "crictl");
    UnmarkedConcat(BIN, "ctr");
    UnmarkedConcat("/etc/init.d/", "magicdesk-session");
    UnmarkedConcat("/etc/runlevels/default/", "magicdesk-session");
  }

  lemma SavedMarked(name: Path, other: Path, root: string)
    ensures !Unmarked(Saved(name, root))
    ensures Saved(name, root) == Saved(other, root) ==> name == other
  {
    var p := Saved(name, root);
    assert p[|name|] == '.' && p[|name| + 1] == 'm';
    if p == Saved(other, root) {
      assert |name| == |other|;
      assert p[..|name|] == name && p[..|name|] == other;
    }
  }

  // ----- the made directories are none of the others -----

  predicate EndsEr(p: Path) { |p| > 1 && p[|p| - 2..] == "er" }

  lemma ProgramsEnd()
    ensures forall i :: 0 <= i < |Programs()| ==> !EndsEr(Programs()[i])
  {
    hide EndsEr;
    LastOf(Programs(), ['s', 'h', 'h', 's', 'e', 's', 'g']);
  }

  lemma ServiceEnds(systemd: bool)
    ensures forall i :: 0 <= i < |Service(systemd)| ==> !EndsEr(Service(systemd)[i])
  {
    hide EndsEr;
    LastOf(Service(systemd), if systemd then ['e', 'v', 'e'] else ['s', 's', 's']);
  }

  lemma ReplacedEnd()
    ensures forall i :: 0 <= i < |Replaced()| ==> !EndsEr(Replaced()[i])
  {
    hide EndsEr;
    LastOf(Replaced(), ['t', 'i', 's', 's', 'n', 'n']);
  }

  lemma ToolsEnd()
    ensures forall i :: 0 <= i < |Tools()| ==> !EndsEr(Tools()[i])
  {
    var t := Tools();
    assert t[2][|t[2]| - 2..][0] == 't';
    assert t[0][|t[0]| - 1] == 'l' && t[1][|t[1]| - 1] == 'l';
    NotEr(t[0]);
    NotEr(t[1]);
  }

  lemma NotEr(p: Path)
    requires p != [] && p[|p| - 1] != 'r'
    ensures !EndsEr(p)
  {
    if |p| > 1 {
      assert p[|p| - 2..][1] == p[|p| - 1] && "er"[1] == 'r';
    }
  }

  lemma LastOf(ps: seq<Path>, last: seq<char>)
    requires |ps| == |last| && 'r' !in last
    requires forall i :: 0 <= i < |ps| ==> ps[i] != [] && ps[i][|ps[i]| - 1] == last[i]
    ensures forall i :: 0 <= i < |ps| ==> !EndsEr(ps[i])
  {
    forall i | 0 <= i < |ps|
      ensures !EndsEr(ps[i])
    {
      assert last[i] in last;
      NotEr(ps[i]);
    }
  }

  lemma RootsEndEr()
    ensures forall i :: 0 <= i < |Roots()| ==> EndsEr(Roots()[i]) && Unmarked(Roots()[i])
    ensures forall i, j :: 0 <= i < |Roots()| && 0 <= j < |Roots()| ==> !Beneath(Roots()[i], Roots()[j])
    ensures forall i, j :: 0 <= i < j < |Roots()| ==> Roots()[i] != Roots()[j]
  {
    var r := Roots();
    assert r[0][|r[0]| - 2..] == "er" && r[1][|r[1]| - 2..] == "er";
    assert r[0][1] == 'e' && r[1][1] == 'v' && r[1][..|r[0]|][1] == 'v';
  }

  // ----- the manifest -----

  datatype Backup = Backup(name: Path, saved: Option<Path>)
  datatype Manifest = Manifest(owned: seq<Path>, parents: seq<Path>, backups: seq<Backup>)

  /** A manifest that describes `before`: what is owned did not exist, nor did a directory to be made, though a link
      that leads nowhere may be in its place; and an original is to be saved exactly where there is one, under a name of
      its own. */
  ghost predicate Describes(m: Manifest, before: Files) {
    && (forall p :: p in m.owned ==> p !in before && !IsSaved(m, p))
    && (forall p :: p in m.parents ==> (p in before ==> before[p] != DIRECTORY) && Aside(m, p))
    && (forall i, j :: 0 <= i < j < |m.parents| ==> m.parents[i] != m.parents[j])
    && (forall p, q :: p in m.parents && q in m.parents ==> !Beneath(p, q))
    && (forall i :: 0 <= i < |m.backups| ==> GoodBackup(m, i, before))
    && (forall i, j :: 0 <= i < j < |m.backups| ==>
          m.backups[i].name != m.backups[j].name
          && (m.backups[i].saved.Some? ==> m.backups[i].saved != m.backups[j].saved))
  }

  ghost predicate GoodBackup(m: Manifest, i: nat, before: Files)
    requires i < |m.backups|
  {
    var b := m.backups[i];
    && (b.saved.Some? <==> b.name in before)
    && (b.saved.Some? ==> b.saved.value !in before && !IsOwned(m, b.saved.value) && !IsName(m, b.saved.value))
  }

  /** A path that removing and renaming leave alone. */
  predicate Aside(m: Manifest, p: Path) { !IsOwned(m, p) && !IsName(m, p) && !IsSaved(m, p) }

  predicate IsOwned(m: Manifest, p: Path) { p in m.owned }

  predicate IsName(m: Manifest, p: Path) { exists i :: 0 <= i < |m.backups| && m.backups[i].name == p }

  predicate IsSaved(m: Manifest, p: Path) { exists i :: 0 <= i < |m.backups| && m.backups[i].saved == Some(p) }

  /** The files can be put back: every original is safe in its saved place or still in its own,
      and nothing beyond the manifest has changed. */
  ghost predicate Recoverable(m: Manifest, before: Files, files: Files) {
    && (forall i :: 0 <= i < |m.backups| && m.backups[i].saved.Some? ==> Safe(m.backups[i], before, files))
    && (forall p :: Aside(m, p) && (p !in m.parents || p in before) ==> SameAt(before, files, p))
  }

  predicate SameAt(f: Files, g: Files, p: Path) { (p in f <==> p in g) && (p in f ==> f[p] == g[p]) }

  predicate Safe(b: Backup, before: Files, files: Files)
    requires b.saved.Some?
  {
    && b.name in before
    && (if b.saved.value in files then files[b.saved.value] == before[b.name]
        else b.name in files && files[b.name] == before[b.name])
  }

  // ----- the machine -----

  /** A file system, the manifest on it, and the number of steps until it stops. */
  class Machine {
    var files: Files
    var manifest: Option<Manifest>
    var steps: nat

    constructor (files: Files, steps: nat)
      ensures this.files == files && manifest == None && this.steps == steps
    {
      this.files, manifest, this.steps := files, None, steps;
    }

    /** Spends one step; false when the machine has stopped. */
    method Tick() returns (running: bool)
      modifies this
      ensures files == old(files) && manifest == old(manifest)
      ensures running == (old(steps) > 0) && steps == if running then old(steps) - 1 else 0
    {
      running := steps > 0;
      if running {
        steps := steps - 1;
      }
    }

    method Rename(from: Path, to: Path) returns (running: bool)
      requires from in files && to !in files
      modifies this
      ensures manifest == old(manifest)
      ensures running == (old(steps) > 0) && steps == if running then old(steps) - 1 else 0
      ensures files == if running then (old(files) - {from})[to := old(files)[from]] else old(files)
    {
      running := Tick();
      if running {
        files := (files - {from})[to := files[from]];
      }
    }

    /** Removes a tree. Stopping half-way leaves an arbitrary part of it behind. */
    method Remove(p: Path, part: Content) returns (running: bool)
      modifies this
      ensures manifest == old(manifest)
      ensures running ==> files == old(files) - {p}
      ensures old(steps) >= 2 ==> running && steps >= old(steps) - 2
      ensures !running ==> files == old(files) || (p in old(files) && files == old(files)[p := part])
    {
      running := true;
      if p in files {
        running := Tick();
        if running {
          files := files[p := part];
          running := Tick();
          if running {
            files := files - {p};
          }
        }
      }
    }

    /** Copies a file or tree. Stopping half-way leaves an arbitrary part of it behind. */
    method Write(p: Path, c: Content, part: Content) returns (running: bool)
      modifies this
      ensures manifest == old(manifest)
      ensures running ==> files == old(files)[p := c]
      ensures !running ==> files == old(files) || files == old(files)[p := part]
    {
      running := Tick();
      if running {
        files := files[p := part];
        running := Tick();
        if running {
          files := files[p := c];
        }
      }
    }

    /** Makes a directory. */
    method MakeDirectory(p: Path) returns (running: bool)
      modifies this
      ensures manifest == old(manifest)
      ensures files == if running then old(files)[p := DIRECTORY] else old(files)
    {
      running := Tick();
      if running {
        files := files[p := DIRECTORY];
      }
    }
  }

  datatype Ended = Refused | Stopped | Raised | Finished

  // ----- install -----

  function Missing(ps: seq<Path>, files: Files): (missing: seq<Path>)
    ensures forall p :: p in missing <==> p in ps && p !in files
  {
    if ps == [] then []
    else
      var rest := Missing(ps[..|ps| - 1], files);
      if ps[|ps| - 1] in files then rest else rest + [ps[|ps| - 1]]
  }

  /** The paths at which nothing is seen to exist: nothing is there, or a link that leads nowhere. */
  function Unseen(ps: seq<Path>, files: Files, dangling: set<Path>): (unseen: seq<Path>)
    ensures forall p :: p in unseen <==> p in ps && (p !in files || p in dangling)
  {
    if ps == [] then []
    else
      var (rest, p) := (Unseen(ps[..|ps| - 1], files, dangling), ps[|ps| - 1]);
      if p in files && p !in dangling then rest else rest + [p]
  }

  function Plan(names: seq<Path>, root: string, files: Files): (plan: seq<Backup>)
    ensures |plan| == |names|
    ensures forall i :: 0 <= i < |names| ==>
              plan[i] == Backup(names[i], if names[i] in files then Some(Saved(names[i], root)) else None)
  {
    seq(|names|, i requires 0 <= i < |names| =>
      Backup(names[i], if names[i] in files then Some(Saved(names[i], root)) else None))
  }

  lemma PlanDescribes(m: Manifest, systemd: bool, root: string, files: Files, dangling: set<Path>)
    requires m == Manifest(Created(systemd) + Missing(Tools(), files), Unseen(Roots(), files, dangling),
                           Plan(Replaced(), root, files))
    requires forall p :: p in Created(systemd) ==> p !in files
    requires forall i :: 0 <= i < |Replaced()| ==> Saved(Replaced()[i], root) !in files
    requires forall p :: p in dangling && p in files ==> files[p] != DIRECTORY
    ensures Describes(m, files)
  {
    hide Created, Replaced, Tools, Aside, Roots, Beneath, GoodBackup, IsSaved, Saved;
    ParentsApart(m, systemd, root, files, dangling);
    ListedUnmarked(m, systemd, root, files, dangling);
    SavedApart(m, root, files);
    BackupsDistinct(m, root, files);
  }

  /** Nothing owned and no name looks like a saved one. */
  lemma ListedUnmarked(m: Manifest, systemd: bool, root: string, files: Files, dangling: set<Path>)
    requires m == Manifest(Created(systemd) + Missing(Tools(), files), Unseen(Roots(), files, dangling),
                           Plan(Replaced(), root, files))
    ensures forall p :: p in m.owned || IsName(m, p) ==> Unmarked(p)
  {
    ProgramsUnmarked();
    ServiceUnmarked(systemd);
    OthersUnmarked();
    hide Programs, Service, Tools, Replaced, Roots, Unmarked;
  }

  lemma SavedApart(m: Manifest, root: string, files: Files)
    requires m.backups == Plan(Replaced(), root, files)
    requires forall p :: p in m.owned || IsName(m, p) ==> Unmarked(p)
    requires forall i :: 0 <= i < |Replaced()| ==> Saved(Replaced()[i], root) !in files
    ensures forall i :: 0 <= i < |m.backups| ==> GoodBackup(m, i, files)
    ensures forall p :: p in m.owned ==> !IsSaved(m, p)
  {
    hide Replaced, Unmarked, Saved;
    forall i | 0 <= i < |m.backups|
      ensures GoodBackup(m, i, files) && (m.backups[i].saved.Some? ==> !Unmarked(m.backups[i].saved.value))
    {
      SavedMarked(Replaced()[i], [], root);
    }
  }

  lemma BackupsDistinct(m: Manifest, root: string, files: Files)
    requires m.backups == Plan(Replaced(), root, files)
    ensures forall i, j :: 0 <= i < j < |m.backups| ==>
              m.backups[i].name != m.backups[j].name
              && (m.backups[i].saved.Some? ==> m.backups[i].saved != m.backups[j].saved)
  {
    ReplacedDistinct();
    hide Replaced, Saved;
    forall i, j | 0 <= i < j < |m.backups|
      ensures m.backups[i].name != m.backups[j].name
      ensures m.backups[i].saved.Some? ==> m.backups[i].saved != m.backups[j].saved
    {
      SavedMarked(Replaced()[i], Replaced()[j], root);
    }
  }

  lemma ListedEnd(m: Manifest, systemd: bool, root: string, files: Files, dangling: set<Path>)
    requires m == Manifest(Created(systemd) + Missing(Tools(), files), Unseen(Roots(), files, dangling),
                           Plan(Replaced(), root, files))
    ensures forall p :: p in m.owned || IsName(m, p) ==> !EndsEr(p)
  {
    hide Programs, Service, Tools, Replaced, EndsEr, Roots, Saved;
    ProgramsEnd();
    ServiceEnds(systemd);
    ToolsEnd();
    ReplacedEnd();
  }

  lemma ParentsApart(m: Manifest, systemd: bool, root: string, files: Files, dangling: set<Path>)
    requires m == Manifest(Created(systemd) + Missing(Tools(), files), Unseen(Roots(), files, dangling),
                           Plan(Replaced(), root, files))
    requires forall p :: p in dangling && p in files ==> files[p] != DIRECTORY
    ensures forall p :: p in m.parents ==> (p in files ==> files[p] != DIRECTORY) && Aside(m, p)
    ensures forall p, q :: p in m.parents && q in m.parents ==> !Beneath(p, q)
    ensures forall i, j :: 0 <= i < j < |m.parents| ==> m.parents[i] != m.parents[j]
  {
    RootsEndEr();
    hide Programs, Service, Tools, Replaced, Unmarked, EndsEr, Roots, Beneath, Saved;
    ListedEnd(m, systemd, root, files, dangling);
    forall p | p in m.parents
      ensures (p in files ==> files[p] != DIRECTORY) && Aside(m, p)
    {
      assert p in Roots() && EndsEr(p) && Unmarked(p);
      forall i | 0 <= i < |m.backups|
        ensures m.backups[i].saved != Some(p) && m.backups[i].name != p
      {
        SavedMarked(Replaced()[i], [], root);
      }
    }
    UnseenDistinct(Roots(), files, dangling);
  }

  lemma {:induction false} UnseenDistinct(ps: seq<Path>, files: Files, dangling: set<Path>)
    requires forall i, j :: 0 <= i < j < |ps| ==> ps[i] != ps[j]
    ensures var some := Unseen(ps, files, dangling); forall i, j :: 0 <= i < j < |some| ==> some[i] != some[j]
  {
    if ps != [] {
      var front := ps[..|ps| - 1];
      UnseenDistinct(front, files, dangling);
      assert forall i :: 0 <= i < |Unseen(front, files, dangling)| ==> Unseen(front, files, dangling)[i] in front;
    }
  }

  lemma ReplacedDistinct()
    ensures forall i, j :: 0 <= i < j < |Replaced()| ==> Replaced()[i] != Replaced()[j]
  {
    var r := Replaced();
    assert r[0][9] == 'k' && r[1][9] == 'c' && r[2][9] == 'p' && r[3][9] == 'c' && r[4][5] == 'i' && r[5][5] == 'r';
    assert r[0][5] == 'l' && r[1][5] == 'l' && r[2][5] == 'l' && r[3][5] == 'l';
    assert r[0][7] == 'b' && r[1][7] == 'b' && r[2][7] == 'g' && r[3][7] == 'g';
  }

  lemma OwnsTargets(systemd: bool)
    ensures K3S in Created(systemd) && STATE in Created(systemd)
  {
    assert Created(systemd)[0] == K3S && Created(systemd)[5] == STATE;
  }

  lemma RecoverableBefore(m: Manifest, before: Files)
    requires Describes(m, before)
    ensures Recoverable(m, before, before)
  {
    forall k | 0 <= k < |m.backups| && m.backups[k].saved.Some?
      ensures Safe(m.backups[k], before, before)
    {
      assert GoodBackup(m, k, before);
    }
  }

  /** `install`. Refusal changes nothing; from the manifest on, wherever it stops, the files can be
      put back. `binary` and `images` are what it copies in. */
  method Install(
    mc: Machine, systemd: bool, root: string, binary: Content, images: seq<Content>, part: Content, dangling: set<Path>)
    returns (r: Ended)
    requires mc.manifest == None && forall p :: p in dangling && p in mc.files ==> mc.files[p] != DIRECTORY
    modifies mc
    ensures r == Refused ==> mc.files == old(mc.files) && mc.manifest == None
    ensures mc.manifest.None? ==> mc.files == old(mc.files)
    ensures mc.manifest.Some? ==>
              Describes(mc.manifest.value, old(mc.files)) && Recoverable(mc.manifest.value, old(mc.files), mc.files)
    ensures mc.manifest.Some? ==> mc.manifest.value.parents == Unseen(Roots(), old(mc.files), dangling)
    ensures r == Finished ==> mc.manifest.Some? && AllMoved(mc.manifest.value, mc.files)
                              && forall p :: p in mc.manifest.value.parents ==> Made(mc.files, p)
  {
    hide Created, Replaced, Tools, Roots, Describes, Recoverable, AllMoved;
    if exists p :: p in Created(systemd) && p in mc.files {
      return Refused;
    }
    if exists i :: 0 <= i < |Replaced()| && Saved(Replaced()[i], root) in mc.files {
      return Refused;
    }
    var m := Manifest(Created(systemd) + Missing(Tools(), mc.files), Unseen(Roots(), mc.files, dangling),
                      Plan(Replaced(), root, mc.files));
    PlanDescribes(m, systemd, root, mc.files, dangling);
    var running := mc.Tick();
    if !running {
      return Stopped;
    }
    mc.manifest := Some(m);
    RecoverableBefore(m, mc.files);
    running := MoveAside(mc, m, old(mc.files));
    if !running {
      return Stopped;
    }
    r := MakeParents(mc, m, old(mc.files));
    if r != Finished {
      return;
    }
    assert K3S in m.owned && STATE in m.owned by {
      OwnsTargets(systemd);
    }
    running := Populate(mc, m, old(mc.files), [K3S], [binary], part);
    if !running {
      return Stopped;
    }
    for i := 0 to |images|
      invariant mc.manifest == Some(m) && Recoverable(m, old(mc.files), mc.files) && AllMoved(m, mc.files)
      invariant forall p :: p in m.parents ==> Made(mc.files, p)
    {
      running := Populate(mc, m, old(mc.files), [STATE], [images[i]], part);
      if !running {
        return Stopped;
      }
    }
    r := Finished;
  }

  predicate Made(files: Files, p: Path) { p in files && files[p] == DIRECTORY }

  /** Makes the missing parent directories; a link that leads nowhere makes it raise. */
  method MakeParents(mc: Machine, m: Manifest, ghost before: Files) returns (r: Ended)
    requires Describes(m, before) && Recoverable(m, before, mc.files) && AllMoved(m, mc.files) && mc.manifest == Some(m)
    modifies mc
    ensures mc.manifest == Some(m) && Recoverable(m, before, mc.files) && AllMoved(m, mc.files) && r != Refused
    ensures r == Finished ==> forall p :: p in m.parents ==> Made(mc.files, p)
    ensures r == Raised ==> exists p :: p in m.parents && p in mc.files
  {
    for i := 0 to |m.parents|
      invariant mc.manifest == Some(m) && Recoverable(m, before, mc.files) && AllMoved(m, mc.files)
      invariant forall k :: 0 <= k < i ==> Made(mc.files, m.parents[k])
    {
      if m.parents[i] in mc.files {
        return Raised;
      }
      ParentKeeps(m, before, mc.files, m.parents[i], Some(DIRECTORY));
      var running := mc.MakeDirectory(m.parents[i]);
      if !running {
        return Stopped;
      }
    }
    r := Finished;
  }

  /** Making or removing a parent directory keeps everything recoverable. */
  lemma ParentKeeps(m: Manifest, before: Files, files: Files, p: Path, c: Option<Content>)
    requires Describes(m, before) && Recoverable(m, before, files) && p in m.parents && (p !in files || Made(files, p))
    ensures Recoverable(m, before, Change(files, p, c)) && p !in before
    ensures AllMoved(m, files) ==> AllMoved(m, Change(files, p, c))
  {
    var after := Change(files, p, c);
    assert Aside(m, p);
    assert SameAt(before, files, p) || p !in before;
    forall k | 0 <= k < |m.backups| && m.backups[k].saved.Some?
      ensures Safe(m.backups[k], before, after)
    {
      assert Safe(m.backups[k], before, files);
      assert IsSaved(m, m.backups[k].saved.value) && IsName(m, m.backups[k].name);
    }
    forall k | 0 <= k < |m.backups| && m.backups[k].saved.Some?
      ensures m.backups[k].saved.value != p
    {
      assert IsSaved(m, m.backups[k].saved.value);
    }
  }

  /** Every original that existed is in its saved place. */
  predicate AllMoved(m: Manifest, files: Files) {
    forall i :: 0 <= i < |m.backups| && m.backups[i].saved.Some? ==> m.backups[i].saved.value in files
  }

  method MoveAside(mc: Machine, m: Manifest, ghost before: Files) returns (running: bool)
    requires Describes(m, before) && mc.files == before && mc.manifest == Some(m)
    modifies mc
    ensures mc.manifest == Some(m) && Recoverable(m, before, mc.files)
    ensures running ==> AllMoved(m, mc.files)
  {
    running := true;
    forall k | 0 <= k < |m.backups|
      ensures m.backups[k].saved.Some? ==> Safe(m.backups[k], before, before) && m.backups[k].saved.value !in before
    {
      assert GoodBackup(m, k, before);
    }
    for i := 0 to |m.backups|
      invariant mc.manifest == Some(m) && Recoverable(m, before, mc.files)
      invariant forall k :: 0 <= k < i && m.backups[k].saved.Some? ==> m.backups[k].saved.value in mc.files
      invariant forall k :: i <= k < |m.backups| && m.backups[k].saved.Some? ==> m.backups[k].saved.value !in mc.files
    {
      var b := m.backups[i];
      if b.saved.Some? {
        assert GoodBackup(m, i, before) && Safe(b, before, mc.files);
        ghost var files := mc.files;
        running := mc.Rename(b.name, b.saved.value);
        if !running {
          return;
        }
        RenameKeeps(m, before, files, i, b.name, b.saved.value);
      }
    }
  }

  /** Moving an original between its two places keeps everything recoverable. */
  lemma RenameKeeps(m: Manifest, before: Files, files: Files, i: nat, from: Path, to: Path)
    requires Describes(m, before) && Recoverable(m, before, files) && i < |m.backups| && m.backups[i].saved.Some?
    requires {from, to} == {m.backups[i].name, m.backups[i].saved.value} && from != to
    requires from in files && files[from] == before[m.backups[i].name]
    ensures Recoverable(m, before, (files - {from})[to := files[from]])
  {
    var after := (files - {from})[to := files[from]];
    var b := m.backups[i];
    assert GoodBackup(m, i, before);
    forall k | 0 <= k < |m.backups| && m.backups[k].saved.Some?
      ensures Safe(m.backups[k], before, after)
    {
      assert GoodBackup(m, k, before) && Safe(m.backups[k], before, files);
      if k != i {
        assert m.backups[k].name != b.name && m.backups[k].saved != b.saved;
        assert m.backups[k].saved.value !in {from, to} by { assert IsName(m, b.name); }
        assert m.backups[k].name !in {from, to} by { assert IsName(m, m.backups[k].name); }
      }
    }
    assert IsName(m, b.name) && IsSaved(m, b.saved.value);
  }

  /** Writing an owned path, or a name whose original is in its saved place, keeps everything recoverable. */
  lemma ChangeKeeps(m: Manifest, before: Files, files: Files, p: Path, c: Option<Content>)
    requires Describes(m, before) && Recoverable(m, before, files) && Expendable(m, files, p)
    ensures Recoverable(m, before, Change(files, p, c))
  {
    var after := Change(files, p, c);
    forall k | 0 <= k < |m.backups| && m.backups[k].saved.Some?
      ensures Safe(m.backups[k], before, after)
    {
      assert GoodBackup(m, k, before) && Safe(m.backups[k], before, files);
      assert IsSaved(m, m.backups[k].saved.value) && IsName(m, m.backups[k].name);
    }
  }

  /** A path whose present content nothing depends on. */
  predicate Expendable(m: Manifest, files: Files, p: Path) {
    && !IsSaved(m, p) && (IsOwned(m, p) || IsName(m, p))
    && forall i :: 0 <= i < |m.backups| && m.backups[i].name == p && m.backups[i].saved.Some? ==>
                     m.backups[i].saved.value in files
  }

  function Change(files: Files, p: Path, c: Option<Content>): Files {
    if c.None? then files - {p} else files[p := c.value]
  }

  /** Copies into owned paths; the copy may be cut short anywhere. */
  method Populate(mc: Machine, m: Manifest, ghost before: Files, paths: seq<Path>, contents: seq<Content>,
                  part: Content)
    returns (running: bool)
    requires Describes(m, before) && Recoverable(m, before, mc.files) && AllMoved(m, mc.files) && mc.manifest == Some(m)
    requires |paths| == |contents| && forall i :: 0 <= i < |paths| ==> paths[i] in m.owned
    modifies mc
    ensures mc.manifest == Some(m) && Recoverable(m, before, mc.files) && AllMoved(m, mc.files)
    ensures forall p :: p in m.parents ==> SameAt(old(mc.files), mc.files, p)
  {
    running := true;
    for i := 0 to |paths|
      invariant mc.manifest == Some(m) && Recoverable(m, before, mc.files) && AllMoved(m, mc.files)
      invariant forall p :: p in m.parents ==> SameAt(old(mc.files), mc.files, p)
    {
      assert forall p :: p in m.parents ==> Aside(m, p);
      ChangeKeeps(m, before, mc.files, paths[i], Some(contents[i]));
      ChangeKeeps(m, before, mc.files, paths[i], Some(part));
      running := mc.Write(paths[i], contents[i], part);
      if !running {
        return;
      }
    }
  }

  /** What a finished installation may do to the guest while it runs. */
  method Operate(mc: Machine, ghost before: Files, p: Path, c: Option<Content>)
    requires mc.manifest.Some? && Describes(mc.manifest.value, before)
    requires Recoverable(mc.manifest.value, before, mc.files)
    requires AllMoved(mc.manifest.value, mc.files) && (IsOwned(mc.manifest.value, p) || IsName(mc.manifest.value, p))
    modifies mc
    ensures mc.manifest == old(mc.manifest) && mc.files == Change(old(mc.files), p, c)
    ensures Recoverable(mc.manifest.value, before, mc.files) && AllMoved(mc.manifest.value, mc.files)
  {
    var m := mc.manifest.value;
    assert !IsSaved(m, p) by {
      forall i | 0 <= i < |m.backups|
        ensures m.backups[i].saved != Some(p)
      {
        assert GoodBackup(m, i, before);
      }
    }
    ChangeKeeps(m, before, mc.files, p, c);
    mc.files := Change(mc.files, p, c);
  }

  // ----- cleanup -----

  /** The manifest's saved place for a name, as the dictionary lookup finds it. */
  function SavedFor(m: Manifest, p: Path, n: nat): (saved: Option<Path>)
    requires n <= |m.backups|
    ensures saved.Some? ==> exists i :: 0 <= i < n && m.backups[i].name == p && m.backups[i].saved == saved
    ensures saved.None? ==> forall i :: 0 <= i < n && m.backups[i].name == p ==> m.backups[i].saved.None?
  {
    if n == 0 then None
    else if m.backups[n - 1].name == p && m.backups[n - 1].saved.Some? then m.backups[n - 1].saved
    else SavedFor(m, p, n - 1)
  }

  function Names(m: Manifest): (names: seq<Path>)
    ensures |names| == |m.backups| && forall i :: 0 <= i < |names| ==> names[i] == m.backups[i].name
  {
    seq(|m.backups|, i requires 0 <= i < |m.backups| => m.backups[i].name)
  }

  /** Cleared for restoration: owned paths and moved names are gone. */
  predicate Cleared(m: Manifest, files: Files, p: Path) {
    p !in files || (SavedFor(m, p, |m.backups|).Some? && SavedFor(m, p, |m.backups|).value !in files)
  }

  ghost predicate AllCleared(m: Manifest, files: Files) {
    forall p :: IsOwned(m, p) || IsName(m, p) ==> Cleared(m, files, p)
  }

  /** The first `n` saved places are empty. */
  predicate Emptied(m: Manifest, files: Files, n: nat)
    requires n <= |m.backups|
  {
    forall k :: 0 <= k < n && m.backups[k].saved.Some? ==> m.backups[k].saved.value !in files
  }

  /** Steps in which a cleanup surely gets through. */
  function Enough(m: Manifest): nat { 2 * (|m.owned| + |m.backups|) + |m.backups| + |m.parents| }

  /** The files before the installation, and possibly made directories. */
  ghost predicate Restored(m: Manifest, before: Files, files: Files) {
    forall p :: p !in m.parents || p in before ==> SameAt(before, files, p)
  }

  /** Whatever lies inside a directory lies in one that exists. */
  ghost predicate Tree(files: Files) { forall p, q :: q in files && Beneath(p, q) ==> p in files }

  /** The parent directories are as they were. */
  ghost predicate SameParents(m: Manifest, f: Files, g: Files) { forall p :: p in m.parents ==> SameAt(f, g, p) }

  /** `cleanup`. Wherever it stops it can be run again. Once past its renames every path is as before the installation,
      but for the directories it made. It finishes only by removing them, and then every path is as before; it fails
      there, on a sound file system, exactly when one of them is not there: not made, or removed already. */
  method Cleanup(mc: Machine, ghost before: Files, part: Content) returns (r: Ended)
    requires mc.manifest.Some? ==>
               Describes(mc.manifest.value, before) && Recoverable(mc.manifest.value, before, mc.files)
    modifies mc
    ensures mc.manifest == old(mc.manifest) && r != Refused
    ensures mc.manifest.Some? ==> Recoverable(mc.manifest.value, before, mc.files)
    ensures mc.manifest.None? ==> mc.files == old(mc.files) && r == Finished
    ensures mc.manifest.Some? && r != Stopped ==> Restored(mc.manifest.value, before, mc.files)
    ensures mc.manifest.Some? && r == Finished ==> mc.files == before
    ensures mc.manifest.Some? && old(mc.steps) >= Enough(mc.manifest.value) ==> r != Stopped
    ensures mc.manifest.Some? && Tree(before) && r != Stopped ==>
              (r == Finished <==> forall p :: p in mc.manifest.value.parents ==> Made(old(mc.files), p))
  {
    hide Describes, Recoverable, Restored, AllCleared, Emptied, SameParents, Tree;
    if mc.manifest.None? {
      return Finished;
    }
    var m := mc.manifest.value;
    var running := RemoveAll(mc, m, before, part);
    if !running {
      return Stopped;
    }
    ghost var mid := mc.files;
    running := RestoreAll(mc, m, before);
    if !running {
      return Stopped;
    }
    RestoredAll(m, before, mc.files);
    ParentsSeen(m, old(mc.files), mid, mc.files);
    r := RemoveParents(mc, m, before);
  }

  lemma ParentsSeen(m: Manifest, f: Files, g: Files, h: Files)
    requires SameParents(m, f, g) && SameParents(m, g, h)
    ensures forall p :: p in m.parents ==> (Made(f, p) <==> Made(h, p))
  {
    forall p | p in m.parents
      ensures Made(f, p) <==> Made(h, p)
    {
      assert SameAt(f, g, p) && SameAt(g, h, p);
    }
  }

  /** The last loop: removes the made directories, the last first, and raises at one that is missing or not empty. */
  method RemoveParents(mc: Machine, m: Manifest, ghost before: Files) returns (r: Ended)
    requires Describes(m, before) && Recoverable(m, before, mc.files) && Restored(m, before, mc.files)
    requires mc.manifest == Some(m)
    modifies mc
    ensures mc.manifest == Some(m) && Recoverable(m, before, mc.files) && Restored(m, before, mc.files) && r != Refused
    ensures r == Finished ==> mc.files == before
    ensures old(mc.steps) >= |m.parents| ==> r != Stopped
    ensures r == Finished ==> forall p :: p in m.parents ==> Made(old(mc.files), p)
    ensures Tree(before) && (forall p :: p in m.parents ==> Made(old(mc.files), p)) ==> r != Raised
  {
    hide Describes, Recoverable, Restored, Tree, Beneath;
    ParentsDistinct(m, before);
    var n := |m.parents|;
    while n > 0
      invariant 0 <= n <= |m.parents| && mc.manifest == Some(m)
      invariant Recoverable(m, before, mc.files) && Restored(m, before, mc.files)
      invariant forall k :: 0 <= k < n ==> SameAt(old(mc.files), mc.files, m.parents[k])
      invariant forall k :: n <= k < |m.parents| ==> m.parents[k] !in mc.files && Made(old(mc.files), m.parents[k])
      invariant old(mc.steps) >= |m.parents| ==> mc.steps >= n
    {
      var p := m.parents[n - 1];
      assert SameAt(old(mc.files), mc.files, p);
      BareParent(m, before, mc.files, p);
      if !Made(mc.files, p) || exists q :: q in mc.files && Beneath(p, q) {
        return Raised;
      }
      ParentKeeps(m, before, mc.files, p, None);
      StillRestored(m, before, mc.files, p);
      var running := mc.Tick();
      if !running {
        return Stopped;
      }
      mc.files := Change(mc.files, p, None);
      n := n - 1;
    }
    AllRemoved(m, before, mc.files);
    return Finished;
  }

  lemma ParentsDistinct(m: Manifest, before: Files)
    requires Describes(m, before)
    ensures forall i, j :: 0 <= i < j < |m.parents| ==> m.parents[i] != m.parents[j]
  {
  }

  /** On a sound file system a made directory is empty once everything else is restored. */
  lemma BareParent(m: Manifest, before: Files, files: Files, p: Path)
    requires Describes(m, before) && Restored(m, before, files) && p in m.parents
    ensures Tree(before) && Made(files, p) ==> forall q :: q in files ==> !Beneath(p, q)
  {
    hide Beneath;
    if Tree(before) && Made(files, p) {
      assert p in before ==> SameAt(before, files, p);
      forall q | q in files
        ensures !Beneath(p, q)
      {
        if q !in m.parents || q in before {
          assert SameAt(before, files, q);
        }
      }
    }
  }

  lemma StillRestored(m: Manifest, before: Files, files: Files, p: Path)
    requires Restored(m, before, files) && p in m.parents && p !in before
    ensures Restored(m, before, Change(files, p, None))
  {
    forall q | q !in m.parents || q in before
      ensures SameAt(before, Change(files, p, None), q)
    {
      assert SameAt(before, files, q);
    }
  }

  lemma AllRemoved(m: Manifest, before: Files, files: Files)
    requires Describes(m, before) && Restored(m, before, files)
    requires forall k :: 0 <= k < |m.parents| ==> m.parents[k] !in files
    ensures files == before
  {
    forall p
      ensures SameAt(before, files, p)
    {
      assert p in m.parents && p !in before ==> p !in files;
    }
    MapsEqual(before, files);
  }

  method RemoveAll(mc: Machine, m: Manifest, ghost before: Files, part: Content) returns (running: bool)
    requires Describes(m, before) && Recoverable(m, before, mc.files) && mc.manifest == Some(m)
    modifies mc
    ensures mc.manifest == Some(m) && Recoverable(m, before, mc.files)
    ensures running ==> AllCleared(m, mc.files)
    ensures SameParents(m, old(mc.files), mc.files)
    ensures var n := 2 * (|m.owned| + |m.backups|); old(mc.steps) >= n ==> running && mc.steps >= old(mc.steps) - n
  {
    hide Describes, Recoverable, SameParents, Cleared;
    var paths := m.owned + Names(m);
    running := true;
    ParentsItself(m, mc.files);
    for i := 0 to |paths|
      invariant mc.manifest == Some(m) && Recoverable(m, before, mc.files)
      invariant SameParents(m, old(mc.files), mc.files)
      invariant forall k :: 0 <= k < i ==> Cleared(m, mc.files, paths[k])
      invariant old(mc.steps) >= 2 * |paths| ==> mc.steps >= old(mc.steps) - 2 * i
      invariant running
    {
      var p := paths[i];
      var saved := SavedFor(m, p, |m.backups|);
      RemoveClears(m, mc.files, p);
      if saved.None? || saved.value in mc.files {
        ListedExpendable(m, before, mc.files, p);
        ChangeKeeps(m, before, mc.files, p, None);
        ChangeKeeps(m, before, mc.files, p, Some(part));
        ListedAside(m, before, old(mc.files), mc.files, p, part);
        running := mc.Remove(p, part);
        if !running {
          return;
        }
      }
    }
    PathsCleared(m, mc.files);
  }

  lemma ParentsItself(m: Manifest, files: Files)
    ensures SameParents(m, files, files)
  {
  }

  /** Removing a path clears it and leaves the cleared ones clear. */
  lemma RemoveClears(m: Manifest, files: Files, p: Path)
    ensures Cleared(m, files - {p}, p) && forall q :: Cleared(m, files, q) ==> Cleared(m, files - {p}, q)
    ensures var saved := SavedFor(m, p, |m.backups|); saved.Some? && saved.value !in files ==> Cleared(m, files, p)
  {
    hide SavedFor;
  }

  lemma PathsCleared(m: Manifest, files: Files)
    requires var paths := m.owned + Names(m); forall k :: 0 <= k < |paths| ==> Cleared(m, files, paths[k])
    ensures AllCleared(m, files)
  {
    hide Cleared;
    var paths := m.owned + Names(m);
    forall p | IsOwned(m, p) || IsName(m, p)
      ensures Cleared(m, files, p)
    {
      assert p in paths;
    }
  }

  /** Nothing listed is a parent directory. */
  lemma ListedAside(m: Manifest, before: Files, was: Files, files: Files, p: Path, part: Content)
    requires Describes(m, before) && p in m.owned + Names(m) && SameParents(m, was, files)
    ensures SameParents(m, was, files - {p}) && SameParents(m, was, files[p := part])
  {
    assert IsOwned(m, p) || IsName(m, p);
    forall q | q in m.parents
      ensures SameAt(was, files - {p}, q) && SameAt(was, files[p := part], q)
    {
      assert Aside(m, q) && SameAt(was, files, q);
    }
  }

  lemma ListedExpendable(m: Manifest, before: Files, files: Files, p: Path)
    requires Describes(m, before) && p in m.owned + Names(m)
    requires var saved := SavedFor(m, p, |m.backups|); saved.None? || saved.value in files
    ensures Expendable(m, files, p)
  {
    if p in Names(m) {
      var k :| 0 <= k < |m.backups| && Names(m)[k] == p;
      assert m.backups[k].name == p;
    }
    forall i | 0 <= i < |m.backups|
      ensures m.backups[i].saved != Some(p)
    {
      assert GoodBackup(m, i, before);
    }
  }

  method RestoreAll(mc: Machine, m: Manifest, ghost before: Files) returns (running: bool)
    requires Describes(m, before) && Recoverable(m, before, mc.files) && mc.manifest == Some(m)
    requires AllCleared(m, mc.files)
    modifies mc
    ensures mc.manifest == Some(m) && Recoverable(m, before, mc.files)
    ensures running ==> AllCleared(m, mc.files)
    ensures running ==> Emptied(m, mc.files, |m.backups|)
    ensures old(mc.steps) >= |m.backups| ==> running && mc.steps >= old(mc.steps) - |m.backups|
    ensures SameParents(m, old(mc.files), mc.files)
  {
    hide Describes, Recoverable, AllCleared;
    running := true;
    for i := 0 to |m.backups|
      invariant mc.manifest == Some(m) && Recoverable(m, before, mc.files)
      invariant SameParents(m, old(mc.files), mc.files)
      invariant AllCleared(m, mc.files)
      invariant Emptied(m, mc.files, i)
      invariant old(mc.steps) >= |m.backups| ==> mc.steps >= old(mc.steps) - i
      invariant running
    {
      var b := m.backups[i];
      if b.saved.Some? && b.saved.value in mc.files {
        RestoreOne(m, before, mc.files, i);
        RestoreClears(m, before, mc.files, i);
        RenamedAside(m, before, old(mc.files), mc.files, i);
        running := mc.Rename(b.saved.value, b.name);
        if !running {
          return;
        }
      }
    }
  }

  /** Putting one original back. */
  lemma RestoreOne(m: Manifest, before: Files, files: Files, i: nat)
    requires Describes(m, before) && Recoverable(m, before, files) && AllCleared(m, files) && i < |m.backups|
    requires m.backups[i].saved.Some? && m.backups[i].saved.value in files && Emptied(m, files, i)
    ensures var b := m.backups[i];
            var after := (files - {b.saved.value})[b.name := files[b.saved.value]];
            b.name !in files && Recoverable(m, before, after) && Emptied(m, after, i + 1)
  {
    hide AllCleared, Recoverable, Describes;
    var b := m.backups[i];
    SavedInPlace(m, before, files, i);
    RenameKeeps(m, before, files, i, b.saved.value, b.name);
    forall k | 0 <= k < i && m.backups[k].saved.Some?
      ensures m.backups[k].saved.value != b.name
    {
      SavedIsNoName(m, before, k, i);
    }
  }

  lemma SavedInPlace(m: Manifest, before: Files, files: Files, i: nat)
    requires Describes(m, before) && Recoverable(m, before, files) && AllCleared(m, files) && i < |m.backups|
    requires m.backups[i].saved.Some? && m.backups[i].saved.value in files
    ensures var b := m.backups[i];
            b.name !in files && b.name in before && files[b.saved.value] == before[b.name] && b.name != b.saved.value
  {
    var b := m.backups[i];
    assert GoodBackup(m, i, before) && Safe(b, before, files);
    SavedForName(m, before, i, |m.backups|);
    assert IsName(m, b.name) && Cleared(m, files, b.name);
  }

  lemma SavedIsNoName(m: Manifest, before: Files, k: nat, i: nat)
    requires Describes(m, before) && k < |m.backups| && i < |m.backups| && m.backups[k].saved.Some?
    ensures m.backups[k].saved.value != m.backups[i].name
  {
    assert GoodBackup(m, k, before) && IsName(m, m.backups[i].name);
  }

  lemma RenamedAside(m: Manifest, before: Files, was: Files, files: Files, i: nat)
    requires Describes(m, before) && SameParents(m, was, files) && i < |m.backups| && m.backups[i].saved.Some?
    requires m.backups[i].saved.value in files
    ensures var b := m.backups[i];
            SameParents(m, was, (files - {b.saved.value})[b.name := files[b.saved.value]])
  {
    var b := m.backups[i];
    var after := (files - {b.saved.value})[b.name := files[b.saved.value]];
    assert IsName(m, b.name) && IsSaved(m, b.saved.value);
    forall q | q in m.parents
      ensures SameAt(was, after, q)
    {
      assert Aside(m, q) && SameAt(was, files, q);
    }
  }

  lemma RestoreClears(m: Manifest, before: Files, files: Files, i: nat)
    requires Describes(m, before) && i < |m.backups| && m.backups[i].saved.Some? && m.backups[i].saved.value in files
    requires AllCleared(m, files)
    ensures var b := m.backups[i];
            AllCleared(m, (files - {b.saved.value})[b.name := files[b.saved.value]])
  {
    var b := m.backups[i];
    var after := (files - {b.saved.value})[b.name := files[b.saved.value]];
    forall p | IsOwned(m, p) || IsName(m, p)
      ensures Cleared(m, after, p)
    {
      assert Cleared(m, files, p);
      assert GoodBackup(m, i, before);
      if p == b.name {
        SavedForName(m, before, i, |m.backups|);
      } else if SavedFor(m, p, |m.backups|).Some? {
        assert SavedFor(m, p, |m.backups|).value != b.name by {
          assert IsName(m, b.name);
          var k :| 0 <= k < |m.backups| && m.backups[k].saved == SavedFor(m, p, |m.backups|);
          assert GoodBackup(m, k, before);
        }
      }
    }
  }

  /** Names are distinct, so the lookup finds each one's own entry. */
  lemma {:induction false} SavedForName(m: Manifest, before: Files, i: nat, n: nat)
    requires Describes(m, before) && i < |m.backups| && n <= |m.backups|
    ensures SavedFor(m, m.backups[i].name, n) == if i < n then m.backups[i].saved else None
    decreases n
  {
    if n > 0 {
      SavedForName(m, before, i, n - 1);
    }
  }

  lemma MapsEqual(f: Files, g: Files)
    requires forall p :: SameAt(f, g, p)
    ensures f == g
  {
    forall p
      ensures (p in f <==> p in g) && (p in f ==> f[p] == g[p])
    {
      assert SameAt(f, g, p);
    }
  }

  lemma RestoredAll(m: Manifest, before: Files, files: Files)
    requires Describes(m, before) && Recoverable(m, before, files)
    requires AllCleared(m, files)
    requires Emptied(m, files, |m.backups|)
    ensures Restored(m, before, files)
  {
    forall p | p !in m.parents || p in before
      ensures SameAt(before, files, p)
    {
      if IsSaved(m, p) {
        var i :| 0 <= i < |m.backups| && m.backups[i].saved == Some(p);
        assert GoodBackup(m, i, before);
      } else if IsName(m, p) {
        var i :| 0 <= i < |m.backups| && m.backups[i].name == p;
        assert GoodBackup(m, i, before) && Cleared(m, files, p);
        if m.backups[i].saved.Some? {
          assert Safe(m.backups[i], before, files);
        } else {
          SavedForName(m, before, i, |m.backups|);
        }
      } else if IsOwned(m, p) {
        assert Cleared(m, files, p);
        assert SavedFor(m, p, |m.backups|).None?;
      } else {
        assert Aside(m, p);
      }
    }
  }

  /** Install stopped anywhere after its manifest, or finished and in use, then cleanup stopped and
      restarted any number of times: the first that is not stopped has restored every path but for made directories, and
      if it finishes, every path. */
  method InstallAndRecover(
    mc: Machine, systemd: bool, root: string, binary: Content, images: seq<Content>, part: Content, dangling: set<Path>,
    uses: seq<(Path, Option<Content>)>, attempts: seq<(nat, Content)>) returns (r: Ended)
    requires mc.manifest == None && forall p :: p in dangling && p in mc.files ==> mc.files[p] != DIRECTORY
    modifies mc
    ensures r == Finished ==> mc.files == old(mc.files)
    ensures r == Raised ==> forall p :: p !in Roots() ==> SameAt(old(mc.files), mc.files, p)
    ensures mc.manifest.Some? ==> Recoverable(mc.manifest.value, old(mc.files), mc.files)
  {
    hide Describes, Recoverable, AllMoved, Tree, Roots;
    ghost var before := mc.files;
    r := Install(mc, systemd, root, binary, images, part, dangling);
    if mc.manifest.None? {
      return Finished;
    }
    var m := mc.manifest.value;
    if r == Finished {
      for i := 0 to |uses|
        invariant mc.manifest == Some(m) && Recoverable(m, before, mc.files) && AllMoved(m, mc.files)
      {
        if IsOwned(m, uses[i].0) || IsName(m, uses[i].0) {
          Operate(mc, before, uses[i].0, uses[i].1);
        }
      }
    }
    for i := 0 to |attempts|
      invariant mc.manifest == Some(m) && Recoverable(m, before, mc.files)
    {
      mc.steps := attempts[i].0;
      r := Cleanup(mc, before, attempts[i].1);
      if r != Stopped {
        return;
      }
    }
    r := Stopped;
  }
}

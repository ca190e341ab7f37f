/** Shutting down the terminal's UNIX session: processes fork, exit, leave and are reaped while the
    bridge scans, signals and waits. */
module TerminalSession {
  /** `birth` tells a process from a later one with the same number. */
  datatype Process = Process(session: int, group: int, alive: bool, birth: nat)

  /** `family` holds the births of the shell and of everything forked inside its session. */
  datatype World = World(procs: map<int, Process>, births: nat, family: set<nat>)

  /** What other processes may do between two steps of the bridge. Only the bridge, its parent,
      can reap the shell. */
  datatype Action =
    | Fork(parent: int, child: int)
    | Exit(pid: int)
    | Reap(pid: int)
    | NewSession(pid: int)
    | NewGroup(pid: int, group: int)

  predicate Forks(w: World, parent: int, child: int) { parent in w.procs && w.procs[parent].alive && child !in w.procs }

  function Act(w: World, shell: int, a: Action): World {
    match a
    case Fork(parent, child) =>
      if Forks(w, parent, child) then
        var p := w.procs[parent];
        World(w.procs[child := Process(p.session, p.group, true, w.births)], w.births + 1,
              w.family + if p.session == shell && shell in w.procs then {w.births} else {})
      else w
    case Exit(pid) => if pid in w.procs then w.(procs := w.procs[pid := w.procs[pid].(alive := false)]) else w
    case Reap(pid) =>
      if pid in w.procs && !w.procs[pid].alive && pid != shell then w.(procs := w.procs - {pid}) else w
    case NewSession(pid) =>
      if pid in w.procs && w.procs[pid].alive && w.procs[pid].session != pid && w.procs[pid].group != pid
      then w.(procs := w.procs[pid := w.procs[pid].(session := pid, group := pid)]) else w
    case NewGroup(pid, group) =>
      if pid in w.procs && w.procs[pid].alive && w.procs[pid].session != pid && Joinable(w, pid, group)
      then w.(procs := w.procs[pid := w.procs[pid].(group := group)]) else w
  }

  /** A process may lead a group of its own or join one of its session. */
  predicate Joinable(w: World, pid: int, group: int)
    requires pid in w.procs
  {
    group == pid || exists q :: q in w.procs && w.procs[q].group == group && w.procs[q].session == w.procs[pid].session
  }

  function ActAll(w: World, shell: int, acts: seq<Action>): World
    decreases |acts|
  {
    if acts == [] then w else ActAll(Act(w, shell, acts[0]), shell, acts[1..])
  }

  /** What one pass over /proc finds: the live members of the session. */
  function Members(w: World, shell: int): set<int> {
    set pid | pid in w.procs && w.procs[pid].session == shell && w.procs[pid].alive
  }

  /** The shell is not reaped, so its number still names its session and its group, and all of both is family. */
  predicate Reserved(w: World, shell: int) {
    && shell in w.procs && w.procs[shell].session == shell
    && (forall pid :: pid in w.procs ==> w.procs[pid].birth < w.births)
    && (forall b :: b in w.family ==> b < w.births)
    && (forall pid :: pid in w.procs && w.procs[pid].group == shell ==> w.procs[pid].session == shell)
    && (forall pid :: pid in w.procs && w.procs[pid].session == shell ==> w.procs[pid].birth in w.family)
  }

  /** The session is over: the shell is a zombie and no member lives. */
  predicate Over(w: World, shell: int) {
    Reserved(w, shell) && !w.procs[shell].alive && Members(w, shell) == {}
  }

  /** Whoever is in the session after a step was in it, or was forked by a member. */
  lemma MembersInherit(w: World, shell: int, a: Action)
    requires Reserved(w, shell)
    ensures forall pid :: pid in Members(Act(w, shell, a), shell) ==>
              pid in Members(w, shell) || (a.Fork? && a.parent in Members(w, shell))
  {}

  lemma ActKeeps(w: World, shell: int, a: Action)
    requires Reserved(w, shell)
    ensures Reserved(Act(w, shell, a), shell)
    ensures Over(w, shell) ==> Over(Act(w, shell, a), shell)
    ensures w.births <= Act(w, shell, a).births
  {
    MembersInherit(w, shell, a);
  }

  /** While the shell is not reaped its session id is not reused; and once the session is over with
      the shell unreaped, it stays over whatever the other processes do. */
  lemma {:induction false} OverForever(w: World, shell: int, acts: seq<Action>)
    requires Reserved(w, shell)
    ensures Reserved(ActAll(w, shell, acts), shell)
    ensures Over(w, shell) ==> Over(ActAll(w, shell, acts), shell)
    decreases |acts|
  {
    if acts != [] {
      ActKeeps(w, shell, acts[0]);
      OverForever(Act(w, shell, acts[0]), shell, acts[1..]);
    }
  }

  /** Why the shell is kept: once it is reaped, any live process can fork a stranger that takes both
      its number and its session id. */
  lemma ReapedIdReused(w: World, shell: int, other: int)
    requires shell !in w.procs && other in w.procs && w.procs[other].alive
    requires forall pid :: pid in w.procs ==> w.procs[pid].session != shell && w.procs[pid].group != shell
    requires w.births !in w.family
    ensures var w1 := ActAll(w, shell, [Fork(other, shell), NewSession(shell)]);
            shell in Members(w1, shell) && w1.procs[shell].birth !in w1.family
  {
    var w1 := Act(w, shell, Fork(other, shell));
    var w2 := Act(w1, shell, NewSession(shell));
    var acts := [Fork(other, shell), NewSession(shell)];
    assert acts[1..] == [NewSession(shell)] && acts[1..][1..] == [];
    assert ActAll(w1, shell, acts[1..]) == w2;
  }

  // ----- a number checked and then signalled -----

  /** After `acts`, the number `pid` is held by a process that a stranger to the session forked; `strange` says
      whether that is so at the beginning. */
  predicate Taken(w: World, shell: int, pid: int, acts: seq<Action>, strange: bool)
    decreases |acts|
  {
    if acts == [] then strange
    else
      var a := acts[0];
      Taken(Act(w, shell, a), shell, pid, acts[1..],
            if a.Fork? && a.child == pid && Forks(w, a.parent, pid) then w.procs[a.parent].session != shell
            else strange)
  }

  /** Whoever holds the number of a member after any actions is family if and only if no stranger's child took it. */
  lemma {:induction false} HolderExactly(w: World, shell: int, pid: int, acts: seq<Action>, strange: bool)
    requires Reserved(w, shell) && (pid in w.procs ==> (w.procs[pid].birth in w.family <==> !strange))
    ensures var w1 := ActAll(w, shell, acts);
            pid in w1.procs ==> (w1.procs[pid].birth in w1.family <==> !Taken(w, shell, pid, acts, strange))
    decreases |acts|
  {
    if acts != [] {
      ActKeeps(w, shell, acts[0]);
      var a := acts[0];
      var next := if a.Fork? && a.child == pid && Forks(w, a.parent, pid) then w.procs[a.parent].session != shell
                  else strange;
      HolderExactly(Act(w, shell, a), shell, pid, acts[1..], next);
    }
  }

  /** A number that nobody is forked to is not taken. */
  lemma {:induction false} NotTaken(w: World, shell: int, pid: int, acts: seq<Action>)
    requires forall i :: 0 <= i < |acts| ==> !(acts[i].Fork? && acts[i].child == pid)
    ensures !Taken(w, shell, pid, acts, false)
    decreases |acts|
  {
    if acts != [] {
      NotTaken(Act(w, shell, acts[0]), shell, pid, acts[1..]);
    }
  }

  /** The race: a member that passed the check dies, is reaped, and a stranger's child takes its number. The kill
      would reach that child, while the session is as reserved as before. */
  lemma RacingKill(w: World, shell: int, pid: int, other: int)
    requires Reserved(w, shell) && pid in w.procs && w.procs[pid].session == shell && pid != shell
    requires other in w.procs && w.procs[other].alive && w.procs[other].session != shell && other != pid
    ensures var acts := [Exit(pid), Reap(pid), Fork(other, pid)];
            var w1 := ActAll(w, shell, acts);
            && Reserved(w1, shell) && pid in w1.procs && w1.procs[pid].birth !in w1.family
            && Taken(w, shell, pid, acts, false)
  {
    var acts := [Exit(pid), Reap(pid), Fork(other, pid)];
    var w1 := Act(w, shell, Exit(pid));
    var w2 := Act(w1, shell, Reap(pid));
    var w3 := Act(w2, shell, Fork(other, pid));
    assert acts[1..] == [Reap(pid), Fork(other, pid)] && acts[1..][1..] == [Fork(other, pid)];
    assert acts[1..][1..][1..] == [];
    assert ActAll(w2, shell, acts[1..][1..]) == w3;
    assert ActAll(w1, shell, acts[1..]) == w3;
    OverForever(w, shell, acts);
    HolderExactly(w, shell, pid, acts, false);
  }

  // ----- the bridge -----

  /** What happens around one entry of the scan: before its session is checked, between the check and the signal, and
      between the signal and the SIGCONT that a stopped process is sent after a hangup. */
  datatype Race = Race(before: seq<Action>, between: seq<Action>, after: seq<Action>, stopped: bool)

  /** Nobody is forked to the number between the check and the last signal. */
  predicate Quiet(r: Race, pid: int) {
    var acts := r.between + r.after;
    forall i :: 0 <= i < |acts| ==> !(acts[i].Fork? && acts[i].child == pid)
  }

  /** The process table, the births of the processes the bridge has signalled, and whether a signal raced with the
      reuse of a number. */
  class Kernel {
    var world: World
    var reaped: bool
    ghost var hit: set<nat>
    ghost var raced: bool

    constructor (w: World)
      ensures world == w && !reaped && hit == {} && !raced
    {
      world, reaped, hit, raced := w, false, {}, false;
    }

    /** Only family was signalled, if and only if no signal raced. */
    ghost predicate Fair()
      reads this
    {
      (forall b :: b in hit ==> b < world.births) && (hit <= world.family <==> !raced)
    }

    /** Other processes run. */
    method Elapse(shell: int, acts: seq<Action>)
      requires Reserved(world, shell) && Fair()
      modifies this`world
      ensures world == ActAll(old(world), shell, acts) && Reserved(world, shell) && Fair()
      ensures old(Over(world, shell)) ==> Over(world, shell)
    {
      OverForever(world, shell, acts);
      FamilyGrows(world, shell, acts);
      world := ActAll(world, shell, acts);
    }

    /** `kill` on a number: whoever holds it now, if anybody. `strange` says whether a stranger's child took it. */
    method Kill(shell: int, pid: int, ghost strange: bool)
      requires Reserved(world, shell) && Fair()
      requires pid in world.procs ==> (world.procs[pid].birth in world.family <==> !strange)
      modifies this`hit, this`raced
      ensures Fair() && raced == (old(raced) || (pid in world.procs && strange))
      ensures hit == old(hit) + if pid in world.procs then {world.procs[pid].birth} else {}
    {
      if pid in world.procs {
        hit := hit + {world.procs[pid].birth};
        raced := raced || strange;
      }
    }

    /** `kill` on the shell's process group: every process in it. */
    method KillGroup(shell: int)
      requires Reserved(world, shell) && Fair()
      modifies this`hit
      ensures Fair()
      ensures hit == old(hit)
                  + set pid | pid in world.procs && world.procs[pid].group == shell :: world.procs[pid].birth
    {
      hit := hit + set pid | pid in world.procs && world.procs[pid].group == shell :: world.procs[pid].birth;
    }

    /** `kill` on the shell itself, which is not reaped. */
    method KillShell(shell: int)
      requires Reserved(world, shell) && Fair()
      modifies this`hit, this`raced
      ensures Fair() && raced == old(raced) && shell in world.procs && hit == old(hit) + {world.procs[shell].birth}
    {
      Kill(shell, shell, false);
    }

    /** One entry of the scan: signalled if its session is still the shell's, whoever then holds its number. */
    method SignalEntry(shell: int, pid: int, hangup: bool, r: Race)
      requires Reserved(world, shell) && Fair()
      modifies this`world, this`hit, this`raced
      ensures Reserved(world, shell) && Fair() && (old(Over(world, shell)) ==> Over(world, shell))
      ensures Quiet(r, pid) ==> raced == old(raced)
    {
      Elapse(shell, r.before);
      if pid in world.procs && world.procs[pid].session == shell {
        ghost var w := world;
        Elapse(shell, r.between);
        HolderExactly(w, shell, pid, r.between, false);
        Kill(shell, pid, Taken(w, shell, pid, r.between, false));
        QuietParts(w, shell, pid, r);
        if hangup && r.stopped {
          Elapse(shell, r.after);
          ActAllTwice(w, shell, r.between, r.after);
          HolderExactly(w, shell, pid, r.between + r.after, false);
          Kill(shell, pid, Taken(w, shell, pid, r.between + r.after, false));
        }
      }
    }

    /** `signal_terminal_session`: one scan, then each member found is signalled if it still belongs
        to the session. The result is -1 or the number of members found. Every process signalled is family if and
        only if no number was taken by a stranger's child between its check and its signal. */
    method SignalSession(shell: int, sending: bool, hangup: bool, openFails: bool, killFails: bool, races: int -> Race)
      returns (live: int)
      requires Reserved(world, shell) && Fair()
      modifies this`world, this`hit, this`raced
      ensures Reserved(world, shell) && Fair()
      ensures old(Over(world, shell)) ==> Over(world, shell)
      ensures (forall pid :: Quiet(races(pid), pid)) ==> raced == old(raced)
      ensures !sending ==> world == old(world) && hit == old(hit) && raced == old(raced)
      ensures live == if openFails || (sending && killFails) then -1 else |Members(old(world), shell)|
    {
      if openFails {
        return -1;
      }
      var found: set<int> := Members(world, shell);
      live := |found|;
      if sending {
        while found != {}
          invariant Reserved(world, shell) && Fair()
          invariant old(Over(world, shell)) ==> Over(world, shell)
          invariant (forall pid :: Quiet(races(pid), pid)) ==> raced == old(raced)
          decreases found
        {
          var pid := NextEntry(found);
          found := found - {pid};
          SignalEntry(shell, pid, hangup, races(pid));
        }
        if killFails {
          live := -1;
        }
      }
    }
  }

  lemma {:induction false} ActAllTwice(w: World, shell: int, a: seq<Action>, b: seq<Action>)
    ensures ActAll(w, shell, a + b) == ActAll(ActAll(w, shell, a), shell, b)
    decreases |a|
  {
    if a == [] {
      assert a + b == b;
    } else {
      assert (a + b)[1..] == a[1..] + b;
      ActAllTwice(Act(w, shell, a[0]), shell, a[1..], b);
    }
  }

  lemma QuietParts(w: World, shell: int, pid: int, r: Race)
    ensures Quiet(r, pid) ==>
              !Taken(w, shell, pid, r.between, false) && !Taken(w, shell, pid, r.between + r.after, false)
  {
    if Quiet(r, pid) {
      var acts := r.between + r.after;
      assert forall i :: 0 <= i < |r.between| ==> r.between[i] == acts[i];
      NotTaken(w, shell, pid, r.between);
      NotTaken(w, shell, pid, acts);
    }
  }

  /** Directory entries come in no particular order. */
  method NextEntry<T(==)>(found: set<T>) returns (entry: T)
    requires found != {}
    ensures entry in found
  {
    entry :| entry in found;
  }

  /** The family only gains births that are new. */
  lemma {:induction false} FamilyGrows(w: World, shell: int, acts: seq<Action>)
    ensures var w1 := ActAll(w, shell, acts);
            && w.family <= w1.family && w.births <= w1.births
            && forall b :: b in w1.family && b !in w.family ==> b >= w.births
    decreases |acts|
  {
    if acts != [] {
      FamilyGrows(Act(w, shell, acts[0]), shell, acts[1..]);
    }
  }

  /** One turn of the waiting loop: what the environment does and answers. */
  datatype Wait = Wait(
    before: seq<Action>, waitFails: bool, waitInterrupted: bool, scanFails: bool,
    clockFails: bool, expired: bool, pollFails: bool)

  datatype Waited = Gone | Expired | Error | Waiting

  /** `await_session_exit`: `Gone` only after a scan that found the session over. */
  method AwaitExit(k: Kernel, shell: int, waits: seq<Wait>) returns (r: Waited)
    requires Reserved(k.world, shell) && k.Fair()
    modifies k
    ensures Reserved(k.world, shell) && k.Fair()
    ensures k.reaped == old(k.reaped) && k.hit == old(k.hit) && k.raced == old(k.raced)
    ensures r == Gone ==> Over(k.world, shell)
    ensures old(Over(k.world, shell)) ==> Over(k.world, shell)
  {
    for i := 0 to |waits|
      invariant Reserved(k.world, shell) && k.Fair()
      invariant k.reaped == old(k.reaped) && k.hit == old(k.hit) && k.raced == old(k.raced)
      invariant old(Over(k.world, shell)) ==> Over(k.world, shell)
    {
      var t := waits[i];
      k.Elapse(shell, t.before);
      if t.waitFails {
        return Error;
      }
      if !t.waitInterrupted && !k.world.procs[shell].alive {
        var live := k.SignalSession(shell, false, false, t.scanFails, false, _ => Race([], [], [], false));
        if live <= 0 {
          if live == 0 {
            return Gone;
          }
          return Error;
        }
      }
      if t.clockFails {
        return Error;
      }
      if t.expired {
        return Expired;
      }
      if t.pollFails {
        return Error;
      }
    }
    r := Waiting;
  }

  /** What the environment does during one shutdown, step by step. */
  datatype Shutdown = Shutdown(
    hupOpenFails: bool, hupKillFails: bool, hupRaces: int -> Race, beforeGroup: seq<Action>, firstWaits: seq<Wait>,
    killOpenFails: bool, killKillFails: bool, killRaces: int -> Race, beforeKill: seq<Action>,
    betweenKills: seq<Action>, secondWaits: seq<Wait>, beforeReap: seq<Action>, reapFails: bool, status: nat)

  /** No number found by a scan is forked to between its check and its signal. */
  ghost predicate Calm(e: Shutdown) {
    forall pid :: Quiet(e.hupRaces(pid), pid) && Quiet(e.killRaces(pid), pid)
  }

  /** `stop_shell`: hang up, wait, kill, wait again, and reap only a session that is over, whose id was reserved
      throughout. Only the shell's own session was signalled if and only if no signal raced with the reuse of a
      number. */
  method StopShell(k: Kernel, shell: int, e: Shutdown) returns (code: nat)
    requires Reserved(k.world, shell) && !k.reaped && k.Fair()
    modifies k
    ensures (k.hit <= k.world.family <==> !k.raced) && (Calm(e) ==> k.raced == old(k.raced))
    ensures if k.reaped then exists w :: Over(w, shell) && k.world == w.(procs := w.procs - {shell})
            else Reserved(k.world, shell) && code == 1
    ensures k.reaped && !e.hupOpenFails && !e.hupKillFails && !e.killOpenFails && !e.killKillFails ==> code == e.status
  {
    hide Quiet, Reserved, Members, ActAll;
    var sent := k.SignalSession(shell, true, true, e.hupOpenFails, e.hupKillFails, e.hupRaces);
    var failed := sent < 0;
    if failed {
      k.Elapse(shell, e.beforeGroup);
      k.KillGroup(shell);
    }
    var exited := AwaitExit(k, shell, e.firstWaits);
    if exited != Gone {
      sent := k.SignalSession(shell, true, false, e.killOpenFails, e.killKillFails, e.killRaces);
      failed := failed || sent < 0;
      k.Elapse(shell, e.beforeKill);
      k.KillGroup(shell);
      k.Elapse(shell, e.betweenKills);
      k.KillShell(shell);
      exited := AwaitExit(k, shell, e.secondWaits);
    }
    if exited != Gone {
      return 1;
    }
    k.Elapse(shell, e.beforeReap);
    if e.reapFails {
      return 1;
    }
    ghost var w := k.world;
    k.world := k.world.(procs := k.world.procs - {shell});
    k.reaped := true;
    assert Over(w, shell);
    code := if failed then 1 else e.status;
  }
}

/** The profile's self-check: every rule is tried on its witness call, first with probe errnos that
    name the rule, then for real. */
module KernelVerify {
  import opened Common
  import opened KernelProfile

  const MAX_ERRNO: nat := 4095

  /** What a system call returns, or `Killed`. */
  datatype Outcome = Killed | Returned(value: int, errno: nat)

  /** A call under the filter: an allowed one reaches the host kernel. */
  function Trap(prog: seq<Instr>, host: Call -> Outcome, d: Call): Outcome
    requires IsCall(d)
  {
    match Run(prog, 0, 0, d)
    case None => Killed
    case Some(ret) =>
      if ret == RET_ALLOW then host(d)
      else if RET_ERRNO <= ret < RET_ERRNO + 0x1_0000 then
        Returned(-1, if ret - RET_ERRNO > MAX_ERRNO then MAX_ERRNO else ret - RET_ERRNO)
      else Killed
  }

  /** The arguments that satisfy a rule's conditions one by one, all others zero. */
  function WitnessArgs(cs: seq<Condition>): (args: seq<Wide>)
    requires forall j :: 0 <= j < |cs| ==> cs[j].argument < 6
    ensures |args| == 6
  {
    if cs == [] then seq(6, _ => Wide(0, 0))
    else WitnessArgs(cs[..|cs| - 1])[cs[|cs| - 1].argument := Wide(cs[|cs| - 1].value, 0)]
  }

  function Native(nr: word, args: seq<Wide>): Call { Call(nr, ARCH_AARCH64, Wide(0, 0), args) }

  function Witness(r: Restriction): (d: Call)
    requires WellFormedRule(r)
    ensures IsCall(d)
  {
    Native(r.number, WitnessArgs(r.conditions))
  }

  /** Rule `i` is the one that catches its own witness. */
  predicate Reached(table: seq<Restriction>, i: nat)
    requires WellFormed(table) && i < |table|
  {
    Select(table, Witness(table[i])) == Rule(i)
  }

  predicate AllReached(table: seq<Restriction>)
    requires WellFormed(table)
  {
    forall i :: 0 <= i < |table| ==> Reached(table, i)
  }

  // ----- probe errnos name the rule -----

  /** The probe and the real program select the same rule on every call, and two calls get the same
      probe verdict only if they were decided alike. */
  lemma ProbeNamesRule(table: seq<Restriction>, d: Call, e: Call)
    requires IsCall(d) && IsCall(e) && WellFormed(table) && |Compile(table, true)| <= PROGRAM_LIMIT
    ensures Run(Compile(table, false), 0, 0, d) == Some(Verdict(table, Select(table, d), false))
    ensures Run(Compile(table, true), 0, 0, d) == Some(Verdict(table, Select(table, d), true))
    ensures Run(Compile(table, true), 0, 0, d) == Run(Compile(table, true), 0, 0, e) <==>
            Select(table, d) == Select(table, e)
  {
    hide Run;
    CompileCorrect(table, false, d);
    CompileCorrect(table, true, d);
    CompileCorrect(table, true, e);
    SizeBound(table, 0, true);
  }

  /** A program that fits has at most 83 rules. */
  lemma {:induction false} SizeBound(table: seq<Restriction>, i: nat, probe: bool)
    requires i <= |table|
    ensures |RulesCode(table, i, probe)| >= 3 * (|table| - i)
    decreases |table| - i
  {
    if i < |table| {
      SizeBound(table, i + 1, probe);
    }
  }

  lemma ProbeOutcome(table: seq<Restriction>, i: nat, host: Call -> Outcome)
    requires WellFormed(table) && |Compile(table, true)| <= PROGRAM_LIMIT && i < |table|
    requires forall d :: host(d).Returned? ==> host(d).errno < 3000
    ensures Trap(Compile(table, true), host, Witness(table[i])) == Returned(-1, 3000 + i + 1) <==> Reached(table, i)
  {
    hide Run;
    CompileCorrect(table, true, Witness(table[i]));
    SizeBound(table, 0, true);
  }

  lemma RealOutcome(table: seq<Restriction>, i: nat, host: Call -> Outcome)
    requires WellFormed(table) && i < |table| && table[i].error <= MAX_ERRNO && Reached(table, i)
    ensures Trap(Compile(table, false), host, Witness(table[i])) == Returned(-1, table[i].error)
  {
    hide Run;
    CompileCorrect(table, false, Witness(table[i]));
  }

  // ----- the self-check -----

  /** The table loop of `verify`, then the two calls that are newer than the profile. With probe
      errnos it succeeds exactly when every rule catches its own witness; for real it succeeds
      whenever that is so. */
  method VerifyRules(table: seq<Restriction>, probe: bool, host: Call -> Outcome) returns (ok: bool)
    requires WellFormed(table) && |Compile(table, probe)| <= PROGRAM_LIMIT
    requires forall i :: 0 <= i < |table| ==> table[i].error <= MAX_ERRNO
    requires forall d :: host(d).Returned? ==> host(d).errno < 3000
    ensures AllReached(table) ==> ok
    ensures probe && ok ==> AllReached(table)
  {
    hide Run, Compile, Select, Trap;
    var prog := Compile(table, probe);
    for i := 0 to |table|
      invariant probe ==> forall k :: 0 <= k < i ==> Reached(table, k)
    {
      var r := table[i];
      var args := BuildArgs(r);
      if probe {
        ProbeOutcome(table, i, host);
      } else if Reached(table, i) {
        RealOutcome(table, i, host);
      }
      if Trap(prog, host, Native(r.number, args)) != Returned(-1, ResultErrno(r.error, i + 1, probe)) {
        return false;
      }
    }
    var none := seq(6, _ => Wide(0, 0));
    NewCalls(table, probe, host, 449, none);
    NewCalls(table, probe, host, 452, none);
    ok := Trap(prog, host, Native(449, none)) == Returned(-1, ResultErrno(ENOSYS, 0, probe))
       && Trap(prog, host, Native(452, none)) == Returned(-1, ResultErrno(ENOSYS, 0, probe));
  }

  method BuildArgs(r: Restriction) returns (args: seq<Wide>)
    requires WellFormedRule(r)
    ensures args == WitnessArgs(r.conditions)
  {
    args := seq(6, _ => Wide(0, 0));
    for j := 0 to |r.conditions|
      invariant args == WitnessArgs(r.conditions[..j])
    {
      assert r.conditions[..j + 1][..j] == r.conditions[..j];
      args := args[r.conditions[j].argument := Wide(r.conditions[j].value, 0)];
    }
    assert r.conditions[..|r.conditions|] == r.conditions;
  }

  lemma NewCalls(table: seq<Restriction>, probe: bool, host: Call -> Outcome, nr: word, args: seq<Wide>)
    requires WellFormed(table) && nr >= FIRST_NEW_CALL && |args| == 6
    ensures Trap(Compile(table, probe), host, Native(nr, args)) == Returned(-1, ResultErrno(ENOSYS, 0, probe))
  {
    hide Run;
    CompileCorrect(table, probe, Native(nr, args));
  }

  // ----- the shipped table -----

  const EINVAL: nat := 22
  const ENOTTY: nat := 25
  const ENOPROTOOPT: nat := 92
  const SETSOCKOPT: word := 208
  const GETSOCKOPT: word := 209
  const IOCTL: word := 29
  const SECCOMP: word := 277
  const MEMFD_CREATE: word := 279
  const EXECVEAT: word := 281
  const PIDFD_OPEN: word := 434

  function Eq(argument: nat, value: word): Condition { Condition(argument, 0xffff_ffff, value) }

  /** Linux 5.15 on ARM64, in the source's order. */
  function Shipped(): seq<Restriction> {
    [Restriction(PIDFD_OPEN, EINVAL, [Condition(1, 0x80, 0x80)]),
     Restriction(IOCTL, EINVAL, [Eq(1, 0x4008_2104)]),
     Restriction(IOCTL, ENOTTY, [Condition(1, 0xffff, 0x6202)]),
     Restriction(IOCTL, ENOTTY, [Condition(1, 0xffff, 0x6203)]),
     Restriction(IOCTL, ENOTTY, [Condition(1, 0xff00, 0xff00)]),
     Restriction(IOCTL, ENOTTY, [Condition(1, 0xffff, 0x6611)]),
     Restriction(MEMFD_CREATE, EINVAL, [Condition(1, 0x10, 0x10)]),
     Restriction(MEMFD_CREATE, EINVAL, [Condition(1, 0x08, 0x08)]),
     Restriction(EXECVEAT, EINVAL, [Condition(4, 0x1_0000, 0x1_0000)]),
     Restriction(GETSOCKOPT, ENOPROTOOPT, [Eq(1, 1), Eq(2, 77)]),
     Restriction(GETSOCKOPT, ENOPROTOOPT, [Eq(1, 1), Eq(2, 76)]),
     Restriction(SETSOCKOPT, ENOPROTOOPT, [Eq(1, 1), Eq(2, 76)]),
     Restriction(SECCOMP, EINVAL, [Eq(0, 1), Condition(1, 0x20, 0x20)]),
     Restriction(SECCOMP, EINVAL, [Eq(0, 1), Condition(1, 0x40, 0x40)])]
  }

  /** A witness is caught by its own rule when the rule matches it and no earlier rule does. */
  lemma ReachedIf(table: seq<Restriction>, i: nat)
    requires WellFormed(table) && i < |table| && table[i].number < FIRST_NEW_CALL
    requires Matches(table[i], Witness(table[i]))
    requires forall k :: 0 <= k < i ==> !Matches(table[k], Witness(table[i]))
    ensures Reached(table, i)
  {
    var s := FirstMatch(table, 0, Witness(table[i]));
    assert s.Rule? ==> s.index == i;
  }

  /** The rules fall into seven calls; within one call, rules are told apart by their values. */
  function CallOf(i: nat): nat
    requires i < 14
  {
    if i == 0 then 0 else if i <= 5 then 1 else if i <= 7 then 2 else if i == 8 then 3
    else if i <= 10 then 4 else if i == 11 then 5 else 6
  }

  function Numbers(): seq<word> { [PIDFD_OPEN, IOCTL, MEMFD_CREATE, EXECVEAT, GETSOCKOPT, SETSOCKOPT, SECCOMP] }

  function Arguments(call: nat): seq<nat>
    requires call < 7
  {
    [[1], [1], [1], [4], [1, 2], [1, 2], [0, 1]][call]
  }

  lemma ShippedRow(i: nat)
    requires i < 14
    ensures |Shipped()| == 14
    ensures var r := Shipped()[i];
            && r.number == Numbers()[CallOf(i)] && r.number < FIRST_NEW_CALL && r.error <= MAX_ERRNO
            && |r.conditions| == |Arguments(CallOf(i))| == (if i <= 8 then 1 else 2)
            && (i > 8 ==> Arguments(CallOf(i))[0] != Arguments(CallOf(i))[1])
            && forall j :: 0 <= j < |r.conditions| ==> r.conditions[j].argument == Arguments(CallOf(i))[j]
  {
    assert i in [0, 1, 2, 3, 4, 5, 6, 7, 8, 9, 10, 11, 12, 13];
  }

  lemma NumbersDistinct(a: nat, b: nat)
    requires a < 7 && b < 7
    ensures Numbers()[a] == Numbers()[b] ==> a == b
  {
    assert a in [0, 1, 2, 3, 4, 5, 6] && b in [0, 1, 2, 3, 4, 5, 6];
  }

  lemma ShippedWellFormed()
    ensures |Shipped()| == 14 && WellFormed(Shipped())
  {
    hide Shipped;
    ShippedRow(0);
    forall i | 0 <= i < 14
      ensures WellFormedRule(Shipped()[i])
    {
      ShippedRow(i);
    }
  }

  lemma ShippedAt(i: nat, k: nat)
    requires k <= i < 14
    ensures |Shipped()| == 14 && WellFormed(Shipped())
    ensures Matches(Shipped()[k], Witness(Shipped()[i])) <==> k == i
  {
    hide Masked, HoldAll, Shipped, Arguments, WitnessArgs;
    NumbersDistinct(CallOf(i), CallOf(k));
    ShippedWellFormed();
    ShippedRow(i);
    ShippedRow(k);
    var r, s := Shipped()[k], Shipped()[i];
    if CallOf(i) == CallOf(k) {
      if i <= 8 {
        OneArgument(r, s);
        SingleValues(i, k);
      } else {
        TwoArguments(r, s);
        DoubleValues(i, k);
      }
    }
  }

  lemma SingleValues(i: nat, k: nat)
    requires k <= i <= 8 && CallOf(i) == CallOf(k)
    ensures |Shipped()| == 14 && |Shipped()[k].conditions| == |Shipped()[i].conditions| == 1
    ensures var (c, e) := (Shipped()[k].conditions[0], Shipped()[i].conditions[0]);
            Masked(e.value, c.mask) == c.value <==> k == i
  {
    if i == 0 {} else if i == 1 {} else if i == 2 { assert k in [1, 2]; }
    else if i == 3 { assert k in [1, 2, 3]; } else if i == 4 { assert k in [1, 2, 3, 4]; }
    else if i == 5 { assert k in [1, 2, 3, 4, 5]; } else if i == 6 {} else if i == 7 { assert k in [6, 7]; } else {}
  }

  lemma DoubleValues(i: nat, k: nat)
    requires 9 <= k <= i < 14 && CallOf(i) == CallOf(k)
    ensures |Shipped()| == 14 && |Shipped()[k].conditions| == |Shipped()[i].conditions| == 2
    ensures var (cs, es) := (Shipped()[k].conditions, Shipped()[i].conditions);
            && Masked(es[0].value, cs[0].mask) == cs[0].value
            && (Masked(es[1].value, cs[1].mask) == cs[1].value <==> k == i)
  {
    if i == 10 {
      assert k in [9, 10];
    } else if i == 13 {
      assert k in [12, 13];
    }
  }

  lemma OneArgument(r: Restriction, s: Restriction)
    requires WellFormedRule(r) && WellFormedRule(s) && |r.conditions| == 1 && |s.conditions| == 1
    requires r.number == s.number && r.conditions[0].argument == s.conditions[0].argument
    ensures Matches(r, Witness(s)) <==> Masked(s.conditions[0].value, r.conditions[0].mask) == r.conditions[0].value
  {
    hide Masked;
    var (c, e) := (r.conditions[0], s.conditions[0]);
    assert s.conditions[..0] == [];
    var d := Witness(s);
    assert d.args[e.argument].low == e.value;
    assert Matches(r, d) <==> Holds(c, d);
  }

  lemma TwoArguments(r: Restriction, s: Restriction)
    requires WellFormedRule(r) && WellFormedRule(s) && |r.conditions| == 2 && |s.conditions| == 2
    requires r.number == s.number
    requires forall j :: 0 <= j < 2 ==> r.conditions[j].argument == s.conditions[j].argument
    requires r.conditions[0].argument != r.conditions[1].argument
    ensures Matches(r, Witness(s)) <==>
            && Masked(s.conditions[0].value, r.conditions[0].mask) == r.conditions[0].value
            && Masked(s.conditions[1].value, r.conditions[1].mask) == r.conditions[1].value
  {
    hide Masked;
    var (c0, c1, e0, e1) := (r.conditions[0], r.conditions[1], s.conditions[0], s.conditions[1]);
    var d := Witness(s);
    assert s.conditions[..1][..0] == [];
    assert WitnessArgs(s.conditions[..1])[e0.argument].low == e0.value;
    assert d.args[e0.argument].low == e0.value && d.args[e1.argument].low == e1.value;
    assert Matches(r, d) <==> Holds(c0, d) && Holds(c1, d);
  }

  /** The shipped table fits and passes its own self-check, probing and for real. */
  lemma ShippedReached()
    ensures WellFormed(Shipped()) && AllReached(Shipped())
    ensures forall probe :: |Compile(Shipped(), probe)| <= PROGRAM_LIMIT
  {
    hide Shipped, Masked;
    ShippedWellFormed();
    forall i | 0 <= i < 14
      ensures Reached(Shipped(), i)
    {
      ShippedRow(i);
      ShippedAt(i, i);
      forall k | 0 <= k < i
        ensures !Matches(Shipped()[k], Witness(Shipped()[i]))
      {
        ShippedAt(i, k);
      }
      ReachedIf(Shipped(), i);
    }
    forall probe
      ensures |Compile(Shipped(), probe)| <= PROGRAM_LIMIT
    {
      SizeAtMost(Shipped(), 0, probe);
    }
  }

  lemma {:induction false} SizeAtMost(table: seq<Restriction>, i: nat, probe: bool)
    requires WellFormed(table) && i <= |table|
    ensures |RulesCode(table, i, probe)| <= 9 * (|table| - i)
    decreases |table| - i
  {
    if i < |table| {
      SizeAtMost(table, i + 1, probe);
    }
  }
}

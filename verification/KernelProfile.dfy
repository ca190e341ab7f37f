/** The test kernel profile: a restriction table compiled to a classic BPF seccomp filter, and the
    machine that runs it. */
module KernelProfile {
  import opened Common

  type word = bv32

  // ----- the seccomp machine -----

  /** A 64-bit field of `struct seccomp_data`, as the two words a filter can load. */
  datatype Wide = Wide(low: word, high: word)
  datatype Call = Call(nr: word, arch: word, ip: Wide, args: seq<Wide>)

  predicate IsCall(d: Call) { |d.args| == 6 }

  /** The word of `struct seccomp_data` at a byte offset, if the kernel admits the load. */
  function Word(d: Call, offset: nat): Option<word>
    requires IsCall(d)
  {
    if offset == 0 then Some(d.nr)
    else if offset == 4 then Some(d.arch)
    else if offset == 8 then Some(d.ip.low)
    else if offset == 12 then Some(d.ip.high)
    else if offset < 64 && offset >= 16 && offset % 8 == 0 then Some(d.args[(offset - 16) / 8].low)
    else if offset < 64 && offset >= 16 && offset % 8 == 4 then Some(d.args[(offset - 16) / 8].high)
    else None
  }

  datatype Instr =
    | Load(offset: nat)
    | And(k: word)
    | JumpEq(k: word, jt: nat, jf: nat)
    | JumpGe(k: word, jt: nat, jf: nat)
    | Return(ret: nat)

  function Masked(a: word, k: word): word { a & k }

  /** The value a filter returns from `pc` with accumulator `a`; `None` if it runs off its end
      or loads outside the call. Every jump is forward, so every run ends. */
  function Run(prog: seq<Instr>, pc: nat, a: word, d: Call): Option<nat>
    requires IsCall(d)
    decreases |prog| - pc
  {
    if pc >= |prog| then None
    else
      match prog[pc]
      case Load(offset) =>
        var w := Word(d, offset);
        if w.None? then None else Run(prog, pc + 1, w.value, d)
      case And(k) => Run(prog, pc + 1, Masked(a, k), d)
      case JumpEq(k, jt, jf) => Run(prog, pc + 1 + (if a == k then jt else jf), a, d)
      case JumpGe(k, jt, jf) => Run(prog, pc + 1 + (if a >= k then jt else jf), a, d)
      case Return(ret) => Some(ret)
  }

  const RET_KILL_PROCESS: nat := 0x8000_0000
  const RET_ERRNO: nat := 0x0005_0000
  const RET_ALLOW: nat := 0x7fff_0000
  const ARCH_AARCH64: word := 0xc000_00b7
  const FIRST_NEW_CALL: word := 449
  const ENOSYS: nat := 38
  const PROGRAM_LIMIT: nat := 256

  // ----- restriction tables and what they mean -----

  datatype Condition = Condition(argument: nat, mask: word, value: word)
  datatype Restriction = Restriction(number: word, error: nat, conditions: seq<Condition>)

  /** What the table's C type allows: two conditions on six arguments, and an errno. */
  predicate WellFormed(table: seq<Restriction>) {
    forall i :: 0 <= i < |table| ==> WellFormedRule(table[i])
  }

  predicate WellFormedRule(r: Restriction) {
    |r.conditions| <= 2 && r.error < 0x1_0000 && forall j :: 0 <= j < |r.conditions| ==> r.conditions[j].argument < 6
  }

  predicate Holds(c: Condition, d: Call)
    requires IsCall(d) && c.argument < 6
  {
    Masked(d.args[c.argument].low, c.mask) == c.value
  }

  predicate Matches(r: Restriction, d: Call)
    requires IsCall(d) && WellFormedRule(r)
  {
    d.nr == r.number && HoldAll(r.conditions, d)
  }

  /** The part of the profile that decides a call. */
  datatype Selection = WrongArch | NewCall | Rule(index: nat) | Unrestricted

  /** The first rule from `i` on that matches. */
  function FirstMatch(table: seq<Restriction>, i: nat, d: Call): (s: Selection)
    requires IsCall(d) && WellFormed(table) && i <= |table|
    ensures s.Rule? ==> i <= s.index < |table| && Matches(table[s.index], d)
                        && forall k :: i <= k < s.index ==> !Matches(table[k], d)
    ensures !s.Rule? ==> s.Unrestricted? && forall k :: i <= k < |table| ==> !Matches(table[k], d)
    decreases |table| - i
  {
    if i == |table| then Unrestricted
    else if Matches(table[i], d) then Rule(i)
    else FirstMatch(table, i + 1, d)
  }

  function Select(table: seq<Restriction>, d: Call): Selection
    requires IsCall(d) && WellFormed(table)
  {
    if d.arch != ARCH_AARCH64 then WrongArch
    else if d.nr >= FIRST_NEW_CALL then NewCall
    else FirstMatch(table, 0, d)
  }

  /** Probe errnos stand outside every errno the host itself returns. */
  function ResultErrno(error: nat, index: nat, probe: bool): nat { if probe then 3000 + index else error }

  function Verdict(table: seq<Restriction>, s: Selection, probe: bool): nat
    requires s.Rule? ==> s.index < |table|
  {
    match s
    case WrongArch => RET_KILL_PROCESS
    case NewCall => RET_ERRNO + ResultErrno(ENOSYS, 0, probe)
    case Rule(i) => RET_ERRNO + ResultErrno(table[i].error, i + 1, probe)
    case Unrestricted => RET_ALLOW
  }

  // ----- the code -----

  function Prelude(probe: bool): seq<Instr> {
    [Load(4), JumpEq(ARCH_AARCH64, 1, 0), Return(RET_KILL_PROCESS),
     Load(0), JumpGe(FIRST_NEW_CALL, 0, 1), Return(RET_ERRNO + ResultErrno(ENOSYS, 0, probe))]
  }

  function ConditionCode(c: Condition, jf: nat): seq<Instr> {
    [Load(16 + c.argument * 8), And(c.mask), JumpEq(c.value, 0, jf)]
  }

  /** Each failing condition jumps past the block's return. */
  function ConditionsCode(cs: seq<Condition>): (code: seq<Instr>)
    ensures |code| == 3 * |cs|
  {
    if cs == [] then [] else ConditionCode(cs[0], 3 * |cs| - 2) + ConditionsCode(cs[1..])
  }

  function RuleCode(r: Restriction, index: nat, probe: bool): (code: seq<Instr>)
    ensures |code| == 3 + 3 * |r.conditions|
  {
    [Load(0), JumpEq(r.number, 0, 3 * |r.conditions| + 1)] + ConditionsCode(r.conditions)
    + [Return(RET_ERRNO + ResultErrno(r.error, index, probe))]
  }

  function RulesCode(table: seq<Restriction>, i: nat, probe: bool): seq<Instr>
    requires i <= |table|
    decreases |table| - i
  {
    if i == |table| then [] else RuleCode(table[i], i + 1, probe) + RulesCode(table, i + 1, probe)
  }

  function Compile(table: seq<Restriction>, probe: bool): seq<Instr> {
    Prelude(probe) + RulesCode(table, 0, probe) + [Return(RET_ALLOW)]
  }

  // ----- the code means the table -----

  /** `code` stands in `prog` at `pc`. */
  ghost predicate Placed(prog: seq<Instr>, pc: nat, code: seq<Instr>) {
    pc + |code| <= |prog| && prog[pc..pc + |code|] == code
  }

  lemma PlacedSplit(prog: seq<Instr>, pc: nat, a: seq<Instr>, b: seq<Instr>)
    requires Placed(prog, pc, a + b)
    ensures Placed(prog, pc, a) && Placed(prog, pc + |a|, b)
  {
    var both := prog[pc..pc + |a + b|];
    assert both[..|a|] == a && both[|a|..] == b;
    assert prog[pc..pc + |a|] == both[..|a|];
    assert prog[pc + |a|..pc + |a| + |b|] == both[|a|..];
  }

  /** An instruction whose effect does not depend on the accumulator. */
  predicate Forgets(i: Instr) { i.Load? || i.Return? }

  lemma RunForgets(prog: seq<Instr>, pc: nat, a: word, b: word, d: Call)
    requires IsCall(d) && pc < |prog| && Forgets(prog[pc])
    ensures Run(prog, pc, a, d) == Run(prog, pc, b, d)
  {}

  lemma RunLoad(prog: seq<Instr>, pc: nat, a: word, d: Call)
    requires IsCall(d) && pc < |prog| && prog[pc].Load? && Word(d, prog[pc].offset).Some?
    ensures Run(prog, pc, a, d) == Run(prog, pc + 1, Word(d, prog[pc].offset).value, d)
  {}

  lemma RunAnd(prog: seq<Instr>, pc: nat, a: word, d: Call)
    requires IsCall(d) && pc < |prog| && prog[pc].And?
    ensures Run(prog, pc, a, d) == Run(prog, pc + 1, Masked(a, prog[pc].k), d)
  {}

  lemma RunJump(prog: seq<Instr>, pc: nat, a: word, d: Call)
    requires IsCall(d) && pc < |prog| && prog[pc].JumpEq?
    ensures Run(prog, pc, a, d) == Run(prog, pc + 1 + (if a == prog[pc].k then prog[pc].jt else prog[pc].jf), a, d)
  {}

  lemma RunCondition(prog: seq<Instr>, pc: nat, c: Condition, jf: nat, a: word, d: Call)
    requires IsCall(d) && c.argument < 6 && Placed(prog, pc, ConditionCode(c, jf))
    ensures var a' := Masked(d.args[c.argument].low, c.mask);
            Run(prog, pc, a, d) == Run(prog, pc + 3 + (if Holds(c, d) then 0 else jf), a', d)
  {
    hide Run, Masked;
    var code := prog[pc..pc + 3];
    assert prog[pc] == code[0] && prog[pc + 1] == code[1] && prog[pc + 2] == code[2];
    var w := d.args[c.argument].low;
    assert Word(d, 16 + c.argument * 8) == Some(w);
    RunLoad(prog, pc, a, d);
    RunAnd(prog, pc + 1, w, d);
    RunJump(prog, pc + 2, Masked(w, c.mask), d);
  }

  /** Conditions followed by a return: the return is reached exactly when all of them hold. */
  lemma {:induction false} RunConditions(prog: seq<Instr>, pc: nat, cs: seq<Condition>, ret: nat, a: word, d: Call)
    requires IsCall(d) && (forall j :: 0 <= j < |cs| ==> cs[j].argument < 6)
    requires Placed(prog, pc, ConditionsCode(cs) + [Return(ret)])
    requires pc + 3 * |cs| + 1 < |prog| && Forgets(prog[pc + 3 * |cs| + 1])
    ensures Run(prog, pc, a, d)
         == if HoldAll(cs, d) then Some(ret) else Run(prog, pc + 3 * |cs| + 1, 0, d)
    decreases |cs|
  {
    hide Run;
    if cs == [] {
      RunReturn(prog, pc, ret, a, d);
    } else {
      hide Run, Masked, Holds, HoldAll, Placed, Forgets, ConditionCode, ConditionsCode;
      var jf := 3 * |cs| - 2;
      ConditionsPlaced(prog, pc, cs, ret);
      RunCondition(prog, pc, cs[0], jf, a, d);
      var a' := Masked(d.args[cs[0].argument].low, cs[0].mask);
      HoldsSplit(cs, d);
      if Holds(cs[0], d) {
        RunConditions(prog, pc + 3, cs[1..], ret, a', d);
      } else {
        RunForgets(prog, pc + 3 * |cs| + 1, a', 0, d);
      }
    }
  }

  lemma RunReturn(prog: seq<Instr>, pc: nat, ret: nat, a: word, d: Call)
    requires IsCall(d) && Placed(prog, pc, [] + [Return(ret)])
    ensures Run(prog, pc, a, d) == Some(ret)
  {
    assert prog[pc] == prog[pc..pc + 1][0];
  }

  lemma {:induction false} ConditionsPlaced(prog: seq<Instr>, pc: nat, cs: seq<Condition>, ret: nat)
    requires cs != [] && Placed(prog, pc, ConditionsCode(cs) + [Return(ret)])
    ensures Placed(prog, pc, ConditionCode(cs[0], 3 * |cs| - 2))
    ensures Placed(prog, pc + 3, ConditionsCode(cs[1..]) + [Return(ret)])
  {
    var first, rest := ConditionCode(cs[0], 3 * |cs| - 2), ConditionsCode(cs[1..]) + [Return(ret)];
    assert ConditionsCode(cs) + [Return(ret)] == first + rest;
    PlacedSplit(prog, pc, first, rest);
  }

  predicate HoldAll(cs: seq<Condition>, d: Call)
    requires IsCall(d) && forall j :: 0 <= j < |cs| ==> cs[j].argument < 6
  {
    forall j :: 0 <= j < |cs| ==> Holds(cs[j], d)
  }

  lemma HoldsSplit(cs: seq<Condition>, d: Call)
    requires IsCall(d) && cs != [] && forall j :: 0 <= j < |cs| ==> cs[j].argument < 6
    ensures HoldAll(cs, d) <==> Holds(cs[0], d) && HoldAll(cs[1..], d)
  {
    if Holds(cs[0], d) && HoldAll(cs[1..], d) {
      forall j | 0 <= j < |cs|
        ensures Holds(cs[j], d)
      {
        assert j > 0 ==> cs[j] == cs[1..][j - 1];
      }
    }
  }

  lemma RunRule(prog: seq<Instr>, pc: nat, r: Restriction, index: nat, probe: bool, d: Call)
    requires IsCall(d) && WellFormedRule(r) && Placed(prog, pc, RuleCode(r, index, probe))
    requires var end := pc + |RuleCode(r, index, probe)|; end < |prog| && Forgets(prog[end])
    ensures Run(prog, pc, 0, d)
         == if Matches(r, d) then Some(RET_ERRNO + ResultErrno(r.error, index, probe))
            else Run(prog, pc + |RuleCode(r, index, probe)|, 0, d)
  {
    hide Run, HoldAll, ConditionsCode;
    var ret := RET_ERRNO + ResultErrno(r.error, index, probe);
    var head := [Load(0), JumpEq(r.number, 0, 3 * |r.conditions| + 1)];
    var tail := ConditionsCode(r.conditions) + [Return(ret)];
    assert RuleCode(r, index, probe) == head + tail;
    PlacedSplit(prog, pc, head, tail);
    RunNumberTest(prog, pc, r.number, 3 * |r.conditions| + 1, d);
    if d.nr == r.number {
      RunConditions(prog, pc + 2, r.conditions, ret, d.nr, d);
    } else {
      RunForgets(prog, pc + 3 + 3 * |r.conditions|, d.nr, 0, d);
    }
  }

  lemma RunNumberTest(prog: seq<Instr>, pc: nat, number: word, jf: nat, d: Call)
    requires IsCall(d) && Placed(prog, pc, [Load(0), JumpEq(number, 0, jf)])
    ensures Run(prog, pc, 0, d) == Run(prog, pc + 2 + (if d.nr == number then 0 else jf), d.nr, d)
  {
    hide Run;
    assert prog[pc..pc + 2][0] == prog[pc] && prog[pc..pc + 2][1] == prog[pc + 1];
    RunLoad(prog, pc, 0, d);
    RunJump(prog, pc + 1, d.nr, d);
  }

  lemma {:induction false} RunRules(prog: seq<Instr>, pc: nat, table: seq<Restriction>, i: nat, probe: bool, d: Call)
    requires IsCall(d) && WellFormed(table) && i <= |table|
    requires Placed(prog, pc, RulesCode(table, i, probe) + [Return(RET_ALLOW)])
    ensures Run(prog, pc, 0, d) == Some(Verdict(table, FirstMatch(table, i, d), probe))
    decreases |table| - i
  {
    if i == |table| {
      RunReturn(prog, pc, RET_ALLOW, 0, d);
    } else {
      hide Run, Matches, Placed, Forgets, RuleCode, RulesCode, WellFormedRule;
      RulesPlaced(prog, pc, table, i, probe);
      RunRule(prog, pc, table[i], i + 1, probe, d);
      RunRules(prog, pc + |RuleCode(table[i], i + 1, probe)|, table, i + 1, probe, d);
    }
  }

  lemma RulesPlaced(prog: seq<Instr>, pc: nat, table: seq<Restriction>, i: nat, probe: bool)
    requires i < |table| && Placed(prog, pc, RulesCode(table, i, probe) + [Return(RET_ALLOW)])
    ensures var rule := RuleCode(table[i], i + 1, probe);
            && Placed(prog, pc, rule)
            && Placed(prog, pc + |rule|, RulesCode(table, i + 1, probe) + [Return(RET_ALLOW)])
            && pc + |rule| < |prog| && Forgets(prog[pc + |rule|])
  {
    hide RuleCode, Forgets;
    var rule := RuleCode(table[i], i + 1, probe);
    var rest := RulesCode(table, i + 1, probe) + [Return(RET_ALLOW)];
    assert RulesCode(table, i, probe) + [Return(RET_ALLOW)] == rule + rest;
    PlacedSplit(prog, pc, rule, rest);
    RulesStart(table, i + 1, probe);
    assert prog[pc + |rule|] == prog[pc + |rule|..pc + |rule| + |rest|][0] == rest[0];
  }

  lemma RulesStart(table: seq<Restriction>, i: nat, probe: bool)
    requires i <= |table|
    ensures Forgets((RulesCode(table, i, probe) + [Return(RET_ALLOW)])[0])
  {
    if i < |table| {
      assert RulesCode(table, i, probe)[0] == RuleCode(table[i], i + 1, probe)[0] == Load(0);
    }
  }

  /** On every call the compiled filter returns: kill for another architecture, the ENOSYS rule for
      call numbers from 449 on, else the first matching rule's errno, else allow. */
  lemma CompileCorrect(table: seq<Restriction>, probe: bool, d: Call)
    requires IsCall(d) && WellFormed(table)
    ensures Run(Compile(table, probe), 0, 0, d) == Some(Verdict(table, Select(table, d), probe))
  {
    var prog := Compile(table, probe);
    var code := RulesCode(table, 0, probe) + [Return(RET_ALLOW)];
    assert prog == Prelude(probe) + code;
    assert forall k :: 0 <= k < 6 ==> prog[k] == Prelude(probe)[k];
    assert prog[6..6 + |code|] == code;
    RunPrelude(prog, probe, d);
    if d.arch == ARCH_AARCH64 && d.nr < FIRST_NEW_CALL {
      RulesStart(table, 0, probe);
      RunForgets(prog, 6, d.nr, 0, d);
      RunRules(prog, 6, table, 0, probe, d);
    }
  }

  lemma RunPrelude(prog: seq<Instr>, probe: bool, d: Call)
    requires IsCall(d) && |prog| > 6 && forall k :: 0 <= k < 6 ==> prog[k] == Prelude(probe)[k]
    ensures Run(prog, 0, 0, d)
         == if d.arch != ARCH_AARCH64 then Some(RET_KILL_PROCESS)
            else if d.nr >= FIRST_NEW_CALL then Some(RET_ERRNO + ResultErrno(ENOSYS, 0, probe))
            else Run(prog, 6, d.nr, d)
  {
    assert Run(prog, 0, 0, d) == Run(prog, 1, d.arch, d);
    if d.arch == ARCH_AARCH64 {
      assert Run(prog, 1, d.arch, d) == Run(prog, 3, d.arch, d);
      assert Run(prog, 3, d.arch, d) == Run(prog, 4, d.nr, d);
    } else {
      assert Run(prog, 1, d.arch, d) == Run(prog, 2, d.arch, d);
    }
  }

  // ----- the kernel admits the code -----

  /** Jumps stay inside the code or reach the instruction right after it. */
  ghost predicate Closed(code: seq<Instr>) {
    forall k :: 0 <= k < |code| && (code[k].JumpEq? || code[k].JumpGe?) ==>
                  k + 1 + code[k].jt <= |code| && k + 1 + code[k].jf <= |code|
  }

  predicate LoadsInCall(code: seq<Instr>) {
    forall k :: 0 <= k < |code| && code[k].Load? ==> code[k].offset % 4 == 0 && code[k].offset < 64
  }

  lemma ClosedConcat(a: seq<Instr>, b: seq<Instr>)
    requires Closed(a) && Closed(b)
    ensures Closed(a + b)
  {
    var code := a + b;
    forall k | 0 <= k < |code| && (code[k].JumpEq? || code[k].JumpGe?)
      ensures k + 1 + code[k].jt <= |code| && k + 1 + code[k].jf <= |code|
    {
      if k >= |a| {
        assert code[k] == b[k - |a|];
      }
    }
  }

  lemma {:induction false} ConditionsClosed(cs: seq<Condition>, ret: nat)
    requires forall j :: 0 <= j < |cs| ==> cs[j].argument < 6
    ensures Closed(ConditionsCode(cs) + [Return(ret)]) && LoadsInCall(ConditionsCode(cs))
  {
    if cs != [] {
      var rest := ConditionsCode(cs[1..]) + [Return(ret)];
      var head := ConditionCode(cs[0], 3 * |cs| - 2);
      var code := ConditionsCode(cs) + [Return(ret)];
      ConditionsClosed(cs[1..], ret);
      assert code == head + rest;
      forall k | 0 <= k < |code| && (code[k].JumpEq? || code[k].JumpGe?)
        ensures k + 1 + code[k].jt <= |code| && k + 1 + code[k].jf <= |code|
      {
        if k >= 3 {
          assert code[k] == rest[k - 3];
        }
      }
    }
  }

  lemma RuleClosed(r: Restriction, index: nat, probe: bool)
    requires WellFormedRule(r)
    ensures Closed(RuleCode(r, index, probe)) && LoadsInCall(RuleCode(r, index, probe))
  {
    var ret := RET_ERRNO + ResultErrno(r.error, index, probe);
    var head := [Load(0), JumpEq(r.number, 0, 3 * |r.conditions| + 1)];
    var tail := ConditionsCode(r.conditions) + [Return(ret)];
    ConditionsClosed(r.conditions, ret);
    var code := RuleCode(r, index, probe);
    assert code == head + tail;
    forall k | 0 <= k < |code| && (code[k].JumpEq? || code[k].JumpGe?)
      ensures k + 1 + code[k].jt <= |code| && k + 1 + code[k].jf <= |code|
    {
      if k >= 2 {
        assert code[k] == tail[k - 2];
      }
    }
  }

  lemma {:induction false} RulesClosed(table: seq<Restriction>, i: nat, probe: bool)
    requires WellFormed(table) && i <= |table|
    ensures Closed(RulesCode(table, i, probe)) && LoadsInCall(RulesCode(table, i, probe))
    decreases |table| - i
  {
    if i < |table| {
      RuleClosed(table[i], i + 1, probe);
      RulesClosed(table, i + 1, probe);
      ClosedConcat(RuleCode(table[i], i + 1, probe), RulesCode(table, i + 1, probe));
    }
  }

  /** The program passes the kernel's checks: every jump is forward and lands inside, every load is
      an aligned word of the call, and the last instruction returns. */
  lemma CompileAdmitted(table: seq<Restriction>, probe: bool)
    requires WellFormed(table)
    ensures var prog := Compile(table, probe);
            && prog[|prog| - 1].Return? && LoadsInCall(prog)
            && (forall k :: 0 <= k < |prog| && (prog[k].JumpEq? || prog[k].JumpGe?) ==>
                  k + 1 + prog[k].jt < |prog| && k + 1 + prog[k].jf < |prog|)
  {
    var code := Prelude(probe) + RulesCode(table, 0, probe);
    RulesClosed(table, 0, probe);
    ClosedConcat(Prelude(probe), RulesCode(table, 0, probe));
    var prog := Compile(table, probe);
    assert prog == code + [Return(RET_ALLOW)];
    forall k | 0 <= k < |prog| && (prog[k].JumpEq? || prog[k].JumpGe?)
      ensures k + 1 + prog[k].jt < |prog| && k + 1 + prog[k].jf < |prog|
    {
      assert prog[k] == code[k];
    }
  }

  // ----- the generator -----

  /** One rule at index `n`: jumps are emitted open and patched once the end of the block is known. */
  method EmitRule(rules: array<Instr>, n: nat, r: Restriction, index: nat, probe: bool) returns (end: nat)
    requires WellFormedRule(r) && n + 3 + 3 * |r.conditions| <= rules.Length
    modifies rules
    ensures end == n + 3 + 3 * |r.conditions|
    ensures rules[..end] == old(rules[..n]) + RuleCode(r, index, probe)
  {
    ghost var before := rules[..n];
    rules[n], rules[n + 1] := Load(0), JumpEq(r.number, 0, 0);
    assert rules[..n + 2] == before + [Load(0), JumpEq(r.number, 0, 0)];
    var start, jumps := n + 1, new nat[2](_ => 0);
    end := EmitConditions(rules, start, r, jumps);
    rules[end] := Return(RET_ERRNO + ResultErrno(r.error, index, probe));
    end := end + 1;
    assert rules[..start] == rules[..start + 1][..start];
    PatchRule(rules, start, end, r, jumps);
    assert rules[..start] == before + [Load(0)];
    assert rules[..n] == rules[..start][..n] && rules[n] == rules[..start][n];
    EmittedIsCode(rules, n, r, index, probe);
    assert rules[..end] == rules[..n] + rules[n..end];
  }

  /** The tests of a rule's conditions after its number test, their jumps still open. */
  method EmitConditions(rules: array<Instr>, start: nat, r: Restriction, jumps: array<nat>) returns (end: nat)
    requires WellFormedRule(r) && start + 1 + 3 * |r.conditions| <= rules.Length
    requires jumps.Length == 2 && jumps as object != rules as object
    modifies rules, jumps
    ensures end == start + 1 + 3 * |r.conditions|
    ensures rules[..start + 1] == old(rules[..start + 1])
    ensures forall k :: 0 <= k < |r.conditions| ==> Emitted(rules, start, r.conditions[k], k, 0)
    ensures forall k :: 0 <= k < |r.conditions| ==> jumps[k] == start + 3 + 3 * k
  {
    end := start + 1;
    for j := 0 to |r.conditions|
      invariant end == start + 1 + 3 * j
      invariant rules[..start + 1] == old(rules[..start + 1])
      invariant forall k :: 0 <= k < j ==> Emitted(rules, start, r.conditions[k], k, 0)
      invariant forall k :: 0 <= k < j ==> jumps[k] == start + 3 + 3 * k
    {
      rules[end] := Load(16 + r.conditions[j].argument * 8);
      rules[end + 1] := And(r.conditions[j].mask);
      jumps[j] := end + 2;
      rules[end + 2] := JumpEq(r.conditions[j].value, 0, 0);
      end := end + 3;
    }
  }

  function WithElse(i: Instr, jf: nat): Instr {
    match i
    case JumpEq(k, jt, _) => JumpEq(k, jt, jf)
    case JumpGe(k, jt, _) => JumpGe(k, jt, jf)
    case _ => i
  }

  /** Closes the open jumps of a rule whose number test is at `start` and whose end is `end`. */
  method PatchRule(rules: array<Instr>, start: nat, end: nat, r: Restriction, jumps: array<nat>)
    requires WellFormedRule(r) && end == start + 2 + 3 * |r.conditions| <= rules.Length
    requires jumps.Length == 2 && jumps as object != rules as object
    requires rules[start] == JumpEq(r.number, 0, 0)
    requires forall k :: 0 <= k < |r.conditions| ==> Emitted(rules, start, r.conditions[k], k, 0)
    requires forall k :: 0 <= k < |r.conditions| ==> jumps[k] == start + 3 + 3 * k
    modifies rules
    ensures rules[..start] == old(rules[..start]) && rules[end - 1] == old(rules[end - 1])
    ensures rules[start] == JumpEq(r.number, 0, 3 * |r.conditions| + 1)
    ensures forall k :: 0 <= k < |r.conditions| ==>
              Emitted(rules, start, r.conditions[k], k, 3 * (|r.conditions| - k) - 2)
  {
    PatchJump(rules, start, end);
    for j := 0 to |r.conditions|
      invariant rules[..start] == old(rules[..start]) && rules[end - 1] == old(rules[end - 1])
      invariant rules[start] == JumpEq(r.number, 0, 3 * |r.conditions| + 1)
      invariant forall k :: 0 <= k < |r.conditions| ==>
                  Emitted(rules, start, r.conditions[k], k, if k < j then 3 * (|r.conditions| - k) - 2 else 0)
    {
      assert Emitted(rules, start, r.conditions[j], j, 0);
      PatchJump(rules, jumps[j], end);
    }
  }

  /** The offset is stored in one byte, which holds it for every rule of a table. */
  method PatchJump(rules: array<Instr>, at: nat, end: nat)
    requires at < rules.Length && rules[at].JumpEq? && at < end <= at + 256
    modifies rules
    ensures rules[at] == JumpEq(old(rules[at].k), old(rules[at].jt), end - at - 1)
    ensures forall k :: 0 <= k < rules.Length && k != at ==> rules[k] == old(rules[k])
  {
    rules[at] := WithElse(rules[at], (end - at - 1) % 256);
  }

  /** Condition `k` of a rule stands after the rule's number test at `start`. */
  ghost predicate Emitted(rules: array<Instr>, start: nat, c: Condition, k: nat, jf: nat)
    reads rules
  {
    var at := start + 1 + 3 * k;
    && at + 3 <= rules.Length
    && rules[at] == Load(16 + c.argument * 8) && rules[at + 1] == And(c.mask) && rules[at + 2] == JumpEq(c.value, 0, jf)
  }

  lemma EmittedIsCode(rules: array<Instr>, n: nat, r: Restriction, index: nat, probe: bool)
    requires WellFormedRule(r) && n + 3 + 3 * |r.conditions| <= rules.Length
    requires rules[n] == Load(0) && rules[n + 1] == JumpEq(r.number, 0, 3 * |r.conditions| + 1)
    requires forall k :: 0 <= k < |r.conditions| ==>
               Emitted(rules, n + 1, r.conditions[k], k, 3 * (|r.conditions| - k) - 2)
    requires rules[n + 2 + 3 * |r.conditions|] == Return(RET_ERRNO + ResultErrno(r.error, index, probe))
    ensures rules[n..n + 3 + 3 * |r.conditions|] == RuleCode(r, index, probe)
  {
    hide ConditionsCode, Run;
    var cs := r.conditions;
    if |cs| == 0 {
      assert ConditionsCode(cs) == [];
    } else if |cs| == 1 {
      ConditionsCodeOne(cs);
      assert Emitted(rules, n + 1, cs[0], 0, 1);
      assert rules[n..n + 6] == [rules[n], rules[n + 1]] + ConditionCode(cs[0], 1) + [rules[n + 5]];
    } else {
      ConditionsCodeTwo(cs);
      assert Emitted(rules, n + 1, cs[0], 0, 4) && Emitted(rules, n + 1, cs[1], 1, 1);
      assert rules[n..n + 9]
          == [rules[n], rules[n + 1]] + (ConditionCode(cs[0], 4) + ConditionCode(cs[1], 1)) + [rules[n + 8]];
    }
  }

  lemma ConditionsCodeOne(cs: seq<Condition>)
    requires |cs| == 1
    ensures ConditionsCode(cs) == ConditionCode(cs[0], 1)
  {
    assert cs[1..] == [];
  }

  lemma ConditionsCodeTwo(cs: seq<Condition>)
    requires |cs| == 2
    ensures ConditionsCode(cs) == ConditionCode(cs[0], 4) + ConditionCode(cs[1], 1)
  {
    ConditionsCodeOne(cs[1..]);
  }

  /** `install` up to the system call: the program, or `None` for E2BIG. The program is the compiled
      table exactly when its code and the final return fit, and then it decides every call. */
  method Generate(table: seq<Restriction>, probe: bool) returns (program: Option<seq<Instr>>)
    requires WellFormed(table)
    ensures program.Some? <==> |Compile(table, probe)| <= PROGRAM_LIMIT
    ensures program.Some? ==> program.value == Compile(table, probe)
    ensures program.Some? ==> forall d :: IsCall(d) ==>
                                Run(program.value, 0, 0, d) == Some(Verdict(table, Select(table, d), probe))
  {
    hide Run, RuleCode, RulesCode, Matches, Select, Verdict, Prelude, WellFormedRule;
    var rules := new Instr[PROGRAM_LIMIT](_ => Return(0));
    ghost var whole := Prelude(probe) + RulesCode(table, 0, probe);
    EmitPrelude(rules, probe);
    var n := 6;
    for i := 0 to |table|
      invariant 6 <= n < PROGRAM_LIMIT
      invariant rules[..n] + RulesCode(table, i, probe) == whole
    {
      RulesStep(rules[..n], table, i, probe);
      if n + 3 + 3 * |table[i].conditions| >= PROGRAM_LIMIT {
        return None;
      }
      n := EmitRule(rules, n, table[i], i + 1, probe);
    }
    assert rules[..n] == whole by {
      RulesEnd(rules[..n], table, probe);
    }
    rules[n] := Return(RET_ALLOW);
    program := Some(rules[..n + 1]);
    assert program.value == whole + [Return(RET_ALLOW)];
    CompiledDecides(table, probe);
  }

  method EmitPrelude(rules: array<Instr>, probe: bool)
    requires rules.Length >= 6
    modifies rules
    ensures rules[..6] == Prelude(probe)
  {
    rules[0], rules[1], rules[2] := Load(4), JumpEq(ARCH_AARCH64, 1, 0), Return(RET_KILL_PROCESS);
    rules[3], rules[4] := Load(0), JumpGe(FIRST_NEW_CALL, 0, 1);
    rules[5] := Return(RET_ERRNO + ResultErrno(ENOSYS, 0, probe));
  }

  lemma RulesStep(done: seq<Instr>, table: seq<Restriction>, i: nat, probe: bool)
    requires i < |table|
    ensures done + RulesCode(table, i, probe)
         == done + RuleCode(table[i], i + 1, probe) + RulesCode(table, i + 1, probe)
    ensures |done + RulesCode(table, i, probe)| >= |done| + 3 + 3 * |table[i].conditions|
  {
    hide RuleCode;
  }

  lemma RulesEnd(done: seq<Instr>, table: seq<Restriction>, probe: bool)
    ensures done + RulesCode(table, |table|, probe) == done
  {
  }

  lemma CompiledDecides(table: seq<Restriction>, probe: bool)
    requires WellFormed(table)
    ensures forall d :: IsCall(d) ==>
              Run(Compile(table, probe), 0, 0, d) == Some(Verdict(table, Select(table, d), probe))
  {
    hide Run, Compile, Verdict;
    forall d | IsCall(d)
      ensures Run(Compile(table, probe), 0, 0, d) == Some(Verdict(table, Select(table, d), probe))
    {
      CompileCorrect(table, probe, d);
    }
  }
}

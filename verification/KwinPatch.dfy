/** The entry patcher of the window-manager module: A64 encodings, the machine that runs them, and
    what a patched entry does. */
module KwinPatch {
  import opened Common

  const MODULUS: int := 0x1_0000_0000_0000_0000
  const BTI_C: u32 := 0xD503245F
  const BTI_J: u32 := 0xD503249F
  const BTI_JC: u32 := 0xD50324DF
  const PACIASP: u32 := 0xD503233F
  const PACIBSP: u32 := 0xD503237F
  const NOP: u32 := 0xD503201F
  const BR_X16: u32 := 0xD61F0200

  // ----- the encodings the patcher writes -----

  /** ADRP x16: the fields do not overlap, so the source's `|` is a sum. */
  function AdrpWord(pages: int): u32 {
    0x90000010 + pages % 4 * 0x2000_0000 + pages / 4 % 0x80000 * 0x20
  }

  /** LDR x16, [x16, #slot & 4095]. */
  function LoadWord(slot: int): u32 { 0xF9400210 + slot % 0x1000 / 8 * 0x400 }

  function BranchWord(delta: int): u32 { 0x14000000 + delta / 4 % 0x4000000 }

  predicate PagesFit(pages: int) { -0x100000 <= pages < 0x100000 }
  predicate DeltaFits(delta: int) { delta % 4 == 0 && -0x8000000 <= delta < 0x8000000 }

  // ----- the A64 machine -----

  datatype Instruction =
    | Adrp(rd: nat, pages: int)
    | Load(rt: nat, rn: nat, offset: nat)
    | BranchRegister(rn: nat)
    | Branch(delta: int)
    | Pad
    | Unmodelled

  function Signed(field: int, half: int): int { if field < half then field else field - 2 * half }

  /** Instruction fields as the Arm Architecture Reference Manual lays them out. */
  function Decode(w: u32): Instruction {
    if w / 0x8000_0000 == 1 && w / 0x100_0000 % 0x20 == 0x10 then
      Adrp(w % 0x20, Signed(w / 0x20 % 0x80000 * 4 + w / 0x2000_0000 % 4, 0x100000))
    else if w / 0x40_0000 == 0x3E5 then Load(w % 0x20, w / 0x20 % 0x20, w / 0x400 % 0x1000 * 8)
    else if w / 0x400 == 0x3587C0 && w % 0x20 == 0 then BranchRegister(w / 0x20 % 0x20)
    else if w / 0x400_0000 == 5 then Branch(Signed(w % 0x400_0000, 0x200_0000) * 4)
    else if w in {NOP, BTI_C, BTI_J, BTI_JC} then Pad
    else Unmodelled
  }

  /** The registers x0 to x30 and the program counter. */
  datatype State = State(pc: int, x: seq<int>)

  datatype Image = Image(text: map<int, u32>, code: map<int, u32>)

  predicate Apart(m: Image) { m.text.Keys !! m.code.Keys }

  function Fetch(m: Image, a: int): Option<u32> {
    if a in m.text then Some(m.text[a]) else if a in m.code then Some(m.code[a]) else None
  }

  /** One instruction; `data` holds the doublewords the loader filled in. */
  function Step(m: Image, data: map<int, int>, s: State): (r: Option<State>)
    requires |s.x| == 31
    ensures r.Some? ==> |r.value.x| == 31
  {
    match Fetch(m, s.pc)
    case None => None
    case Some(w) =>
      var next := (s.pc + 4) % MODULUS;
      match Decode(w)
      case Adrp(rd, pages) =>
        if rd < 31 then Some(State(next, s.x[rd := (s.pc / 0x1000 * 0x1000 + pages * 0x1000) % MODULUS])) else None
      case Load(rt, rn, offset) =>
        if rt < 31 && rn < 31 && (s.x[rn] + offset) % MODULUS in data
        then Some(State(next, s.x[rt := data[(s.x[rn] + offset) % MODULUS]])) else None
      case BranchRegister(rn) => if rn < 31 then Some(State(s.x[rn], s.x)) else None
      case Branch(delta) => Some(State((s.pc + delta) % MODULUS, s.x))
      case Pad => Some(State(next, s.x))
      case Unmodelled => None
  }

  function Run(m: Image, data: map<int, int>, s: State, n: nat): Option<State>
    requires |s.x| == 31
    decreases n
  {
    if n == 0 then Some(s)
    else match Step(m, data, s) case None => None case Some(t) => Run(m, data, t, n - 1)
  }

  lemma RunStep(m: Image, data: map<int, int>, s: State, t: State, n: nat)
    requires |s.x| == 31 && Step(m, data, s) == Some(t)
    ensures |t.x| == 31 && Run(m, data, s, n + 1) == Run(m, data, t, n)
  {
    hide Step;
  }

  // ----- every encoding decodes to what it stands for -----

  lemma AdrpDecodes(pages: int)
    requires PagesFit(pages)
    ensures Decode(AdrpWord(pages)) == Adrp(16, pages)
  {
    AdrpFields(pages % 4, pages / 4 % 0x80000);
    PagesBack(pages);
  }

  lemma AdrpFields(lo: int, hi: int)
    requires 0 <= lo < 4 && 0 <= hi < 0x80000
    ensures var w := 0x90000010 + lo * 0x2000_0000 + hi * 0x20;
            && w / 0x8000_0000 == 1 && w / 0x100_0000 % 0x20 == 0x10 && w % 0x20 == 0x10
            && w / 0x20 % 0x80000 == hi && w / 0x2000_0000 % 4 == lo
  {
    var w, low := 0x90000010 + lo * 0x2000_0000 + hi * 0x20, 0x10 + hi * 0x20;
    assert 0 <= low < 0x100_0000;
    assert w / 0x100_0000 == 0x10 + lo * 0x20 + 0x80;
    assert w / 0x2000_0000 == lo + 4;
    assert w / 0x20 == hi + 0x80_0000 + lo * 0x100_0000 + 0x400_0000;
  }

  lemma PagesBack(pages: int)
    requires PagesFit(pages)
    ensures Signed(pages / 4 % 0x80000 * 4 + pages % 4, 0x100000) == pages
  {
    var q := pages / 4;
    assert pages == q * 4 + pages % 4;
    assert -0x40000 <= q < 0x40000;
    assert q % 0x80000 == if q < 0 then q + 0x80000 else q;
  }

  lemma LoadDecodes(slot: int)
    requires slot % 8 == 0
    ensures Decode(LoadWord(slot)) == Load(16, 16, slot % 0x1000)
  {
    var k: int := slot % 0x1000 / 8;
    assert slot % 0x1000 == k * 8;
    var w: int := LoadWord(slot);
    assert w / 0x400 == 0x3E5000 + k;
    assert w / 0x40_0000 == 0x3E5;
    assert w / 0x20 == 0x7CA0010 + k * 0x20;
    assert w / 0x100_0000 == 0xF9;
  }

  lemma BranchDecodes(delta: int)
    requires DeltaFits(delta)
    ensures Decode(BranchWord(delta)) == Branch(delta)
  {
    var q := delta / 4;
    var w: int := BranchWord(delta);
    assert -0x200_0000 <= q < 0x200_0000;
    assert q % 0x400_0000 == if q < 0 then q + 0x400_0000 else q;
    assert w / 0x400_0000 == 5 && w % 0x400_0000 == q % 0x400_0000;
  }

  // ----- stubs and entries -----

  /** A landing pad the entry keeps, or the pad that replaces a signing instruction. */
  function Landing(w: u32): Option<u32> {
    if w in {BTI_C, BTI_J, BTI_JC} then Some(w)
    else if w in {PACIASP, PACIBSP} then Some(BTI_C)
    else None
  }

  /** The trampoline through `slot` stands at `t`. */
  predicate StubAt(code: map<int, u32>, t: int, slot: int) {
    && t in code && t + 4 in code && t + 8 in code && t + 12 in code
    && code[t] == AdrpWord(slot / 0x1000 - t / 0x1000)
    && code[t + 4] == LoadWord(slot)
    && code[t + 8] == BR_X16 && code[t + 12] == NOP
  }

  /** Control entering at `e` branches to `t`, directly or after a landing pad. */
  predicate Enters(text: map<int, u32>, e: int, t: int) {
    || Jumps(text, e, t)
    || (e in text && text[e] in {BTI_C, BTI_J, BTI_JC} && Jumps(text, e + 4, t))
  }

  predicate Jumps(text: map<int, u32>, e: int, t: int) {
    e in text && text[e] == BranchWord(t - e) && DeltaFits(t - e)
  }

  predicate Address(a: int) { 0 <= a && a + 16 < MODULUS }

  lemma StubRuns(m: Image, data: map<int, int>, t: int, slot: int, x: seq<int>, n: nat)
    requires Apart(m) && StubAt(m.code, t, slot) && |x| == 31
    requires Address(t) && Address(slot) && slot % 8 == 0 && PagesFit(slot / 0x1000 - t / 0x1000) && slot in data
    ensures Run(m, data, State(t, x), n + 3) == Run(m, data, State(data[slot], x[16 := data[slot]]), n)
  {
    hide Decode, AdrpWord, LoadWord;
    var page := slot / 0x1000 * 0x1000;
    AdrpDecodes(slot / 0x1000 - t / 0x1000);
    assert (t / 0x1000 * 0x1000 + (slot / 0x1000 - t / 0x1000) * 0x1000) % MODULUS == page;
    assert Step(m, data, State(t, x)) == Some(State(t + 4, x[16 := page]));
    LoadDecodes(slot);
    assert (page + slot % 0x1000) % MODULUS == slot;
    var loaded := x[16 := page][16 := data[slot]];
    assert Step(m, data, State(t + 4, x[16 := page])) == Some(State(t + 8, loaded));
    assert loaded == x[16 := data[slot]];
    BranchRegisterDecodes();
    assert Step(m, data, State(t + 8, loaded)) == Some(State(data[slot], loaded));
    RunStep(m, data, State(t + 8, loaded), State(data[slot], loaded), n);
    RunStep(m, data, State(t + 4, x[16 := page]), State(t + 8, loaded), n + 1);
    RunStep(m, data, State(t, x), State(t + 4, x[16 := page]), n + 2);
  }

  lemma BranchRegisterDecodes()
    ensures Decode(BR_X16) == BranchRegister(16)
  {
  }

  /** A patched entry reaches the address stored in its slot; only x16 has changed on the way. */
  lemma EntryReaches(m: Image, data: map<int, int>, e: int, t: int, slot: int, x: seq<int>) returns (n: nat)
    requires Apart(m) && Enters(m.text, e, t) && StubAt(m.code, t, slot) && |x| == 31
    requires Address(e) && Address(t) && Address(slot) && slot % 8 == 0
    requires PagesFit(slot / 0x1000 - t / 0x1000) && slot in data
    ensures Run(m, data, State(e, x), n) == Some(State(data[slot], x[16 := data[slot]]))
  {
    hide Step, StubAt, PagesFit;
    n := 0;
    StubRuns(m, data, t, slot, x, n);
    var there := State(data[slot], x[16 := data[slot]]);
    assert Run(m, data, there, n) == Some(there);
    if Jumps(m.text, e, t) {
      JumpRuns(m, data, e, t, x, n + 3);
      n := n + 4;
    } else {
      JumpRuns(m, data, e + 4, t, x, n + 3);
      PadRuns(m, data, e, x, n + 4);
      n := n + 5;
    }
  }

  lemma PadRuns(m: Image, data: map<int, int>, e: int, x: seq<int>, k: nat)
    requires e in m.text && m.text[e] in {BTI_C, BTI_J, BTI_JC} && |x| == 31 && Address(e)
    ensures Run(m, data, State(e, x), k + 1) == Run(m, data, State(e + 4, x), k)
  {
    assert Decode(m.text[e]) == Pad;
    RunStep(m, data, State(e, x), State(e + 4, x), k);
  }

  lemma JumpRuns(m: Image, data: map<int, int>, e: int, t: int, x: seq<int>, k: nat)
    requires Apart(m) && Jumps(m.text, e, t) && |x| == 31 && 0 <= t < MODULUS
    ensures Run(m, data, State(e, x), k + 1) == Run(m, data, State(t, x), k)
  {
    hide Decode, BranchWord;
    BranchDecodes(t - e);
    RunStep(m, data, State(e, x), State(t, x), k);
  }
}

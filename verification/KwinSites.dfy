/** Patching entries one after the other: which trampoline each of them ends up at. */
module KwinSites {
  import opened Common
  import opened KwinPatch

  /** An entry and the trampoline it branches to. */
  datatype Site = Site(entry: nat, stub: int)

  // ----- patching one entry -----

  function PrefixSize(text: map<int, u32>, e: int): (n: nat)
    requires e in text
    ensures n == 0 || n == 4
  {
    if Landing(text[e]).Some? then 4 else 0
  }

  function PatchEntry(text: map<int, u32>, s: Site): (r: map<int, u32>)
    requires s.entry in text
    ensures text.Keys <= r.Keys
  {
    match Landing(text[s.entry])
    case None => text[s.entry := BranchWord(s.stub - s.entry)]
    case Some(pad) => text[s.entry := pad][s.entry + 4 := BranchWord(s.stub - s.entry - 4)]
  }

  predicate Present(text: map<int, u32>, sites: seq<Site>) {
    forall i :: 0 <= i < |sites| ==> sites[i].entry in text
  }

  function PatchAll(text: map<int, u32>, sites: seq<Site>): (r: map<int, u32>)
    requires Present(text, sites)
    ensures text.Keys <= r.Keys
  {
    if sites == [] then text else PatchEntry(PatchAll(text, sites[..|sites| - 1]), sites[|sites| - 1])
  }

  predicate Distinct(sites: seq<Site>) {
    forall i, j :: 0 <= i < j < |sites| ==> sites[i].entry != sites[j].entry && sites[i].stub != sites[j].stub
  }

  /** Every branch reached when its entry's turn came. */
  predicate Reachable(text: map<int, u32>, sites: seq<Site>)
    requires Present(text, sites)
  {
    forall k :: 0 <= k < |sites| ==> ReachableAt(text, sites, k)
  }

  predicate ReachableAt(text: map<int, u32>, sites: seq<Site>, k: nat)
    requires Present(text, sites) && k < |sites|
  {
    var now := PatchAll(text, sites[..k]);
    DeltaFits(sites[k].stub - sites[k].entry - PrefixSize(now, sites[k].entry))
  }

  predicate AllEnter(text: map<int, u32>, sites: seq<Site>) {
    forall i :: 0 <= i < |sites| ==> Enters(text, sites[i].entry, sites[i].stub)
  }

  /** No selected entry stands on the second word that another selected entry's patch needs. */
  predicate NoClash(text: map<int, u32>, sites: seq<Site>)
    requires Present(text, sites)
  {
    forall i, j :: 0 <= i < |sites| && 0 <= j < |sites| && sites[j].entry == sites[i].entry + 4
      ==> Landing(text[sites[i].entry]).None?
  }

  // ----- what a run of patches does -----

  predicate IsBranch(w: u32) { w / 0x400_0000 == 5 }

  lemma BranchIsNoPad(delta: int)
    ensures IsBranch(BranchWord(delta)) && Landing(BranchWord(delta)).None?
  {
    assert (0x14000000 + delta / 4 % 0x4000000) / 0x400_0000 == 5;
  }

  /** Site `j` still has its landing pad when its turn comes: it had one, and no earlier patch put its branch there. */
  predicate Padded(text: map<int, u32>, sites: seq<Site>, j: nat)
    requires Present(text, sites) && j < |sites|
    decreases j
  {
    && Landing(text[sites[j].entry]).Some?
    && forall k :: 0 <= k < j && sites[k].entry + 4 == sites[j].entry ==> !Padded(text, sites, k)
  }

  /** The patch of site `k` writes the word at `a`. */
  predicate Writes(text: map<int, u32>, sites: seq<Site>, k: nat, a: int)
    requires Present(text, sites) && k < |sites|
  {
    sites[k].entry == a || (Padded(text, sites, k) && sites[k].entry + 4 == a)
  }

  lemma PatchNext(text: map<int, u32>, sites: seq<Site>, k: nat)
    requires Present(text, sites) && k < |sites|
    ensures PatchAll(text, sites[..k + 1]) == PatchEntry(PatchAll(text, sites[..k]), sites[k])
  {
    hide PatchEntry;
    assert sites[..k + 1][..k] == sites[..k];
  }

  /** A word that no patch from `n` to `m` writes is the same after them. */
  lemma {:induction false} Untouched(text: map<int, u32>, sites: seq<Site>, n: nat, m: nat, a: int)
    requires Present(text, sites) && Distinct(sites) && n <= m <= |sites|
    requires forall k :: n <= k < m ==> !Writes(text, sites, k, a)
    ensures a in PatchAll(text, sites[..m]) <==> a in PatchAll(text, sites[..n])
    ensures a in PatchAll(text, sites[..n]) ==> PatchAll(text, sites[..m])[a] == PatchAll(text, sites[..n])[a]
    decreases m, 0
  {
    hide PatchAll, Landing, BranchWord, Distinct, Padded;
    if n < m {
      assert !Writes(text, sites, m - 1, a);
      Untouched(text, sites, n, m - 1, a);
      PatchNext(text, sites, m - 1);
      PaddedNow(text, sites, m - 1);
    }
  }

  /** A site has its pad at its turn exactly when `Padded` says so. */
  lemma {:induction false} PaddedNow(text: map<int, u32>, sites: seq<Site>, j: nat)
    requires Present(text, sites) && Distinct(sites) && j < |sites|
    ensures Landing(PatchAll(text, sites[..j])[sites[j].entry]).Some? <==> Padded(text, sites, j)
    decreases j, 1
  {
    hide PatchAll, Landing, BranchWord;
    var e := sites[j].entry;
    if k :| 0 <= k < j && sites[k].entry + 4 == e && Padded(text, sites, k) {
      PatchNext(text, sites, k);
      PaddedNow(text, sites, k);
      BranchIsNoPad(sites[k].stub - sites[k].entry - 4);
      Untouched(text, sites, k + 1, j, e);
    } else {
      Untouched(text, sites, 0, j, e);
      NoPatches(text, sites);
    }
  }

  lemma NoPatches(text: map<int, u32>, sites: seq<Site>)
    requires Present(text, sites)
    ensures PatchAll(text, sites[..0]) == text
  {
  }

  /** A word that is no selected entry, and does not follow one that had a landing pad, is unchanged. */
  lemma Unclaimed(text: map<int, u32>, sites: seq<Site>, a: int)
    requires Present(text, sites) && Distinct(sites) && a in text
    requires forall i :: 0 <= i < |sites| ==> sites[i].entry != a
    requires forall i :: 0 <= i < |sites| && sites[i].entry + 4 == a ==> Landing(text[sites[i].entry]).None?
    ensures PatchAll(text, sites)[a] == text[a]
  {
    hide PatchAll, Landing;
    Untouched(text, sites, 0, |sites|, a);
    NoPatches(text, sites);
    assert sites[..|sites|] == sites;
  }

  // ----- where an entry ends up -----

  /** The site from `i` on with entry `e`. */
  function Later(sites: seq<Site>, i: nat, e: int): (r: Option<nat>)
    requires i <= |sites|
    ensures r.Some? ==> i <= r.value < |sites| && sites[r.value].entry == e
    ensures r.None? ==> forall k :: i <= k < |sites| ==> sites[k].entry != e
    decreases |sites| - i
  {
    if i == |sites| then None else if sites[i].entry == e then Some(i) else Later(sites, i + 1, e)
  }

  /** The site whose trampoline entry `i` reaches in the end: that of a later padded site one word before, else that
      of a later site on the second word of its own patch, else its own. */
  function Winner(text: map<int, u32>, sites: seq<Site>, i: nat): (j: nat)
    requires Present(text, sites) && i < |sites|
    ensures j < |sites|
  {
    var below, above := Later(sites, i + 1, sites[i].entry - 4), Later(sites, i + 1, sites[i].entry + 4);
    if below.Some? && Padded(text, sites, below.value) then below.value
    else if above.Some? && Padded(text, sites, i) then above.value
    else i
  }

  /** The words of site `k`'s own patch, right after it. */
  lemma OwnWords(text: map<int, u32>, sites: seq<Site>, k: nat)
    requires Present(text, sites) && Distinct(sites) && Reachable(text, sites) && k < |sites|
    ensures var now, s := PatchAll(text, sites[..k + 1]), sites[k];
            if Padded(text, sites, k)
            then s.entry in now && now[s.entry] in {BTI_C, BTI_J, BTI_JC} && Jumps(now, s.entry + 4, s.stub)
            else Jumps(now, s.entry, s.stub)
  {
    hide PatchAll, BranchWord, DeltaFits, Padded, Distinct;
    PatchNext(text, sites, k);
    PaddedNow(text, sites, k);
    assert ReachableAt(text, sites, k);
    assert sites[k].stub - (sites[k].entry + 4) == sites[k].stub - sites[k].entry - 4;
  }

  /** A branch that site `k` wrote at `a` stays if no later patch writes there. */
  lemma JumpStays(text: map<int, u32>, sites: seq<Site>, k: nat, a: int, t: int)
    requires Present(text, sites) && Distinct(sites) && k < |sites| && Jumps(PatchAll(text, sites[..k + 1]), a, t)
    requires forall h :: k < h < |sites| ==> !Writes(text, sites, h, a)
    ensures Jumps(PatchAll(text, sites), a, t)
  {
    hide PatchAll, BranchWord, DeltaFits, Writes, Distinct;
    Untouched(text, sites, k + 1, |sites|, a);
    assert sites[..|sites|] == sites;
  }

  /** Every entry enters the trampoline of its winner, whatever stands around it. */
  lemma EntersWinner(text: map<int, u32>, sites: seq<Site>, i: nat)
    requires Present(text, sites) && Distinct(sites) && Reachable(text, sites) && i < |sites|
    ensures Enters(PatchAll(text, sites), sites[i].entry, sites[Winner(text, sites, i)].stub)
  {
    hide PatchAll, Landing, Jumps, Reachable;
    var e, j := sites[i].entry, Winner(text, sites, i);
    OwnWords(text, sites, j);
    if j != i && sites[j].entry + 4 == e {
      JumpStays(text, sites, j, e, sites[j].stub);
    } else if j != i {
      PadStays(text, sites, i);
      JumpStays(text, sites, j, e + 4, sites[j].stub);
    } else if Padded(text, sites, i) {
      PadStays(text, sites, i);
      JumpStays(text, sites, i, e + 4, sites[i].stub);
    } else {
      JumpStays(text, sites, i, e, sites[i].stub);
    }
  }

  /** The pad of a padded site stays unless a later padded site stands one word before it. */
  lemma PadStays(text: map<int, u32>, sites: seq<Site>, i: nat)
    requires Present(text, sites) && Distinct(sites) && Reachable(text, sites) && i < |sites| && Padded(text, sites, i)
    requires forall h :: i < h < |sites| && sites[h].entry + 4 == sites[i].entry ==> !Padded(text, sites, h)
    ensures var final := PatchAll(text, sites);
            sites[i].entry in final && final[sites[i].entry] in {BTI_C, BTI_J, BTI_JC}
  {
    hide PatchAll, Jumps, Reachable;
    OwnWords(text, sites, i);
    Untouched(text, sites, i + 1, |sites|, sites[i].entry);
    assert sites[..|sites|] == sites;
  }

  /** Control entering at an address reaches one trampoline. */
  lemma EntersUnique(text: map<int, u32>, e: int, t: int, u: int)
    requires Enters(text, e, t) && Enters(text, e, u)
    ensures t == u
  {
    hide BranchWord, DeltaFits, Decode;
    BranchIsNoPad(t - e);
    BranchIsNoPad(u - e);
    if Jumps(text, e, t) {
      JumpsUnique(text, e, t, u);
    } else {
      JumpsUnique(text, e + 4, t, u);
    }
  }

  lemma JumpsUnique(text: map<int, u32>, e: int, t: int, u: int)
    requires Jumps(text, e, t) && Jumps(text, e, u)
    ensures t == u
  {
    hide BranchWord, DeltaFits, Decode;
    BranchDecodes(t - e);
    BranchDecodes(u - e);
  }

  /** Entry by entry: an entry reaches its own trampoline if and only if no later site stands on the second word of its
      patch, and no later padded site stands one word before it. */
  lemma EntryExactly(text: map<int, u32>, sites: seq<Site>, i: nat)
    requires Present(text, sites) && Distinct(sites) && Reachable(text, sites) && i < |sites|
    ensures Enters(PatchAll(text, sites), sites[i].entry, sites[i].stub) <==>
            forall j :: i < j < |sites| ==>
              && !(Padded(text, sites, i) && sites[j].entry == sites[i].entry + 4)
              && !(Padded(text, sites, j) && sites[j].entry + 4 == sites[i].entry)
  {
    hide PatchAll, Enters, Reachable, Padded;
    var j := Winner(text, sites, i);
    EntersWinner(text, sites, i);
    if Enters(PatchAll(text, sites), sites[i].entry, sites[i].stub) {
      EntersUnique(PatchAll(text, sites), sites[i].entry, sites[i].stub, sites[j].stub);
    }
  }

  /** The lowest padded entry of a chain of entries a word apart keeps its pad until its turn. */
  lemma {:induction false} Lowest(text: map<int, u32>, sites: seq<Site>, i: nat, j: nat) returns (k: nat, l: nat)
    requires Present(text, sites) && Distinct(sites) && i < |sites| && j < |sites|
    requires sites[j].entry == sites[i].entry + 4 && Landing(text[sites[i].entry]).Some?
    ensures k < |sites| && l < |sites| && sites[l].entry == sites[k].entry + 4 && Padded(text, sites, k)
    decreases sites[i].entry
  {
    hide Landing;
    if h :| 0 <= h < |sites| && sites[h].entry == sites[i].entry - 4 && Landing(text[sites[h].entry]).Some? {
      k, l := Lowest(text, sites, h, i);
    } else {
      k, l := i, j;
    }
  }

  /** All entries at once: every one reaches its own trampoline if and only if none stands one word after another
      that has a landing pad, in whatever order they are patched. */
  lemma AllEnterExactly(text: map<int, u32>, sites: seq<Site>)
    requires Present(text, sites) && Distinct(sites) && Reachable(text, sites)
    ensures AllEnter(PatchAll(text, sites), sites) <==> NoClash(text, sites)
  {
    hide PatchAll, Enters, Reachable, Landing;
    forall i | 0 <= i < |sites|
      ensures Enters(PatchAll(text, sites), sites[i].entry, sites[i].stub) <==>
              forall j :: i < j < |sites| ==>
                && !(Padded(text, sites, i) && sites[j].entry == sites[i].entry + 4)
                && !(Padded(text, sites, j) && sites[j].entry + 4 == sites[i].entry)
    {
      EntryExactly(text, sites, i);
    }
    if !NoClash(text, sites) {
      var i, j :| 0 <= i < |sites| && 0 <= j < |sites| && sites[j].entry == sites[i].entry + 4
        && Landing(text[sites[i].entry]).Some?;
      var k, l := Lowest(text, sites, i, j);
      assert k != l;
    }
  }
}

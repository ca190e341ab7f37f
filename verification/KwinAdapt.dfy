/** The loop that redirects every selected symbol of the window manager into the replacement module. */
module KwinAdapt {
  import opened Common
  import opened KwinPatch
  import opened KwinSites

  /** A selected symbol: its entry and size here, and its address in the module. */
  datatype Item = Item(entry: nat, size: nat, target: int)

  // ----- the loop -----

  /** The first item with each entry among the first `k` items. */
  function Entries(items: seq<Item>, k: nat): (m: map<nat, nat>)
    requires k <= |items|
    ensures forall e :: e in m ==> m[e] < k && items[m[e]].entry == e
    ensures forall i :: 0 <= i < k ==> items[i].entry in m
  {
    if k == 0 then map[]
    else if items[k - 1].entry in Entries(items, k - 1) then Entries(items, k - 1)
    else Entries(items, k - 1)[items[k - 1].entry := k - 1]
  }

  function Stub(code: int, i: nat): int { code + 16 * i }
  function Slot(slots: int, i: nat): int { slots + 8 * i }

  /** The patches for the first `k` items, in order. */
  function Sites(items: seq<Item>, code: int, k: nat): seq<Site>
    requires k <= |items|
  {
    if k == 0 then []
    else if items[k - 1].entry in Entries(items, k - 1) then Sites(items, code, k - 1)
    else Sites(items, code, k - 1) + [Site(items[k - 1].entry, Stub(code, k - 1))]
  }

  /** The sites are the first occurrences, each with the trampoline of its index. */
  predicate Matches(sites: seq<Site>, firsts: map<nat, nat>, code: int) {
    && Distinct(sites)
    && (forall i :: 0 <= i < |sites| ==>
          sites[i].entry in firsts && sites[i].stub == Stub(code, firsts[sites[i].entry]))
    && (forall e :: e in firsts ==> Site(e, Stub(code, firsts[e])) in sites)
  }

  lemma {:induction false} SitesAreFirsts(items: seq<Item>, code: int, k: nat)
    requires k <= |items|
    ensures Matches(Sites(items, code, k), Entries(items, k), code)
  {
    hide Matches, Sites, Entries;
    Unfold(items, code, k);
    if k == 0 {
      NoMatches(code);
    } else {
      SitesAreFirsts(items, code, k - 1);
      if items[k - 1].entry !in Entries(items, k - 1) {
        MatchesOne(Sites(items, code, k - 1), Entries(items, k - 1), code, items[k - 1].entry, k - 1);
      }
    }
  }

  /** Sites and entries up to item `k` from those up to the item before. */
  lemma Unfold(items: seq<Item>, code: int, k: nat)
    requires k <= |items|
    ensures k == 0 ==> Sites(items, code, k) == [] && Entries(items, k) == map[]
    ensures k > 0 ==> var e, firsts, front := items[k - 1].entry, Entries(items, k - 1), Sites(items, code, k - 1);
            && Entries(items, k) == (if e in firsts then firsts else firsts[e := k - 1])
            && Sites(items, code, k) == if e in firsts then front else front + [Site(e, Stub(code, k - 1))]
  {
  }

  lemma NoMatches(code: int)
    ensures Matches([], map[], code)
  {
  }

  lemma MatchesOne(sites: seq<Site>, firsts: map<nat, nat>, code: int, e: nat, k: nat)
    requires Matches(sites, firsts, code) && e !in firsts && forall f :: f in firsts ==> firsts[f] < k
    ensures Matches(sites + [Site(e, Stub(code, k))], firsts[e := k], code)
  {
    hide Stub;
    forall f | f in firsts
      ensures Stub(code, firsts[f]) != Stub(code, k)
    {
      StubsDiffer(code, firsts[f], k);
    }
  }

  lemma StubsDiffer(code: int, i: nat, j: nat)
    requires i < j
    ensures Stub(code, i) != Stub(code, j)
  {
  }

  predicate Listed(text: map<int, u32>, items: seq<Item>) {
    forall i :: 0 <= i < |items| ==> items[i].entry in text
  }

  lemma {:induction false} SitesPresent(text: map<int, u32>, items: seq<Item>, code: int, k: nat)
    requires Listed(text, items) && k <= |items|
    ensures Present(text, Sites(items, code, k))
  {
    if k > 0 {
      SitesPresent(text, items, code, k - 1);
    }
  }

  /** The checks on an item: a slot in reach of its trampoline and, for a first occurrence, room and a trampoline
      in reach of the entry as it then stands; an alias must share its target. */
  predicate Passes(now: map<int, u32>, firsts: map<nat, nat>, items: seq<Item>, item: Item, t: int, slot: int)
    requires item.entry in now && forall e :: e in firsts ==> firsts[e] < |items|
  {
    && PagesFit(slot / 0x1000 - t / 0x1000) && slot % 8 == 0
    && if item.entry in firsts then items[firsts[item.entry]].target == item.target
       else item.size >= PrefixSize(now, item.entry) + 4 && DeltaFits(t - item.entry - PrefixSize(now, item.entry))
  }

  predicate Accepted(text: map<int, u32>, items: seq<Item>, code: int, slots: int, k: nat)
    requires Listed(text, items) && k < |items|
  {
    SitesPresent(text, items, code, k);
    Passes(PatchAll(text, Sites(items, code, k)), Entries(items, k), items, items[k], Stub(code, k), Slot(slots, k))
  }

  /** The first `n` trampolines stand in the section, and the rest of it is as before. */
  ghost predicate HoldsStubs(code0: map<int, u32>, now: map<int, u32>, code: int, slots: int, n: nat) {
    && (forall k :: 0 <= k < n ==> StubAt(now, Stub(code, k), Slot(slots, k)))
    && (forall a :: a in code0 && !(code <= a < Stub(code, n)) ==> a in now && now[a] == code0[a])
  }

  lemma NoStubs(code0: map<int, u32>, code: int, slots: int)
    ensures HoldsStubs(code0, code0, code, slots, 0)
  {
  }

  method WriteStub(content: map<int, u32>, t: int, slot: int) returns (r: map<int, u32>)
    ensures StubAt(r, t, slot)
    ensures r.Keys == content.Keys + {t, t + 4, t + 8, t + 12}
    ensures forall a :: a in content && !(t <= a < t + 16) ==> r[a] == content[a]
  {
    hide AdrpWord, LoadWord;
    r := content[t := AdrpWord(slot / 0x1000 - t / 0x1000)][t + 4 := LoadWord(slot)][t + 8 := BR_X16][t + 12 := NOP];
  }

  /** The loop: it succeeds exactly when every item passes its checks, and then the text holds every patch in
      order and the code section every trampoline. */
  method Adapt(image: Image, items: seq<Item>, code: int, slots: int) returns (r: Option<Image>)
    requires Listed(image.text, items)
    ensures r.Some? <==> forall k :: 0 <= k < |items| ==> Accepted(image.text, items, code, slots, k)
    ensures Present(image.text, Sites(items, code, |items|))
    ensures r.Some? ==> r.value.text == PatchAll(image.text, Sites(items, code, |items|))
    ensures r.Some? ==> HoldsStubs(image.code, r.value.code, code, slots, |items|)
  {
    hide HoldsStubs, StubAt, PatchEntry, PatchAll, Sites, Entries, Accepted, Passes, PagesFit, DeltaFits, Landing,
      Present, Stub, Slot;
    SitesPresent(image.text, items, code, |items|);
    NoItems(image.text, items, code);
    NoStubs(image.code, code, slots);
    var content, entries: map<nat, nat>, index := image, map[], 0;
    while index < |items|
      invariant 0 <= index <= |items| && entries == Entries(items, index)
      invariant Present(image.text, Sites(items, code, index))
      invariant content.text == PatchAll(image.text, Sites(items, code, index))
      invariant HoldsStubs(image.code, content.code, code, slots, index)
      invariant forall k :: 0 <= k < index ==> Accepted(image.text, items, code, slots, k)
    {
      AcceptedIs(image.text, items, code, slots, index);
      if !Passes(content.text, entries, items, items[index], Stub(code, index), Slot(slots, index)) {
        return None;
      }
      var stubs := WriteStub(content.code, Stub(code, index), Slot(slots, index));
      StubsKept(image.code, content.code, stubs, code, slots, index);
      NextItem(image.text, items, code, index);
      content := content.(code := stubs);
      if items[index].entry !in entries {
        content := content.(text := PatchEntry(content.text, Site(items[index].entry, Stub(code, index))));
        entries := entries[items[index].entry := index];
      }
      index := index + 1;
    }
    return Some(content);
  }

  lemma NoItems(text: map<int, u32>, items: seq<Item>, code: int)
    ensures Present(text, []) && Sites(items, code, 0) == [] && Entries(items, 0) == map[]
    ensures PatchAll(text, []) == text && Stub(code, 0) == code
  {
  }

  lemma AcceptedIs(text: map<int, u32>, items: seq<Item>, code: int, slots: int, k: nat)
    requires Listed(text, items) && k < |items|
    ensures Present(text, Sites(items, code, k))
    ensures Accepted(text, items, code, slots, k)
        == Passes(PatchAll(text, Sites(items, code, k)), Entries(items, k), items, items[k],
                  Stub(code, k), Slot(slots, k))
  {
    hide Passes, PatchAll, Sites, Entries;
    SitesPresent(text, items, code, k);
  }

  /** Sites, entries and patches after one more item. */
  lemma NextItem(text: map<int, u32>, items: seq<Item>, code: int, k: nat)
    requires Listed(text, items) && k < |items| && Present(text, Sites(items, code, k))
    ensures Present(text, Sites(items, code, k + 1))
    ensures var firsts, e := Entries(items, k), items[k].entry;
            && Entries(items, k + 1) == (if e in firsts then firsts else firsts[e := k])
            && PatchAll(text, Sites(items, code, k + 1)) == if e in firsts then PatchAll(text, Sites(items, code, k))
               else PatchEntry(PatchAll(text, Sites(items, code, k)), Site(e, Stub(code, k)))
  {
    hide PatchEntry, PatchAll;
    PatchOne(text, Sites(items, code, k), Site(items[k].entry, Stub(code, k)));
  }

  lemma PatchOne(text: map<int, u32>, sites: seq<Site>, s: Site)
    requires Present(text, sites) && s.entry in text
    ensures PatchAll(text, sites + [s]) == PatchEntry(PatchAll(text, sites), s)
  {
    assert (sites + [s])[..|sites|] == sites;
  }

  /** Writing trampoline `n` leaves the earlier ones, and the section outside the trampolines. */
  lemma StubsKept(code0: map<int, u32>, before: map<int, u32>, after: map<int, u32>, code: int, slots: int, n: nat)
    requires HoldsStubs(code0, before, code, slots, n)
    requires before.Keys <= after.Keys && StubAt(after, Stub(code, n), Slot(slots, n))
    requires forall a :: a in before && !(Stub(code, n) <= a < Stub(code, n) + 16) ==> after[a] == before[a]
    ensures HoldsStubs(code0, after, code, slots, n + 1)
  {
    hide AdrpWord, LoadWord, Slot;
    forall k | 0 <= k < n
      ensures StubAt(after, Stub(code, k), Slot(slots, k))
    {
      assert StubAt(before, Stub(code, k), Slot(slots, k));
    }
  }

  // ----- the whole patch -----

  lemma {:induction false} SitesReachable(text: map<int, u32>, items: seq<Item>, code: int, slots: int, k: nat)
    requires Listed(text, items) && k <= |items| && Present(text, Sites(items, code, k))
    requires forall i :: 0 <= i < k ==> Accepted(text, items, code, slots, i)
    ensures Reachable(text, Sites(items, code, k))
  {
    hide PatchAll, Accepted, Reachable, Landing, DeltaFits, PagesFit, PrefixSize, Stub, Slot, Sites, Entries;
    Unfold(items, code, k);
    if k == 0 {
      NoneReachable(text);
    } else {
      SitesPresent(text, items, code, k - 1);
      SitesReachable(text, items, code, slots, k - 1);
      assert Accepted(text, items, code, slots, k - 1);
      AcceptedIs(text, items, code, slots, k - 1);
      if items[k - 1].entry !in Entries(items, k - 1) {
        ReachableOne(text, Sites(items, code, k - 1), Site(items[k - 1].entry, Stub(code, k - 1)));
      }
    }
  }

  lemma NoneReachable(text: map<int, u32>)
    ensures Reachable(text, [])
  {
  }

  lemma ReachableOne(text: map<int, u32>, front: seq<Site>, s: Site)
    requires Present(text, front) && Reachable(text, front) && s.entry in text
    requires DeltaFits(s.stub - s.entry - PrefixSize(PatchAll(text, front), s.entry))
    ensures Present(text, front + [s]) && Reachable(text, front + [s])
  {
    hide PatchAll, ReachableAt, DeltaFits, PrefixSize;
    var sites := front + [s];
    forall i | 0 <= i < |sites|
      ensures ReachableAt(text, sites, i)
    {
      if i < |front| {
        SameFront(text, front, sites, i);
      } else {
        assert sites[..i] == front;
        LastReachable(text, sites);
      }
    }
  }

  lemma SameFront(text: map<int, u32>, front: seq<Site>, sites: seq<Site>, i: nat)
    requires Present(text, front) && Present(text, sites)
    requires front <= sites && i < |front| && ReachableAt(text, front, i)
    ensures ReachableAt(text, sites, i)
  {
    hide PatchAll, DeltaFits, PrefixSize;
    assert sites[..i] == front[..i];
  }

  lemma LastReachable(text: map<int, u32>, sites: seq<Site>)
    requires Present(text, sites) && sites != []
    requires var n := |sites| - 1;
             DeltaFits(sites[n].stub - sites[n].entry - PrefixSize(PatchAll(text, sites[..n]), sites[n].entry))
    ensures ReachableAt(text, sites, |sites| - 1)
  {
    hide PatchAll, DeltaFits, PrefixSize;
  }

  /** `patched` is what a successful run of the loop made of `image`, in one address space. */
  ghost predicate Adapted(image: Image, patched: Image, items: seq<Item>, code: int, slots: int) {
    && Listed(image.text, items) && Present(image.text, Sites(items, code, |items|)) && Apart(patched)
    && (forall k :: 0 <= k < |items| ==> Accepted(image.text, items, code, slots, k))
    && patched.text == PatchAll(image.text, Sites(items, code, |items|))
    && HoldsStubs(image.code, patched.code, code, slots, |items|)
    && (forall k :: 0 <= k < |items| ==> Address(items[k].entry) && Address(Stub(code, k)) && Address(Slot(slots, k)))
  }

  /** The site that patches the entry of item `i`. */
  function SiteOf(items: seq<Item>, code: int, i: nat): (s: nat)
    requires i < |items|
    ensures s < |Sites(items, code, |items|)| && Sites(items, code, |items|)[s].entry == items[i].entry
  {
    SitesAreFirsts(items, code, |items|);
    assert items[i].entry in Entries(items, |items|);
    Later(Sites(items, code, |items|), 0, items[i].entry).value
  }

  /** The item whose slot a call of item `i` ends up at. */
  function Serves(text: map<int, u32>, items: seq<Item>, code: int, i: nat): (k: nat)
    requires Listed(text, items) && i < |items|
    ensures k < |items|
  {
    SitesPresent(text, items, code, |items|);
    SitesAreFirsts(items, code, |items|);
    var sites := Sites(items, code, |items|);
    Entries(items, |items|)[sites[Winner(text, sites, SiteOf(items, code, i))].entry]
  }

  /** Whatever the selection, calling item `i` runs to the address in the slot of the item that serves it, and x16 is
      the only register that differs on arrival. */
  lemma CallArrives(image: Image, patched: Image, items: seq<Item>, code: int, slots: int,
                    data: map<int, int>, i: nat, x: seq<int>) returns (n: nat)
    requires Adapted(image, patched, items, code, slots) && i < |items| && |x| == 31
    requires forall k :: 0 <= k < |items| ==> Slot(slots, k) in data
    ensures var there := data[Slot(slots, Serves(image.text, items, code, i))];
            Run(patched, data, State(items[i].entry, x), n) == Some(State(there, x[16 := there]))
  {
    hide StubAt, Run, Enters, PatchAll, Reachable, Address, PagesFit, Landing, DeltaFits, Winner;
    hide Accepted, Sites, Entries, Stub, Slot, Present, Distinct;
    var sites, s, k := Sites(items, code, |items|), SiteOf(items, code, i), Serves(image.text, items, code, i);
    SitesAreFirsts(items, code, |items|);
    SitesReachable(image.text, items, code, slots, |items|);
    EntersWinner(image.text, sites, s);
    AcceptedIs(image.text, items, code, slots, k);
    n := EntryReaches(patched, data, items[i].entry, Stub(code, k), Slot(slots, k), x);
  }

  /** An item is served by the first item with its entry exactly when its entry reaches its own trampoline. */
  lemma ServedBySelf(text: map<int, u32>, items: seq<Item>, code: int, i: nat)
    requires Listed(text, items) && i < |items| && Present(text, Sites(items, code, |items|))
    ensures var s := SiteOf(items, code, i);
            && (Serves(text, items, code, i) == Entries(items, |items|)[items[i].entry] <==>
                Winner(text, Sites(items, code, |items|), s) == s)
  {
    hide Sites, Entries, Winner;
    SitesAreFirsts(items, code, |items|);
  }

  /** Once the loop has succeeded without a clash, calling any selected symbol or alias runs the module's symbol. */
  lemma CallsRedirected(image: Image, patched: Image, items: seq<Item>, code: int, slots: int,
                        data: map<int, int>, bias: int, i: nat, x: seq<int>) returns (n: nat)
    requires Adapted(image, patched, items, code, slots) && i < |items| && |x| == 31
    requires forall k :: 0 <= k < |items| ==> Slot(slots, k) in data && data[Slot(slots, k)] == bias + items[k].target
    requires NoClash(image.text, Sites(items, code, |items|))
    ensures var there := bias + items[i].target;
            Run(patched, data, State(items[i].entry, x), n) == Some(State(there, x[16 := there]))
  {
    hide Adapted, Run, Slot, Sites, Entries, Serves, Landing;
    n := CallArrives(image, patched, items, code, slots, data, i, x);
    Redirected(image, patched, items, code, slots, i);
  }

  lemma Redirected(image: Image, patched: Image, items: seq<Item>, code: int, slots: int, i: nat)
    requires Adapted(image, patched, items, code, slots) && i < |items|
    requires NoClash(image.text, Sites(items, code, |items|))
    ensures items[Serves(image.text, items, code, i)].target == items[i].target
  {
    hide StubAt, Sites, Entries, Accepted, Landing, PatchAll, Stub, Slot, Present, Serves;
    ServedBySelf(image.text, items, code, i);
    AliasShares(image.text, items, code, slots, i, |items|);
  }

  /** With a clash some symbol is misdirected: its call arrives at the address in the slot of an item with another
      entry. */
  lemma ClashMisdirects(image: Image, patched: Image, items: seq<Item>, code: int, slots: int,
                        data: map<int, int>, x: seq<int>) returns (i: nat, k: nat, n: nat)
    requires Adapted(image, patched, items, code, slots) && |x| == 31
    requires forall h :: 0 <= h < |items| ==> Slot(slots, h) in data
    requires !NoClash(image.text, Sites(items, code, |items|))
    ensures i < |items| && k < |items| && items[k].entry != items[i].entry
    ensures var there := data[Slot(slots, k)];
            Run(patched, data, State(items[i].entry, x), n) == Some(State(there, x[16 := there]))
  {
    hide StubAt, Sites, Entries, Accepted, Landing, PatchAll, Run, Stub, Slot, Enters, Reachable, Winner, Serves,
      NoClash;
    var sites := Sites(items, code, |items|);
    SitesAreFirsts(items, code, |items|);
    SitesReachable(image.text, items, code, slots, |items|);
    AllEnterExactly(image.text, sites);
    var s :| 0 <= s < |sites| && !Enters(patched.text, sites[s].entry, sites[s].stub);
    EntersWinner(image.text, sites, s);
    i := Entries(items, |items|)[sites[s].entry];
    k := Serves(image.text, items, code, i);
    ServedBySelf(image.text, items, code, i);
    SameSite(items, code, i, s);
    ServedEntry(image.text, items, code, i);
    n := CallArrives(image, patched, items, code, slots, data, i, x);
  }

  lemma SameSite(items: seq<Item>, code: int, i: nat, s: nat)
    requires i < |items| && s < |Sites(items, code, |items|)| && Sites(items, code, |items|)[s].entry == items[i].entry
    ensures SiteOf(items, code, i) == s
  {
    hide Sites, Entries;
    SitesAreFirsts(items, code, |items|);
  }

  lemma ServedEntry(text: map<int, u32>, items: seq<Item>, code: int, i: nat)
    requires Listed(text, items) && i < |items| && Present(text, Sites(items, code, |items|))
    ensures var sites := Sites(items, code, |items|);
            items[Serves(text, items, code, i)].entry == sites[Winner(text, sites, SiteOf(items, code, i))].entry
  {
    hide Sites, Winner;
    SitesAreFirsts(items, code, |items|);
  }

  /** Every item has the target of the first item with its entry. */
  lemma {:induction false} AliasShares(text: map<int, u32>, items: seq<Item>, code: int, slots: int, i: nat, k: nat)
    requires Listed(text, items) && i < k <= |items|
    requires forall j :: 0 <= j < k ==> Accepted(text, items, code, slots, j)
    ensures items[Entries(items, k)[items[i].entry]].target == items[i].target
    decreases k
  {
    hide PagesFit, DeltaFits, PatchAll, Landing, Accepted, Sites, PrefixSize, Entries, Present;
    Unfold(items, code, k);
    AcceptedIs(text, items, code, slots, k - 1);
    if i < k - 1 {
      AliasShares(text, items, code, slots, i, k - 1);
    }
  }

  // ----- a selection that loses a symbol -----

  /** Different entries, room for any patch, everything in reach: the loop's checks pass whatever the text is. */
  lemma RoomyAccepted(text: map<int, u32>, items: seq<Item>, code: int, slots: int, k: nat)
    requires Listed(text, items) && k < |items| && slots % 8 == 0
    requires forall i :: 0 <= i < k ==> items[i].entry != items[k].entry
    requires items[k].size >= 8 && PagesFit(Slot(slots, k) / 0x1000 - Stub(code, k) / 0x1000)
    requires DeltaFits(Stub(code, k) - items[k].entry) && DeltaFits(Stub(code, k) - items[k].entry - 4)
    ensures Accepted(text, items, code, slots, k)
  {
    hide PatchAll, Entries, Sites, Stub, Slot, DeltaFits, PagesFit, Accepted, Landing;
    AcceptedIs(text, items, code, slots, k);
    SlotAligned(slots, k);
    FirstOfEntry(items, k);
  }

  lemma SlotAligned(slots: int, k: nat)
    requires slots % 8 == 0
    ensures Slot(slots, k) % 8 == 0
  {
  }

  lemma FirstOfEntry(items: seq<Item>, k: nat)
    requires k < |items| && forall i :: 0 <= i < k ==> items[i].entry != items[k].entry
    ensures items[k].entry !in Entries(items, k)
  {
    hide Entries;
  }

  /** Items with different entries are patched one by one. */
  lemma {:induction false} AllFirsts(items: seq<Item>, code: int, k: nat)
    requires k <= |items| && forall i, j :: 0 <= i < j < |items| ==> items[i].entry != items[j].entry
    ensures var sites := Sites(items, code, k);
            |sites| == k && forall i :: 0 <= i < k ==> sites[i] == Site(items[i].entry, Stub(code, i))
  {
    hide Entries, Sites, Stub;
    Unfold(items, code, k);
    if k > 0 {
      AllFirsts(items, code, k - 1);
    }
  }

  const SELECTED: nat := 50

  /** Fifty symbols: two a word apart, the first with a landing pad, and forty-eight sixteen bytes apart. */
  function ExampleItems(): (items: seq<Item>)
    ensures |items| == SELECTED && forall i :: 0 <= i < SELECTED ==> items[i] == ExampleItem(i)
  {
    seq(SELECTED, i requires 0 <= i < SELECTED => ExampleItem(i))
  }

  function ExampleItem(i: nat): Item { Item(if i == 1 then 0x1004 else 0x1000 + 16 * i, 8, 0x100 * i) }

  function ExampleText(): map<int, u32> {
    map a | 0x1000 <= a < 0x2000 && a % 4 == 0 :: if a == 0x1000 then BTI_C else NOP
  }

  /** They pass every check of the loop, and yet a call of the first runs the second's replacement. */
  lemma ClashExample()
    ensures var text, items := ExampleText(), ExampleItems();
            && Listed(text, items) && (forall k :: 0 <= k < |items| ==> Accepted(text, items, 0x2000, 0x3000, k))
            && Serves(text, items, 0x2000, 0) == 1 && items[0].target != items[1].target
  {
    hide Sites, Entries, PatchAll, Accepted, Serves;
    var text, items := ExampleText(), ExampleItems();
    forall k | 0 <= k < |items|
      ensures Accepted(text, items, 0x2000, 0x3000, k)
    {
      RoomyAccepted(text, items, 0x2000, 0x3000, k);
    }
    FirstMisserved(text, items, 0x2000);
  }

  /** An item with a pad, followed in the selection by one on its next word, is served by that one. */
  lemma FirstMisserved(text: map<int, u32>, items: seq<Item>, code: int)
    requires Listed(text, items) && |items| > 1 && Landing(text[items[0].entry]).Some?
    requires forall i, j :: 0 <= i < j < |items| ==> items[i].entry != items[j].entry
    requires items[1].entry == items[0].entry + 4 && forall i :: 0 <= i < |items| ==> items[i].entry >= items[0].entry
    ensures Serves(text, items, code, 0) == 1
  {
    hide Sites, Entries, Landing, Stub;
    SitesPresent(text, items, code, |items|);
    AllFirsts(items, code, |items|);
    SameSite(items, code, 0, 0);
    ServedEntry(text, items, code, 0);
  }
}

/** The 64-slot table of descriptors that D-Bus values refer to by `fd:N` handles.
    Serials only grow, so a handle that was closed never comes back to life. */
module BusDescriptors {
  import opened Common
  import opened Decimal

  const FD_LIMIT: nat := 64

  /** Slot `i` is free when `fd[i]` is negative. `received` and `closed` account for every
      descriptor whose ownership reached the table. */
  datatype Table = Table(fd: seq<int>, serial: seq<nat>, next: nat,
                         received: multiset<int>, closed: multiset<int>)

  predicate Sized(f: Table) { |f.fd| == FD_LIMIT && |f.serial| == FD_LIMIT }

  predicate Live(f: Table, i: int)
    requires Sized(f)
  {
    0 <= i < FD_LIMIT && f.fd[i] >= 0
  }

  /** What every operation keeps: live serials are distinct and were issued already,
      and every descriptor received is in exactly one slot or was closed once. */
  ghost predicate Valid(f: Table): (valid: bool)
    ensures valid ==> Sized(f)
  {
    Sized(f) && f.next <= UINT64_MAX && Issued(f) && Distinct(f) && Balanced(f)
  }

  ghost predicate Issued(f: Table)
    requires Sized(f)
  {
    forall i :: 0 <= i < FD_LIMIT ==> f.fd[i] == -1 || (f.fd[i] >= 0 && 1 <= f.serial[i] <= f.next)
  }

  ghost predicate Distinct(f: Table)
    requires Sized(f)
  {
    forall i, j :: Live(f, i) && Live(f, j) && f.serial[i] == f.serial[j] ==> i == j
  }

  ghost predicate Balanced(f: Table) { Held(f.fd) + f.closed == f.received }

  ghost function Own(x: int): multiset<int> { if x >= 0 then multiset{x} else multiset{} }

  /** The descriptors held in a run of slots. */
  ghost function Held(fd: seq<int>): multiset<int> {
    if fd == [] then multiset{} else Own(fd[0]) + Held(fd[1..])
  }

  function Empty(): Table {
    Table(seq(FD_LIMIT, _ => -1), seq(FD_LIMIT, _ => 0), 0, multiset{}, multiset{})
  }

  /** The first free slot among the first `n`, or `n`. */
  function FreeSlot(fd: seq<int>, n: nat): (slot: nat)
    requires n <= |fd|
    ensures slot <= n
    ensures slot < n ==> fd[slot] < 0
    ensures forall k :: 0 <= k < slot ==> fd[k] >= 0
  {
    if n == 0 then 0
    else
      var slot := FreeSlot(fd, n - 1);
      if slot < n - 1 || fd[n - 1] < 0 then slot else n
  }

  function Handle(id: nat): Bytes { [102, 100, 58] + PrintNat(id) }

  /** Takes over `x` and issues a serial; `None` when it is not a descriptor or there is no room,
      and then `x` is closed. */
  function Insert(f: Table, x: int): (r: (Option<nat>, Table))
    requires Sized(f)
    ensures Sized(r.1)
  {
    var slot := FreeSlot(f.fd, |f.fd|);
    if x < 0 then (None, f)
    else
      var g := f.(received := f.received + multiset{x});
      if slot == FD_LIMIT || f.next >= UINT64_MAX then (None, g.(closed := g.closed + multiset{x}))
      else (Some(f.next + 1), g.(fd := f.fd[slot := x], serial := f.serial[slot := f.next + 1], next := f.next + 1))
  }

  /** The first live slot among the first `n` with serial `id`. */
  function SlotOf(f: Table, id: nat, n: nat): (slot: Option<nat>)
    requires Sized(f) && n <= FD_LIMIT
    ensures slot.Some? ==> slot.value < n && Live(f, slot.value) && f.serial[slot.value] == id
    ensures slot.None? ==> forall k :: k < n && Live(f, k) ==> f.serial[k] != id
  {
    if n == 0 then None
    else
      var slot := SlotOf(f, id, n - 1);
      if slot.None? && f.fd[n - 1] >= 0 && f.serial[n - 1] == id then Some(n - 1) else slot
  }

  /** The serial a handle text names; `None` when the text is not a handle. */
  function HandleId(text: Bytes): (id: Option<nat>)
    ensures id.Some? ==> id.value > 0
  {
    if |text| < 3 || text[..3] != [102, 100, 58] then None
    else
      var id := ScanUnsigned(text[3..]);
      if id == Some(0) then None else id
  }

  function HandleSlot(f: Table, text: Bytes): (slot: Option<nat>)
    requires Sized(f)
    ensures slot.Some? ==> Live(f, slot.value) && Some(f.serial[slot.value]) == HandleId(text)
  {
    match HandleId(text)
    case None => None
    case Some(id) => SlotOf(f, id, |f.fd|)
  }

  function CloseSlot(f: Table, i: nat): Table
    requires Sized(f) && i < FD_LIMIT
  {
    f.(fd := f.fd[i := -1], closed := f.closed + multiset{f.fd[i]})
  }

  function Release(f: Table, text: Bytes): (r: (bool, Table))
    requires Sized(f)
    ensures Sized(r.1)
  {
    match HandleSlot(f, text)
    case None => (false, f)
    case Some(i) => (true, CloseSlot(f, i))
  }

  /** Closes every live slot among the first `n` whose serial is above `before`. */
  function CloseAbove(f: Table, before: nat, n: nat): (g: Table)
    requires Sized(f) && n <= FD_LIMIT
    ensures Sized(g)
  {
    if n == 0 then f
    else
      var g := CloseAbove(f, before, n - 1);
      if g.fd[n - 1] >= 0 && g.serial[n - 1] > before then CloseSlot(g, n - 1) else g
  }

  lemma CloseAboveStep(f: Table, before: nat, n: nat)
    requires Sized(f) && n < FD_LIMIT
    ensures CloseAbove(f, before, 0) == f
    ensures var g := CloseAbove(f, before, n);
            CloseAbove(f, before, n + 1) == if g.fd[n] >= 0 && g.serial[n] > before then CloseSlot(g, n) else g
  {
    hide CloseSlot;
  }

  /** Closes every live slot among the first `n`. */
  function Clear(f: Table, n: nat): (g: Table)
    requires Sized(f) && n <= FD_LIMIT
    ensures Sized(g)
  {
    if n == 0 then f
    else
      var g := Clear(f, n - 1);
      if g.fd[n - 1] >= 0 then CloseSlot(g, n - 1) else g
  }

  // ----- what the operations keep -----

  lemma {:induction false} HeldUpdate(fd: seq<int>, i: nat, x: int)
    requires i < |fd|
    ensures Held(fd[i := x]) + Own(fd[i]) == Held(fd) + Own(x)
  {
    var g := fd[i := x];
    if i == 0 {
      assert g[1..] == fd[1..];
    } else {
      assert g[1..] == fd[1..][i - 1 := x];
      HeldUpdate(fd[1..], i - 1, x);
      calc {
        Held(g) + Own(fd[i]);
        Own(fd[0]) + (Held(g[1..]) + Own(fd[i]));
        Own(fd[0]) + (Held(fd[1..]) + Own(x));
        Held(fd) + Own(x);
      }
    }
  }

  lemma {:induction false} HeldNone(fd: seq<int>)
    requires forall i :: 0 <= i < |fd| ==> fd[i] < 0
    ensures Held(fd) == multiset{}
  {
    if fd != [] {
      HeldNone(fd[1..]);
    }
  }

  lemma EmptyValid()
    ensures Valid(Empty())
  {
    HeldNone(Empty().fd);
  }

  /** A live entry of `f` is the same live entry in `g`, and what `g` added is newer than `f`. */
  ghost predicate Grew(f: Table, g: Table): (grew: bool)
    ensures grew ==> Sized(f) && Sized(g)
  {
    && Sized(f) && Sized(g) && f.next <= g.next
    && (forall i :: Live(f, i) ==> g.fd[i] == f.fd[i] && g.serial[i] == f.serial[i])
    && (forall i :: 0 <= i < FD_LIMIT && f.fd[i] < 0 ==>
          g.fd[i] == f.fd[i] || (g.fd[i] >= 0 && g.serial[i] > f.next))
  }

  lemma GrewTransitive(f: Table, g: Table, h: Table)
    requires Grew(f, g) && Grew(g, h)
    ensures Grew(f, h)
  {
    forall i | 0 <= i < FD_LIMIT && f.fd[i] < 0
      ensures h.fd[i] == f.fd[i] || (h.fd[i] >= 0 && h.serial[i] > f.next)
    {
      if g.fd[i] >= 0 {
        assert Live(g, i);
      }
    }
    forall i | Live(f, i)
      ensures h.fd[i] == f.fd[i] && h.serial[i] == f.serial[i]
    {
      assert Live(g, i);
    }
  }

  /** Insertion keeps the table valid; the issued handle resolves to the descriptor. */
  lemma InsertKeeps(f: Table, x: int)
    requires Valid(f)
    ensures var (id, g) := Insert(f, x);
            && Valid(g) && Grew(f, g)
            && (id.Some? ==> id.value == g.next == f.next + 1
                             && exists i :: Live(g, i) && g.serial[i] == id.value && g.fd[i] == x)
  {
    hide Balanced;
    var (id, g) := Insert(f, x);
    InsertBalances(f, x);
    if id.Some? {
      hide FreeSlot;
      var slot := FreeSlot(f.fd, |f.fd|);
      assert Live(g, slot) && g.serial[slot] == id.value && g.fd[slot] == x;
      assert forall i :: i != slot ==> (Live(g, i) <==> Live(f, i));
      forall i, j | Live(g, i) && Live(g, j) && g.serial[i] == g.serial[j]
        ensures i == j
      {
        assert i != slot ==> Live(f, i);
        assert j != slot ==> Live(f, j);
      }
    }
  }

  lemma InsertBalances(f: Table, x: int)
    requires Sized(f) && Balanced(f)
    ensures Balanced(Insert(f, x).1)
  {
    var (id, g) := Insert(f, x);
    if id.Some? {
      var slot := FreeSlot(f.fd, |f.fd|);
      HeldUpdate(f.fd, slot, x);
      assert Held(g.fd) == Held(f.fd) + multiset{x};
      assert Held(f.fd) + multiset{x} + f.closed == f.received + multiset{x};
    } else if x >= 0 {
      assert Held(f.fd) + (f.closed + multiset{x}) == f.received + multiset{x};
    }
  }

  lemma CloseSlotKeeps(f: Table, i: nat)
    requires Valid(f) && Live(f, i)
    ensures Valid(CloseSlot(f, i))
  {
    var g := CloseSlot(f, i);
    assert forall k :: Live(g, k) ==> Live(f, k);
    assert Balanced(g) by {
      HeldUpdate(f.fd, i, -1);
      assert Held(g.fd) + multiset{f.fd[i]} == Held(f.fd);
    }
  }

  lemma {:induction false} CloseAboveAt(f: Table, before: nat, n: nat)
    requires Sized(f) && n <= FD_LIMIT
    ensures var g := CloseAbove(f, before, n);
            && g.next == f.next && g.serial == f.serial
            && (forall k :: 0 <= k < FD_LIMIT ==>
                  g.fd[k] == if k < n && f.fd[k] >= 0 && f.serial[k] > before then -1 else f.fd[k])
  {
    if n > 0 {
      CloseAboveAt(f, before, n - 1);
    }
  }

  lemma {:induction false} CloseAboveKeeps(f: Table, before: nat, n: nat)
    requires Valid(f) && n <= FD_LIMIT
    ensures Valid(CloseAbove(f, before, n))
  {
    hide Distinct, Balanced, Issued;
    if n > 0 {
      CloseAboveKeeps(f, before, n - 1);
      var g := CloseAbove(f, before, n - 1);
      if Live(g, n - 1) {
        CloseSlotKeeps(g, n - 1);
      }
    }
  }

  lemma {:induction false} ClearKeeps(f: Table, n: nat)
    requires Valid(f) && n <= FD_LIMIT
    ensures var g := Clear(f, n); Valid(g) && g.next == f.next && forall k :: 0 <= k < n ==> g.fd[k] < 0
  {
    hide Valid;
    if n > 0 {
      ClearKeeps(f, n - 1);
      var g := Clear(f, n - 1);
      var last := n - 1;
      assert Clear(f, n) == if g.fd[last] >= 0 then CloseSlot(g, last) else g;
      hide Clear;
      if Live(g, last) {
        CloseSlotKeeps(g, last);
      }
    }
  }

  /** Clearing leaves no descriptor behind: every one received has been closed. */
  lemma ClearClosesAll(f: Table)
    requires Valid(f)
    ensures var g := Clear(f, |f.fd|);
            Valid(g) && g.next == f.next && g.closed == g.received && forall i :: !Live(g, i)
  {
    ClearKeeps(f, |f.fd|);
    HeldNone(Clear(f, |f.fd|).fd);
  }

  /** Rolling back to the serial of an earlier table restores exactly its descriptors. */
  lemma RollbackRestores(f: Table, g: Table)
    requires Valid(f) && Valid(g) && Grew(f, g)
    ensures var h := CloseAbove(g, f.next, |g.fd|);
            && Valid(h) && h.fd == f.fd && h.next == g.next
            && (forall i :: Live(f, i) ==> h.serial[i] == f.serial[i])
  {
    CloseAboveKeeps(g, f.next, |g.fd|);
    CloseAboveAt(g, f.next, |g.fd|);
    var h := CloseAbove(g, f.next, |g.fd|);
    forall k | 0 <= k < FD_LIMIT
      ensures h.fd[k] == f.fd[k]
    {
      if f.fd[k] >= 0 {
        assert Live(f, k);
      }
    }
  }

  /** A printed handle names its serial, and resolves to the descriptor it was issued for. */
  lemma HandleResolves(f: Table, i: nat)
    requires Valid(f) && Live(f, i)
    ensures HandleSlot(f, Handle(f.serial[i])) == Some(i)
  {
    var id := f.serial[i];
    var text := Handle(id);
    PrintScan(id);
    assert text[3..] == PrintInt(id);
    assert text[..3] == [102, 100, 58];
  }
}

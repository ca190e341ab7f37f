/** The frame buffer and the descriptor table as they run: arrays and cursors updated in place, each method proved to
    compute its function in `BusCodec`. */
module BusWire {
  import opened Common
  import opened Decimal
  import opened DBusValues
  import BusDescriptors
  import C = BusCodec

  const FD_LIMIT := BusDescriptors.FD_LIMIT

  /** `MdBusFds`. The two multisets record ownership and exist only in the proof. */
  class Fds {
    const fd: array<int>
    const serial: array<nat>
    var next: nat
    ghost var received: multiset<int>
    ghost var closed: multiset<int>

    ghost predicate Valid()
      reads this
    {
      fd.Length == FD_LIMIT && serial.Length == FD_LIMIT && fd as object != serial as object
    }

    ghost function Table(): (t: BusDescriptors.Table)
      reads this, fd, serial
      requires Valid()
      ensures BusDescriptors.Sized(t)
    {
      BusDescriptors.Table(fd[..], serial[..], next, received, closed)
    }

    constructor ()
      ensures Valid() && fresh(fd) && fresh(serial) && Table() == BusDescriptors.Empty()
    {
      fd := new int[FD_LIMIT](_ => -1);
      serial := new nat[FD_LIMIT](_ => 0);
      next := 0;
      received, closed := multiset{}, multiset{};
    }

    /** Takes ownership of `x`: into the first free slot, or closed when there is none. */
    method Insert(x: int) returns (id: Option<nat>)
      requires Valid()
      modifies this, fd, serial
      ensures Valid() && (id, Table()) == BusDescriptors.Insert(old(Table()), x)
    {
      var slot := 0;
      while slot < FD_LIMIT && fd[slot] >= 0
        invariant slot <= FD_LIMIT
        invariant forall k :: 0 <= k < slot ==> fd[k] >= 0
      {
        slot := slot + 1;
      }
      ghost var free := BusDescriptors.FreeSlot(fd[..], FD_LIMIT);
      assert slot < FD_LIMIT ==> fd[..][slot] < 0;
      assert slot == free;
      if x < 0 {
        return None;
      }
      received := received + multiset{x};
      if slot == FD_LIMIT || next >= UINT64_MAX {
        closed := closed + multiset{x};
        return None;
      }
      next := next + 1;
      fd[slot] := x;
      serial[slot] := next;
      id := Some(next);
    }

    method Resolve(text: Bytes) returns (slot: Option<nat>)
      requires Valid()
      ensures slot == BusDescriptors.HandleSlot(Table(), text)
    {
      var id := BusDescriptors.HandleId(text);
      if id.None? {
        return None;
      }
      for i := 0 to FD_LIMIT
        invariant BusDescriptors.SlotOf(Table(), id.value, i) == None
      {
        if fd[i] >= 0 && serial[i] == id.value {
          slot := Some(i);
          assert BusDescriptors.SlotOf(Table(), id.value, i + 1) == slot;
          FirstStays(Table(), id.value, i + 1, FD_LIMIT);
          return;
        }
      }
      slot := None;
    }

    method Close(i: nat)
      requires Valid() && i < FD_LIMIT
      modifies this, fd
      ensures Valid() && Table() == BusDescriptors.CloseSlot(old(Table()), i)
    {
      closed := closed + multiset{fd[i]};
      fd[i] := -1;
    }

    method Release(text: Bytes) returns (ok: bool)
      requires Valid()
      modifies this, fd
      ensures Valid() && (ok, Table()) == BusDescriptors.Release(old(Table()), text)
    {
      var slot := Resolve(text);
      ok := slot.Some?;
      if ok {
        Close(slot.value);
      }
    }

    /** Undoes every insertion after the table's `next` was `before`. */
    method CloseAbove(before: nat)
      requires Valid()
      modifies this, fd
      ensures Valid() && Table() == BusDescriptors.CloseAbove(old(Table()), before, FD_LIMIT)
    {
      hide BusDescriptors.CloseAbove, BusDescriptors.CloseSlot;
      BusDescriptors.CloseAboveStep(Table(), before, 0);
      for i := 0 to FD_LIMIT
        invariant Valid() && Table() == BusDescriptors.CloseAbove(old(Table()), before, i)
      {
        BusDescriptors.CloseAboveStep(old(Table()), before, i);
        if fd[i] >= 0 && serial[i] > before {
          Close(i);
        }
      }
    }

    method Clear()
      requires Valid()
      modifies this, fd
      ensures Valid() && Table() == BusDescriptors.Clear(old(Table()), FD_LIMIT)
    {
      for i := 0 to FD_LIMIT
        invariant Valid() && Table() == BusDescriptors.Clear(old(Table()), i)
      {
        if fd[i] >= 0 {
          Close(i);
        }
      }
    }
  }

  lemma {:induction false} FirstStays(t: BusDescriptors.Table, id: nat, i: nat, n: nat)
    requires BusDescriptors.Sized(t) && i <= n <= FD_LIMIT && BusDescriptors.SlotOf(t, id, i).Some?
    ensures BusDescriptors.SlotOf(t, id, n) == BusDescriptors.SlotOf(t, id, i)
    decreases n - i
  {
    if i < n {
      FirstStays(t, id, i, n - 1);
    }
  }

  /** `MdBusWire`: a frame in a growable buffer, with the read cursor and the value counter. */
  class Wire {
    var data: array<byte>
    var size: nat
    var at: nat
    var capacity: nat
    var values: nat
    var failed: bool

    ghost predicate Valid()
      reads this
    {
      size <= capacity == data.Length <= C.FRAME_LIMIT
    }

    ghost function Frame(): Bytes
      reads this, data
      requires Valid()
    {
      data[..size]
    }

    constructor ()
      ensures Valid() && fresh(data) && Frame() == [] && at == 0 && values == 0 && !failed
    {
      data := new byte[0];
      size, at, capacity, values, failed := 0, 0, 0, 0, false;
    }

    /** A frame that has arrived whole. */
    constructor Received(frame: Bytes)
      requires |frame| <= C.FRAME_LIMIT
      ensures Valid() && fresh(data) && Frame() == frame && at == 0 && values == 0 && !failed
    {
      data := new byte[|frame|](i requires 0 <= i < |frame| => frame[i]);
      size, at, capacity, values, failed := |frame|, 0, |frame|, 0, false;
    }

    /** Room for `needed` bytes: doubling from the present capacity, never above the frame limit. */
    method Grow(needed: nat)
      requires Valid() && capacity < needed <= C.FRAME_LIMIT
      modifies this
      ensures Valid() && needed <= capacity && fresh(data) && Frame() == old(Frame())
      ensures size == old(size) && at == old(at) && values == old(values) && failed == old(failed)
    {
      var room := if capacity > 0 then capacity else 4096;
      while room < needed
        invariant room > 0
        decreases needed - room
      {
        room := room * 2;
      }
      if room > C.FRAME_LIMIT {
        room := C.FRAME_LIMIT;
      }
      var bigger := new byte[room];
      Copy(bigger, 0, data[..size]);
      data, capacity := bigger, room;
    }

    /** The growable buffer is plain append, up to the frame limit. */
    method Put(p: Bytes)
      requires Valid()
      modifies this, data
      ensures Valid() && (fresh(data) || data == old(data))
      ensures at == old(at) && values == old(values)
      ensures failed == (old(failed) || old(size) + |p| > C.FRAME_LIMIT)
      ensures Frame() == old(Frame()) + if failed then [] else p
    {
      if failed || |p| > C.FRAME_LIMIT - size {
        failed := true;
        return;
      }
      if size + |p| > capacity {
        Grow(size + |p|);
      }
      Copy(data, size, p);
      size := size + |p|;
    }

    method ReadU32() returns (v: u32)
      requires Valid()
      modifies this
      ensures Valid() && data == old(data) && size == old(size)
      ensures (v, ReaderOf(this)) == C.ReadU32(old(ReaderOf(this)))
    {
      if failed || at > size || size - at < 4 {
        failed := true;
        return 0;
      }
      v := DecodeU32(data[at..at + 4]);
      assert data[..size][at..at + 4] == data[at..at + 4];
      at := at + 4;
    }

    method ReadText() returns (s: Option<Bytes>)
      requires Valid()
      modifies this
      ensures Valid() && data == old(data) && size == old(size)
      ensures (s, ReaderOf(this)) == C.ReadText(old(ReaderOf(this)))
    {
      var n := ReadU32();
      if failed || at > size || n > size - at {
        failed := true;
        return None;
      }
      var text := data[at..at + n];
      assert data[..size][at..at + n] == text;
      at := at + n;
      if !Carries(text) {
        failed := true;
        return None;
      }
      s := Some(text);
    }
  }

  ghost function ReaderOf(w: Wire): C.Reader
    reads w, w.data
    requires w.Valid()
  {
    C.Reader(w.Frame(), w.at, w.values, w.failed)
  }

  /** A wire and a table that do not share memory. */
  ghost predicate Apart(w: Wire, f: Fds)
    reads w, f
  {
    && w.Valid() && f.Valid()
    && w.data as object != f.fd as object && w.data as object != f.serial as object
  }

  ghost function WriterOf(w: Wire, f: Fds): C.Writer
    reads w, w.data, f, f.fd, f.serial
    requires Apart(w, f)
  {
    C.Writer(w.Frame(), w.values, w.failed, f.Table())
  }

  method WriteU32(w: Wire, f: Fds, v: nat)
    requires Apart(w, f)
    modifies w, w.data
    ensures Apart(w, f) && (fresh(w.data) || w.data == old(w.data))
    ensures WriterOf(w, f) == C.PutU32(old(WriterOf(w, f)), v)
  {
    w.Put(EncodeU32(v % 0x1_0000_0000));
  }

  method WriteText(w: Wire, f: Fds, text: Bytes)
    requires Apart(w, f)
    modifies w, w.data
    ensures Apart(w, f) && (fresh(w.data) || w.data == old(w.data))
    ensures WriterOf(w, f) == C.PutText(old(WriterOf(w, f)), text)
  {
    if |text| > C.FRAME_LIMIT {
      w.failed := true;
      return;
    }
    WriteU32(w, f, |text|);
    w.Put(text);
  }
}

/** A private copy of guest text whose system-call instructions can be redirected while it runs. */
module SvcText {
  import opened Common

  const POINTER_MAX: int := 0xFFFF_FFFF_FFFF_FFFF
  const OFFSET_MAX: int := 0x7FFF_FFFF_FFFF_FFFF
  const EINVAL: int := 22
  const EIO: int := 5
  const EEXIST: int := 17

  const SVC: u32 := 0xD4000001

  // ----- words of the text -----

  /** The little-endian word at byte `o`. */
  function WordAt(text: Bytes, o: nat): u32
    requires o + 4 <= |text|
  {
    var (a: int, b: int, c: int, d: int) := (text[o], text[o + 1], text[o + 2], text[o + 3]);
    a + b * 0x100 + c * 0x1_0000 + d * 0x100_0000
  }

  function Store(text: Bytes, o: nat, w: u32): (r: Bytes)
    requires o + 4 <= |text|
    ensures |r| == |text|
  {
    text[..o] + [w % 0x100, w / 0x100 % 0x100, w / 0x1_0000 % 0x100, w / 0x100_0000] + text[o + 4..]
  }

  lemma StoreWord(text: Bytes, o: nat, w: u32, p: nat)
    requires o + 4 <= |text| && p + 4 <= |text|
    ensures WordAt(Store(text, o, w), o) == w
    ensures p + 4 <= o || o + 4 <= p ==> WordAt(Store(text, o, w), p) == WordAt(text, p)
  {
    var r := Store(text, o, w);
    assert r[o] == w % 0x100 && r[o + 1] == w / 0x100 % 0x100;
    assert r[o + 2] == w / 0x1_0000 % 0x100 && r[o + 3] == w / 0x100_0000;
    assert w / 0x100 == w / 0x1_0000 * 0x100 + w / 0x100 % 0x100;
    assert w / 0x1_0000 == w / 0x100_0000 * 0x100 + w / 0x1_0000 % 0x100;
    assert forall i :: 0 <= i < o || o + 4 <= i < |r| ==> r[i] == text[i];
  }

  /** SVC #0, or an unconditional branch. */
  predicate Eligible(w: u32) { w == SVC || w / 0x400_0000 == 5 }

  // ----- publishing -----

  datatype Text = Text(address: int, size: int, content: Bytes)

  /** The shape `prepare` establishes: a whole number of words that ends inside the address space. */
  predicate Shaped(t: Text) {
    && t.size == |t.content| && t.address % 4 == 0 && t.address >= 0 && t.address + t.size <= POINTER_MAX
  }

  predicate Inside(t: Text, site: int) { site % 4 == 0 && t.address <= site && site + 4 <= t.address + t.size }

  function Publish(t: Text, site: int, instruction: u32): (r: Option<Text>)
    requires Shaped(t)
  {
    if Inside(t, site) && Eligible(instruction) && Eligible(WordAt(t.content, site - t.address))
    then Some(t.(content := Store(t.content, site - t.address, instruction)))
    else None
  }

  /** Only words that were eligible in the source may differ from it, and those are still eligible. */
  ghost predicate Derived(source: Bytes, content: Bytes) {
    && |source| == |content|
    && forall o: nat :: o % 4 == 0 && o + 4 <= |source| ==> DerivedAt(source, content, o)
  }

  predicate DerivedAt(source: Bytes, content: Bytes, o: nat)
    requires |source| == |content| && o + 4 <= |source|
  {
    if Eligible(WordAt(source, o)) then Eligible(WordAt(content, o)) else WordAt(content, o) == WordAt(source, o)
  }

  /** A publication redirects exactly one word and keeps the text derived from its source. */
  lemma PublishKeeps(source: Bytes, t: Text, site: int, instruction: u32)
    requires Shaped(t) && Derived(source, t.content) && Publish(t, site, instruction).Some?
    ensures var r := Publish(t, site, instruction).value;
            && Shaped(r) && Derived(source, r.content) && r.address == t.address && r.size == t.size
            && WordAt(r.content, site - t.address) == instruction
            && forall p: nat :: p % 4 == 0 && p + 4 <= t.size && p != site - t.address
                 ==> WordAt(r.content, p) == WordAt(t.content, p)
  {
    hide Eligible, WordAt, Store;
    var at: nat := site - t.address;
    var r := Publish(t, site, instruction).value;
    forall p: nat | p % 4 == 0 && p + 4 <= t.size
      ensures WordAt(r.content, p) == if p == at then instruction else WordAt(t.content, p)
      ensures DerivedAt(source, r.content, p)
    {
      StoreWord(t.content, at, instruction, p);
      assert DerivedAt(source, t.content, p) && DerivedAt(source, t.content, at);
    }
  }

  /** A site can be published exactly when its source word was eligible: earlier publications change nothing. */
  lemma PublishableBySource(source: Bytes, t: Text, site: int, instruction: u32)
    requires Shaped(t) && Derived(source, t.content)
    ensures Publish(t, site, instruction).Some? <==>
            Inside(t, site) && Eligible(instruction) && Eligible(WordAt(source, site - t.address))
  {
    hide Eligible, WordAt, Store;
    if Inside(t, site) {
      assert DerivedAt(source, t.content, site - t.address);
      NotEligible(source, t.content, site - t.address);
    }
  }

  lemma NotEligible(source: Bytes, content: Bytes, o: nat)
    requires |source| == |content| && o + 4 <= |source| && DerivedAt(source, content, o)
    ensures Eligible(WordAt(content, o)) == Eligible(WordAt(source, o))
  {
  }

  function PublishAll(t: Text, requests: seq<(int, u32)>): Text
    requires Shaped(t)
    decreases |requests|
  {
    if requests == [] then t
    else match Publish(t, requests[0].0, requests[0].1)
         case None => PublishAll(t, requests[1..])
         case Some(r) => PublishShape(t, requests[0].0, requests[0].1); PublishAll(r, requests[1..])
  }

  lemma PublishShape(t: Text, site: int, instruction: u32)
    requires Shaped(t) && Publish(t, site, instruction).Some?
    ensures Shaped(Publish(t, site, instruction).value)
  {
  }

  /** Over any run of publications the text stays derived from its source. */
  lemma {:induction false} PublishAllKeeps(source: Bytes, t: Text, requests: seq<(int, u32)>)
    requires Shaped(t) && Derived(source, t.content)
    ensures var r := PublishAll(t, requests);
            Shaped(r) && Derived(source, r.content) && r.address == t.address && r.size == t.size
    decreases |requests|
  {
    hide Derived, Publish;
    if requests != [] {
      match Publish(t, requests[0].0, requests[0].1)
      case None => PublishAllKeeps(source, t, requests[1..]);
      case Some(r) =>
        PublishKeeps(source, t, requests[0].0, requests[0].1);
        PublishAllKeeps(source, r, requests[1..]);
    }
  }

  /** A word that the source did not allow to be redirected is never changed. */
  lemma FixedWords(source: Bytes, t: Text, requests: seq<(int, u32)>, o: nat)
    requires Shaped(t) && Derived(source, t.content) && o % 4 == 0 && o + 4 <= |source| && !Eligible(WordAt(source, o))
    ensures |PublishAll(t, requests).content| == |source|
    ensures WordAt(PublishAll(t, requests).content, o) == WordAt(source, o)
  {
    hide Eligible, WordAt, PublishAll, Shaped;
    PublishAllKeeps(source, t, requests);
    assert DerivedAt(source, PublishAll(t, requests).content, o);
  }

  // ----- the object and its system calls -----

  /** What a read of the source answers: interrupted, an error, or at most `count` bytes. */
  datatype Reply = Interrupted | Failed(errno: nat) | Chunk(count: nat)

  /** The process's descriptors and mapped areas. Calls fail as the script of errors says, zero meaning success. */
  class Process {
    var errors: seq<nat>
    var replies: seq<Reply>
    var fds: set<nat>
    var areas: set<nat>
    var next: nat
    /** The area mapped at each address. */
    var image: map<int, nat>

    ghost predicate Valid()
      reads this
    {
      (forall f :: f in fds ==> f < next) && forall a :: a in areas ==> a < next
    }

    method Error() returns (e: int)
      modifies this`errors
      ensures e >= 0 && errors == (if old(errors) == [] then [] else old(errors)[1..])
      ensures e == if old(errors) == [] then 0 else old(errors)[0]
    {
      e := 0;
      if errors != [] {
        e, errors := errors[0], errors[1..];
      }
    }

    method Descriptor() returns (fd: nat)
      requires Valid()
      modifies this`fds, this`next
      ensures Valid() && next > old(next) && fd !in old(fds) && fds == old(fds) + {fd}
    {
      fd, next := next, next + 1;
      fds := fds + {fd};
    }

    method Map() returns (area: nat)
      requires Valid()
      modifies this`areas, this`next
      ensures Valid() && next > old(next) && area !in old(areas) && areas == old(areas) + {area}
    {
      area, next := next, next + 1;
      areas := areas + {area};
    }

    /** A positioned read: its answer is no longer than asked for, nor than the file. */
    method Pread(file: Bytes, offset: nat, count: nat) returns (r: Reply)
      requires count > 0
      modifies this`replies
      ensures r.Chunk? ==> r.count <= count && (r.count > 0 ==> offset + r.count <= |file|)
      ensures r.Interrupted? ==> |replies| < |old(replies)|
    {
      var most := if offset >= |file| then 0 else if |file| - offset < count then |file| - offset else count;
      if replies == [] {
        return Chunk(most);
      }
      r, replies := replies[0], replies[1..];
      if r.Chunk? && r.count > most {
        r := Chunk(most);
      }
    }
  }

  /** What `prepare` asks of its arguments. */
  predicate Arguments(offset: int, address: int, size: int, page: nat)
    requires page > 0
  {
    && size > 0 && size % page == 0 && address % page == 0 && offset % page == 0
    && size <= OFFSET_MAX && address <= POINTER_MAX - size && offset <= OFFSET_MAX - size
  }

  class SharedText {
    var fd: Option<nat>
    var writer: Option<nat>
    var staging: Option<nat>
    var address: int
    var size: int
    var content: Bytes
    /** The bytes copied from the source file. */
    ghost var source: Bytes

    ghost predicate Valid()
      reads this
    {
      && (writer.Some? == fd.Some?) && (staging.Some? ==> writer.Some?)
      && (writer.Some? ==> Shaped(Now()) && Derived(source, content))
    }

    ghost function Now(): Text
      reads this
    {
      Text(address, size, content)
    }

    ghost predicate Empty()
      reads this
    {
      fd.None? && writer.None? && staging.None?
    }

    constructor ()
      ensures Valid() && Empty()
    {
      fd, writer, staging, address, size, content, source := None, None, None, 0, 0, [], [];
    }

    /** Unmaps and closes whatever is held; text already activated stays mapped. */
    method Release(k: Process)
      requires k.Valid()
      modifies this, k`areas, k`fds
      ensures Valid() && Empty() && k.Valid()
      ensures k.areas == old(k.areas) - Held(old(staging)) - Held(old(writer)) && k.fds == old(k.fds) - Held(old(fd))
    {
      k.areas := k.areas - Held(staging) - Held(writer);
      k.fds := k.fds - Held(fd);
      fd, writer, staging, address, size, content, source := None, None, None, 0, 0, [], [];
    }
  }

  /** Nothing is mapped in a range. */
  predicate Vacant(image: map<int, nat>, address: int, size: int) {
    forall a :: Spans(address, size, a) ==> a !in image
  }

  /** A range mapped to an area, whatever was there before. */
  function Covered(image: map<int, nat>, address: int, size: int, area: nat): map<int, nat> {
    map a | a in image.Keys + (set b | address <= b < address + size && Spans(address, size, b))
      :: if Spans(address, size, a) then area else image[a]
  }

  /** The image with a range taken out. */
  function Discarded(image: map<int, nat>, address: int, size: int): map<int, nat> {
    map a | a in image && !Spans(address, size, a) :: image[a]
  }

  predicate Spans(address: int, size: int, a: int) { address <= a < address + size }

  function Held(o: Option<nat>): set<nat> { if o.Some? then {o.value} else {} }

  /** The copy loop: interrupted and short reads only delay it; an early end of the file is an error. */
  method CopySource(k: Process, file: Bytes, offset: nat, size: nat) returns (content: Bytes, error: int)
    requires size > 0
    modifies k`replies
    ensures error >= 0
    ensures error == 0 ==> offset + size <= |file| && content == file[offset..offset + size]
  {
    content := [];
    while |content| < size
      invariant |content| <= size && (content != [] ==> offset + |content| <= |file|)
      invariant content == if content == [] then [] else file[offset..offset + |content|]
      decreases size - |content|, |k.replies|
    {
      var r := k.Pread(file, offset + |content|, size - |content|);
      match r
      case Interrupted =>
      case Failed(e) => return content, if e == 0 then EIO else e;
      case Chunk(n) =>
        if n == 0 {
          return content, EIO;
        }
        content := content + file[offset + |content|..offset + |content| + n];
    }
    error := 0;
  }

  /** The calls of `prepare` in order; every failure gives back what was taken. */
  method Acquire(k: Process, file: Bytes, offset: nat, size: nat)
    returns (error: int, fd: nat, writer: nat, staging: nat, content: Bytes)
    requires k.Valid() && size > 0
    modifies k`errors, k`replies, k`fds, k`areas, k`next
    ensures k.Valid() && error >= 0
    ensures error > 0 ==> k.fds == old(k.fds) && k.areas == old(k.areas)
    ensures error == 0 ==> fd !in old(k.fds) && writer !in old(k.areas) && staging !in old(k.areas) && writer != staging
    ensures error == 0 ==> k.fds == old(k.fds) + {fd} && k.areas == old(k.areas) + {writer, staging}
    ensures error == 0 ==> offset + size <= |file| && content == file[offset..offset + size]
  {
    fd, writer, staging, content := 0, 0, 0, [];
    error := k.Error();
    if error > 0 {
      return;
    }
    fd := k.Descriptor();
    error := k.Error();
    if error == 0 {
      error := k.Error();
    }
    if error > 0 {
      k.fds := k.fds - {fd};
      return;
    }
    writer := k.Map();
    content, error := CopySource(k, file, offset, size);
    if error == 0 {
      error := k.Error();
    }
    if error == 0 {
      error := k.Error();
    }
    if error > 0 {
      k.areas, k.fds := k.areas - {writer}, k.fds - {fd};
      return;
    }
    staging := k.Map();
  }

  /** `md_svc_text_prepare`: on success the text is the wanted range of the source, writable and staged; on failure
      the object, the descriptors and the mappings are as before. */
  method Prepare(k: Process, text: SharedText, file: Bytes, offset: nat, address: nat, size: nat, page: nat)
    returns (r: int)
    requires k.Valid() && text.Valid() && page > 0 && page % 4 == 0
    modifies k`errors, k`replies, k`fds, k`areas, k`next, text
    ensures k.Valid() && text.Valid()
    ensures !(old(text.Empty()) && Arguments(offset, address, size, page)) ==> r == -EINVAL && unchanged(k)
    ensures r != 0 ==> r < 0 && unchanged(text) && k.fds == old(k.fds) && k.areas == old(k.areas)
    ensures r == 0 ==> old(text.Empty()) && offset + size <= |file| && text.source == file[offset..offset + size]
    ensures r == 0 ==> text.content == text.source && text.address == address && text.size == size
    ensures r == 0 ==> text.fd.Some? && text.writer.Some? && text.staging.Some? && text.writer != text.staging
    ensures r == 0 ==> Held(text.fd) !! old(k.fds) && Held(text.writer) + Held(text.staging) !! old(k.areas)
    ensures r == 0 ==> k.fds == old(k.fds) + Held(text.fd)
    ensures r == 0 ==> k.areas == old(k.areas) + Held(text.writer) + Held(text.staging)
  {
    hide Shaped, WordAt, Eligible, Derived;
    if text.fd.Some? || text.writer.Some? || text.staging.Some? || !Arguments(offset, address, size, page) {
      return -EINVAL;
    }
    var error, fd, writer, staging, content := Acquire(k, file, offset, size);
    if error > 0 {
      return -error;
    }
    PreparedShape(address, size, page, content);
    text.fd, text.writer, text.staging := Some(fd), Some(writer), Some(staging);
    text.address, text.size, text.content := address, size, content;
    text.source := content;
    return 0;
  }

  lemma PreparedShape(address: nat, size: nat, page: nat, content: Bytes)
    requires page > 0 && page % 4 == 0 && address % page == 0 && address <= POINTER_MAX - size && |content| == size
    ensures Shaped(Text(address, size, content)) && Derived(content, content)
  {
    hide Eligible, WordAt;
    MultipleOfFour(address, page);
  }

  lemma MultipleOfFour(address: nat, page: nat)
    requires page > 0 && page % 4 == 0 && address % page == 0
    ensures address % 4 == 0
  {
    var q, w := address / page, page / 4;
    assert address == q * page;
    assert address == 4 * (q * w) by {
      assert page == 4 * w;
      assert q * (4 * w) == 4 * (q * w);
    }
  }

  /** `md_svc_text_activate`: moves the staged mapping over the text's address. It is not failure-atomic: a move that
      fails may have discarded what was mapped there, if the kernel `discards` before it fails. */
  method Activate(k: Process, text: SharedText, discards: bool) returns (r: int, ghost lost: bool)
    requires text.Valid()
    modifies k`errors, k`image, text`staging
    ensures text.Valid()
    ensures old(text.staging).None? ==> r == -EINVAL && !lost
    ensures lost ==> r != 0 && discards
    ensures r != 0 ==> r < 0 && text.staging == old(text.staging)
    ensures r != 0 ==> k.image == if lost then Discarded(old(k.image), text.address, text.size) else old(k.image)
    ensures r == 0 ==> text.staging.None?
    ensures r == 0 ==> k.image == Covered(old(k.image), text.address, text.size, old(text.staging).value)
  {
    if text.staging.None? {
      return -EINVAL, false;
    }
    var e := k.Error();
    if e > 0 {
      if discards {
        k.image := Discarded(k.image, text.address, text.size);
      }
      return -e, discards;
    }
    k.image := Covered(k.image, text.address, text.size, text.staging.value);
    text.staging := None;
    return 0, false;
  }

  /** Discarding a range leaves every other address as it was, and changes nothing exactly if the range was vacant. */
  lemma DiscardedExactly(image: map<int, nat>, address: int, size: int)
    ensures var left := Discarded(image, address, size);
            && Vacant(left, address, size) && (left == image <==> Vacant(image, address, size))
            && forall a :: !Spans(address, size, a) ==>
                 (a in left <==> a in image) && (a in image ==> left[a] == image[a])
  {
    var left := Discarded(image, address, size);
    if Vacant(image, address, size) {
      assert left == image;
    }
  }

  /** `md_svc_text_map_new`: maps the text at its address only if nothing is there. */
  method MapNew(k: Process, text: SharedText, placed: bool) returns (r: int, ghost area: nat)
    requires k.Valid() && text.Valid()
    modifies k`errors, k`image, k`areas, k`next, text`staging
    ensures k.Valid() && text.Valid()
    ensures old(text.staging).None? ==> r == -EINVAL
    ensures r != 0 ==> r < 0 && k.image == old(k.image) && k.areas == old(k.areas) && text.staging == old(text.staging)
    ensures r == 0 ==> placed && Vacant(old(k.image), text.address, text.size) && text.staging.None?
    ensures r == 0 ==> area !in old(k.areas) && k.areas == old(k.areas) - Held(old(text.staging)) + {area}
    ensures r == 0 ==> k.image == Covered(old(k.image), text.address, text.size, area)
    ensures forall a :: a in old(k.image) ==> a in k.image && k.image[a] == old(k.image)[a]
  {
    if text.staging.None? {
      return -EINVAL, 0;
    }
    var e := k.Error();
    if e > 0 {
      return -e, 0;
    }
    if !Vacant(k.image, text.address, text.size) {
      return -EEXIST, 0;
    }
    var mapped := k.Map();
    if !placed {
      k.areas := k.areas - {mapped};
      return -EEXIST, 0;
    }
    k.image := Covered(k.image, text.address, text.size, mapped);
    k.areas := k.areas - Held(text.staging) + {mapped};
    text.staging := None;
    return 0, mapped;
  }

  /** `md_svc_text_install`: prepared and running, or nothing held. A failure leaves the executed image unchanged if and
      only if the kernel did not discard the destination, or there was nothing to discard. */
  method Install(
    k: Process, text: SharedText, file: Bytes, offset: nat, address: nat, size: nat, page: nat, discards: bool)
    returns (r: int, ghost lost: bool)
    requires k.Valid() && text.Valid() && page > 0 && page % 4 == 0
    modifies k, text
    ensures k.Valid() && text.Valid()
    ensures r == 0 ==>
              text.content == text.source && offset + size <= |file| && text.source == file[offset..offset + size]
    ensures r == 0 ==> text.staging.None? && text.writer.Some? && text.address == address && text.size == size
    ensures r == 0 ==> exists area :: k.image == Covered(old(k.image), address, size, area)
    ensures r != 0 ==> k.fds == old(k.fds) && k.areas == old(k.areas) && (lost ==> discards)
    ensures r != 0 ==> k.image == if lost then Discarded(old(k.image), address, size) else old(k.image)
    ensures r != 0 ==> (k.image == old(k.image) <==> !lost || Vacant(old(k.image), address, size))
  {
    hide Shaped, Derived, Arguments, Vacant, Discarded;
    DiscardedExactly(k.image, address, size);
    lost := false;
    r := Prepare(k, text, file, offset, address, size, page);
    if r != 0 {
      return;
    }
    r, lost := Activate(k, text, discards);
    if r != 0 {
      text.Release(k);
    }
  }

  /** `md_svc_text_publish`: succeeds exactly for an eligible instruction at an aligned site of running text whose
      source word was eligible; the store is the only change. */
  method PublishSite(text: SharedText, site: nat, instruction: u32) returns (r: int)
    requires text.Valid()
    modifies text`content
    ensures text.Valid() && (r == 0 || r == -EINVAL)
    ensures r == 0 <==> text.writer.Some? && text.staging.None? && Publish(old(text.Now()), site, instruction).Some?
    ensures r == 0 ==> Some(text.Now()) == Publish(old(text.Now()), site, instruction)
    ensures r != 0 ==> text.content == old(text.content)
  {
    hide Eligible, WordAt, Store, Derived;
    if text.writer.None? || text.staging.Some? || text.size < 4 || site % 4 != 0 || site < text.address
       || site - text.address > text.size - 4 || !Eligible(instruction) {
      return -EINVAL;
    }
    var alias: nat := site - text.address;
    if !Eligible(WordAt(text.content, alias)) {
      return -EINVAL;
    }
    PublishKeeps(text.source, text.Now(), site, instruction);
    text.content := Store(text.content, alias, instruction);
    return 0;
  }
}

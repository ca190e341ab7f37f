/** Bytes, options and the big-endian words shared by every wire format of the project. */
module Common {

  datatype Option<+T> = None | Some(value: T)

  type byte = b: int | 0 <= b < 0x100
  type u32 = n: int | 0 <= n < 0x1_0000_0000
  type Bytes = seq<byte>

  /** The four bytes of a word, most significant first. */
  function EncodeU32(v: u32): (p: Bytes)
    ensures |p| == 4
  {
    [v / 0x100_0000, v / 0x1_0000 % 0x100, v / 0x100 % 0x100, v % 0x100]
  }

  function DecodeU32(p: Bytes): u32
    requires |p| == 4
  {
    var (a: int, b: int, c: int, d: int) := (p[0], p[1], p[2], p[3]);
    a * 0x100_0000 + b * 0x1_0000 + c * 0x100 + d
  }

  /** Encoding and decoding a word are inverse in both directions. */
  lemma U32RoundTrip(v: u32, p: Bytes)
    requires |p| == 4
    ensures DecodeU32(EncodeU32(v)) == v
    ensures EncodeU32(DecodeU32(p)) == p
  {
    DecodeEncode(v);
    EncodeDecode(p[0], p[1], p[2], p[3]);
    assert p == [p[0], p[1], p[2], p[3]];
  }

  lemma DecodeEncode(v: u32)
    ensures DecodeU32(EncodeU32(v)) == v
  {
    var x, y, z: int := v / 0x100_0000, v / 0x1_0000, v / 0x100;
    assert v == z * 0x100 + v % 0x100;
    assert z == y * 0x100 + z % 0x100;
    assert y == x * 0x100 + y % 0x100;
  }

  lemma EncodeDecode(a: byte, b: byte, c: byte, d: byte)
    ensures EncodeU32(DecodeU32([a, b, c, d])) == [a, b, c, d]
  {
    var w := DecodeU32([a, b, c, d]);
    DivMod(a, b, c, d);
    assert EncodeU32(w) == [w / 0x100_0000, w / 0x1_0000 % 0x100, w / 0x100 % 0x100, w % 0x100];
  }

  lemma DivMod(x: int, y: int, z: int, t: int)
    requires 0 <= y < 0x100 && 0 <= z < 0x100 && 0 <= t < 0x100
    ensures var w := x * 0x100_0000 + y * 0x1_0000 + z * 0x100 + t;
            w / 0x100_0000 == x && w / 0x1_0000 % 0x100 == y && w / 0x100 % 0x100 == z && w % 0x100 == t
  {
    var w := x * 0x100_0000 + y * 0x1_0000 + z * 0x100 + t;
    assert w / 0x100 == x * 0x1_0000 + y * 0x100 + z;
    assert w / 0x1_0000 == x * 0x100 + y;
  }

  /** `p` occurs in `s` at index `at`. */
  ghost predicate At(s: Bytes, at: nat, p: Bytes) {
    at + |p| <= |s| && s[at..at + |p|] == p
  }

  lemma AtSplit(s: Bytes, at: nat, p: Bytes, q: Bytes)
    requires At(s, at, p + q)
    ensures At(s, at, p) && At(s, at + |p|, q)
  {
    var both := s[at..at + |p + q|];
    assert both[..|p|] == p && both[|p|..] == q;
  }

  /** `memcpy` into an array from index `at` on. */
  method Copy(a: array<byte>, at: nat, p: Bytes)
    requires at + |p| <= a.Length
    modifies a
    ensures a[..at] == old(a[..at]) && a[..at + |p|] == old(a[..at]) + p
  {
    for i := 0 to |p|
      invariant a[..at + i] == old(a[..at]) + p[..i]
    {
      a[at + i] := p[i];
    }
    assert a[..at] == a[..at + |p|][..at];
  }

  /** The items read so far in front of those still to come. */
  ghost function After<T>(items: seq<T>, r: Option<seq<T>>): Option<seq<T>> {
    if r.None? then None else Some(items + r.value)
  }

  lemma AfterNone<T>(r: Option<seq<T>>)
    ensures After([], r) == r
  {
    if r.Some? {
      assert [] + r.value == r.value;
    }
  }

  lemma AfterOne<T>(items: seq<T>, item: T, r: Option<seq<T>>)
    ensures After(items, After([item], r)) == After(items + [item], r)
  {
    if r.Some? {
      assert items + ([item] + r.value) == items + [item] + r.value;
    }
  }
}

/** Decimal text: what `snprintf` prints and what `strtoll`/`strtoull` accept of a whole string. */
module Decimal {
  import opened Common

  const INT64_MIN: int := -0x8000_0000_0000_0000
  const INT64_MAX: int := 0x7FFF_FFFF_FFFF_FFFF
  const UINT64_MAX: int := 0xFFFF_FFFF_FFFF_FFFF

  predicate IsDigit(b: byte) { 48 <= b <= 57 }

  predicate AllDigits(s: Bytes) { forall i :: 0 <= i < |s| ==> IsDigit(s[i]) }

  /** `%u` and its wider forms. */
  function PrintNat(n: nat): (s: Bytes)
    ensures s != [] && AllDigits(s)
  {
    if n < 10 then [48 + n] else PrintNat(n / 10) + [48 + n % 10]
  }

  /** `%d` and its wider forms. */
  function PrintInt(n: int): (s: Bytes)
  {
    if n < 0 then [45] + PrintNat(-n) else PrintNat(n)
  }

  function DigitsValue(s: Bytes): nat
    requires AllDigits(s)
  {
    if s == [] then 0 else DigitsValue(s[..|s| - 1]) * 10 + (s[|s| - 1] - 48)
  }

  predicate IsSpace(b: byte) { b == 32 || 9 <= b <= 13 }

  function SkipSpace(s: Bytes): Bytes {
    if s != [] && IsSpace(s[0]) then SkipSpace(s[1..]) else s
  }

  /** A numeral filling the whole string: its sign and magnitude.
      Leading white space and one sign are accepted, as `strtoll` accepts them. */
  function Numeral(s: Bytes): Option<(bool, nat)> {
    var t := SkipSpace(s);
    var signed := t != [] && (t[0] == 45 || t[0] == 43);
    var d := if signed then t[1..] else t;
    if d != [] && AllDigits(d) then Some((signed && t[0] == 45, DigitsValue(d))) else None
  }

  /** `strtoll` with `errno` and `*end` checked; `None` is the rejection. */
  function ScanSigned(s: Bytes): Option<int> {
    match Numeral(s)
    case None => None
    case Some((negative, m)) =>
      var v: int := if negative then -(m as int) else m;
      if INT64_MIN <= v <= INT64_MAX then Some(v) else None
  }

  /** `strtoull` with `errno` and `*end` checked. A minus sign negates modulo 2^64. */
  function ScanUnsigned(s: Bytes): (r: Option<nat>)
    ensures r.Some? ==> r.value <= UINT64_MAX
  {
    match Numeral(s)
    case None => None
    case Some((negative, m)) =>
      if m > UINT64_MAX then None
      else if negative && m != 0 then Some(UINT64_MAX + 1 - m)
      else Some(m)
  }

  lemma {:induction false} PrintedDigits(n: nat)
    ensures DigitsValue(PrintNat(n)) == n
  {
    if n >= 10 {
      PrintedDigits(n / 10);
      var s := PrintNat(n);
      assert s[..|s| - 1] == PrintNat(n / 10);
    }
  }

  /** Scanning gives back every number the printers print, within the scanner's range. */
  lemma PrintScan(n: int)
    ensures INT64_MIN <= n <= INT64_MAX ==> ScanSigned(PrintInt(n)) == Some(n)
    ensures 0 <= n <= UINT64_MAX ==> ScanUnsigned(PrintInt(n)) == Some(n)
  {
    var m := if n < 0 then -n else n;
    PrintedDigits(m);
    var s := PrintInt(n);
    if n < 0 {
      assert s[1..] == PrintNat(m);
    } else {
      assert IsDigit(s[0]);
    }
  }
}

/** String operations from Ruby's core library that the chunkers and the text editor rely on:
    prefix tests, searching, `split`, `join`, decimal formatting and string ordering. */
module Strings {
  import opened Wrappers

  /** Ruby's `String#start_with?`. */
  predicate StartsWith(s: string, prefix: string) {
    |prefix| <= |s| && s[..|prefix|] == prefix
  }

  /** Ruby's `split` drops every trailing empty field. */
  function DropTrailingEmpty<T>(fields: seq<seq<T>>): (r: seq<seq<T>>)
    ensures |r| <= |fields| && r == fields[..|r|]
    ensures forall i :: |r| <= i < |fields| ==> fields[i] == []
    ensures r == [] || r[|r| - 1] != []
  {
    if fields == [] || fields[|fields| - 1] != [] then fields
    else DropTrailingEmpty(fields[..|fields| - 1])
  }

  /** Ruby's `Array#join(sep)`. */
  function Join(parts: seq<string>, sep: string): string {
    if |parts| == 0 then ""
    else if |parts| == 1 then parts[0]
    else parts[0] + sep + Join(parts[1..], sep)
  }

  /** `sep` occurs in `t` starting at index `p`. */
  predicate OccursAt(t: string, sep: string, p: int) {
    0 <= p && p + |sep| <= |t| && t[p..p + |sep|] == sep
  }

  ghost predicate Contains(t: string, sep: string) {
    exists p :: OccursAt(t, sep, p)
  }

  /** The leftmost occurrence of `sep` in `t` at or after `from`. */
  function FindFrom(t: string, sep: string, from: nat): (r: Option<nat>)
    decreases |t| - from
    ensures r.Some? ==> from <= r.value && OccursAt(t, sep, r.value)
    ensures r.Some? ==> forall p :: from <= p < r.value ==> !OccursAt(t, sep, p)
    ensures r.None? ==> forall p :: from <= p ==> !OccursAt(t, sep, p)
  {
    if from + |sep| > |t| then None
    else if t[from..from + |sep|] == sep then Some(from)
    else FindFrom(t, sep, from + 1)
  }

  /** `t.split(sep)` before Ruby drops the trailing empty fields: cut at each leftmost
      non-overlapping occurrence of `sep`. */
  function SplitOn(t: string, sep: string): (r: seq<string>)
    requires |sep| > 0
    decreases |t|
    ensures |r| > 0
  {
    match FindFrom(t, sep, 0)
    case None => [t]
    case Some(p) => [t[..p]] + SplitOn(t[p + |sep|..], sep)
  }

  /** A prefix that ends before the first occurrence of `sep` does not contain `sep`. */
  lemma NoOccurrenceInPrefix(t: string, sep: string, p: nat)
    requires |sep| > 0 && p <= |t| && forall q :: 0 <= q < p ==> !OccursAt(t, sep, q)
    ensures !Contains(t[..p], sep)
  {
    forall q | OccursAt(t[..p], sep, q)
      ensures false
    {
      assert t[..p][q..q + |sep|] == t[q..q + |sep|];
      assert OccursAt(t, sep, q);
    }
  }

  /** Splitting is undone by joining with the separator, and no field contains the separator. */
  lemma {:induction false} SplitOnJoin(t: string, sep: string)
    requires |sep| > 0
    decreases |t|
    ensures Join(SplitOn(t, sep), sep) == t
    ensures forall i :: 0 <= i < |SplitOn(t, sep)| ==> !Contains(SplitOn(t, sep)[i], sep)
  {
    var f := SplitOn(t, sep);
    match FindFrom(t, sep, 0)
    case None =>
      assert f == [t];
      forall q | OccursAt(t, sep, q)
        ensures false
      {
      }
    case Some(p) =>
      var tail := t[p + |sep|..];
      var rest := SplitOn(tail, sep);
      assert f == [t[..p]] + rest;
      SplitOnJoin(tail, sep);
      NoOccurrenceInPrefix(t, sep, p);
      assert f[1..] == rest;
      assert Join(f, sep) == t[..p] + sep + tail;
      assert t == t[..p] + t[p..p + |sep|] + tail;
      forall i | 1 <= i < |f|
        ensures f[i] == rest[i - 1]
      {
      }
  }

  // ---------------------------------------------------------------------------------------
  // Decimal formatting (`Integer#to_s`)
  // ---------------------------------------------------------------------------------------

  function DigitChar(d: nat): char
    requires d < 10
  {
    "0123456789"[d]
  }

  predicate IsDigit(c: char) {
    '0' <= c <= '9'
  }

  function DigitValue(c: char): nat
    requires IsDigit(c)
  {
    (c as int - '0' as int) as nat
  }

  /** The decimal digits of `n`, most significant first, without leading zeros. */
  function NatToString(n: nat): (r: string)
    ensures |r| > 0 && forall i :: 0 <= i < |r| ==> IsDigit(r[i])
    ensures r[0] == '0' ==> n == 0
  {
    if n < 10 then [DigitChar(n)] else NatToString(n / 10) + [DigitChar(n % 10)]
  }

  /** `Integer#to_s`: a minus sign for negative numbers, then the digits. */
  function IntToString(i: int): string {
    if i < 0 then "-" + NatToString(-i) else NatToString(i)
  }

  /** Reading decimal digits back. */
  function ParseDigits(s: string): nat
    requires forall i :: 0 <= i < |s| ==> IsDigit(s[i])
  {
    if |s| == 0 then 0 else ParseDigits(s[..|s| - 1]) * 10 + DigitValue(s[|s| - 1])
  }

  /** Formatting is undone by reading the digits back, so different numbers get different names. */
  lemma {:induction false} NatToStringRoundTrip(n: nat)
    ensures ParseDigits(NatToString(n)) == n
  {
    var r := NatToString(n);
    if n >= 10 {
      NatToStringRoundTrip(n / 10);
      assert r[..|r| - 1] == NatToString(n / 10);
      assert DigitValue(r[|r| - 1]) == n % 10;
    } else {
      assert DigitValue(r[0]) == n;
    }
  }

  lemma NatToStringInjective(m: nat, n: nat)
    requires NatToString(m) == NatToString(n)
    ensures m == n
  {
    NatToStringRoundTrip(m);
    NatToStringRoundTrip(n);
  }

  // ---------------------------------------------------------------------------------------
  // String ordering (`String#<=>`)
  // ---------------------------------------------------------------------------------------

  /** Ruby compares strings character by character; a proper prefix sorts first. */
  predicate Less(a: string, b: string) {
    if |a| == 0 then |b| > 0
    else if |b| == 0 then false
    else if a[0] != b[0] then a[0] < b[0]
    else Less(a[1..], b[1..])
  }

  /** A common prefix does not change the order. */
  lemma {:induction false} LessCommonPrefix(p: string, a: string, b: string)
    ensures Less(p + a, p + b) <==> Less(a, b)
  {
    if |p| > 0 {
      assert (p + a)[0] == (p + b)[0];
      assert (p + a)[1..] == p[1..] + a && (p + b)[1..] == p[1..] + b;
      LessCommonPrefix(p[1..], a, b);
    } else {
      assert p + a == a && p + b == b;
    }
  }

  lemma {:induction false} LessIrreflexive(a: string)
    ensures !Less(a, a)
  {
    if |a| > 0 {
      LessIrreflexive(a[1..]);
    }
  }

  /** Two different strings are ordered one way or the other. */
  lemma {:induction false} LessTotal(a: string, b: string)
    requires a != b
    ensures Less(a, b) || Less(b, a)
  {
    if |a| > 0 && |b| > 0 && a[0] == b[0] {
      assert a == [a[0]] + a[1..] && b == [b[0]] + b[1..];
      LessTotal(a[1..], b[1..]);
    }
  }

  lemma {:induction false} LessTransitive(a: string, b: string, c: string)
    requires Less(a, b) && Less(b, c)
    ensures Less(a, c)
  {
    if |a| > 0 && a[0] == b[0] && b[0] == c[0] {
      LessTransitive(a[1..], b[1..], c[1..]);
    }
  }

  lemma {:induction false} LessAsymmetric(a: string, b: string)
    requires Less(a, b)
    ensures !Less(b, a)
  {
    if |a| > 0 && a[0] == b[0] {
      LessAsymmetric(a[1..], b[1..]);
    }
  }
}

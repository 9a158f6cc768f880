/** Ruby's `sort_by!` followed by `first(k)` / `[0...k]`, as used by every index and by the fusion step.
    `sort_by!` is not stable, so the model leaves the order among equal keys open: what is fixed is that
    the result is a permutation sorted by the key, and that a prefix of it is a top-k selection. */
module Ordering {
  import opened Wrappers

  /** `s` is ordered by non-decreasing `key`. */
  ghost predicate SortedBy<X>(s: seq<X>, key: X -> real) {
    forall i, j :: 0 <= i < j < |s| ==> key(s[i]) <= key(s[j])
  }

  /** `r` is what `sorted.first(k)` yields for some permutation `sorted` of `cands` ordered by `key`:
      min(k, |cands|) of the candidates, in key order, and no candidate left out has a smaller key
      than one taken. */
  ghost predicate IsTopK<X>(r: seq<X>, cands: seq<X>, key: X -> real, k: nat) {
    && |r| == Min(k, |cands|)
    && multiset(r) <= multiset(cands)
    && SortedBy(r, key)
    && forall x, y :: x in multiset(cands) - multiset(r) && y in r ==> key(y) <= key(x)
  }

  /** Inserts `x` into the sorted `s` in front of the first element whose key is not smaller. */
  function Insert<X>(x: X, s: seq<X>, key: X -> real): (r: seq<X>)
    requires SortedBy(s, key)
    ensures multiset(r) == multiset(s) + multiset{x}
    ensures SortedBy(r, key)
    decreases |s|
  {
    if s == [] then [x]
    else if key(x) <= key(s[0]) then [x] + s
    else
      var t := Insert(x, s[1..], key);
      BoundedBelow(s[0], x, s[1..], t, key);
      assert s == [s[0]] + s[1..];
      [s[0]] + t
  }

  /** A lower bound on the keys of `x` and of the sorted `s` bounds every element of a permutation
      of `s` plus `x`. */
  lemma BoundedBelow<X>(first: X, x: X, s: seq<X>, t: seq<X>, key: X -> real)
    requires SortedBy([first] + s, key) && key(first) <= key(x)
    requires multiset(t) == multiset(s) + multiset{x}
    ensures forall j :: 0 <= j < |t| ==> key(first) <= key(t[j])
  {
    forall j | 0 <= j < |t| ensures key(first) <= key(t[j]) {
      assert t[j] in multiset(t);
      if t[j] != x {
        assert t[j] in multiset(s);
        var i :| 0 <= i < |s| && s[i] == t[j];
        assert ([first] + s)[0] == first && ([first] + s)[i + 1] == t[j];
      }
    }
  }

  /** `sort_by!`: a permutation of `s` ordered by `key`. */
  method SortBy<X>(s: seq<X>, key: X -> real) returns (r: seq<X>)
    ensures multiset(r) == multiset(s)
    ensures SortedBy(r, key)
  {
    r := [];
    for i := 0 to |s|
      invariant multiset(r) == multiset(s[..i])
      invariant SortedBy(r, key)
    {
      r := Insert(s[i], r, key);
      assert s[..i + 1] == s[..i] + [s[i]];
    }
    assert s[..|s|] == s;
  }

  /** Extending a prefix by one element. */
  lemma PrefixSnoc<X>(s: seq<X>, i: nat)
    requires i < |s|
    ensures s[..i + 1] == s[..i] + [s[i]]
  {
  }

  /** Taking the first k elements of a sorted permutation is a top-k selection. */
  lemma PrefixIsTopK<X>(sorted: seq<X>, cands: seq<X>, key: X -> real, k: nat)
    requires multiset(sorted) == multiset(cands)
    requires SortedBy(sorted, key)
    ensures IsTopK(sorted[..Min(k, |sorted|)], cands, key, k)
  {
    var m := Min(k, |sorted|);
    var pre, suf := sorted[..m], sorted[m..];
    assert sorted == pre + suf;
    assert multiset(sorted) == multiset(pre) + multiset(suf);
    assert |cands| == |multiset(cands)| == |sorted|;
    assert multiset(cands) - multiset(pre) == multiset(suf);
    SuffixNotSmaller(sorted, m, key);
  }

  /** In a sorted sequence nothing after position `m` has a smaller key than anything before it. */
  lemma SuffixNotSmaller<X>(sorted: seq<X>, m: nat, key: X -> real)
    requires m <= |sorted| && SortedBy(sorted, key)
    ensures forall x, y :: x in multiset(sorted[m..]) && y in sorted[..m] ==> key(y) <= key(x)
  {
    forall x, y | x in multiset(sorted[m..]) && y in sorted[..m]
      ensures key(y) <= key(x)
    {
      var j :| m <= j < |sorted| && sorted[j] == x;
      var i :| 0 <= i < m && sorted[i] == y;
    }
  }

  /** `sort_by!` followed by `first(k)`. */
  method SortedPrefix<X>(s: seq<X>, key: X -> real, k: nat) returns (r: seq<X>)
    ensures IsTopK(r, s, key, k)
  {
    var sorted := SortBy(s, key);
    assert |sorted| == |multiset(sorted)| == |s|;
    r := sorted[..Min(k, |sorted|)];
    PrefixIsTopK(sorted, s, key, k);
  }

  /** The one element a top-1 selection returns has the smallest key among all candidates. */
  lemma {:induction false} TopOneIsMinimal<X>(r: seq<X>, cands: seq<X>, key: X -> real, c: X)
    requires IsTopK(r, cands, key, 1)
    requires c in cands
    ensures |r| == 1 && key(r[0]) <= key(c)
  {
    assert |r| == 1;
    if c == r[0] {
    } else {
      assert r[0] in multiset(r);
      assert multiset(r) == multiset{r[0]} by { assert r == [r[0]]; }
      assert c in multiset(cands);
      assert c in multiset(cands) - multiset(r);
      assert r[0] in r;
    }
  }
}

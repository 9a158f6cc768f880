/** The `Retriever`: fans a text query out to several indexes, records for every returned document
    its 1-based rank in each index's result, scores the documents by Reciprocal Rank Fusion (RRF),
    and returns the best `k`. The reranking variant can then reorder those `k` by the id list an
    injected reranker returns, giving ids to documents that lack one. */
module Fusion {
  import opened Wrappers
  import opened Ordering
  import opened RagTypes
  import VectorStore
  import Lexical

  // ---------------------------------------------------------------------------------------------
  // Ranks and the RRF score

  type Pos = n: int | 1 <= n witness 1

  /** A rank slot: the 1-based position at which an index returned the document, or
      `Float::INFINITY` when that index did not return it. */
  datatype Rank = Finite(n: Pos) | Infinite

  /** One slot's term of the RRF sum: nothing for an absent document, `1 / (k_rrf + rank)` otherwise. */
  function Contribution(r: Rank, kRrf: nat): (c: real)
    ensures r.Infinite? ==> c == 0.0
    ensures r.Finite? ==> 0.0 < c <= 1.0
  {
    if r.Infinite? then 0.0 else 1.0 / ((kRrf + r.n) as real)
  }

  /** `calc_rrf_score`: the sum of the terms of all slots. */
  function RrfScore(ranks: seq<Rank>, kRrf: nat): (r: real)
    ensures (forall i :: 0 <= i < |ranks| ==> ranks[i].Infinite?) ==> r == 0.0
    ensures r <= |ranks| as real
  {
    if ranks == [] then 0.0 else Contribution(ranks[0], kRrf) + RrfScore(ranks[1..], kRrf)
  }

  /** An RRF score is never negative, and it is positive exactly when some slot is finite. */
  lemma {:induction false} RrfScoreSign(ranks: seq<Rank>, kRrf: nat)
    ensures 0.0 <= RrfScore(ranks, kRrf)
    ensures 0.0 < RrfScore(ranks, kRrf) <==> exists j :: 0 <= j < |ranks| && ranks[j].Finite?
  {
    if ranks != [] {
      RrfScoreSign(ranks[1..], kRrf);
      if exists j :: 0 <= j < |ranks[1..]| && ranks[1..][j].Finite? {
        var j :| 0 <= j < |ranks[1..]| && ranks[1..][j].Finite?;
        assert ranks[j + 1].Finite?;
      }
      if exists j :: 0 <= j < |ranks| && ranks[j].Finite? {
        var j :| 0 <= j < |ranks| && ranks[j].Finite?;
        if j > 0 {
          assert ranks[1..][j - 1].Finite?;
        }
      }
    }
  }

  /** Slot by slot at least as good ranks give at least as high a score. */
  lemma {:induction false} RrfMonotone(a: seq<Rank>, b: seq<Rank>, kRrf: nat)
    requires |a| == |b|
    requires forall j :: 0 <= j < |a| ==> Contribution(b[j], kRrf) <= Contribution(a[j], kRrf)
    ensures RrfScore(b, kRrf) <= RrfScore(a, kRrf)
  {
    if a != [] {
      assert forall j :: 0 <= j < |a[1..]| ==> a[1..][j] == a[j + 1] && b[1..][j] == b[j + 1];
      RrfMonotone(a[1..], b[1..], kRrf);
    }
  }

  /** ... and strictly higher when one slot is strictly better. */
  lemma {:induction false} RrfStrictlyMonotone(a: seq<Rank>, b: seq<Rank>, kRrf: nat, w: nat)
    requires |a| == |b| && w < |a|
    requires forall j :: 0 <= j < |a| ==> Contribution(b[j], kRrf) <= Contribution(a[j], kRrf)
    requires Contribution(b[w], kRrf) < Contribution(a[w], kRrf)
    ensures RrfScore(b, kRrf) < RrfScore(a, kRrf)
  {
    assert forall j :: 0 <= j < |a[1..]| ==> a[1..][j] == a[j + 1] && b[1..][j] == b[j + 1];
    if w == 0 {
      RrfMonotone(a[1..], b[1..], kRrf);
    } else {
      RrfStrictlyMonotone(a[1..], b[1..], kRrf, w - 1);
    }
  }

  /** First place contributes the most, and strictly more than any other slot value. */
  lemma FirstPlaceIsBest(r: Rank, kRrf: nat)
    ensures Contribution(r, kRrf) <= Contribution(Finite(1), kRrf)
    ensures r != Finite(1) ==> Contribution(r, kRrf) < Contribution(Finite(1), kRrf)
  {
    if r.Finite? && r.n != 1 {
      ReciprocalDecreasing((kRrf + 1) as real, (kRrf + r.n) as real);
    }
  }

  lemma ReciprocalDecreasing(x: real, y: real)
    requires 0.0 < x < y
    ensures 1.0 / y < 1.0 / x
  {
    assert 1.0 / y * y == 1.0 == 1.0 / x * x;
    PositiveTimesLess(1.0 / y, x, y);
  }

  lemma PositiveTimesLess(c: real, x: real, y: real)
    requires 0.0 < c && x < y
    ensures c * x < c * y
  {
  }

  /** With at least two indexes, a document ranked first by every index scores strictly higher than
      one ranked first by only one of them. */
  lemma AllFirstBeatsOneFirst(m: nat, b: seq<Rank>, kRrf: nat, only: nat)
    requires 2 <= m && |b| == m && only < m
    requires b[only] == Finite(1)
    requires forall j :: 0 <= j < m && j != only ==> b[j] != Finite(1)
    ensures RrfScore(b, kRrf) < RrfScore(seq(m, _ => Finite(1)), kRrf)
  {
    var a: seq<Rank> := seq(m, _ => Finite(1));
    var w := if only == 0 then 1 else 0;
    forall j | 0 <= j < m
      ensures Contribution(b[j], kRrf) <= Contribution(a[j], kRrf)
    {
      FirstPlaceIsBest(b[j], kRrf);
    }
    FirstPlaceIsBest(b[w], kRrf);
    RrfStrictlyMonotone(a, b, kRrf, w);
  }

  // ---------------------------------------------------------------------------------------------
  // The rank table

  /** The documents of one index's result, without their scores. */
  function DocsOf(l: seq<(Document, real)>): (r: seq<Document>)
    ensures |r| == |l| && forall i :: 0 <= i < |l| ==> r[i] == l[i].0
  {
    seq(|l|, i requires 0 <= i < |l| => l[i].0)
  }

  function DocLists(lists: seq<seq<(Document, real)>>): (r: seq<seq<Document>>)
    ensures |r| == |lists| && forall j :: 0 <= j < |lists| ==> r[j] == DocsOf(lists[j])
  {
    seq(|lists|, j requires 0 <= j < |lists| => DocsOf(lists[j]))
  }

  /** The slot of `d` for one result list: the last 1-based position of `d` in it (a later position
      overwrites an earlier one in the table), or infinity when `d` is absent. */
  function LastRank(l: seq<Document>, d: Document): (r: Rank)
    ensures r.Infinite? <==> d !in l
    ensures r.Finite? ==> r.n <= |l| && l[r.n - 1] == d && forall i :: r.n <= i < |l| ==> l[i] != d
  {
    if l == [] then Infinite
    else if l[|l| - 1] == d then Finite(|l|)
    else
      assert l == l[..|l| - 1] + [l[|l| - 1]];
      LastRank(l[..|l| - 1], d)
  }

  /** The results of all indexes, one after the other. */
  function Flatten(lists: seq<seq<Document>>): seq<Document>
  {
    if lists == [] then [] else Flatten(lists[..|lists| - 1]) + lists[|lists| - 1]
  }

  /** A document is in the concatenation exactly when some result list holds it. */
  lemma {:induction false} FlattenMember(lists: seq<seq<Document>>, d: Document)
    ensures d in Flatten(lists) <==> exists j :: 0 <= j < |lists| && d in lists[j]
  {
    if lists != [] {
      var init := lists[..|lists| - 1];
      FlattenMember(init, d);
      assert forall j :: 0 <= j < |init| ==> init[j] == lists[j];
    }
  }

  /** Each document once, in order of first appearance: the key order of the Ruby hash. */
  function Order(s: seq<Document>): (r: seq<Document>)
    ensures forall i, j :: 0 <= i < j < |r| ==> r[i] != r[j]
  {
    if s == [] then []
    else
      var o := Order(s[..|s| - 1]);
      if s[|s| - 1] in o then o else o + [s[|s| - 1]]
  }

  /** Deduplication keeps every document and adds none. */
  lemma {:induction false} OrderMember(s: seq<Document>, d: Document)
    ensures d in Order(s) <==> d in s
  {
    if s != [] {
      OrderMember(s[..|s| - 1], d);
      assert s == s[..|s| - 1] + [s[|s| - 1]];
    }
  }

  /** `Array.new(@indexes.length, Float::INFINITY)`. */
  function Infinities(m: nat): (r: seq<Rank>)
    ensures |r| == m && forall j :: 0 <= j < m ==> r[j] == Infinite
  {
    seq(m, _ => Infinite)
  }

  /** The slots of `d` once every result list has been recorded. */
  function RankVector(lists: seq<seq<Document>>, d: Document): (r: seq<Rank>)
    ensures |r| == |lists| && forall j :: 0 <= j < |lists| ==> r[j] == LastRank(lists[j], d)
  {
    seq(|lists|, j requires 0 <= j < |lists| => LastRank(lists[j], d))
  }

  /** The slots of `d` after the lists before `idx` and the first `pos` entries of list `idx` are
      recorded. */
  ghost function PartialRanks(lists: seq<seq<Document>>, idx: nat, pos: nat, d: Document): (r: seq<Rank>)
    requires idx <= |lists| && (idx < |lists| ==> pos <= |lists[idx]|)
    ensures |r| == |lists|
  {
    seq(|lists|, j requires 0 <= j < |lists| =>
          if j < idx then LastRank(lists[j], d)
          else if j == idx then LastRank(lists[j][..pos], d)
          else Infinite)
  }

  /** The documents recorded after the lists before `idx` and `pos` entries of list `idx`. */
  ghost function Recorded(lists: seq<seq<Document>>, idx: nat, pos: nat): seq<Document>
    requires idx <= |lists| && (idx < |lists| ==> pos <= |lists[idx]|)
  {
    Flatten(lists[..idx]) + (if idx < |lists| then lists[idx][..pos] else [])
  }

  lemma OrderSnoc(s: seq<Document>, x: Document)
    ensures Order(s + [x]) == if x in Order(s) then Order(s) else Order(s) + [x]
  {
    assert (s + [x])[..|s|] == s;
  }

  /** Recording entry `pos` of list `idx` sets slot `idx` of that document and changes nothing else. */
  lemma RankStep(lists: seq<seq<Document>>, idx: nat, pos: nat, d: Document)
    requires idx < |lists| && pos < |lists[idx]|
    ensures PartialRanks(lists, idx, pos + 1, d) ==
              if d == lists[idx][pos] then PartialRanks(lists, idx, pos, d)[idx := Finite(pos + 1)]
              else PartialRanks(lists, idx, pos, d)
    ensures Recorded(lists, idx, pos + 1) == Recorded(lists, idx, pos) + [lists[idx][pos]]
  {
    var l := lists[idx];
    assert l[..pos + 1][..pos] == l[..pos];
    assert l[..pos + 1] == l[..pos] + [l[pos]];
  }

  /** A document not recorded yet has only infinite slots. */
  lemma Unrecorded(lists: seq<seq<Document>>, idx: nat, pos: nat, d: Document)
    requires idx <= |lists| && (idx < |lists| ==> pos <= |lists[idx]|)
    requires d !in Recorded(lists, idx, pos)
    ensures PartialRanks(lists, idx, pos, d) == Infinities(|lists|)
  {
    FlattenMember(lists[..idx], d);
    forall j | 0 <= j < idx
      ensures d !in lists[j]
    {
      assert lists[..idx][j] == lists[j];
    }
  }

  /** Finishing list `idx` is starting list `idx + 1`. */
  lemma NextList(lists: seq<seq<Document>>, idx: nat)
    requires idx < |lists|
    ensures forall d :: PartialRanks(lists, idx, |lists[idx]|, d) == PartialRanks(lists, idx + 1, 0, d)
    ensures Recorded(lists, idx, |lists[idx]|) == Recorded(lists, idx + 1, 0)
  {
    assert lists[idx][..|lists[idx]|] == lists[idx];
    assert lists[..idx + 1][..idx] == lists[..idx];
  }

  /** The nested loops of `search` that fill `doc_ranks`: every returned document gets an entry with
      one slot per index, and slot `idx` holds its 1-based rank in result `idx`, or infinity. */
  method BuildRankTable(lists: seq<seq<(Document, real)>>) returns (order: seq<Document>, table: map<Document, seq<Rank>>)
    ensures order == Order(Flatten(DocLists(lists)))
    ensures forall d :: d in table <==> d in order
    ensures forall d :: d in table ==> table[d] == RankVector(DocLists(lists), d)
  {
    ghost var dl := DocLists(lists);
    order, table := [], map[];
    for idx := 0 to |lists|
      invariant order == Order(Recorded(dl, idx, 0))
      invariant forall d :: d in table <==> d in order
      invariant forall d :: d in table ==> table[d] == PartialRanks(dl, idx, 0, d)
    {
      order, table := RecordList(lists, dl, idx, order, table);
      NextList(dl, idx);
    }
    assert dl[..|dl|] == dl;
    assert Recorded(dl, |dl|, 0) == Flatten(dl);
    forall d | d in table
      ensures table[d] == RankVector(dl, d)
    {
    }
  }

  /** The inner loop: records every entry of result `idx`. */
  method RecordList(lists: seq<seq<(Document, real)>>, ghost dl: seq<seq<Document>>, idx: nat,
                    order0: seq<Document>, table0: map<Document, seq<Rank>>)
    returns (order: seq<Document>, table: map<Document, seq<Rank>>)
    requires dl == DocLists(lists) && idx < |lists|
    requires order0 == Order(Recorded(dl, idx, 0))
    requires forall d :: d in table0 <==> d in order0
    requires forall d :: d in table0 ==> table0[d] == PartialRanks(dl, idx, 0, d)
    ensures order == Order(Recorded(dl, idx, |dl[idx]|))
    ensures forall d :: d in table <==> d in order
    ensures forall d :: d in table ==> table[d] == PartialRanks(dl, idx, |dl[idx]|, d)
  {
    order, table := order0, table0;
    for pos := 0 to |lists[idx]|
      invariant order == Order(Recorded(dl, idx, pos))
      invariant forall d :: d in table <==> d in order
      invariant forall d :: d in table ==> table[d] == PartialRanks(dl, idx, pos, d)
    {
      order, table := RecordEntry(lists, dl, idx, pos, order, table);
    }
  }

  /** One step of the inner loop: entry `pos` of result `idx` gets its slot, and a document seen
      for the first time gets a fresh row of infinities first. */
  method RecordEntry(lists: seq<seq<(Document, real)>>, ghost dl: seq<seq<Document>>, idx: nat, pos: nat,
                     order0: seq<Document>, table0: map<Document, seq<Rank>>)
    returns (order: seq<Document>, table: map<Document, seq<Rank>>)
    requires dl == DocLists(lists) && idx < |lists| && pos < |lists[idx]|
    requires order0 == Order(Recorded(dl, idx, pos))
    requires forall d :: d in table0 <==> d in order0
    requires forall d :: d in table0 ==> table0[d] == PartialRanks(dl, idx, pos, d)
    ensures order == Order(Recorded(dl, idx, pos + 1))
    ensures forall d :: d in table <==> d in order
    ensures forall d :: d in table ==> table[d] == PartialRanks(dl, idx, pos + 1, d)
  {
    order, table := order0, table0;
    var doc := lists[idx][pos].0;
    assert doc == dl[idx][pos];
    RankStep(dl, idx, pos, doc);
    OrderSnoc(Recorded(dl, idx, pos), doc);
    if doc !in table {
      OrderMember(Recorded(dl, idx, pos), doc);
      Unrecorded(dl, idx, pos, doc);
      order := order + [doc];
      table := table[doc := Infinities(|lists|)];
    }
    table := table[doc := table[doc][idx := Finite(pos + 1)]];
    forall d | d in table
      ensures table[d] == PartialRanks(dl, idx, pos + 1, d)
    {
      RankStep(dl, idx, pos, d);
    }
  }

  // ---------------------------------------------------------------------------------------------
  // Fusion

  /** Every returned document with its RRF score, in table order (`scored_docs`). */
  function Scored(lists: seq<seq<Document>>, kRrf: nat): (r: seq<(Document, real)>)
    ensures |r| == |Order(Flatten(lists))|
  {
    var docs := Order(Flatten(lists));
    seq(|docs|, i requires 0 <= i < |docs| => (docs[i], RrfScore(RankVector(lists, docs[i]), kRrf)))
  }

  /** `select { |doc, score| score > 0 }`, keeping the order. */
  function Positive(s: seq<(Document, real)>): (r: seq<(Document, real)>)
    ensures |r| <= |s|
    ensures forall i :: 0 <= i < |r| ==> 0.0 < r[i].1
  {
    if s == [] then []
    else Positive(s[..|s| - 1]) + (if 0.0 < s[|s| - 1].1 then [s[|s| - 1]] else [])
  }

  /** The filter keeps exactly the pairs with a positive score. */
  lemma {:induction false} PositiveMember(s: seq<(Document, real)>, p: (Document, real))
    ensures p in Positive(s) <==> p in s && 0.0 < p.1
  {
    if s != [] {
      PositiveMember(s[..|s| - 1], p);
      assert s == s[..|s| - 1] + [s[|s| - 1]];
    }
  }

  /** The candidates `search` sorts and cuts to `k`. */
  function Fused(lists: seq<seq<Document>>, kRrf: nat): (r: seq<(Document, real)>)
    ensures |r| <= |Order(Flatten(lists))|
    ensures forall i :: 0 <= i < |r| ==> 0.0 < r[i].1
  {
    Positive(Scored(lists, kRrf))
  }

  function ByNegatedScore(p: (Document, real)): real { -p.1 }

  /** Every recorded document has a finite slot, so every score is positive and the `score > 0`
      filter removes nothing. */
  lemma {:induction false} FilterKeepsEverything(lists: seq<seq<Document>>, kRrf: nat)
    ensures Fused(lists, kRrf) == Scored(lists, kRrf)
  {
    var s := Scored(lists, kRrf);
    forall i | 0 <= i < |s|
      ensures 0.0 < s[i].1
    {
      assert s[i] in s;
      ScoredEntry(lists, kRrf, s[i]);
    }
    AllPositive(s);
  }

  /** A scored pair is a document some index returned, with its RRF score, which is positive. */
  lemma ScoredEntry(lists: seq<seq<Document>>, kRrf: nat, p: (Document, real))
    requires p in Scored(lists, kRrf)
    ensures exists j :: 0 <= j < |lists| && p.0 in lists[j]
    ensures p.1 == RrfScore(RankVector(lists, p.0), kRrf) && 0.0 < p.1
  {
    var s := Scored(lists, kRrf);
    var i :| 0 <= i < |s| && s[i] == p;
    assert p.0 in Order(Flatten(lists));
    OrderMember(Flatten(lists), p.0);
    FlattenMember(lists, p.0);
    RrfScoreSign(RankVector(lists, p.0), kRrf);
  }

  lemma {:induction false} AllPositive(s: seq<(Document, real)>)
    requires forall i :: 0 <= i < |s| ==> 0.0 < s[i].1
    ensures Positive(s) == s
  {
    if s != [] {
      AllPositive(s[..|s| - 1]);
      assert s == s[..|s| - 1] + [s[|s| - 1]];
    }
  }

  /** The scoring and filtering loops after the rank table, and the sort: the result is some top `k`
      of the fused candidates by descending score. */
  method Fuse(lists: seq<seq<(Document, real)>>, kRrf: nat, k: nat) returns (fused: seq<(Document, real)>)
    ensures IsTopK(fused, Fused(DocLists(lists), kRrf), ByNegatedScore, k)
  {
    var scored := ScoreAll(lists, kRrf);
    var filtered := KeepPositive(scored);
    fused := SortedPrefix(filtered, ByNegatedScore, k);
  }

  /** The rank table, then one RRF score per document in table order. */
  method ScoreAll(lists: seq<seq<(Document, real)>>, kRrf: nat) returns (scored: seq<(Document, real)>)
    ensures scored == Scored(DocLists(lists), kRrf)
  {
    ghost var dl := DocLists(lists);
    var order, table := BuildRankTable(lists);
    scored := [];
    for i := 0 to |order|
      invariant scored == Scored(dl, kRrf)[..i]
    {
      ScoredStep(dl, kRrf, i);
      scored := scored + [(order[i], RrfScore(table[order[i]], kRrf))];
    }
    assert Scored(dl, kRrf)[..|order|] == Scored(dl, kRrf);
  }

  lemma ScoredStep(lists: seq<seq<Document>>, kRrf: nat, i: nat)
    requires i < |Order(Flatten(lists))|
    ensures Scored(lists, kRrf)[..i + 1] ==
              Scored(lists, kRrf)[..i] +
              [(Order(Flatten(lists))[i], RrfScore(RankVector(lists, Order(Flatten(lists))[i]), kRrf))]
  {
    var s, docs := Scored(lists, kRrf), Order(Flatten(lists));
    assert s[i] == (docs[i], RrfScore(RankVector(lists, docs[i]), kRrf));
    assert s[..i + 1] == s[..i] + [s[i]];
  }

  /** The `score > 0` filter as a loop. */
  method KeepPositive(scored: seq<(Document, real)>) returns (filtered: seq<(Document, real)>)
    ensures filtered == Positive(scored)
  {
    filtered := [];
    for i := 0 to |scored|
      invariant filtered == Positive(scored[..i])
    {
      PositiveSnoc(scored, i);
      if 0.0 < scored[i].1 {
        filtered := filtered + [scored[i]];
      }
    }
    assert scored[..|scored|] == scored;
  }

  lemma PositiveSnoc(s: seq<(Document, real)>, i: nat)
    requires i < |s|
    ensures Positive(s[..i + 1]) == Positive(s[..i]) + (if 0.0 < s[i].1 then [s[i]] else [])
  {
    assert s[..i + 1][..i] == s[..i];
  }

  /** What a fused result is: at most `k` distinct returned documents, each with its RRF score,
      which is positive, in order of non-increasing score. */
  lemma FusedResult(r: seq<(Document, real)>, lists: seq<seq<Document>>, kRrf: nat, k: nat)
    requires IsTopK(r, Fused(lists, kRrf), ByNegatedScore, k)
    ensures |r| <= k
    ensures forall i, j :: 0 <= i < j < |r| ==> r[j].1 <= r[i].1
    ensures forall p :: p in r ==>
              (exists j :: 0 <= j < |lists| && p.0 in lists[j]) &&
              p.1 == RrfScore(RankVector(lists, p.0), kRrf) && 0.0 < p.1
    ensures forall i, j :: 0 <= i < j < |r| ==> r[i].0 != r[j].0
  {
    var s := Scored(lists, kRrf);
    FilterKeepsEverything(lists, kRrf);
    forall p | p in r
      ensures (exists j :: 0 <= j < |lists| && p.0 in lists[j])
      ensures p.1 == RrfScore(RankVector(lists, p.0), kRrf) && 0.0 < p.1
    {
      assert p in multiset(r);
      ScoredEntry(lists, kRrf, p);
    }
    ScoredDistinct(lists, kRrf);
    forall i, j | 0 <= i < j < |r|
      ensures r[i] != r[j]
    {
      SubMultisetDistinct(r, s, i, j);
    }
    forall i, j | 0 <= i < j < |r|
      ensures r[i].0 != r[j].0
    {
      assert r[i] in r && r[j] in r;
    }
  }

  /** A selection from a sequence without repetitions has none either. */
  lemma SubMultisetDistinct<X>(r: seq<X>, s: seq<X>, i: nat, j: nat)
    requires multiset(r) <= multiset(s)
    requires forall a, b :: 0 <= a < b < |s| ==> s[a] != s[b]
    requires i < j < |r|
    ensures r[i] != r[j]
  {
    if r[i] == r[j] {
      TwiceCounted(r, i, j);
      AtMostOnce(s, r[i]);
    }
  }

  lemma ScoredDistinct(lists: seq<seq<Document>>, kRrf: nat)
    ensures forall i, j :: 0 <= i < j < |Scored(lists, kRrf)| ==> Scored(lists, kRrf)[i] != Scored(lists, kRrf)[j]
  {
  }

  /** An element at two positions is counted at least twice. */
  lemma TwiceCounted<X>(s: seq<X>, i: nat, j: nat)
    requires i < j < |s| && s[i] == s[j]
    ensures 2 <= multiset(s)[s[i]]
  {
    assert s == s[..j] + [s[j]] + s[j + 1..];
    assert s[i] in s[..j];
  }

  /** In a sequence without repetitions every element is counted at most once. */
  lemma {:induction false} AtMostOnce<X>(s: seq<X>, x: X)
    requires forall i, j :: 0 <= i < j < |s| ==> s[i] != s[j]
    ensures multiset(s)[x] <= 1
  {
    if s != [] {
      AtMostOnce(s[1..], x);
      assert s == [s[0]] + s[1..];
      if s[0] == x {
        assert x !in s[1..];
      }
    }
  }

  // ---------------------------------------------------------------------------------------------
  // Reranking

  /** A character `Array#sample` can draw from `[*"a".."z", *"A".."Z", *"0".."9"]`. */
  predicate IdChar(c: char) { 'a' <= c <= 'z' || 'A' <= c <= 'Z' || '0' <= c <= '9' }

  /** A generated id: four such characters. */
  predicate IsGeneratedId(s: string) { |s| == 4 && forall i :: 0 <= i < |s| ==> IdChar(s[i]) }

  /** A document's hash after `document["id"] = ... unless document.key?("id")`. */
  function WithId(fields: map<string, Value>, draw: string): (r: map<string, Value>)
    ensures r.Keys == fields.Keys + {"id"}
    ensures forall key :: key in fields ==> r[key] == fields[key]
    ensures "id" !in fields ==> r["id"] == Str(draw)
  {
    if "id" in fields then fields else fields["id" := Str(draw)]
  }

  /** The injected reranker: the candidates' hashes, the query and `k` to a list of ids. */
  type Reranker = (seq<map<string, Value>>, string, int) -> seq<string>

  /** The position of the last candidate whose id is `v`: `to_h` keeps the last pair per key. */
  function LastWithKey(keys: seq<Value>, v: Value): (r: Option<nat>)
    ensures r.None? <==> v !in keys
    ensures r.Some? ==> r.value < |keys| && keys[r.value] == v &&
                        forall i :: r.value < i < |keys| ==> keys[i] != v
  {
    if keys == [] then None
    else if keys[|keys| - 1] == v then Some(|keys| - 1)
    else
      assert keys == keys[..|keys| - 1] + [keys[|keys| - 1]];
      LastWithKey(keys[..|keys| - 1], v)
  }

  /** `original_scores[doc.object_id] || 0.0`: the score of the last entry for `d`, or 0.0. */
  function ScoreOf(fused: seq<(Document, real)>, d: Document): real
  {
    if fused == [] then 0.0
    else if fused[|fused| - 1].0 == d then fused[|fused| - 1].1
    else ScoreOf(fused[..|fused| - 1], d)
  }

  /** What one reranked id contributes: the candidate holding it with its fused score, or nothing. */
  function Hit(fused: seq<(Document, real)>, keys: seq<Value>, id: string): seq<(Document, real)>
    requires |keys| == |fused|
  {
    match LastWithKey(keys, Str(id))
    case None => []
    case Some(i) => [(fused[i].0, ScoreOf(fused, fused[i].0))]
  }

  /** `new_result`: the hits of the reranked ids, in the reranker's order. */
  function Reordered(fused: seq<(Document, real)>, keys: seq<Value>, ids: seq<string>): (r: seq<(Document, real)>)
    requires |keys| == |fused|
    ensures |r| <= |ids|
  {
    if ids == [] then []
    else Reordered(fused, keys, ids[..|ids| - 1]) + Hit(fused, keys, ids[|ids| - 1])
  }

  /** When every reranked id names a candidate, the reordered list holds exactly the hit of each id,
      in the reranker's order. */
  lemma {:induction false} ReorderedFollowsIds(fused: seq<(Document, real)>, keys: seq<Value>, ids: seq<string>)
    requires |keys| == |fused|
    requires forall p :: 0 <= p < |ids| ==> Str(ids[p]) in keys
    ensures |Reordered(fused, keys, ids)| == |ids|
    ensures forall p :: 0 <= p < |ids| ==> [Reordered(fused, keys, ids)[p]] == Hit(fused, keys, ids[p])
  {
    if ids != [] {
      var init := ids[..|ids| - 1];
      assert forall p :: 0 <= p < |init| ==> init[p] == ids[p];
      ReorderedFollowsIds(fused, keys, init);
      var h := Hit(fused, keys, ids[|ids| - 1]);
      assert |h| == 1;
      assert Reordered(fused, keys, ids) == Reordered(fused, keys, init) + h;
    }
  }

  /** With distinct candidates every reordered entry is a candidate with its fused score unchanged. */
  lemma {:induction false} ReorderedKeepsScores(fused: seq<(Document, real)>, keys: seq<Value>, ids: seq<string>)
    requires |keys| == |fused|
    requires forall i, j :: 0 <= i < j < |fused| ==> fused[i].0 != fused[j].0
    ensures forall p :: p in Reordered(fused, keys, ids) ==> p in fused
  {
    if ids != [] {
      ReorderedKeepsScores(fused, keys, ids[..|ids| - 1]);
      var h := LastWithKey(keys, Str(ids[|ids| - 1]));
      if h.Some? {
        ScoreOfDistinct(fused, h.value);
      }
    }
  }

  lemma {:induction false} ScoreOfDistinct(fused: seq<(Document, real)>, i: nat)
    requires i < |fused|
    requires forall a, b :: 0 <= a < b < |fused| ==> fused[a].0 != fused[b].0
    ensures ScoreOf(fused, fused[i].0) == fused[i].1
  {
    if i < |fused| - 1 {
      var init := fused[..|fused| - 1];
      assert init[i] == fused[i];
      ScoreOfDistinct(init, i);
    }
  }

  /** The id-assignment loop over `docs_only`: a candidate without an "id" key gets the draw for its
      position; one with an id keeps it. */
  method AssignIds(docs: seq<Document>, draws: nat -> string)
    requires forall i, j :: 0 <= i < j < |docs| ==> docs[i] != docs[j]
    modifies docs
    ensures forall i :: 0 <= i < |docs| ==> docs[i].fields == WithId(old(docs[i].fields), draws(i))
  {
    for i := 0 to |docs|
      invariant forall j :: 0 <= j < i ==> docs[j].fields == WithId(old(docs[j].fields), draws(j))
      invariant forall j :: i <= j < |docs| ==> docs[j].fields == old(docs[j].fields)
    {
      if "id" !in docs[i].fields {
        docs[i].fields := docs[i].fields["id" := Str(draws(i))];
      }
    }
  }

  /** `doc_lookup`: id to candidate, the last candidate winning for a repeated id. */
  method BuildLookup(docs: seq<Document>, keys: seq<Value>) returns (lookup: map<Value, Document>)
    requires |docs| == |keys|
    ensures forall v :: v in lookup <==> v in keys
    ensures forall v :: v in lookup ==> lookup[v] == docs[LastWithKey(keys, v).value]
  {
    lookup := map[];
    for i := 0 to |keys|
      invariant forall v :: v in lookup <==> v in keys[..i]
      invariant forall v :: v in lookup ==> lookup[v] == docs[LastWithKey(keys[..i], v).value]
    {
      PrefixSnoc(keys, i);
      assert keys[..i + 1][..i] == keys[..i];
      lookup := lookup[keys[i] := docs[i]];
    }
    assert keys[..|keys|] == keys;
  }

  /** `original_scores`: candidate to fused score. */
  method BuildScores(fused: seq<(Document, real)>) returns (scores: map<Document, real>)
    ensures forall d :: d in scores <==> d in DocsOf(fused)
    ensures forall d :: d in scores ==> scores[d] == ScoreOf(fused, d)
  {
    scores := map[];
    for i := 0 to |fused|
      invariant forall d :: d in scores <==> d in DocsOf(fused[..i])
      invariant forall d :: d in scores ==> scores[d] == ScoreOf(fused[..i], d)
    {
      PrefixSnoc(fused, i);
      assert fused[..i + 1][..i] == fused[..i];
      assert DocsOf(fused[..i + 1]) == DocsOf(fused[..i]) + [fused[i].0];
      scores := scores[fused[i].0 := fused[i].1];
    }
    assert fused[..|fused|] == fused;
  }

  /** The loop over `reranked_ids` building `new_result`. */
  method Rerank(fused: seq<(Document, real)>, keys: seq<Value>, ids: seq<string>) returns (out: seq<(Document, real)>)
    requires |keys| == |fused|
    ensures out == Reordered(fused, keys, ids)
  {
    var docs := DocsOf(fused);
    var lookup := BuildLookup(docs, keys);
    var scores := BuildScores(fused);
    out := [];
    for p := 0 to |ids|
      invariant out == Reordered(fused, keys, ids[..p])
    {
      PrefixSnoc(ids, p);
      assert ids[..p + 1][..p] == ids[..p];
      if Str(ids[p]) in lookup {
        var doc := lookup[Str(ids[p])];
        var score := if doc in scores then scores[doc] else 0.0;
        out := out + [(doc, score)];
      }
    }
    assert ids[..|ids|] == ids;
  }

  /** The reranking step of `search`: each fused candidate without an "id" key gets its drawn id,
      the hashes are handed to the reranker, and its ids are mapped back to the candidates. */
  method RerankFused(top: seq<(Document, real)>, text: string, k: int, reranker: Reranker, draws: nat -> string)
    returns (out: seq<(Document, real)>)
    requires forall i, j :: 0 <= i < j < |top| ==> top[i].0 != top[j].0
    modifies DocsOf(top)
    ensures forall i :: 0 <= i < |top| ==> top[i].0.fields == WithId(old(top[i].0.fields), draws(i))
    ensures out == Reordered(top, IdsOf(FieldsOf(DocsOf(top))), reranker(FieldsOf(DocsOf(top)), text, k))
  {
    var docs := DocsOf(top);
    AssignIds(docs, draws);
    var rows := FieldsOf(docs);
    var keys := IdsOf(rows);
    var ids := reranker(rows, text, k);
    out := Rerank(top, keys, ids);
  }

  // ---------------------------------------------------------------------------------------------
  // The indexes a retriever holds

  /** An index the retriever was built from: a dense vector store or a BM25 index. */
  datatype Index = Dense(vi: VectorStore.VectorIndex) | Sparse(bm: Lexical.BM25Index) {
    function Obj(): object
    {
      if Dense? then vi else bm
    }

    ghost predicate Valid()
      reads Obj()
    {
      if Dense? then vi.Valid() && vi.libm.Sound() else bm.Valid() && bm.libm.Sound()
    }

    ghost function Documents(): seq<Document>
      reads Obj()
    {
      if Dense? then vi.documents else bm.documents
    }

    /** What `add_document` answers for a document with `fields` in the current state. */
    ghost function Verdict(fields: map<string, Value>): Outcome<Error>
      reads Obj()
    {
      if Dense? then vi.AddVerdict(fields)
      else match Lexical.BM25Index.SingleContent(fields)
        case Failure(e) => Fail(e)
        case Success(_) => Pass
    }

    /** What `add_documents` answers for `docs` in the current state, with how many it adds. */
    ghost function BatchVerdict(docs: seq<Document>): (Outcome<Error>, nat)
      reads Obj(), docs
    {
      if Dense? then vi.BatchVerdict(docs) else Lexical.BM25Index.BatchVerdict(docs)
    }

    /** The answer `index.search(query_text, k: k)` gives in the current state (BM25 with its
        default normalisation factor 0.1). */
    ghost predicate Answers(text: string, k: int, r: Result<seq<(Document, real)>, Error>)
      reads Obj()
      requires Valid()
    {
      if Dense? then vi.Answers(Text(text), k, r) else bm.Answers(Text(text), k, 0.1, r)
    }
  }

  /** `index.add_document(document)`. */
  method AddToIndex(ix: Index, d: Document) returns (r: Outcome<Error>)
    requires ix.Valid()
    modifies ix.Obj()
    ensures ix.Valid()
    ensures r == old(ix.Verdict(d.fields))
    ensures r.Pass? ==> ix.Documents() == old(ix.Documents()) + [d]
    ensures r.Fail? ==> ix.Documents() == old(ix.Documents())
  {
    match ix
    case Dense(vi) => r := vi.AddDocument(d);
    case Sparse(bm) => r := bm.AddDocument(d);
  }

  /** `index.add_documents(documents)`: some prefix of the batch is added, all of it on success. */
  method AddAllToIndex(ix: Index, docs: seq<Document>) returns (r: Outcome<Error>, ghost added: nat)
    requires ix.Valid()
    modifies ix.Obj()
    ensures ix.Valid()
    ensures added <= |docs| && ix.Documents() == old(ix.Documents()) + docs[..added]
    ensures r.Pass? && ix.Sparse? ==> added == |docs|
    ensures (r, added) == old(ix.BatchVerdict(docs))
  {
    match ix
    case Dense(vi) =>
      r, added := vi.AddDocuments(docs);
      if r.Pass? && docs != [] {
        assert added == |vi.embedder.value.many(BatchCheck(old(FieldsOf(docs))).value)|;
      }
    case Sparse(bm) => r, added := bm.AddDocuments(docs);
  }

  /** Every document of a result list is one the index stores. */
  predicate AllStored(l: seq<(Document, real)>, docs: seq<Document>) {
    forall p :: p in l ==> p.0 in docs
  }

  /** `index.search(query_text, k: k)`. */
  method SearchIndex(ix: Index, text: string, k: int) returns (r: Result<seq<(Document, real)>, Error>)
    requires ix.Valid()
    modifies ix.Obj()
    ensures ix.Valid()
    ensures ix.Documents() == old(ix.Documents())
    ensures ix.Answers(text, k, r)
    ensures r.Success? ==> AllStored(r.value, ix.Documents())
    ensures forall d: Document :: old(allocated(d)) ==> d.fields == old(d.fields)
  {
    match ix
    case Dense(vi) =>
      r := vi.Search(Text(text), k);
      if r.Success? { vi.AnswersAreStored(Text(text), k, r.value); }
    case Sparse(bm) =>
      r := bm.Search(Text(text), k, 0.1);
      if r.Success? { bm.AnswersAreStored(Text(text), k, 0.1, r.value); }
  }

  // ---------------------------------------------------------------------------------------------
  // The retriever

  class Retriever {
    const indexes: seq<Index>
    const reranker: Option<Reranker>

    /** The index objects the retriever holds. */
    function Objects(): set<object>
    {
      set j | 0 <= j < |indexes| :: indexes[j].Obj()
    }

    /** Every document stored in some index. */
    ghost function Stored(): set<Document>
      reads Objects()
    {
      set j, d | 0 <= j < |indexes| && d in indexes[j].Documents() :: d
    }

    /** At least one index, no index held twice, every index in a consistent state. */
    ghost predicate Valid()
      reads Objects()
    {
      && indexes != []
      && (forall i, j :: 0 <= i < j < |indexes| ==> indexes[i].Obj() != indexes[j].Obj())
      && (forall j :: 0 <= j < |indexes| ==> indexes[j].Valid())
    }

    constructor (indexes: seq<Index>, reranker: Option<Reranker>)
      requires indexes != []
      requires forall i, j :: 0 <= i < j < |indexes| ==> indexes[i].Obj() != indexes[j].Obj()
      requires forall j :: 0 <= j < |indexes| ==> indexes[j].Valid()
      ensures Valid()
      ensures this.indexes == indexes && this.reranker == reranker
    {
      this.indexes := indexes;
      this.reranker := reranker;
    }

    /** `Retriever.new(*indexes, reranker_fn:)`: at least one index must be given. */
    static method Create(indexes: seq<Index>, reranker: Option<Reranker>) returns (r: Result<Retriever, Error>)
      requires forall i, j :: 0 <= i < j < |indexes| ==> indexes[i].Obj() != indexes[j].Obj()
      requires forall j :: 0 <= j < |indexes| ==> indexes[j].Valid()
      ensures r.Failure? <==> indexes == []
      ensures r.Failure? ==> r.error == NoIndexes
      ensures r.Success? ==> fresh(r.value) && r.value.Valid()
      ensures r.Success? ==> r.value.indexes == indexes && r.value.reranker == reranker
    {
      if indexes == [] {
        return Failure(NoIndexes);
      }
      var retriever := new Retriever(indexes, reranker);
      return Success(retriever);
    }

    /** `add_document`: the document goes to every index in construction order; the first index
        that rejects it stops the loop, after the earlier ones have stored it. */
    method AddDocument(document: Document) returns (r: Outcome<Error>, ghost stopped: nat)
      requires Valid()
      modifies Objects()
      ensures Valid()
      ensures stopped <= |indexes| && (r.Pass? <==> stopped == |indexes|)
      ensures forall j :: 0 <= j < stopped ==>
                old(indexes[j].Verdict(document.fields)) == Pass &&
                indexes[j].Documents() == old(indexes[j].Documents()) + [document]
      ensures forall j :: stopped <= j < |indexes| ==> indexes[j].Documents() == old(indexes[j].Documents())
      ensures r.Fail? ==> old(indexes[stopped].Verdict(document.fields)) == r
    {
      var i := 0;
      r := Pass;
      while i < |indexes|
        invariant i <= |indexes| && Valid()
        invariant forall j :: 0 <= j < i ==>
                    old(indexes[j].Verdict(document.fields)) == Pass &&
                    indexes[j].Documents() == old(indexes[j].Documents()) + [document]
        invariant forall j :: i <= j < |indexes| ==>
                    indexes[j].Documents() == old(indexes[j].Documents()) &&
                    indexes[j].Verdict(document.fields) == old(indexes[j].Verdict(document.fields))
        invariant r.Fail? ==> i < |indexes| && old(indexes[i].Verdict(document.fields)) == r
        decreases |indexes| - i
      {
        r := AddAt(i, document);
        if r.Fail? {
          break;
        }
        i := i + 1;
      }
      stopped := i;
    }

    /** `add_document` of the reranking variant: an id is drawn for a document without an "id"
        key before the document is forwarded. */
    method AddDocumentWithId(document: Document, draw: string) returns (r: Outcome<Error>, ghost stopped: nat)
      requires Valid() && IsGeneratedId(draw)
      modifies Objects(), document
      ensures Valid()
      ensures document.fields == WithId(old(document.fields), draw)
      ensures stopped <= |indexes| && (r.Pass? <==> stopped == |indexes|)
      ensures forall j :: 0 <= j < stopped ==>
                old(indexes[j].Verdict(WithId(document.fields, draw))) == Pass &&
                indexes[j].Documents() == old(indexes[j].Documents()) + [document]
      ensures forall j :: stopped <= j < |indexes| ==> indexes[j].Documents() == old(indexes[j].Documents())
      ensures r.Fail? ==> old(indexes[stopped].Verdict(WithId(document.fields, draw))) == r
    {
      if "id" !in document.fields {
        document.fields := document.fields["id" := Str(draw)];
      }
      r, stopped := AddDocument(document);
    }

    /** `add_documents`: the batch goes to every index in construction order, without ids; an
        index that fails stops the loop after storing some prefix of the batch. */
    method AddDocuments(docs: seq<Document>) returns (r: Outcome<Error>, ghost stopped: nat, ghost counts: seq<nat>)
      requires Valid()
      modifies Objects()
      ensures Valid()
      ensures stopped <= |indexes| && (r.Pass? <==> stopped == |indexes|)
      ensures |counts| == |indexes|
      ensures forall j :: 0 <= j < |indexes| ==>
                counts[j] <= |docs| && indexes[j].Documents() == old(indexes[j].Documents()) + docs[..counts[j]]
      ensures forall j :: 0 <= j < stopped && indexes[j].Sparse? ==> counts[j] == |docs|
      ensures forall j :: stopped < j < |indexes| ==> counts[j] == 0
      ensures forall j :: 0 <= j < stopped ==> old(indexes[j].BatchVerdict(docs)) == (Pass, counts[j])
      ensures r.Fail? ==> old(indexes[stopped].BatchVerdict(docs)) == (r, counts[stopped])
    {
      var i := 0;
      counts := seq(|indexes|, _ => 0);
      r := Pass;
      while i < |indexes|
        invariant i <= |indexes| && Valid() && |counts| == |indexes|
        invariant forall j :: 0 <= j < |indexes| ==>
                    counts[j] <= |docs| && indexes[j].Documents() == old(indexes[j].Documents()) + docs[..counts[j]]
        invariant forall j :: 0 <= j < i ==>
                    old(indexes[j].BatchVerdict(docs)) == (Pass, counts[j]) && (indexes[j].Sparse? ==> counts[j] == |docs|)
        invariant forall j :: i <= j < |indexes| ==>
                    counts[j] == 0 && indexes[j].BatchVerdict(docs) == old(indexes[j].BatchVerdict(docs))
        invariant r.Pass?
        decreases |indexes| - i
      {
        ghost var added;
        r, added := AddAllAt(i, docs);
        counts := counts[i := added];
        if r.Fail? {
          break;
        }
        i := i + 1;
      }
      stopped := i;
    }

    /** Gives `document` to index `cur`; the other indexes are left as they were. */
    method AddAt(cur: nat, document: Document) returns (r: Outcome<Error>)
      requires Valid() && cur < |indexes|
      modifies indexes[cur].Obj()
      ensures Valid()
      ensures r == old(indexes[cur].Verdict(document.fields))
      ensures r.Pass? ==> indexes[cur].Documents() == old(indexes[cur].Documents()) + [document]
      ensures r.Fail? ==> indexes[cur].Documents() == old(indexes[cur].Documents())
      ensures forall j :: 0 <= j < |indexes| && j != cur ==> unchanged(indexes[j].Obj())
      ensures unchanged(document)
    {
      assert forall j :: 0 <= j < |indexes| && j != cur ==> indexes[j].Obj() != indexes[cur].Obj();
      r := AddToIndex(indexes[cur], document);
    }

    /** Gives the batch `docs` to index `cur`; the other indexes are left as they were. */
    method AddAllAt(cur: nat, docs: seq<Document>) returns (r: Outcome<Error>, ghost added: nat)
      requires Valid() && cur < |indexes|
      modifies indexes[cur].Obj()
      ensures Valid()
      ensures added <= |docs| && indexes[cur].Documents() == old(indexes[cur].Documents()) + docs[..added]
      ensures r.Pass? && indexes[cur].Sparse? ==> added == |docs|
      ensures forall j :: 0 <= j < |indexes| && j != cur ==> indexes[j].Documents() == old(indexes[j].Documents())
      ensures forall j :: 0 <= j < |indexes| && j != cur ==>
                indexes[j].BatchVerdict(docs) == old(indexes[j].BatchVerdict(docs))
      ensures (r, added) == old(indexes[cur].BatchVerdict(docs))
    {
      assert forall j :: 0 <= j < |indexes| && j != cur ==> indexes[j].Obj() != indexes[cur].Obj();
      r, added := AddAllToIndex(indexes[cur], docs);
      assert FieldsOf(docs) == old(FieldsOf(docs)) by {
        forall i | 0 <= i < |docs|
          ensures docs[i].fields == old(docs[i].fields)
        {
          assert docs[i] in docs;
        }
      }
      forall j | 0 <= j < |indexes| && j != cur
        ensures indexes[j].BatchVerdict(docs) == old(indexes[j].BatchVerdict(docs))
      {
        if indexes[j].Dense? {
          assert unchanged(indexes[j].vi);
        }
      }
    }

    /** The first `|lists|` indexes answered `lists`, each list made of documents that index stores. */
    ghost predicate Answered(lists: seq<seq<(Document, real)>>, text: string, k: int)
      reads Objects()
      requires Valid()
    {
      && |lists| <= |indexes|
      && forall j :: 0 <= j < |lists| ==>
           indexes[j].Answers(text, k, Success(lists[j])) && AllStored(lists[j], indexes[j].Documents())
    }

    /** Each index is asked in turn; the first error stops the loop. */
    method QueryAll(text: string, k: int) returns (lists: seq<seq<(Document, real)>>, failure: Option<Error>)
      requires Valid()
      modifies Objects()
      ensures Valid()
      ensures forall j :: 0 <= j < |indexes| ==> indexes[j].Documents() == old(indexes[j].Documents())
      ensures Answered(lists, text, k)
      ensures Stored() == old(Stored())
      ensures forall d: Document :: old(allocated(d)) ==> d.fields == old(d.fields)
      ensures failure.None? ==> |lists| == |indexes|
      ensures failure.Some? ==> |lists| < |indexes| && indexes[|lists|].Answers(text, k, Failure(failure.value))
    {
      lists := [];
      failure := None;
      while |lists| < |indexes|
        invariant Valid() && Answered(lists, text, k)
        invariant forall j :: 0 <= j < |indexes| ==> indexes[j].Documents() == old(indexes[j].Documents())
        invariant forall d: Document :: old(allocated(d)) ==> d.fields == old(d.fields)
        invariant failure.None?
        decreases |indexes| - |lists|
      {
        var res := QueryIndex(|lists|, text, k, lists);
        if res.Failure? {
          failure := Some(res.error);
          break;
        }
        lists := lists + [res.value];
      }
      assert Stored() == old(Stored());
    }

    /** Asks the index after the ones that answered `lists`; the other indexes are left as they were. */
    method QueryIndex(cur: nat, text: string, k: int, ghost lists: seq<seq<(Document, real)>>)
      returns (res: Result<seq<(Document, real)>, Error>)
      requires Valid() && Answered(lists, text, k) && |lists| == cur < |indexes|
      modifies indexes[cur].Obj()
      ensures Valid()
      ensures forall j :: 0 <= j < |indexes| ==> indexes[j].Documents() == old(indexes[j].Documents())
      ensures forall d: Document :: old(allocated(d)) ==> d.fields == old(d.fields)
      ensures res.Success? ==> Answered(lists + [res.value], text, k)
      ensures res.Failure? ==> Answered(lists, text, k) && indexes[|lists|].Answers(text, k, res)
    {
      assert forall j :: 0 <= j < |indexes| && j != cur ==> indexes[j].Obj() != indexes[cur].Obj();
      res := SearchIndex(indexes[cur], text, k);
      assert forall j :: 0 <= j < |indexes| && j != cur ==> unchanged(indexes[j].Obj());
    }

    /** The fused candidates are documents some index stores, each listed once. */
    lemma FusedAreStored(top: seq<(Document, real)>, lists: seq<seq<(Document, real)>>, text: string, n: int,
                         kRrf: nat, k: nat)
      requires Valid() && Answered(lists, text, n)
      requires IsTopK(top, Fused(DocLists(lists), kRrf), ByNegatedScore, k)
      ensures forall i :: 0 <= i < |top| ==> top[i].0 in Stored()
      ensures forall i, j :: 0 <= i < j < |top| ==> top[i].0 != top[j].0
    {
      FusedResult(top, DocLists(lists), kRrf, k);
      forall i | 0 <= i < |top|
        ensures top[i].0 in Stored()
      {
        assert top[i] in top;
        var j :| 0 <= j < |lists| && top[i].0 in DocLists(lists)[j];
        var p :| 0 <= p < |lists[j]| && DocsOf(lists[j])[p] == top[i].0;
        assert lists[j][p] in lists[j];
        assert top[i].0 in indexes[j].Documents();
      }
    }

    /** Fusion, seen from the retriever: the indexes are left as they were, and every fused
        candidate is a stored document, listed once. */
    method FuseStored(lists: seq<seq<(Document, real)>>, ghost text: string, ghost n: int, kRrf: nat, k: nat)
      returns (top: seq<(Document, real)>)
      requires Valid() && Answered(lists, text, n)
      ensures Valid() && Answered(lists, text, n)
      ensures Stored() == old(Stored())
      ensures forall d: Document :: old(allocated(d)) ==> d.fields == old(d.fields)
      ensures forall j :: 0 <= j < |indexes| ==> indexes[j].Documents() == old(indexes[j].Documents())
      ensures IsTopK(top, Fused(DocLists(lists), kRrf), ByNegatedScore, k)
      ensures forall i :: 0 <= i < |top| ==> top[i].0 in Stored()
      ensures forall i, j :: 0 <= i < j < |top| ==> top[i].0 != top[j].0
    {
      assert forall o :: o in Objects() ==> allocated(o);
      top := Fuse(lists, kRrf, k);
      assert unchanged(Objects());
      FusedAreStored(top, lists, text, n, kRrf, k);
    }

    /** The reranking step, seen from the retriever: only the candidates' hashes change. */
    method RerankStored(top: seq<(Document, real)>, text: string, k: int, draws: nat -> string,
                        ghost lists: seq<seq<(Document, real)>>, ghost n: int)
      returns (out: seq<(Document, real)>)
      requires Valid() && reranker.Some? && Answered(lists, text, n)
      requires forall i, j :: 0 <= i < j < |top| ==> top[i].0 != top[j].0
      modifies DocsOf(top)
      ensures Valid() && Answered(lists, text, n)
      ensures forall j :: 0 <= j < |indexes| ==> indexes[j].Documents() == old(indexes[j].Documents())
      ensures forall i :: 0 <= i < |top| ==> top[i].0.fields == WithId(old(top[i].0.fields), draws(i))
      ensures out == Reordered(top, IdsOf(FieldsOf(DocsOf(top))), reranker.value(FieldsOf(DocsOf(top)), text, k))
    {
      assert forall o :: o in Objects() ==> o !in DocsOf(top);
      out := RerankFused(top, text, k, reranker.value, draws);
      assert unchanged(Objects());
    }

    /** `search`: the query must be a string, `k` positive and `k_rrf` non-negative, checked before
        any index is asked; each index is then asked for `k * 5` results, an index error stops the
        search, and the fused top `k` is returned, reordered by the reranker when there is one. The
        i-th fused candidate without an "id" key gets `draws(i)` as its id. */
    method Search(query: Query, k: int, kRrf: int, draws: nat -> string)
      returns (r: Result<seq<(Document, real)>, Error>, ghost lists: seq<seq<(Document, real)>>,
               ghost fused: seq<(Document, real)>)
      requires Valid()
      requires forall n :: IsGeneratedId(draws(n))
      modifies Objects(), Stored()
      ensures Valid()
      ensures forall j :: 0 <= j < |indexes| ==> indexes[j].Documents() == old(indexes[j].Documents())
      ensures !query.Text? ==> r == Failure(UnsupportedQuery)
      ensures query.Text? && k <= 0 ==> r == Failure(NonPositiveK)
      ensures query.Text? && 0 < k && kRrf < 0 ==> r == Failure(NegativeKRrf)
      ensures !(query.Text? && 0 < k && 0 <= kRrf) ==> lists == [] && unchanged(Objects())
      ensures query.Text? && 0 < k && 0 <= kRrf ==>
                Answered(lists, query.text, k * 5) &&
                (r.Failure? ==> |lists| < |indexes| && indexes[|lists|].Answers(query.text, k * 5, Failure(r.error))) &&
                (r.Success? ==> |lists| == |indexes| &&
                                IsTopK(fused, Fused(DocLists(lists), kRrf), ByNegatedScore, k))
      ensures r.Success? && reranker.None? ==> r.value == fused
      ensures r.Success? && reranker.Some? ==>
                (forall i :: 0 <= i < |fused| ==> fused[i].0 in old(Stored())) &&
                (forall d, i :: old(allocated(d)) && d in old(Stored()) && 0 <= i < |fused| && fused[i].0 == d ==>
                   d.fields == WithId(old(d.fields), draws(i))) &&
                r.value == Reordered(fused, IdsOf(FieldsOf(DocsOf(fused))),
                                     reranker.value(FieldsOf(DocsOf(fused)), query.text, k))
      ensures forall d :: old(allocated(d)) && d in old(Stored()) && (r.Failure? || reranker.None? || d !in DocsOf(fused)) ==>
                d.fields == old(d.fields)
    {
      lists, fused := [], [];
      if !query.Text? {
        return Failure(UnsupportedQuery), lists, fused;
      }
      if k <= 0 {
        return Failure(NonPositiveK), lists, fused;
      }
      if kRrf < 0 {
        return Failure(NegativeKRrf), lists, fused;
      }
      ghost var stored := Stored();
      var results, failure := QueryAll(query.text, k * 5);
      lists := results;
      if failure.Some? {
        return Failure(failure.value), lists, fused;
      }
      var top := FuseStored(results, query.text, k * 5, kRrf, k);
      fused := top;
      if reranker.None? {
        return Success(top), lists, fused;
      }
      var out := RerankStored(top, query.text, k, draws, lists, k * 5);
      return Success(out), lists, fused;
    }
  }

  /** `doc["id"]` for every hash of a batch (nil where the key is missing). */
  function IdsOf(rows: seq<map<string, Value>>): (keys: seq<Value>)
    ensures |keys| == |rows|
  {
    seq(|rows|, i requires 0 <= i < |rows| => if "id" in rows[i] then rows[i]["id"] else Nil)
  }
}

/** The lexical index (`BM25Index`): token lists, per-document lengths and a document-frequency table
    kept up to date on every add, and a lazily built average length and idf table used to score a
    query with Okapi BM25. */
module Lexical {
  import opened Wrappers
  import opened Ordering
  import opened RagTypes

  // ---------------------------------------------------------------------------------------------
  // The default tokenizer

  /** A character of Ruby's `\w` class: an ASCII letter, digit or underscore. */
  predicate IsWordChar(c: char) {
    ('a' <= c <= 'z') || ('A' <= c <= 'Z') || ('0' <= c <= '9') || c == '_'
  }

  predicate IsUpper(c: char) { 'A' <= c <= 'Z' }

  function Lower(c: char): char {
    if IsUpper(c) then (c - 'A' + 'a') as char else c
  }

  /** `String#downcase`, on the ASCII letters. */
  function Downcase(s: string): (r: string)
    ensures |r| == |s|
    ensures forall i :: 0 <= i < |s| ==> r[i] == Lower(s[i])
  {
    if s == [] then [] else [Lower(s[0])] + Downcase(s[1..])
  }

  /** The closed token `cur`, if it is not empty. */
  function Flush(cur: string): seq<string> {
    if cur == [] then [] else [cur]
  }

  /** The maximal runs of word characters of `s`, the first one continuing `cur`: what
      `split(/\W+/)` followed by `reject(&:empty?)` leaves. */
  function Runs(s: string, cur: string): seq<string>
    decreases |s|
  {
    if s == [] then Flush(cur)
    else if IsWordChar(s[0]) then Runs(s[1..], cur + [s[0]])
    else Flush(cur) + Runs(s[1..], [])
  }

  /** `default_tokenizer`: lowercase, split on runs of non-word characters, drop empty strings.
      It never emits an empty token, and every token is made of lowercase word characters. */
  function DefaultTokenizer(text: string): (r: seq<string>)
    ensures forall t :: t in r ==> IsToken(t)
  {
    RunsAreTokens(Downcase(text), []);
    Runs(Downcase(text), [])
  }

  /** A token as the default tokenizer emits it: non-empty, lowercase word characters only. */
  ghost predicate IsToken(t: string) {
    t != [] && forall i :: 0 <= i < |t| ==> IsWordChar(t[i]) && !IsUpper(t[i])
  }

  ghost predicate NoUpper(s: string) {
    forall i :: 0 <= i < |s| ==> !IsUpper(s[i])
  }

  lemma {:induction false} RunsAreTokens(s: string, cur: string)
    requires NoUpper(s)
    requires forall i :: 0 <= i < |cur| ==> IsWordChar(cur[i]) && !IsUpper(cur[i])
    ensures forall t :: t in Runs(s, cur) ==> IsToken(t)
    decreases |s|
  {
    if s != [] {
      assert NoUpper(s[1..]) by {
        forall i | 0 <= i < |s[1..]| ensures !IsUpper(s[1..][i]) { assert s[1..][i] == s[i + 1]; }
      }
      if IsWordChar(s[0]) {
        assert !IsUpper(s[0]);
        RunsAreTokens(s[1..], cur + [s[0]]);
      } else {
        RunsAreTokens(s[1..], []);
      }
    }
  }

  /** The words of `ts` separated by single spaces. */
  function JoinWords(ts: seq<string>): string {
    if ts == [] then [] else if |ts| == 1 then ts[0] else ts[0] + " " + JoinWords(ts[1..])
  }

  lemma {:induction false} RunsOverWord(w: string, rest: string, cur: string)
    requires forall i :: 0 <= i < |w| ==> IsWordChar(w[i])
    ensures Runs(w + rest, cur) == Runs(rest, cur + w)
    decreases |w|
  {
    if w != [] {
      assert (w + rest)[1..] == w[1..] + rest;
      assert cur + w == (cur + [w[0]]) + w[1..];
      RunsOverWord(w[1..], rest, cur + [w[0]]);
    } else {
      assert w + rest == rest;
      assert cur + w == cur;
    }
  }

  lemma {:induction false} DowncaseLowercase(s: string)
    requires NoUpper(s)
    ensures Downcase(s) == s
  {
  }

  /** The tokenizer inverts joining with spaces: tokens joined by single spaces come back unchanged. */
  lemma {:induction false} TokenizeJoinedWords(ts: seq<string>)
    requires forall t :: t in ts ==> IsToken(t)
    ensures DefaultTokenizer(JoinWords(ts)) == ts
  {
    JoinedWordsLowercase(ts);
    DowncaseLowercase(JoinWords(ts));
    RunsOfJoinedWords(ts);
  }

  lemma {:induction false} JoinedWordsLowercase(ts: seq<string>)
    requires forall t :: t in ts ==> IsToken(t)
    ensures NoUpper(JoinWords(ts))
  {
    if |ts| > 1 {
      JoinedWordsLowercase(ts[1..]);
      var j := JoinWords(ts[1..]);
      assert ts[0] in ts;
      forall i | 0 <= i < |ts[0] + " " + j| ensures !IsUpper((ts[0] + " " + j)[i]) {
        if i < |ts[0]| {
        } else if i == |ts[0]| {
        } else {
          assert (ts[0] + " " + j)[i] == j[i - |ts[0]| - 1];
        }
      }
    } else if |ts| == 1 {
      assert ts[0] in ts;
    }
  }

  lemma {:induction false} RunsOfJoinedWords(ts: seq<string>)
    requires forall t :: t in ts ==> IsToken(t)
    ensures Runs(JoinWords(ts), []) == ts
  {
    if ts == [] {
    } else {
      assert ts[0] in ts;
      if |ts| == 1 {
        RunsOverWord(ts[0], [], []);
        assert ts[0] + [] == ts[0];
        assert [] + ts[0] == ts[0];
        assert ts == [ts[0]];
      } else {
        var rest := JoinWords(ts[1..]);
        assert forall t :: t in ts[1..] ==> t in ts;
        RunsOfJoinedWords(ts[1..]);
        assert ts[0] + " " + rest == ts[0] + ([' '] + rest);
        RunsOverWord(ts[0], [' '] + rest, []);
        assert [] + ts[0] == ts[0];
        assert ([' '] + rest)[1..] == rest;
        assert ts == [ts[0]] + ts[1..];
      }
    }
  }

  // ---------------------------------------------------------------------------------------------
  // Corpus statistics

  /** Adds one to the frequency of every term in `terms`. */
  function BumpAll(df: map<string, nat>, terms: set<string>): (r: map<string, nat>)
    ensures r.Keys == df.Keys + terms
  {
    map t | t in df.Keys + terms :: (if t in df then df[t] else 0) + (if t in terms then 1 else 0)
  }

  /** Counting one more new term bumps exactly its entry. */
  lemma BumpOneMore(df: map<string, nat>, seen: set<string>, t: string)
    requires t !in seen
    ensures BumpAll(df, seen + {t}) ==
              BumpAll(df, seen)[t := (if t in BumpAll(df, seen) then BumpAll(df, seen)[t] else 0) + 1]
  {
  }

  /** A token already seen adds no new term. */
  lemma TermsSnoc(tokens: seq<string>, i: nat)
    requires i < |tokens|
    ensures Terms(tokens[..i + 1]) == Terms(tokens[..i]) + {tokens[i]}
  {
    assert tokens[..i + 1] == tokens[..i] + [tokens[i]];
  }

  /** The distinct terms of a token list. */
  function Terms(tokens: seq<string>): set<string> {
    set t | t in tokens
  }

  /** The document-frequency table of a corpus: each document counts once for every distinct term
      in it. */
  function DocFreqs(corpus: seq<seq<string>>): (r: map<string, nat>)
    ensures forall t :: t in r ==> 1 <= r[t] <= |corpus|
  {
    if corpus == [] then map[]
    else BumpAll(DocFreqs(corpus[..|corpus| - 1]), Terms(corpus[|corpus| - 1]))
  }

  /** The number of documents of the corpus whose token list contains `t`. */
  function Containing(corpus: seq<seq<string>>, t: string): (n: nat)
    ensures n <= |corpus|
  {
    if corpus == [] then 0
    else Containing(corpus[..|corpus| - 1], t) + (if t in corpus[|corpus| - 1] then 1 else 0)
  }

  /** `doc_freqs[t]` is exactly the number of documents containing `t`, so never more than the
      number of documents, and the keys are exactly the terms that occur somewhere. */
  lemma {:induction false} DocFreqsCount(corpus: seq<seq<string>>, t: string)
    ensures t in DocFreqs(corpus) <==> Containing(corpus, t) > 0
    ensures t in DocFreqs(corpus) ==> DocFreqs(corpus)[t] == Containing(corpus, t) <= |corpus|
  {
    if corpus != [] {
      DocFreqsCount(corpus[..|corpus| - 1], t);
    }
  }

  lemma {:induction false} ContainingPositive(corpus: seq<seq<string>>, t: string)
    ensures Containing(corpus, t) > 0 <==> exists i :: 0 <= i < |corpus| && t in corpus[i]
  {
    if corpus != [] {
      var init := corpus[..|corpus| - 1];
      ContainingPositive(init, t);
      if exists i :: 0 <= i < |init| && t in init[i] {
        var i :| 0 <= i < |init| && t in init[i];
        assert corpus[i] == init[i];
      }
      if exists i :: 0 <= i < |corpus| && t in corpus[i] {
        var i :| 0 <= i < |corpus| && t in corpus[i];
        if i < |init| { assert init[i] == corpus[i]; }
      }
    }
  }

  /** Every term of the table occurs in some document, every term of every document is in the
      table, and no frequency exceeds the number of documents. */
  lemma DocFreqsBounds(corpus: seq<seq<string>>)
    ensures forall t :: t in DocFreqs(corpus) <==> exists i :: 0 <= i < |corpus| && t in corpus[i]
    ensures forall t :: t in DocFreqs(corpus) ==> 1 <= DocFreqs(corpus)[t] <= |corpus|
  {
    forall t ensures t in DocFreqs(corpus) <==> exists i :: 0 <= i < |corpus| && t in corpus[i] {
      DocFreqsCount(corpus, t);
      ContainingPositive(corpus, t);
    }
    forall t | t in DocFreqs(corpus) ensures 1 <= DocFreqs(corpus)[t] <= |corpus| {
      DocFreqsCount(corpus, t);
    }
  }

  function Sum(s: seq<nat>): nat {
    if s == [] then 0 else Sum(s[..|s| - 1]) + s[|s| - 1]
  }

  /** The average document length `build_index` computes: the total length over the count, or 0.0
      for an empty index. */
  function AvgLen(docLen: seq<nat>): real {
    if docLen == [] then 0.0 else Sum(docLen) as real / |docLen| as real
  }

  /** `calculate_idf`'s formula for a term found in `f` of `n` documents. */
  function Idf(m: Libm, n: nat, f: nat): (r: real)
    ensures m.Sound() && f <= n ==> 0.0 < r
  {
    var x := ((n - f) as real + 0.5) / (f as real + 0.5) + 1.0;
    assert f <= n ==> 1.0 < x by {
      if f <= n {
        IdfRatio(n, f);
      }
    }
    m.log(x)
  }

  function IdfTable(m: Libm, n: nat, df: map<string, nat>): (r: map<string, real>)
    ensures r.Keys == df.Keys
  {
    map t | t in df :: Idf(m, n, df[t])
  }

  lemma IdfRatio(n: nat, f: nat)
    requires f <= n
    ensures 1.0 < ((n - f) as real + 0.5) / (f as real + 0.5) + 1.0
  {
    PositiveRatio((n - f) as real + 0.5, f as real + 0.5);
  }

  /** The rarer a term, the larger its idf. */
  lemma IdfDecreasing(m: Libm, n: nat, f1: nat, f2: nat)
    requires m.Sound() && f1 < f2 <= n
    ensures Idf(m, n, f2) < Idf(m, n, f1)
  {
    var a1, a2 := (n - f1) as real + 0.5, (n - f2) as real + 0.5;
    var d1, d2 := f1 as real + 0.5, f2 as real + 0.5;
    NumeratorMonotone(a1, a2, d1);
    DenominatorMonotone(a2, d1, d2);
    IdfRatio(n, f2);
  }

  lemma PositiveRatio(a: real, d: real)
    requires 0.0 < a && 0.0 < d
    ensures 0.0 < a / d
  {
  }

  lemma NumeratorMonotone(a1: real, a2: real, d: real)
    requires a2 < a1 && 0.0 < d
    ensures a2 / d < a1 / d
  {
  }

  lemma DenominatorMonotone(c: real, d1: real, d2: real)
    requires 0.0 < c && 0.0 < d1 < d2
    ensures c / d2 < c / d1
  {
  }

  /** All idf values of a freshly built table are positive. */
  lemma IdfTablePositive(m: Libm, corpus: seq<seq<string>>)
    requires m.Sound()
    ensures forall t :: t in IdfTable(m, |corpus|, DocFreqs(corpus)) ==>
              0.0 < IdfTable(m, |corpus|, DocFreqs(corpus))[t]
  {
    DocFreqsBounds(corpus);
    forall t | t in DocFreqs(corpus) ensures 0.0 < Idf(m, |corpus|, DocFreqs(corpus)[t]) {
    }
  }

  // ---------------------------------------------------------------------------------------------
  // Scoring

  /** The constant `compute_bm25_score` adds to every denominator. */
  const Epsilon: real := 0.000000001

  /** The contribution of one query token to a document's score; a token without an idf entry
      contributes nothing. */
  function TermScore(t: string, docTokens: seq<string>, idf: map<string, real>, avg: real,
                     k1: real, b: real): (r: real)
    requires 0.0 < avg && 0.0 <= k1 && 0.0 <= b <= 1.0
    ensures t !in idf || t !in docTokens ==> r == 0.0
  {
    if t !in idf then 0.0
    else Contribution(idf[t], multiset(docTokens)[t] as real, |docTokens|, avg, k1, b)
  }

  /** Okapi BM25's term weight: `idf * tf * (k1 + 1) / (tf + k1 * (1 - b + b * len / avg) + 1e-9)`. */
  function Contribution(idf: real, tf: real, len: nat, avg: real, k1: real, b: real): real
    requires 0.0 <= tf && 0.0 < avg && 0.0 <= k1 && 0.0 <= b <= 1.0
  {
    idf * tf * (k1 + 1.0) / Saturation(tf, len, avg, k1, b)
  }

  /** The denominator of the term weight; the 1e-9 keeps it positive. */
  function Saturation(tf: real, len: nat, avg: real, k1: real, b: real): (d: real)
    requires 0.0 <= tf && 0.0 < avg && 0.0 <= k1 && 0.0 <= b <= 1.0
    ensures 0.0 < d
  {
    var norm := LengthNorm(len, avg, b);
    NonNegativeProduct(k1, norm);
    tf + k1 * norm + Epsilon
  }

  /** `1 - b + b * len / avg`, never negative for `b` in [0, 1]. */
  function LengthNorm(len: nat, avg: real, b: real): (r: real)
    requires 0.0 < avg && 0.0 <= b <= 1.0
    ensures 0.0 <= r
  {
    NonNegativeRatio(len as real, avg);
    NonNegativeProduct(b, len as real / avg);
    1.0 - b + b * (len as real / avg)
  }

  lemma NonNegativeRatio(a: real, d: real)
    requires 0.0 <= a && 0.0 < d
    ensures 0.0 <= a / d
  {
  }

  lemma NonNegativeProduct(x: real, y: real)
    requires 0.0 <= x && 0.0 <= y
    ensures 0.0 <= x * y
  {
  }

  /** The BM25 score of a document for a query: the sum of the query tokens' contributions, a
      repeated query token counting every time. */
  function Bm25Score(query: seq<string>, docTokens: seq<string>, idf: map<string, real>, avg: real,
                     k1: real, b: real): (r: real)
    requires 0.0 < avg && 0.0 <= k1 && 0.0 <= b <= 1.0
    ensures (forall j :: 0 <= j < |query| ==> query[j] !in docTokens) ==> r == 0.0
  {
    if query == [] then 0.0
    else Bm25Score(query[..|query| - 1], docTokens, idf, avg, k1, b)
         + TermScore(query[|query| - 1], docTokens, idf, avg, k1, b)
  }

  lemma ScoreStep(query: seq<string>, j: nat, docTokens: seq<string>, idf: map<string, real>, avg: real,
                  k1: real, b: real)
    requires j < |query| && 0.0 < avg && 0.0 <= k1 && 0.0 <= b <= 1.0
    ensures Bm25Score(query[..j + 1], docTokens, idf, avg, k1, b) ==
              Bm25Score(query[..j], docTokens, idf, avg, k1, b) + TermScore(query[j], docTokens, idf, avg, k1, b)
  {
    assert query[..j + 1][..j] == query[..j];
  }

  lemma TermScoreSign(t: string, docTokens: seq<string>, idf: map<string, real>, avg: real,
                      k1: real, b: real)
    requires 0.0 < avg && 0.0 <= k1 && 0.0 <= b <= 1.0
    requires forall u :: u in idf ==> 0.0 < idf[u]
    ensures 0.0 <= TermScore(t, docTokens, idf, avg, k1, b)
    ensures 0.0 < TermScore(t, docTokens, idf, avg, k1, b) <==> t in idf && t in docTokens
  {
    if t in idf {
      assert t in docTokens <==> t in multiset(docTokens);
      ContributionSign(idf[t], multiset(docTokens)[t] as real, |docTokens|, avg, k1, b);
    }
  }

  /** A term weight is never negative, and positive exactly when the term occurs. */
  lemma ContributionSign(idf: real, tf: real, len: nat, avg: real, k1: real, b: real)
    requires 0.0 < idf && 0.0 <= tf && 0.0 < avg && 0.0 <= k1 && 0.0 <= b <= 1.0
    ensures 0.0 <= Contribution(idf, tf, len, avg, k1, b)
    ensures 0.0 < Contribution(idf, tf, len, avg, k1, b) <==> 0.0 < tf
  {
    var den := Saturation(tf, len, avg, k1, b);
    var p := idf * tf;
    if 0.0 < tf {
      PositiveProduct(idf, tf);
      PositiveProduct(p, k1 + 1.0);
      PositiveRatio(p * (k1 + 1.0), den);
    } else {
      assert p == 0.0;
      assert p * (k1 + 1.0) == 0.0;
    }
  }

  lemma PositiveProduct(x: real, y: real)
    requires 0.0 < x && 0.0 < y
    ensures 0.0 < x * y
  {
  }

  /** With positive idf values, a document's score is never negative, and it is positive exactly
      when the document shares a query token that has an idf entry. In particular a document that
      shares no query term scores 0 and is dropped by the `> 1e-9` filter. */
  lemma {:induction false} ScoreSign(query: seq<string>, docTokens: seq<string>, idf: map<string, real>,
                                     avg: real, k1: real, b: real)
    requires 0.0 < avg && 0.0 <= k1 && 0.0 <= b <= 1.0
    requires forall u :: u in idf ==> 0.0 < idf[u]
    ensures 0.0 <= Bm25Score(query, docTokens, idf, avg, k1, b)
    ensures 0.0 < Bm25Score(query, docTokens, idf, avg, k1, b) <==>
              exists t :: t in query && t in idf && t in docTokens
  {
    if query != [] {
      var init, last := query[..|query| - 1], query[|query| - 1];
      ScoreSign(init, docTokens, idf, avg, k1, b);
      TermScoreSign(last, docTokens, idf, avg, k1, b);
      assert query == init + [last];
      if exists t :: t in query && t in idf && t in docTokens {
        var t :| t in query && t in idf && t in docTokens;
        if t != last { assert t in init; }
      }
      if exists t :: t in init && t in idf && t in docTokens {
        var t :| t in init && t in idf && t in docTokens;
        assert t in query;
      }
    }
  }

  // ---------------------------------------------------------------------------------------------
  // Search specification

  function ByNegatedRaw(p: (real, Document)): real { -p.0 }

  function ByNormalized(p: (Document, real)): real { p.1 }

  /** `exp(-factor * raw)` for every (raw score, document) pair, in order. */
  function Normalize(m: Libm, factor: real, top: seq<(real, Document)>): (r: seq<(Document, real)>)
    ensures |r| == |top|
  {
    seq(|top|, i requires 0 <= i < |top| => Rescore(m, factor, top[i]))
  }

  /** One (raw score, document) pair as `search` returns it: the document and `exp(-factor * raw)`. */
  function Rescore(m: Libm, factor: real, p: (real, Document)): (Document, real)
  {
    (p.1, m.exp(-factor * p.0))
  }

  /** The (raw score, document) pairs kept by the `> 1e-9` filter, in document order, for the first
      `n` documents. */
  function RawScores(query: seq<string>, corpus: seq<seq<string>>, docs: seq<Document>,
                     idf: map<string, real>, avg: real, k1: real, b: real, n: nat): (r: seq<(real, Document)>)
    requires n <= |corpus| == |docs|
    requires 0.0 < avg && 0.0 <= k1 && 0.0 <= b <= 1.0
    ensures |r| <= n
    ensures forall p :: p in r ==> Epsilon < p.0
  {
    if n == 0 then []
    else
      var s := Bm25Score(query, corpus[n - 1], idf, avg, k1, b);
      RawScores(query, corpus, docs, idf, avg, k1, b, n - 1) + (if s > Epsilon then [(s, docs[n - 1])] else [])
  }

  /** The raw scores only ever name documents of the corpus. */
  lemma {:induction false} RawScoresAreStored(query: seq<string>, corpus: seq<seq<string>>, docs: seq<Document>,
                                              idf: map<string, real>, avg: real, k1: real, b: real, n: nat)
    requires n <= |corpus| == |docs|
    requires 0.0 < avg && 0.0 <= k1 && 0.0 <= b <= 1.0
    ensures forall p :: p in RawScores(query, corpus, docs, idf, avg, k1, b, n) ==> p.1 in docs
  {
    if n > 0 {
      RawScoresAreStored(query, corpus, docs, idf, avg, k1, b, n - 1);
    }
  }

  /** What `search` returns once the raw scores are known: some top-k of them by descending raw
      score, mapped through `exp(-factor * raw)` and re-sorted by that value. */
  ghost predicate IsNormalizedTopK(r: seq<(Document, real)>, raw: seq<(real, Document)>, k: nat,
                                   m: Libm, factor: real) {
    exists picks: seq<nat> :: IsNormalizedSelection(r, picks, raw, k, m, factor)
  }

  /** `r` is the selection of `raw` at positions `picks`, normalised and sorted ascending. */
  ghost predicate IsNormalizedSelection(r: seq<(Document, real)>, picks: seq<nat>,
                                        raw: seq<(real, Document)>, k: nat, m: Libm, factor: real) {
    && (forall i :: 0 <= i < |picks| ==> picks[i] < |raw|)
    && var top := Pick(raw, picks);
       IsTopK(top, raw, ByNegatedRaw, k) &&
       multiset(r) == multiset(Normalize(m, factor, top)) && SortedBy(r, ByNormalized)
  }

  /** A normalised ranking holds only documents that have a raw score. */
  lemma NormalizedDocsFromRaw(r: seq<(Document, real)>, raw: seq<(real, Document)>, k: nat, m: Libm,
                              factor: real, docs: seq<Document>)
    requires IsNormalizedTopK(r, raw, k, m, factor)
    requires forall p :: p in raw ==> p.1 in docs
    ensures forall p :: p in r ==> p.0 in docs
  {
    var picks: seq<nat> :| IsNormalizedSelection(r, picks, raw, k, m, factor);
    var top := Pick(raw, picks);
    var nt := Normalize(m, factor, top);
    forall p | p in r ensures p.0 in docs {
      assert p in multiset(r);
      assert p in multiset(nt);
      var i :| 0 <= i < |nt| && nt[i] == p;
      assert top[i] in multiset(top);
      assert top[i] in multiset(raw);
      assert top[i] in raw;
    }
  }

  /** The elements of `s` at the given positions. */
  function Pick<X>(s: seq<X>, picks: seq<nat>): (r: seq<X>)
    requires forall i :: 0 <= i < |picks| ==> picks[i] < |s|
    ensures |r| == |picks|
  {
    seq(|picks|, i requires 0 <= i < |picks| => s[picks[i]])
  }

  /** Positions in `s` of the elements of `top`. */
  ghost function Positions<X>(top: seq<X>, s: seq<X>): (picks: seq<nat>)
    requires forall x :: x in top ==> x in s
    ensures |picks| == |top|
    ensures forall i :: 0 <= i < |picks| ==> picks[i] < |s| && s[picks[i]] == top[i]
  {
    if top == [] then []
    else
      assert top[0] in top;
      assert forall x :: x in top[1..] ==> x in top;
      var j :| 0 <= j < |s| && s[j] == top[0];
      [j] + Positions(top[1..], s)
  }

  lemma PickPositions<X>(top: seq<X>, s: seq<X>)
    requires multiset(top) <= multiset(s)
    ensures forall x :: x in top ==> x in s
    ensures Pick(s, Positions(top, s)) == top
  {
    forall x | x in top ensures x in s {
      assert x in multiset(top);
    }
  }

  /** With a positive normalisation factor every returned score lies strictly between 0 and 1, and
      a smaller value means a larger raw score. */
  lemma NormalizedScoresInUnitInterval(r: seq<(Document, real)>, raw: seq<(real, Document)>, k: nat,
                                       m: Libm, factor: real)
    requires m.Sound() && 0.0 < factor
    requires forall p :: p in raw ==> Epsilon < p.0
    requires IsNormalizedTopK(r, raw, k, m, factor)
    ensures |r| == Min(k, |raw|)
    ensures forall p :: p in r ==> 0.0 < p.1 < 1.0
  {
    var picks: seq<nat> :| IsNormalizedSelection(r, picks, raw, k, m, factor);
    var top := Pick(raw, picks);
    var nt := Normalize(m, factor, top);
    assert |r| == |multiset(r)| == |nt|;
    forall p | p in r ensures 0.0 < p.1 < 1.0 {
      assert p in multiset(nt);
      var i :| 0 <= i < |nt| && nt[i] == p;
      assert top[i] in multiset(top);
      assert top[i] in multiset(raw);
      assert top[i] in raw;
      FactorTimesPositive(factor, top[i].0);
    }
  }

  lemma FactorTimesPositive(f: real, x: real)
    requires 0.0 < f && 0.0 < x
    ensures -f * x < 0.0
  {
    PositiveProduct(f, x);
  }

  /** A lower normalised score means a higher raw score: `exp(-factor * raw)` is strictly decreasing
      in `raw` for a positive factor. */
  lemma NormalizationReversesOrder(m: Libm, factor: real, raw1: real, raw2: real)
    requires m.Sound() && 0.0 < factor
    ensures m.exp(-factor * raw1) < m.exp(-factor * raw2) <==> raw2 < raw1
  {
    if raw2 < raw1 {
      ScaleStrict(factor, raw2, raw1);
    } else if raw1 < raw2 {
      ScaleStrict(factor, raw1, raw2);
    }
  }

  lemma ScaleStrict(f: real, x: real, y: real)
    requires 0.0 < f && x < y
    ensures -f * y < -f * x
  {
    PositiveProduct(f, y - x);
  }

  // ---------------------------------------------------------------------------------------------
  // The index

  class BM25Index {
    var documents: seq<Document>
    var corpusTokens: seq<seq<string>>
    var docLen: seq<nat>
    var docFreqs: map<string, nat>
    var avgDocLen: real
    var idf: map<string, real>
    var indexBuilt: bool
    const k1: real
    const b: real
    const tokenizer: string -> seq<string>
    const libm: Libm

    /** The three per-document arrays grow in lockstep, the frequency table always matches the
        token lists, and a built index holds the average length and the idf table of the current
        corpus. */
    ghost predicate Valid()
      reads this
    {
      && 0.0 <= k1 && 0.0 <= b <= 1.0
      && |documents| == |corpusTokens| == |docLen|
      && (forall i :: 0 <= i < |docLen| ==> docLen[i] == |corpusTokens[i]|)
      && docFreqs == DocFreqs(corpusTokens)
      && 0.0 <= avgDocLen
      && (indexBuilt ==> avgDocLen == AvgLen(docLen) && idf == IdfTable(libm, |documents|, docFreqs))
    }

    /** `BM25Index.new(k1:, b:, tokenizer:)`, the default tokenizer standing in for a missing one. */
    constructor (k1: real, b: real, tokenizer: Option<string -> seq<string>>, libm: Libm)
      requires libm.Sound() && 0.0 <= k1 && 0.0 <= b <= 1.0
      ensures Valid()
      ensures documents == [] && corpusTokens == [] && docLen == [] && docFreqs == map[]
      ensures avgDocLen == 0.0 && idf == map[] && !indexBuilt
      ensures this.tokenizer == (if tokenizer.Some? then tokenizer.value else DefaultTokenizer)
      ensures this.k1 == k1 && this.b == b && this.libm == libm
    {
      documents := [];
      corpusTokens := [];
      docLen := [];
      docFreqs := map[];
      avgDocLen := 0.0;
      idf := map[];
      indexBuilt := false;
      this.k1 := k1;
      this.b := b;
      var chosen: string -> seq<string> := DefaultTokenizer;
      if tokenizer.Some? {
        chosen := tokenizer.value;
      }
      this.tokenizer := chosen;
      this.libm := libm;
    }

    /** `update_stats_add`: records the document length and counts each distinct token of the
        document once in the frequency table. */
    method UpdateStatsAdd(tokens: seq<string>)
      modifies this
      ensures docLen == old(docLen) + [|tokens|]
      ensures docFreqs == BumpAll(old(docFreqs), Terms(tokens))
      ensures !indexBuilt
      ensures documents == old(documents) && corpusTokens == old(corpusTokens)
      ensures avgDocLen == old(avgDocLen) && idf == old(idf)
    {
      docLen := docLen + [|tokens|];
      var freqs := docFreqs;
      var seen: set<string> := {};
      for i := 0 to |tokens|
        invariant seen == Terms(tokens[..i])
        invariant freqs == BumpAll(docFreqs, seen)
        modifies {}
      {
        var token := tokens[i];
        TermsSnoc(tokens, i);
        if token !in seen {
          BumpOneMore(docFreqs, seen, token);
          freqs := freqs[token := (if token in freqs then freqs[token] else 0) + 1];
          seen := seen + {token};
        }
      }
      assert tokens[..|tokens|] == tokens;
      docFreqs := freqs;
      indexBuilt := false;
    }

    /** The content `add_document` indexes: a missing key raises, nil or false stands for "", and
        any other non-string raises. */
    static function SingleContent(fields: map<string, Value>): (r: Result<string, Error>)
      ensures r.Failure? ==> r.error == (if "content" !in fields then MissingContent else ContentNotString)
      ensures r.Success? <==> "content" in fields && (fields["content"].Str? || !fields["content"].Truthy())
      ensures r.Success? && fields["content"].Str? ==> r.value == fields["content"].s
      ensures r.Success? && !fields["content"].Truthy() ==> r.value == ""
    {
      if "content" !in fields then Failure(MissingContent)
      else
        var c := fields["content"];
        if !c.Truthy() then Success("")
        else if c.Str? then Success(c.s)
        else Failure(ContentNotString)
    }

    /** `add_document`: appends the document, its tokens and its length, updates the frequency
        table and marks the index unbuilt; a rejected document changes nothing. */
    method AddDocument(document: Document) returns (r: Outcome<Error>)
      requires Valid() && libm.Sound()
      modifies this
      ensures Valid()
      ensures r.Pass? <==> SingleContent(document.fields).Success?
      ensures r.Fail? ==> r.error == SingleContent(document.fields).error
      ensures r.Pass? ==>
                var tokens := tokenizer(SingleContent(document.fields).value);
                && documents == old(documents) + [document]
                && corpusTokens == old(corpusTokens) + [tokens]
                && docLen == old(docLen) + [|tokens|]
                && !indexBuilt
      ensures r.Fail? ==> documents == old(documents) && corpusTokens == old(corpusTokens) &&
                          docLen == old(docLen) && indexBuilt == old(indexBuilt)
    {
      var content := SingleContent(document.fields);
      if content.Failure? {
        return Fail(content.error);
      }
      var tokens := tokenizer(content.value);
      Append(document, tokens);
      return Pass;
    }

    /** The three appends and `update_stats_add` shared by both add methods. */
    method Append(document: Document, tokens: seq<string>)
      requires Valid() && libm.Sound()
      modifies this
      ensures Valid()
      ensures documents == old(documents) + [document]
      ensures corpusTokens == old(corpusTokens) + [tokens]
      ensures docLen == old(docLen) + [|tokens|]
      ensures !indexBuilt
    {
      documents := documents + [document];
      corpusTokens := corpusTokens + [tokens];
      assert corpusTokens[..|corpusTokens| - 1] == old(corpusTokens);
      UpdateStatsAdd(tokens);
    }

    /** What `add_documents` answers for `docs`, with the number of documents it adds: all of them
        when every content is a string, otherwise those before the first rejected one. */
    static ghost function BatchVerdict(docs: seq<Document>): (Outcome<Error>, nat)
      reads docs
    {
      match BatchCheck(FieldsOf(docs))
      case Success(_) => (Pass, |docs|)
      case Failure(e) => (Fail(e), AcceptedPrefix(FieldsOf(docs)))
    }

    /** `add_documents`: an empty batch returns at once; otherwise each document is checked and
        added in turn, so a rejected document stops the batch after the earlier ones were added.
        `added` counts the documents that were. A nil content is rejected here, unlike in
        `add_document`. */
    method AddDocuments(docs: seq<Document>) returns (r: Outcome<Error>, ghost added: nat)
      requires Valid() && libm.Sound()
      modifies this
      ensures Valid()
      ensures r.Pass? <==> BatchCheck(old(FieldsOf(docs))).Success?
      ensures r.Fail? ==> r.error == BatchCheck(old(FieldsOf(docs))).error
      ensures r.Pass? ==> added == |docs|
      ensures r.Fail? ==> added < |docs| && ContentOf(old(docs[added].fields)) == Failure(r.error)
      ensures added <= |docs| && BatchCheck(old(FieldsOf(docs))[..added]).Success?
      ensures documents == old(documents) + docs[..added]
      ensures corpusTokens == old(corpusTokens) + Tokenized(BatchCheck(old(FieldsOf(docs))[..added]).value)
      ensures added == 0 ==> indexBuilt == old(indexBuilt)
      ensures added > 0 ==> !indexBuilt
      ensures (r, added) == old(BatchVerdict(docs))
    {
      var contents, failure := CheckBatch(docs);
      ghost var rows := FieldsOf(docs);
      forall i | 0 <= i < |contents|
        ensures ContentOf(rows[i]).Success?
      {
        assert rows[..|contents|][i] == rows[i];
      }
      AcceptedPrefixUnique(rows, |contents|);
      var tokens := TokenizeAll(contents);
      added := |contents|;
      AppendAll(docs[..|contents|], tokens);
      r := if failure.Some? then Fail(failure.value) else Pass;
    }

    /** The tokenizer applied to each accepted content, in order. */
    method TokenizeAll(contents: seq<string>) returns (tokens: seq<seq<string>>)
      ensures tokens == Tokenized(contents)
    {
      tokens := [];
      for i := 0 to |contents|
        invariant tokens == Tokenized(contents[..i])
      {
        TokenizedSnoc(contents[..i], contents[i]);
        PrefixSnoc(contents, i);
        tokens := tokens + [tokenizer(contents[i])];
      }
      assert contents[..|contents|] == contents;
    }

    /** The appends of `add_documents`, one document after the other. */
    method AppendAll(docs: seq<Document>, tokens: seq<seq<string>>)
      requires Valid() && libm.Sound()
      requires |docs| == |tokens|
      modifies this
      ensures Valid()
      ensures documents == old(documents) + docs
      ensures corpusTokens == old(corpusTokens) + tokens
      ensures docs == [] ==> indexBuilt == old(indexBuilt)
      ensures docs != [] ==> !indexBuilt
    {
      for i := 0 to |docs|
        invariant Valid()
        invariant documents == old(documents) + docs[..i]
        invariant corpusTokens == old(corpusTokens) + tokens[..i]
        invariant i == 0 ==> indexBuilt == old(indexBuilt)
        invariant i > 0 ==> !indexBuilt
      {
        Append(docs[i], tokens[i]);
        PrefixSnoc(docs, i);
        PrefixSnoc(tokens, i);
      }
      assert docs[..|docs|] == docs;
      assert tokens[..|tokens|] == tokens;
    }

    lemma TokenizedSnoc(contents: seq<string>, c: string)
      ensures Tokenized(contents + [c]) == Tokenized(contents) + [tokenizer(c)]
    {
      assert (contents + [c])[..|contents|] == contents;
    }

    /** The token lists of a batch of contents. */
    function Tokenized(contents: seq<string>): (r: seq<seq<string>>)
      ensures |r| == |contents|
      ensures forall i :: 0 <= i < |contents| ==> r[i] == tokenizer(contents[i])
    {
      if contents == [] then []
      else Tokenized(contents[..|contents| - 1]) + [tokenizer(contents[|contents| - 1])]
    }

    /** `calculate_idf`: one idf entry per term of the frequency table, computed from the current
        document count. */
    method CalculateIdf()
      modifies this
      ensures idf == IdfTable(libm, |documents|, docFreqs)
      ensures documents == old(documents) && corpusTokens == old(corpusTokens) && docLen == old(docLen)
      ensures docFreqs == old(docFreqs) && avgDocLen == old(avgDocLen) && indexBuilt == old(indexBuilt)
    {
      var n := |documents|;
      var table: map<string, real> := map[];
      var remaining := docFreqs.Keys;
      while remaining != {}
        invariant remaining <= docFreqs.Keys
        invariant table == map t | t in docFreqs.Keys - remaining :: Idf(libm, n, docFreqs[t])
        decreases remaining
      {
        var term :| term in remaining;
        table := table[term := Idf(libm, n, docFreqs[term])];
        remaining := remaining - {term};
      }
      idf := table;
    }

    /** `build_index`: average length and idf of the current corpus, and the flag set. */
    method BuildIndex()
      requires Valid() && libm.Sound()
      modifies this
      ensures Valid() && indexBuilt
      ensures avgDocLen == AvgLen(docLen) && idf == IdfTable(libm, |documents|, docFreqs)
      ensures documents == old(documents) && corpusTokens == old(corpusTokens) && docLen == old(docLen)
      ensures docFreqs == old(docFreqs)
    {
      if documents == [] {
        avgDocLen := 0.0;
        idf := map[];
        indexBuilt := true;
        return;
      }
      avgDocLen := Sum(docLen) as real / |documents| as real;
      NonNegativeRatio(Sum(docLen) as real, |documents| as real);
      CalculateIdf();
      indexBuilt := true;
    }

    /** `compute_bm25_score` for document `i`. */
    method ComputeScore(query: seq<string>, i: nat) returns (score: real)
      requires 0.0 <= k1 && 0.0 <= b <= 1.0 && 0.0 < avgDocLen
      requires i < |corpusTokens| == |docLen| && docLen[i] == |corpusTokens[i]|
      ensures score == Bm25Score(query, corpusTokens[i], idf, avgDocLen, k1, b)
    {
      score := 0.0;
      var docTokens := corpusTokens[i];
      var counts := multiset(docTokens);
      var docLength := docLen[i];
      for j := 0 to |query|
        invariant score == Bm25Score(query[..j], docTokens, idf, avgDocLen, k1, b)
      {
        var token := query[j];
        ScoreStep(query, j, docTokens, idf, avgDocLen, k1, b);
        if token in idf {
          var termFreq := counts[token] as real;
          score := score + Contribution(idf[token], termFreq, docLength, avgDocLen, k1, b);
        }
      }
      assert query[..|query|] == query;
    }

    /** `search`: `[]` on an empty index whatever the query and `k`; otherwise a non-string query
        and `k <= 0` raise, the index is built if it is not, and the ranking is done on the built
        index. */
    method Search(query: Query, k: int, factor: real) returns (r: Result<seq<(Document, real)>, Error>)
      requires Valid() && libm.Sound()
      modifies this
      ensures Valid()
      ensures documents == old(documents) && corpusTokens == old(corpusTokens) && docLen == old(docLen)
      ensures docFreqs == old(docFreqs)
      ensures old(documents) == [] ==> r == Success([]) && indexBuilt == old(indexBuilt)
      ensures old(documents) != [] && !query.Text? ==> r == Failure(UnsupportedQuery)
      ensures old(documents) != [] && query.Text? && k <= 0 ==> r == Failure(NonPositiveK)
      ensures old(documents) != [] && query.Text? && k > 0 ==>
                indexBuilt && r.Success? && IsRanking(r.value, query.text, k, factor)
      ensures !(old(documents) != [] && query.Text? && k > 0) ==> indexBuilt == old(indexBuilt)
      ensures Answers(query, k, factor, r)
    {
      if documents == [] {
        return Success([]);
      }
      if !query.Text? {
        return Failure(UnsupportedQuery);
      }
      if k <= 0 {
        return Failure(NonPositiveK);
      }
      if !indexBuilt {
        BuildIndex();
      }
      var ranked := RankBuilt(query.text, k, factor);
      return Success(ranked);
    }

    /** The answer `search` has given for `query` and `k`, stated on the state it leaves (the
        documents are the same before and after). */
    ghost predicate Answers(query: Query, k: int, factor: real, r: Result<seq<(Document, real)>, Error>)
      reads this
      requires Valid() && libm.Sound()
    {
      if documents == [] then r == Success([])
      else if !query.Text? then r == Failure(UnsupportedQuery)
      else if k <= 0 then r == Failure(NonPositiveK)
      else indexBuilt && r.Success? && IsRanking(r.value, query.text, k, factor)
    }

    /** Every document a search returns is a stored one. */
    lemma AnswersAreStored(query: Query, k: int, factor: real, r: seq<(Document, real)>)
      requires Valid() && libm.Sound() && Answers(query, k, factor, Success(r))
      ensures forall p :: p in r ==> p.0 in documents
    {
      if documents != [] {
        var qt := tokenizer(query.text);
        if avgDocLen != 0.0 && qt != [] {
          RawScoresAreStored(qt, corpusTokens, documents, idf, avgDocLen, k1, b, |documents|);
          NormalizedDocsFromRaw(r, RawScores(qt, corpusTokens, documents, idf, avgDocLen, k1, b, |documents|),
                                k, libm, factor, documents);
        }
      }
    }

    /** The ranking `search` computes on a built, non-empty index. */
    ghost predicate IsRanking(r: seq<(Document, real)>, text: string, k: nat, factor: real)
      reads this
      requires Valid() && libm.Sound()
    {
      var qt := tokenizer(text);
      if avgDocLen == 0.0 || qt == [] then r == []
      else IsNormalizedTopK(r, RawScores(qt, corpusTokens, documents, idf, avgDocLen, k1, b, |documents|),
                            k, libm, factor)
    }

    /** The part of `search` after the build: `[]` for an all-empty corpus or a query without
        tokens; otherwise every document with a raw score above 1e-9, sorted by descending score,
        cut to `k`, normalised and re-sorted ascending. */
    method RankBuilt(text: string, k: nat, factor: real) returns (r: seq<(Document, real)>)
      requires Valid() && libm.Sound() && indexBuilt && documents != []
      ensures IsRanking(r, text, k, factor)
    {
      if avgDocLen == 0.0 {
        return [];
      }
      var queryTokens := tokenizer(text);
      if queryTokens == [] {
        return [];
      }
      var rawScores := ScoreAll(queryTokens);
      var top := SortedPrefix(rawScores, ByNegatedRaw, k);
      var normalized := NormalizeAll(libm, factor, top);
      r := SortBy(normalized, ByNormalized);
      SelectionIsNormalizedTopK(r, top, rawScores, k, libm, factor);
    }

    /** The scoring loop of `search`: every document scored, those above 1e-9 kept in order. */
    method ScoreAll(queryTokens: seq<string>) returns (rawScores: seq<(real, Document)>)
      requires Valid() && libm.Sound() && 0.0 < avgDocLen
      ensures rawScores == RawScores(queryTokens, corpusTokens, documents, idf, avgDocLen, k1, b, |documents|)
    {
      rawScores := [];
      for i := 0 to |documents|
        invariant rawScores == RawScores(queryTokens, corpusTokens, documents, idf, avgDocLen, k1, b, i)
      {
        var rawScore := ComputeScore(queryTokens, i);
        if rawScore > Epsilon {
          rawScores := rawScores + [(rawScore, documents[i])];
        }
      }
    }
  }

  /** The normalisation loop of `search`: `exp(-factor * raw)` for each kept pair, in order. */
  method NormalizeAll(m: Libm, factor: real, top: seq<(real, Document)>) returns (normalized: seq<(Document, real)>)
    ensures normalized == Normalize(m, factor, top)
  {
    normalized := [];
    for i := 0 to |top|
      invariant |normalized| == i
      invariant forall j :: 0 <= j < i ==> normalized[j] == Rescore(m, factor, top[j])
    {
      normalized := normalized + [Rescore(m, factor, top[i])];
    }
  }

  /** A top-k of the raw scores, normalised and sorted, is a ranking in the sense of
      `IsNormalizedTopK`. */
  lemma SelectionIsNormalizedTopK(r: seq<(Document, real)>, top: seq<(real, Document)>,
                                  raw: seq<(real, Document)>, k: nat, m: Libm, factor: real)
    requires IsTopK(top, raw, ByNegatedRaw, k)
    requires multiset(r) == multiset(Normalize(m, factor, top)) && SortedBy(r, ByNormalized)
    ensures IsNormalizedTopK(r, raw, k, m, factor)
  {
    PickPositions(top, raw);
    assert IsNormalizedSelection(r, Positions(top, raw), raw, k, m, factor);
  }

}

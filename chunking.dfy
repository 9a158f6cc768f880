/** The three text chunkers of the retrieval chapter: a fixed character window with overlap
    (`chunk_by_char`), a window of sentences with overlap (`chunk_by_sentence`) and a split on
    second-level Markdown headings (`chunk_by_section`). */
module Chunking {
  import opened Wrappers
  import opened Strings

  // ---------------------------------------------------------------------------------------
  // Windows over a sequence
  // ---------------------------------------------------------------------------------------

  /** The end Ruby's `s[start...e]` cuts at when `e` is the smaller of `start + size` and `n`:
      an end below zero counts from the back. */
  function SliceEnd(n: int, start: int, size: int): int {
    var e := Min(start + size, n);
    if e < 0 then e + n else e
  }

  /** Ruby's `s[start...[start + size, s.length].min]` for `0 <= start <= |s|`: the items from
      `start` up to the slice end, none when that end is not after `start`. A negative `size`
      thus gives the empty window, except when `start + size` is negative and counts from the
      back of `s`. */
  function Window<T>(s: seq<T>, start: int, size: int): (r: seq<T>)
    requires 0 <= start <= |s|
    ensures 0 <= size ==> |r| == Min(size, |s| - start)
    ensures size < 0 ==> |r| == if start + size < 0 then Max(|s| + size, 0) else 0
    ensures |r| <= if 0 <= size then size else Max(|s| + size, 0)
    ensures forall i :: 0 <= i < |r| ==> r[i] == s[start + i]
  {
    var stop := SliceEnd(|s|, start, size);
    if stop <= start then [] else s[start..stop]
  }

  /** Where window `i` starts relative to the first one: `i` steps of `size - overlap`, spelled
      out as repeated additions so that the window lemmas stay linear. */
  function WindowStart(i: nat, size: int, overlap: int): int {
    if i == 0 then 0 else WindowStart(i - 1, size, overlap) + (size - overlap)
  }

  lemma {:induction false} WindowStartIsProduct(i: nat, size: int, overlap: int)
    ensures WindowStart(i, size, overlap) == i * (size - overlap)
  {
    if i > 0 {
      WindowStartIsProduct(i - 1, size, overlap);
    }
  }

  /** The parameters for which `chunk_by_char`'s loop ends on a text of length `n`: either the
      window moves forward (`overlap < size`) or the first window already reaches the end. */
  predicate Advances(n: int, size: int, overlap: int) {
    overlap < size || n <= Max(size, 0)
  }

  /** The windows `chunk_by_char` cuts from `s` once its start index is `start`: the next
      window starts `overlap` items before the end of this one, and the scan stops as soon as
      a window reaches the end of `s`. */
  function Windows<T>(s: seq<T>, size: int, overlap: int, start: nat): (r: seq<seq<T>>)
    requires Advances(|s|, size, overlap)
    decreases |s| - start
    ensures r == [] <==> |s| <= start
  {
    if start >= |s| then []
    else
      var stop := Min(start + size, |s|);
      [Window(s, start, size)] + Windows(s, size, overlap, if stop < |s| then stop - overlap else |s|)
  }

  /** The scan from `start` cuts the window at `start` and then goes on from the next start. */
  lemma WindowsUnfold<T>(s: seq<T>, size: int, overlap: int, start: nat)
    requires Advances(|s|, size, overlap) && start < |s|
    ensures Min(start + size, |s|) < |s| ==> overlap < size
    ensures var stop := Min(start + size, |s|);
      var next := if stop < |s| then start + size - overlap else |s|;
      && start < next
      && Windows(s, size, overlap, start) == [Window(s, start, size)] + Windows(s, size, overlap, next)
  {
  }

  /** Window `i` of the scan from `start` begins `WindowStart(i, size, overlap)` after `start`,
      inside `s`, and unless it is the last window it stops short of the end of `s`. */
  lemma {:induction false} WindowAt<T>(s: seq<T>, size: int, overlap: int, start: nat, i: nat)
    requires Advances(|s|, size, overlap) && i < |Windows(s, size, overlap, start)|
    ensures 0 <= start + WindowStart(i, size, overlap) < |s|
    ensures Windows(s, size, overlap, start)[i] == Window(s, start + WindowStart(i, size, overlap), size)
    ensures i < |Windows(s, size, overlap, start)| - 1 ==> start + WindowStart(i, size, overlap) + size < |s|
    decreases |s| - start
  {
    var stop := Min(start + size, |s|);
    var next := if stop < |s| then start + size - overlap else |s|;
    WindowsUnfold(s, size, overlap, start);
    var rest := Windows(s, size, overlap, next);
    if i > 0 {
      assert Windows(s, size, overlap, start)[i] == rest[i - 1];
      WindowAt(s, size, overlap, next, i - 1);
      assert stop < |s|;
      assert start + WindowStart(i, size, overlap) == next + WindowStart(i - 1, size, overlap);
    } else if stop == |s| {
      assert rest == [];
    }
  }

  /** With a non-negative overlap the last window reaches the end of `s`. */
  lemma {:induction false} WindowsReachEnd<T>(s: seq<T>, size: int, overlap: int, start: nat)
    requires Advances(|s|, size, overlap) && 0 <= overlap && start < |s|
    ensures var w := Windows(s, size, overlap, start);
      0 < |w| && |s| <= start + WindowStart(|w| - 1, size, overlap) + size
    decreases |s| - start
  {
    var stop := Min(start + size, |s|);
    var next := if stop < |s| then start + size - overlap else |s|;
    WindowsUnfold(s, size, overlap, start);
    if stop < |s| {
      WindowsReachEnd(s, size, overlap, next);
      assert |Windows(s, size, overlap, next)| > 0;
    } else {
      assert Windows(s, size, overlap, next) == [];
    }
  }

  /** Window `i` starts at `start + WindowStart(i, size, overlap)` and lies inside `s`; every window
      but the last stops short of the end of `s`; with a non-negative overlap the last one reaches it. */
  lemma {:induction false} WindowsShape<T>(s: seq<T>, size: int, overlap: int, start: nat)
    requires Advances(|s|, size, overlap)
    ensures |Windows(s, size, overlap, start)| == 0 <==> start >= |s|
    ensures forall i: nat :: i < |Windows(s, size, overlap, start)| ==>
      && 0 <= start + WindowStart(i, size, overlap) < |s|
      && Windows(s, size, overlap, start)[i] == Window(s, start + WindowStart(i, size, overlap), size)
    ensures forall i: nat :: i < |Windows(s, size, overlap, start)| - 1 ==>
      start + WindowStart(i, size, overlap) + size < |s|
    ensures 0 < |Windows(s, size, overlap, start)| && 0 <= overlap ==>
      |s| <= start + WindowStart(|Windows(s, size, overlap, start)| - 1, size, overlap) + size
  {
    if start < |s| && 0 <= overlap {
      WindowsReachEnd(s, size, overlap, start);
    }
    WindowsEach(s, size, overlap, start);
  }

  /** The per-window part of `WindowsShape`. */
  lemma {:induction false} WindowsEach<T>(s: seq<T>, size: int, overlap: int, start: nat)
    requires Advances(|s|, size, overlap)
    ensures forall i: nat :: i < |Windows(s, size, overlap, start)| ==>
      && 0 <= start + WindowStart(i, size, overlap) < |s|
      && Windows(s, size, overlap, start)[i] == Window(s, start + WindowStart(i, size, overlap), size)
    ensures forall i: nat :: i < |Windows(s, size, overlap, start)| - 1 ==>
      start + WindowStart(i, size, overlap) + size < |s|
  {
    var w := Windows(s, size, overlap, start);
    forall i: nat | i < |w|
      ensures 0 <= start + WindowStart(i, size, overlap) < |s| && w[i] == Window(s, start + WindowStart(i, size, overlap), size)
      ensures i < |w| - 1 ==> start + WindowStart(i, size, overlap) + size < |s|
    {
      WindowAt(s, size, overlap, start, i);
    }
  }

  /** With a positive size every window is non-empty and holds at most `size` items. */
  lemma WindowsSizes<T>(s: seq<T>, size: int, overlap: int)
    requires 0 < size && Advances(|s|, size, overlap)
    ensures forall i :: 0 <= i < |Windows(s, size, overlap, 0)| ==> 0 < |Windows(s, size, overlap, 0)[i]| <= size
  {
    WindowsShape(s, size, overlap, 0);
  }

  /** A sequence of strings glued back together: the first chunk whole, each later chunk minus
      its first `overlap` characters. */
  function Reassemble<T>(chunks: seq<seq<T>>, overlap: nat): seq<T> {
    if chunks == [] then [] else chunks[0] + Tails(chunks[1..], overlap)
  }

  function Tails<T>(chunks: seq<seq<T>>, overlap: nat): seq<T> {
    if chunks == [] then []
    else (if overlap <= |chunks[0]| then chunks[0][overlap..] else []) + Tails(chunks[1..], overlap)
  }

  /** The tails of the windows after the one at `start` are exactly the rest of `s`. */
  lemma {:induction false} TailsAfter<T>(s: seq<T>, size: int, overlap: nat, start: nat)
    requires overlap < size && start < |s|
    ensures var w := Windows(s, size, overlap, start);
      |w| > 0 && Tails(w[1..], overlap) == s[Min(start + size, |s|)..]
    decreases |s| - start
  {
    var stop := Min(start + size, |s|);
    var w := Windows(s, size, overlap, start);
    if stop < |s| {
      var next := stop - overlap;
      WindowsUnfold(s, size, overlap, start);
      var rest := Windows(s, size, overlap, next);
      assert w[1..] == rest;
      TailsAfter(s, size, overlap, next);
      WindowsUnfold(s, size, overlap, next);
      TailsStep(s, rest, overlap, next, stop, Min(next + size, |s|));
    } else {
      assert w[1..] == Windows(s, size, overlap, |s|) == [];
    }
  }

  /** One step of `TailsAfter`: a window starting `overlap` before `stop`, followed by tails that
      cover the text from the window's end, covers the text from `stop`. */
  lemma TailsStep<T>(s: seq<T>, rest: seq<seq<T>>, overlap: nat, next: nat, stop: nat, stop': nat)
    requires next + overlap == stop <= stop' <= |s|
    requires |rest| > 0 && rest[0] == s[next..stop'] && Tails(rest[1..], overlap) == s[stop'..]
    ensures Tails(rest, overlap) == s[stop..]
  {
    assert rest[0][overlap..] == s[stop..stop'];
    assert s[stop..] == s[stop..stop'] + s[stop'..];
  }

  /** Round trip: for `0 <= overlap < size`, the first chunk followed by every later chunk minus
      its overlap rebuilds the input. */
  lemma WindowsRoundTrip<T>(s: seq<T>, size: int, overlap: nat)
    requires overlap < size
    ensures Reassemble(Windows(s, size, overlap, 0), overlap) == s
  {
    var w := Windows(s, size, overlap, 0);
    if |s| > 0 {
      TailsAfter(s, size, overlap, 0);
      assert w[0] == s[..Min(size, |s|)];
      assert s == s[..Min(size, |s|)] + s[Min(size, |s|)..];
    }
  }

  /** The windows `chunk_by_sentence` cuts as written: the start always advances by
      `size - overlap`, even after a window reached the end. (The loop's reset of a negative
      start to 0 can only fire when the loop never ends.) */
  function SteppedWindows<T>(s: seq<T>, size: int, overlap: int, start: nat): (r: seq<seq<T>>)
    requires overlap < size || |s| == 0
    decreases |s| - start
    ensures r == [] <==> |s| <= start
    ensures |r| <= Max(|s| - start, 0)
  {
    if start >= |s| then []
    else
      [Window(s, start, size)] + SteppedWindows(s, size, overlap, start + size - overlap)
  }

  /** Window `i` of the stepped scan from `start` begins `WindowStart(i, size, overlap)` after
      `start`, inside `s`. */
  lemma {:induction false} SteppedWindowAt<T>(s: seq<T>, size: int, overlap: int, start: nat, i: nat)
    requires (overlap < size || |s| == 0) && i < |SteppedWindows(s, size, overlap, start)|
    ensures 0 <= start + WindowStart(i, size, overlap) < |s|
    ensures SteppedWindows(s, size, overlap, start)[i] == Window(s, start + WindowStart(i, size, overlap), size)
    decreases |s| - start
  {
    var next := start + size - overlap;
    var rest := SteppedWindows(s, size, overlap, next);
    assert SteppedWindows(s, size, overlap, start) == [Window(s, start, size)] + rest;
    if i > 0 {
      assert SteppedWindows(s, size, overlap, start)[i] == rest[i - 1];
      SteppedWindowAt(s, size, overlap, next, i - 1);
      assert start + WindowStart(i, size, overlap) == next + WindowStart(i - 1, size, overlap);
    }
  }

  /** The start after the last window of the stepped scan lies at or beyond the end of `s`. */
  lemma {:induction false} SteppedWindowsPassEnd<T>(s: seq<T>, size: int, overlap: int, start: nat)
    requires (overlap < size || |s| == 0) && start < |s|
    ensures var w := SteppedWindows(s, size, overlap, start);
      0 < |w| && |s| <= start + WindowStart(|w|, size, overlap)
    decreases |s| - start
  {
    var next := start + size - overlap;
    var rest := SteppedWindows(s, size, overlap, next);
    assert SteppedWindows(s, size, overlap, start) == [Window(s, start, size)] + rest;
    if next < |s| {
      SteppedWindowsPassEnd(s, size, overlap, next);
    } else {
      assert rest == [];
    }
  }

  /** Window `i` starts at `start + WindowStart(i, size, overlap)` inside `s`, and the start after the
      last window lies at or beyond the end of `s`. */
  lemma {:induction false} SteppedWindowsShape<T>(s: seq<T>, size: int, overlap: int, start: nat)
    requires overlap < size || |s| == 0
    ensures |SteppedWindows(s, size, overlap, start)| == 0 <==> start >= |s|
    ensures forall i: nat :: i < |SteppedWindows(s, size, overlap, start)| ==>
      && 0 <= start + WindowStart(i, size, overlap) < |s|
      && SteppedWindows(s, size, overlap, start)[i] == Window(s, start + WindowStart(i, size, overlap), size)
    ensures 0 < |SteppedWindows(s, size, overlap, start)| ==>
      |s| <= start + WindowStart(|SteppedWindows(s, size, overlap, start)|, size, overlap)
  {
    if start < |s| {
      SteppedWindowsPassEnd(s, size, overlap, start);
    }
    SteppedWindowsEach(s, size, overlap, start);
  }

  /** The per-window part of `SteppedWindowsShape`. */
  lemma {:induction false} SteppedWindowsEach<T>(s: seq<T>, size: int, overlap: int, start: nat)
    requires overlap < size || |s| == 0
    ensures forall i: nat :: i < |SteppedWindows(s, size, overlap, start)| ==>
      && 0 <= start + WindowStart(i, size, overlap) < |s|
      && SteppedWindows(s, size, overlap, start)[i] == Window(s, start + WindowStart(i, size, overlap), size)
  {
    forall i: nat | i < |SteppedWindows(s, size, overlap, start)|
      ensures && 0 <= start + WindowStart(i, size, overlap) < |s|
              && SteppedWindows(s, size, overlap, start)[i] == Window(s, start + WindowStart(i, size, overlap), size)
    {
      SteppedWindowAt(s, size, overlap, start, i);
    }
  }

  // ---------------------------------------------------------------------------------------
  // chunk_by_char
  // ---------------------------------------------------------------------------------------

  /** `chunk_by_char(text, chunk_size:, chunk_overlap:)`. The loop runs forever unless the
      window advances, hence the precondition. */
  method ChunkByChar(text: string, chunkSize: int, chunkOverlap: int) returns (chunks: seq<string>)
    requires Advances(|text|, chunkSize, chunkOverlap)
    ensures chunks == Windows(text, chunkSize, chunkOverlap, 0)
  {
    chunks := [];
    var start: nat := 0;
    while start < |text|
      invariant chunks + Windows(text, chunkSize, chunkOverlap, start) == Windows(text, chunkSize, chunkOverlap, 0)
      decreases |text| - start
    {
      var stop := Min(start + chunkSize, |text|);
      chunks := chunks + [Window(text, start, chunkSize)];
      start := if stop < |text| then stop - chunkOverlap else |text|;
    }
  }

  /** A window end below zero counts from the back of the text: with size -1 and overlap -2 the
      first chunk of "abc" is "ab" and the two windows after it are empty. */
  lemma NegativeSizeCountsFromBack()
    ensures Windows("abc", -1, -2, 0) == ["ab", "", ""]
  {
    var s := "abc";
    assert Windows(s, -1, -2, 3) == [];
    assert Window(s, 2, -1) == [];
    assert Windows(s, -1, -2, 2) == [[]];
    assert Window(s, 1, -1) == [];
    assert Windows(s, -1, -2, 1) == [[], []];
    assert SliceEnd(3, 0, -1) == 2 && s[0..2] == "ab";
  }

  /** The sentence scan slices the same way: with at most -1 sentences and overlap -2 the first
      window of three sentences holds the first two, and the two windows after it are empty. */
  lemma NegativeMaxCountsFromBack(a: string, b: string, c: string)
    ensures SteppedWindows([a, b, c], -1, -2, 0) == [[a, b], [], []]
  {
    var s := [a, b, c];
    assert SteppedWindows(s, -1, -2, 3) == [];
    assert Window(s, 2, -1) == [];
    assert SteppedWindows(s, -1, -2, 2) == [[]];
    assert Window(s, 1, -1) == [];
    assert SteppedWindows(s, -1, -2, 1) == [[], []];
    assert SliceEnd(3, 0, -1) == 2 && s[0..2] == [a, b];
  }

  // ---------------------------------------------------------------------------------------
  // chunk_by_sentence
  // ---------------------------------------------------------------------------------------

  /** Ruby's `\s`: space, tab, line feed, vertical tab, form feed, carriage return. */
  predicate IsSpace(c: char) {
    c == ' ' || c == '\t' || c == '\n' || c == '\U{000B}' || c == '\U{000C}' || c == '\r'
  }

  predicate IsTerminator(c: char) {
    c == '.' || c == '!' || c == '?'
  }

  /** A match of `(?<=[.!?])\s+` can begin at index `p` of `t`. */
  predicate BreakAt(t: string, p: int) {
    0 < p < |t| && IsTerminator(t[p - 1]) && IsSpace(t[p])
  }

  /** The leftmost sentence break at or after `from`. */
  function FirstBreak(t: string, from: nat): (r: Option<nat>)
    decreases |t| - from
    ensures r.Some? ==> from <= r.value && BreakAt(t, r.value)
    ensures r.Some? ==> forall p :: from <= p < r.value ==> !BreakAt(t, p)
    ensures r.None? ==> forall p :: from <= p ==> !BreakAt(t, p)
  {
    if from >= |t| then None
    else if BreakAt(t, from) then Some(from)
    else FirstBreak(t, from + 1)
  }

  /** The end of the whitespace run that starts at `p` (the greedy `\s+`). */
  function RunEnd(t: string, p: nat): (q: nat)
    requires p <= |t|
    decreases |t| - p
    ensures p <= q <= |t|
    ensures forall j :: p <= j < q ==> IsSpace(t[j])
    ensures q == |t| || !IsSpace(t[q])
  {
    if p < |t| && IsSpace(t[p]) then RunEnd(t, p + 1) else p
  }

  /** The fields of `t.split(/(?<=[.!?])\s+/)` before Ruby drops the trailing empty ones. */
  function SentenceFields(t: string): (r: seq<string>)
    decreases |t|
    ensures |r| > 0
  {
    match FirstBreak(t, 0)
    case None => [t]
    case Some(p) => [t[..p]] + SentenceFields(t[RunEnd(t, p)..])
  }

  /** `text.split(/(?<=[.!?])\s+/)`. */
  function Sentences(t: string): (r: seq<string>)
    ensures |r| <= |SentenceFields(t)| && r == SentenceFields(t)[..|r|]
    ensures r == [] || r[|r| - 1] != []
  {
    DropTrailingEmpty(SentenceFields(t))
  }

  /** A prefix that stops before the first break contains no break. */
  lemma NoBreakInPrefix(t: string, p: nat)
    requires p <= |t| && forall q :: 0 <= q < p ==> !BreakAt(t, q)
    ensures forall q :: !BreakAt(t[..p], q)
  {
    forall q | BreakAt(t[..p], q)
      ensures false
    {
      assert BreakAt(t, q);
    }
  }

  /** Every field but the last is non-empty, and no field contains a sentence break. */
  lemma {:induction false} SentenceFieldsShape(t: string)
    decreases |t|
    ensures forall i :: 0 <= i < |SentenceFields(t)| - 1 ==> SentenceFields(t)[i] != []
    ensures forall i, q :: 0 <= i < |SentenceFields(t)| ==> !BreakAt(SentenceFields(t)[i], q)
  {
    var f := SentenceFields(t);
    match FirstBreak(t, 0)
    case None =>
      assert f == [t];
    case Some(p) =>
      var tail := t[RunEnd(t, p)..];
      var rest := SentenceFields(tail);
      assert f == [t[..p]] + rest;
      NoBreakInPrefix(t, p);
      SentenceFieldsShape(tail);
      forall i | 0 <= i < |f|
        ensures i < |f| - 1 ==> f[i] != []
        ensures forall q :: !BreakAt(f[i], q)
      {
        if i == 0 {
          assert |f[0]| == p > 0;
        } else {
          assert f[i] == rest[i - 1];
        }
      }
  }

  /** Every sentence is non-empty and contains no sentence break. */
  lemma SentencesShape(t: string)
    ensures forall i :: 0 <= i < |Sentences(t)| ==> Sentences(t)[i] != []
    ensures forall i, q :: 0 <= i < |Sentences(t)| ==> !BreakAt(Sentences(t)[i], q)
  {
    SentenceFieldsShape(t);
    var f := SentenceFields(t);
    var r := Sentences(t);
    forall i | 0 <= i < |r|
      ensures r[i] != []
      ensures forall q :: !BreakAt(r[i], q)
    {
      assert r[i] == f[i];
      if i < |r| - 1 {
        assert i < |f| - 1;
      }
    }
  }

  /** Every window of sentences joined with single spaces. */
  function JoinEach(windows: seq<seq<string>>): (r: seq<string>)
    ensures |r| == |windows|
    ensures forall i :: 0 <= i < |r| ==> r[i] == Join(windows[i], " ")
  {
    if windows == [] then [] else [Join(windows[0], " ")] + JoinEach(windows[1..])
  }

  /** One turn of `chunk_by_sentence`'s loop emits the joined window at `start`. */
  lemma SteppedChunkStep(s: seq<string>, size: int, overlap: int, start: nat, next: int, done: seq<string>)
    requires (overlap < size || s == []) && start < |s|
    requires next == start + size - overlap
    ensures start < next
    ensures done + JoinEach(SteppedWindows(s, size, overlap, start))
         == done + [Join(Window(s, start, size), " ")] + JoinEach(SteppedWindows(s, size, overlap, next))
  {
    var rest := SteppedWindows(s, size, overlap, next);
    assert SteppedWindows(s, size, overlap, start) == [Window(s, start, size)] + rest;
    JoinEachCons(Window(s, start, size), rest);
    var chunk, tail := Join(Window(s, start, size), " "), JoinEach(rest);
    assert done + ([chunk] + tail) == done + [chunk] + tail;
  }

  /** One turn of the corrected loop emits the joined window at `start`. */
  lemma WindowedChunkStep(s: seq<string>, size: int, overlap: int, start: nat, next: int, done: seq<string>)
    requires Advances(|s|, size, overlap) && start < |s|
    requires next == if Min(start + size, |s|) < |s| then Min(start + size, |s|) - overlap else |s|
    ensures start < next
    ensures done + JoinEach(Windows(s, size, overlap, start))
         == done + [Join(Window(s, start, size), " ")] + JoinEach(Windows(s, size, overlap, next))
  {
    WindowsUnfold(s, size, overlap, start);
    var rest := Windows(s, size, overlap, next);
    assert Windows(s, size, overlap, start) == [Window(s, start, size)] + rest;
    JoinEachCons(Window(s, start, size), rest);
    var chunk, tail := Join(Window(s, start, size), " "), JoinEach(rest);
    assert done + ([chunk] + tail) == done + [chunk] + tail;
  }

  lemma JoinEachCons(w: seq<string>, rest: seq<seq<string>>)
    ensures JoinEach([w] + rest) == [Join(w, " ")] + JoinEach(rest)
  {
    assert ([w] + rest)[1..] == rest;
  }

  /** `chunk_by_sentence(text, max_sentences_per_chunk:, overlap_sentences:)` as written. The
      loop runs forever on a text with a sentence unless `overlap < max`. */
  method ChunkBySentence(text: string, maxPerChunk: int, overlapSentences: int) returns (chunks: seq<string>)
    requires overlapSentences < maxPerChunk || Sentences(text) == []
    ensures chunks == JoinEach(SteppedWindows(Sentences(text), maxPerChunk, overlapSentences, 0))
  {
    var sentences := Sentences(text);
    chunks := [];
    var start: nat := 0;
    while start < |sentences|
      invariant chunks + JoinEach(SteppedWindows(sentences, maxPerChunk, overlapSentences, start))
             == JoinEach(SteppedWindows(sentences, maxPerChunk, overlapSentences, 0))
      decreases |sentences| - start
    {
      var next := start + maxPerChunk - overlapSentences;
      var chunk := Join(Window(sentences, start, maxPerChunk), " ");
      SteppedChunkStep(sentences, maxPerChunk, overlapSentences, start, next, chunks);
      chunks := chunks + [chunk];
      start := next;
    }
  }

  /** Chunk `i` joins the (at most `max`) sentences starting at `WindowStart(i, max, overlap)`, and
      there are just enough chunks for the starts to pass the last sentence. */
  lemma SentenceChunksShape(sentences: seq<string>, maxPerChunk: int, overlapSentences: int)
    requires overlapSentences < maxPerChunk || sentences == []
    ensures |JoinEach(SteppedWindows(sentences, maxPerChunk, overlapSentences, 0))| == 0 <==> sentences == []
    ensures forall i: nat :: i < |JoinEach(SteppedWindows(sentences, maxPerChunk, overlapSentences, 0))| ==>
      && 0 <= WindowStart(i, maxPerChunk, overlapSentences) < |sentences|
      && JoinEach(SteppedWindows(sentences, maxPerChunk, overlapSentences, 0))[i]
         == Join(Window(sentences, WindowStart(i, maxPerChunk, overlapSentences), maxPerChunk), " ")
      && |Window(sentences, WindowStart(i, maxPerChunk, overlapSentences), maxPerChunk)|
         <= if 0 <= maxPerChunk then maxPerChunk else Max(|sentences| + maxPerChunk, 0)
    ensures 0 < |sentences| ==>
      |sentences| <= WindowStart(|JoinEach(SteppedWindows(sentences, maxPerChunk, overlapSentences, 0))|, maxPerChunk, overlapSentences)
  {
    var w := SteppedWindows(sentences, maxPerChunk, overlapSentences, 0);
    SteppedWindowsShape(sentences, maxPerChunk, overlapSentences, 0);
    var c := JoinEach(w);
    forall i: nat | i < |c|
      ensures c[i] == Join(w[i], " ")
    {
    }
  }

  /** As written, the window start keeps moving after a window reached the last sentence, so a
      trailing chunk can hold nothing but sentences the previous chunk already holds. */
  lemma TrailingChunkIsOnlyOverlap()
    ensures SteppedWindows(["A.", "B."], 2, 1, 0) == [["A.", "B."], ["B."]]
  {
    var s := ["A.", "B."];
    assert SteppedWindows(s, 2, 1, 2) == [];
    assert Window(s, 1, 2) == ["B."];
    assert SteppedWindows(s, 2, 1, 1) == [["B."]];
    assert Window(s, 0, 2) == s;
  }

  /** `chunk_by_sentence` with the loop exit `chunk_by_char` uses: once a window reaches the last
      sentence the scan stops. */
  method ChunkBySentenceCorrected(text: string, maxPerChunk: int, overlapSentences: int) returns (chunks: seq<string>)
    requires Advances(|Sentences(text)|, maxPerChunk, overlapSentences)
    ensures chunks == JoinEach(Windows(Sentences(text), maxPerChunk, overlapSentences, 0))
  {
    var sentences := Sentences(text);
    chunks := [];
    var start: nat := 0;
    while start < |sentences|
      invariant chunks + JoinEach(Windows(sentences, maxPerChunk, overlapSentences, start))
             == JoinEach(Windows(sentences, maxPerChunk, overlapSentences, 0))
      decreases |sentences| - start
    {
      var stop := Min(start + maxPerChunk, |sentences|);
      var next := if stop < |sentences| then stop - overlapSentences else |sentences|;
      var chunk := Join(Window(sentences, start, maxPerChunk), " ");
      WindowedChunkStep(sentences, maxPerChunk, overlapSentences, start, next, chunks);
      chunks := chunks + [chunk];
      start := next;
    }
  }

  /** With the corrected exit every window after the first ends strictly later than the one
      before it, so each chunk brings at least one sentence the previous chunk lacks. */
  lemma WindowsEachReachFurther<T>(s: seq<T>, size: int, overlap: int, i: nat)
    requires overlap < size && 0 < i < |Windows(s, size, overlap, 0)|
    ensures WindowStart(i - 1, size, overlap) + size < Min(WindowStart(i, size, overlap) + size, |s|)
  {
    WindowsShape(s, size, overlap, 0);
    assert WindowStart(i, size, overlap) == WindowStart(i - 1, size, overlap) + (size - overlap);
  }

  // ---------------------------------------------------------------------------------------
  // Parameters with which the chunkers never stop
  // ---------------------------------------------------------------------------------------

  /** `start_idx` of `chunk_by_char` on a text of length `n` after `i` turns of its loop, as
      written; it may fall below zero. */
  function CharStart(n: int, size: int, overlap: int, i: nat): int {
    if i == 0 then 0
    else
      var start := CharStart(n, size, overlap, i - 1);
      var stop := Min(start + size, n);
      if stop < n then stop - overlap else n
  }

  /** As written, a window that cannot advance on a text longer than one window keeps
      `start_idx` at or below zero, so `start_idx < text.length` holds after every turn and the
      loop never ends. */
  lemma {:induction false} CharLoopNeverEnds(n: int, size: int, overlap: int, i: nat)
    requires !Advances(n, size, overlap)
    ensures CharStart(n, size, overlap, i) <= 0 < n
  {
    if i > 0 {
      CharLoopNeverEnds(n, size, overlap, i - 1);
    }
  }

  /** `start_idx` of `chunk_by_sentence` after `i` turns of its loop, as written, with a
      negative start reset to 0. */
  function SentenceStart(maxPerChunk: int, overlapSentences: int, i: nat): int {
    if i == 0 then 0
    else
      var start := SentenceStart(maxPerChunk, overlapSentences, i - 1) + (maxPerChunk - overlapSentences);
      if start < 0 then 0 else start
  }

  /** As written, an overlap of at least the chunk size keeps `start_idx` at 0, so on a text
      with a sentence the loop never ends. */
  lemma {:induction false} SentenceLoopNeverEnds(maxPerChunk: int, overlapSentences: int, i: nat)
    requires maxPerChunk <= overlapSentences
    ensures SentenceStart(maxPerChunk, overlapSentences, i) == 0
  {
    if i > 0 {
      SentenceLoopNeverEnds(maxPerChunk, overlapSentences, i - 1);
    }
  }

  /** Why a checked chunker refuses its parameters. */
  datatype ChunkError = WindowCannotAdvance

  /** `chunk_by_char` with parameters that cannot advance refused instead of looping; all others
      give the chunks of `chunk_by_char`. */
  method ChunkByCharChecked(text: string, chunkSize: int, chunkOverlap: int) returns (r: Result<seq<string>, ChunkError>)
    ensures r.Failure? <==> !Advances(|text|, chunkSize, chunkOverlap)
    ensures r.Success? ==> r.value == Windows(text, chunkSize, chunkOverlap, 0)
  {
    if !Advances(|text|, chunkSize, chunkOverlap) {
      return Failure(WindowCannotAdvance);
    }
    var chunks := ChunkByChar(text, chunkSize, chunkOverlap);
    r := Success(chunks);
  }

  /** `chunk_by_sentence` with an overlap of at least the chunk size refused on a text with
      sentences instead of looping; all other calls give the chunks of `chunk_by_sentence`. */
  method ChunkBySentenceChecked(text: string, maxPerChunk: int, overlapSentences: int)
    returns (r: Result<seq<string>, ChunkError>)
    ensures r.Failure? <==> maxPerChunk <= overlapSentences && Sentences(text) != []
    ensures r.Success? ==> r.value == JoinEach(SteppedWindows(Sentences(text), maxPerChunk, overlapSentences, 0))
  {
    if maxPerChunk <= overlapSentences && Sentences(text) != [] {
      return Failure(WindowCannotAdvance);
    }
    var chunks := ChunkBySentence(text, maxPerChunk, overlapSentences);
    r := Success(chunks);
  }

  // ---------------------------------------------------------------------------------------
  // chunk_by_section
  // ---------------------------------------------------------------------------------------

  const SectionBreak: string := "\n## "

  /** `chunk_by_section(document_text)`: `document_text.split(/\n## /)`. */
  function ChunkBySection(documentText: string): (r: seq<string>)
    ensures |r| <= |SplitOn(documentText, SectionBreak)| && r == SplitOn(documentText, SectionBreak)[..|r|]
    ensures r == [] || r[|r| - 1] != []
  {
    DropTrailingEmpty(SplitOn(documentText, SectionBreak))
  }

  /** The sections are the split fields up to the last non-empty one; joining all the fields with
      "\n## " gives back the document, and no section contains "\n## ". */
  lemma SectionsShape(documentText: string)
    ensures ChunkBySection(documentText) == SplitOn(documentText, SectionBreak)[..|ChunkBySection(documentText)|]
    ensures forall i :: |ChunkBySection(documentText)| <= i < |SplitOn(documentText, SectionBreak)| ==>
      SplitOn(documentText, SectionBreak)[i] == []
    ensures Join(SplitOn(documentText, SectionBreak), SectionBreak) == documentText
    ensures forall i :: 0 <= i < |ChunkBySection(documentText)| ==> !Contains(ChunkBySection(documentText)[i], SectionBreak)
  {
    SplitOnJoin(documentText, SectionBreak);
    var f := SplitOn(documentText, SectionBreak);
    var r := ChunkBySection(documentText);
    forall i | 0 <= i < |r|
      ensures r[i] == f[i]
    {
    }
  }
}

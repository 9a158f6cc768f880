/** The exact, brute-force nearest-neighbour store (`VectorIndex`): two parallel arrays of vectors and
    documents, a store-wide dimension fixed by the first vector, and a search that ranks every stored
    vector by cosine or Euclidean distance. */
module VectorStore {
  import opened Wrappers
  import opened Ordering
  import opened RagTypes

  datatype Metric = Cosine | Euclidean

  /** The constructor accepts exactly the two metric names. */
  function ParseMetric(name: string): (r: Result<Metric, Error>)
    ensures r.Success? <==> name == "cosine" || name == "euclidean"
    ensures r == Success(Cosine) <==> name == "cosine"
    ensures r.Failure? ==> r.error == UnknownDistanceMetric
  {
    if name == "cosine" then Success(Cosine)
    else if name == "euclidean" then Success(Euclidean)
    else Failure(UnknownDistanceMetric)
  }

  // ---------------------------------------------------------------------------------------------
  // Distance helpers

  /** Sum of element-wise products. */
  function Dot(a: seq<real>, b: seq<real>): real
    requires |a| == |b|
  {
    if a == [] then 0.0 else a[0] * b[0] + Dot(a[1..], b[1..])
  }

  /** Sum of squared element-wise differences. */
  function SquaredGap(a: seq<real>, b: seq<real>): real
    requires |a| == |b|
  {
    if a == [] then 0.0 else (a[0] - b[0]) * (a[0] - b[0]) + SquaredGap(a[1..], b[1..])
  }

  ghost predicate IsZeroVector(v: seq<real>) {
    forall i :: 0 <= i < |v| ==> v[i] == 0.0
  }

  /** `dot_product`, which raises on a dimension mismatch. */
  function DotProduct(a: seq<real>, b: seq<real>): (r: Result<real, Error>)
    ensures r.Success? <==> |a| == |b|
    ensures r.Failure? ==> r.error == VectorsDimensionDiffer
  {
    if |a| != |b| then Failure(VectorsDimensionDiffer) else Success(Dot(a, b))
  }

  /** `magnitude`: the square root of the sum of squares. */
  function Magnitude(m: Libm, v: seq<real>): real {
    m.sqrt(Dot(v, v))
  }

  /** `euclidean_distance`. */
  function EuclideanDistance(m: Libm, a: seq<real>, b: seq<real>): (r: Result<real, Error>)
    ensures r.Success? <==> |a| == |b|
    ensures r.Failure? ==> r.error == VectorsDimensionDiffer
  {
    if |a| != |b| then Failure(VectorsDimensionDiffer) else Success(m.sqrt(SquaredGap(a, b)))
  }

  function Clamp(x: real, lo: real, hi: real): real
    requires lo <= hi
  {
    if x < lo then lo else if hi < x then hi else x
  }

  /** `cosine_distance`: 0 for two zero-magnitude vectors, 1 when exactly one is zero, and otherwise
      one minus the cosine similarity clamped to [-1, 1]. */
  function CosineDistance(m: Libm, a: seq<real>, b: seq<real>): (r: Result<real, Error>)
    ensures r.Success? <==> |a| == |b|
    ensures r.Failure? ==> r.error == VectorsDimensionDiffer
    ensures r.Success? ==> 0.0 <= r.value <= 2.0
  {
    if |a| != |b| then Failure(VectorsDimensionDiffer)
    else Success(CosineFrom(DotProduct(a, b).value, Magnitude(m, a), Magnitude(m, b)))
  }

  /** The cosine distance computed from a dot product and the two magnitudes. Whatever the
      floating-point kernels return, the clamp keeps the result within [0, 2]. */
  function CosineFrom(dot: real, mag1: real, mag2: real): (d: real)
    ensures 0.0 <= d <= 2.0
  {
    if mag1 == 0.0 && mag2 == 0.0 then 0.0
    else if mag1 == 0.0 || mag2 == 0.0 then 1.0
    else 1.0 - Clamp(dot / (mag1 * mag2), -1.0, 1.0)
  }

  /** The distance function `search` picks by metric. */
  function Distance(metric: Metric, m: Libm, a: seq<real>, b: seq<real>): (r: Result<real, Error>)
    ensures r.Success? <==> |a| == |b|
  {
    match metric
    case Cosine => CosineDistance(m, a, b)
    case Euclidean => EuclideanDistance(m, a, b)
  }

  /** A product is zero only when a factor is. */
  lemma ZeroProduct(x: real, y: real)
    requires x * y == 0.0
    ensures x == 0.0 || y == 0.0
  {
  }

  lemma SameSignProduct(x: real, y: real)
    requires x == y
    ensures 0.0 <= x * y
  {
  }

  /** A square is never negative, and is zero only for zero. */
  lemma Square(x: real)
    ensures 0.0 <= x * x
    ensures x * x == 0.0 ==> x == 0.0
  {
    if x * x == 0.0 { ZeroProduct(x, x); }
    SameSignProduct(x, x);
  }

  lemma {:induction false} SumOfSquaresNonNegative(v: seq<real>)
    ensures 0.0 <= Dot(v, v)
    ensures Dot(v, v) == 0.0 <==> IsZeroVector(v)
  {
    if v != [] {
      SumOfSquaresNonNegative(v[1..]);
      Square(v[0]);
      if IsZeroVector(v[1..]) && v[0] == 0.0 {
        forall i | 0 <= i < |v| ensures v[i] == 0.0 {
          if i > 0 { assert v[i] == v[1..][i - 1]; }
        }
      }
      if IsZeroVector(v) {
        assert forall i :: 0 <= i < |v[1..]| ==> v[1..][i] == v[i + 1];
      }
    }
  }

  lemma {:induction false} SquaredGapSelf(v: seq<real>)
    ensures SquaredGap(v, v) == 0.0
  {
    if v != [] { SquaredGapSelf(v[1..]); }
  }

  lemma {:induction false} SquaredGapNonNegative(a: seq<real>, b: seq<real>)
    requires |a| == |b|
    ensures 0.0 <= SquaredGap(a, b)
  {
    if a != [] {
      SquaredGapNonNegative(a[1..], b[1..]);
      Square(a[0] - b[0]);
    }
  }

  /** The injected square root is zero exactly at zero. */
  lemma SqrtZero(m: Libm, s: real)
    requires m.Sound() && 0.0 <= s
    ensures 0.0 <= m.sqrt(s)
    ensures m.sqrt(s) == 0.0 <==> s == 0.0
  {
    var r := m.sqrt(s);
    assert r * r == s;
    Square(r);
  }

  /** A magnitude is zero exactly when the vector is the zero vector. */
  lemma MagnitudeZero(m: Libm, v: seq<real>)
    requires m.Sound()
    ensures 0.0 <= Magnitude(m, v)
    ensures Magnitude(m, v) == 0.0 <==> IsZeroVector(v)
  {
    SumOfSquaresNonNegative(v);
    SqrtZero(m, Dot(v, v));
  }

  /** The zero-magnitude cases of `cosine_distance`. */
  lemma CosineZeroCases(m: Libm, a: seq<real>, b: seq<real>)
    requires m.Sound() && |a| == |b|
    ensures IsZeroVector(a) && IsZeroVector(b) ==> CosineDistance(m, a, b) == Success(0.0)
    ensures IsZeroVector(a) != IsZeroVector(b) ==> CosineDistance(m, a, b) == Success(1.0)
  {
    MagnitudeZero(m, a);
    MagnitudeZero(m, b);
  }

  /** A vector is at cosine distance 0 from itself, zero or not. */
  lemma CosineSelfDistance(m: Libm, v: seq<real>)
    requires m.Sound()
    ensures CosineDistance(m, v, v) == Success(0.0)
  {
    var s := Dot(v, v);
    SumOfSquaresNonNegative(v);
    SqrtZero(m, s);
    SqrtSquared(m, s);
    if s != 0.0 {
      UnitSimilarity(s, m.sqrt(s), m.sqrt(s));
    }
  }

  lemma SqrtSquared(m: Libm, s: real)
    requires m.Sound() && 0.0 <= s
    ensures m.sqrt(s) * m.sqrt(s) == s
  {
  }

  /** A dot product equal to the product of two non-zero magnitudes is cosine distance 0. */
  lemma UnitSimilarity(d: real, mag1: real, mag2: real)
    requires mag1 * mag2 == d && d != 0.0
    ensures CosineFrom(d, mag1, mag2) == 0.0
  {
    NonZeroFactors(mag1, mag2);
    Ratio(d, mag1 * mag2);
  }

  lemma NonZeroFactors(x: real, y: real)
    requires x * y != 0.0
    ensures x != 0.0 && y != 0.0
  {
  }

  lemma Ratio(s: real, p: real)
    requires p == s && s != 0.0
    ensures s / p == 1.0
  {
  }

  /** Euclidean distances are never negative, and a vector is at distance 0 from itself. */
  lemma EuclideanBasics(m: Libm, a: seq<real>, b: seq<real>)
    requires m.Sound() && |a| == |b|
    ensures 0.0 <= EuclideanDistance(m, a, b).value
    ensures a == b ==> EuclideanDistance(m, a, b) == Success(0.0)
  {
    SquaredGapNonNegative(a, b);
    SqrtZero(m, SquaredGap(a, b));
    if a == b {
      SquaredGapSelf(a);
    }
  }

  lemma DistanceBasics(metric: Metric, m: Libm, a: seq<real>, b: seq<real>)
    requires m.Sound() && |a| == |b|
    ensures 0.0 <= Distance(metric, m, a, b).value
    ensures a == b ==> Distance(metric, m, a, b) == Success(0.0)
  {
    EuclideanBasics(m, a, b);
    if a == b { CosineSelfDistance(m, a); }
  }

  // ---------------------------------------------------------------------------------------------
  // Search specification

  function ByDistance(p: (Document, real)): real { p.1 }

  /** Every stored document paired with its distance from the query vector, in storage order. */
  function Candidates(metric: Metric, m: Libm, vectors: seq<seq<real>>, documents: seq<Document>,
                      q: seq<real>): (c: seq<(Document, real)>)
    requires |vectors| == |documents|
    requires forall i :: 0 <= i < |vectors| ==> |vectors[i]| == |q|
    ensures |c| == |vectors|
  {
    seq(|vectors|, i requires 0 <= i < |vectors| =>
          (documents[i], Distance(metric, m, q, vectors[i]).value))
  }

  /** Querying with a stored vector: the best hit is at distance 0 (it is that vector's document
      unless another stored vector ties with it). */
  lemma SelfQueryRanksAtDistanceZero(metric: Metric, m: Libm, vectors: seq<seq<real>>,
                                     documents: seq<Document>, i: nat, r: seq<(Document, real)>)
    requires m.Sound()
    requires |vectors| == |documents| && i < |vectors|
    requires forall j :: 0 <= j < |vectors| ==> |vectors[j]| == |vectors[i]|
    requires IsTopK(r, Candidates(metric, m, vectors, documents, vectors[i]), ByDistance, 1)
    ensures |r| == 1 && r[0].1 == 0.0
  {
    var q := vectors[i];
    var cands := Candidates(metric, m, vectors, documents, q);
    DistanceBasics(metric, m, q, q);
    assert cands[i] == (documents[i], 0.0);
    TopOneIsMinimal(r, cands, ByDistance, cands[i]);
    assert r[0] in multiset(r);
    assert r[0] in multiset(cands);
    var j :| 0 <= j < |cands| && cands[j] == r[0];
    DistanceBasics(metric, m, q, vectors[j]);
  }

  // ---------------------------------------------------------------------------------------------
  // Batch specification

  /** The dimension a batch must keep: the store's, or the first embedding's while the store is empty. */
  function BatchDim(dim: Option<nat>, batch: seq<seq<real>>): nat
    requires dim.Some? || batch != []
  {
    if dim.Some? then dim.value else |batch[0]|
  }

  /** What `vectors.zip(documents).each { add_vector }` answers for a store of dimension `dim`
      (`None` while it is empty), with the number of pairs it adds. */
  function ZipRun(dim: Option<nat>, batch: seq<seq<real>>, docs: seq<Document>): (Outcome<Error>, nat)
    decreases |batch|
  {
    if batch == [] then (Pass, 0)
    else if docs == [] then (Fail(DocumentNotHash), 0)
    else if dim.Some? && dim.value != |batch[0]| then (Fail(InconsistentVectorDimension), 0)
    else
      var rest := ZipRun(Some(|batch[0]|), batch[1..], docs[1..]);
      (rest.0, rest.1 + 1)
  }

  /** The pairs are added while each embedding has the batch's dimension; the first that does not
      stops the batch, and so does an embedding left without a document. The whole batch is
      added exactly when neither happens. */
  lemma {:induction false} ZipRunStopsAtFirstMismatch(dim: Option<nat>, batch: seq<seq<real>>, docs: seq<Document>)
    decreases |batch|
    ensures var (r, added) := ZipRun(dim, batch, docs);
      && added <= |batch| && added <= |docs|
      && (r.Pass? <==> added == |batch|)
      && (forall i :: 0 <= i < added ==> |batch[i]| == BatchDim(dim, batch))
      && (r.Fail? && added == |docs| ==> r.error == DocumentNotHash)
      && (r.Fail? && added < |docs| ==>
            r.error == InconsistentVectorDimension && |batch[added]| != BatchDim(dim, batch))
  {
    if batch != [] && docs != [] && (dim.None? || dim.value == |batch[0]|) {
      ZipRunStopsAtFirstMismatch(Some(|batch[0]|), batch[1..], docs[1..]);
      var (r, added) := ZipRun(Some(|batch[0]|), batch[1..], docs[1..]);
      forall i | 0 <= i < added
        ensures batch[1..][i] == batch[i + 1]
      {
      }
    }
  }

  /** A batch answer `r` seen from `n` pairs earlier. */
  function ZipShift(r: (Outcome<Error>, nat), n: nat): (Outcome<Error>, nat)
  {
    (r.0, r.1 + n)
  }

  /** Once pair `i` is added, the rest of the batch runs against the dimension it fixed. */
  lemma ZipRunStep(dim: Option<nat>, batch: seq<seq<real>>, docs: seq<Document>, i: nat)
    requires i < |batch| && i < |docs|
    requires dim.None? || dim == Some(|batch[i]|)
    ensures ZipRun(dim, batch[i..], docs[i..]) == ZipShift(ZipRun(Some(|batch[i]|), batch[i + 1..], docs[i + 1..]), 1)
  {
    assert batch[i..][1..] == batch[i + 1..];
    assert docs[i..][1..] == docs[i + 1..];
  }

  /** Where the run stops: at an embedding without a document, at an embedding of another
      dimension, or at the end of the batch. */
  lemma ZipRunStops(dim: Option<nat>, batch: seq<seq<real>>, docs: seq<Document>, i: nat)
    requires i <= |batch| && i <= |docs|
    ensures i == |batch| ==> ZipRun(dim, batch[i..], docs[i..]) == (Pass, 0)
    ensures i < |batch| && i == |docs| ==> ZipRun(dim, batch[i..], docs[i..]) == (Fail(DocumentNotHash), 0)
    ensures i < |batch| && i < |docs| && dim.Some? && dim.value != |batch[i]| ==>
              ZipRun(dim, batch[i..], docs[i..]) == (Fail(InconsistentVectorDimension), 0)
  {
    if i < |batch| {
      assert batch[i..][0] == batch[i];
      assert i == |docs| ==> docs[i..] == [];
    }
  }

  // ---------------------------------------------------------------------------------------------
  // The store

  class VectorIndex {
    var vectors: seq<seq<real>>
    var documents: seq<Document>
    var vectorDim: Option<nat>
    const metric: Metric
    const embedder: Option<Embedder>
    const libm: Libm

    /** The arrays stay parallel, and every stored vector has the dimension fixed by the first. */
    ghost predicate Valid()
      reads this
    {
      && |vectors| == |documents|
      && (vectors == [] <==> vectorDim == None)
      && (forall i :: 0 <= i < |vectors| ==> vectorDim == Some(|vectors[i]|))
    }

    constructor (metric: Metric, embedder: Option<Embedder>, libm: Libm)
      requires libm.Sound()
      ensures Valid()
      ensures vectors == [] && documents == []
      ensures this.metric == metric && this.embedder == embedder && this.libm == libm
    {
      this.vectors := [];
      this.documents := [];
      this.vectorDim := None;
      this.metric := metric;
      this.embedder := embedder;
      this.libm := libm;
    }

    /** `VectorIndex.new(distance_metric:, embedding_fn:)`. */
    static method Create(metricName: string, embedder: Option<Embedder>, libm: Libm)
      returns (r: Result<VectorIndex, Error>)
      requires libm.Sound()
      ensures r.Success? <==> metricName == "cosine" || metricName == "euclidean"
      ensures r.Failure? ==> r.error == UnknownDistanceMetric
      ensures r.Success? ==> fresh(r.value) && r.value.Valid()
      ensures r.Success? ==> r.value.vectors == [] && r.value.documents == []
      ensures r.Success? ==> r.value.metric == ParseMetric(metricName).value
    {
      var metric := ParseMetric(metricName);
      if metric.Failure? {
        return Failure(metric.error);
      }
      var ix := new VectorIndex(metric.value, embedder, libm);
      return Success(ix);
    }

    /** `add_vector`: the first vector fixes the dimension; a later one of another length is refused
        and the arrays are left as they were; otherwise both arrays grow by exactly one entry. */
    method AddVector(vector: seq<real>, document: Document) returns (r: Outcome<Error>)
      requires Valid() && libm.Sound()
      modifies this
      ensures Valid()
      ensures r.Pass? <==>
                "content" in document.fields && (old(vectors) == [] || old(vectorDim) == Some(|vector|))
      ensures r.Fail? ==> r.error == (if "content" !in document.fields then MissingContent
                                      else InconsistentVectorDimension)
      ensures r.Pass? ==> vectors == old(vectors) + [vector] && documents == old(documents) + [document]
      ensures r.Pass? ==> vectorDim == Some(|vector|)
      ensures r.Fail? ==> vectors == old(vectors) && documents == old(documents) && vectorDim == old(vectorDim)
    {
      if "content" !in document.fields {
        return Fail(MissingContent);
      }
      if vectors == [] {
        vectorDim := Some(|vector|);
      } else if Some(|vector|) != vectorDim {
        return Fail(InconsistentVectorDimension);
      }
      vectors := vectors + [vector];
      documents := documents + [document];
      return Pass;
    }

    /** What `add_document` answers for a document with `fields` in the current state: the embedder, the content
        and the dimension of the embedded content are checked in that order. */
    ghost function AddVerdict(fields: map<string, Value>): Outcome<Error>
      reads this
    {
      if embedder.None? then Fail(MissingEmbeddingFunction)
      else match ContentOf(fields)
        case Failure(e) => Fail(e)
        case Success(c) =>
          if vectors == [] || vectorDim == Some(|embedder.value.one(c)|) then Pass
          else Fail(InconsistentVectorDimension)
    }

    /** `add_document`: embedding function present, content present and a string, in that order;
        then the embedded content is added through `add_vector`. */
    method AddDocument(document: Document) returns (r: Outcome<Error>)
      requires Valid() && libm.Sound()
      modifies this
      ensures Valid()
      ensures embedder.None? ==> r == Fail(MissingEmbeddingFunction)
      ensures embedder.Some? && ContentOf(document.fields).Failure? ==> r == Fail(ContentOf(document.fields).error)
      ensures r.Fail? ==> vectors == old(vectors) && documents == old(documents)
      ensures r.Pass? ==> embedder.Some? && ContentOf(document.fields).Success?
      ensures r.Pass? ==> vectors == old(vectors) + [embedder.value.one(ContentOf(document.fields).value)]
      ensures r.Pass? ==> documents == old(documents) + [document]
      ensures r == old(AddVerdict(document.fields))
    {
      if embedder.None? {
        return Fail(MissingEmbeddingFunction);
      }
      var content := ContentOf(document.fields);
      if content.Failure? {
        return Fail(content.error);
      }
      var vector := embedder.value.one(content.value);
      r := AddVector(vector, document);
    }

    /** What `add_documents` answers for `docs` in the current state, with the number of documents
        it adds: the embedding function, the empty batch and the contents are checked in that order,
        then the batch embedding is zipped with the documents. */
    ghost function BatchVerdict(docs: seq<Document>): (Outcome<Error>, nat)
      reads this, docs
    {
      if embedder.None? then (Fail(MissingEmbeddingFunction), 0)
      else if docs == [] then (Pass, 0)
      else match BatchCheck(FieldsOf(docs))
        case Failure(e) => (Fail(e), 0)
        case Success(contents) => ZipRun(vectorDim, embedder.value.many(contents), docs)
    }

    /** `add_documents`: every document is validated before the embedding function is called or
        anything is added. The batch embedding is then zipped with the documents: a surplus vector
        meets a nil document and raises, and a failing `add_vector` stops the batch with the earlier
        pairs already added. */
    method AddDocuments(docs: seq<Document>) returns (r: Outcome<Error>, ghost added: nat)
      requires Valid() && libm.Sound()
      modifies this
      ensures Valid()
      ensures embedder.None? ==> r == Fail(MissingEmbeddingFunction)
      ensures embedder.Some? && BatchCheck(old(FieldsOf(docs))).Failure? ==>
                r == Fail(BatchCheck(old(FieldsOf(docs))).error)
      ensures docs == [] && embedder.Some? ==> r.Pass?
      ensures embedder.None? || BatchCheck(old(FieldsOf(docs))).Failure? || docs == [] ==> added == 0
      ensures added <= |docs| && documents == old(documents) + docs[..added]
      ensures |vectors| == |old(vectors)| + added
      ensures added == 0 ==> vectors == old(vectors)
      ensures embedder.Some? && BatchCheck(old(FieldsOf(docs))).Success? && docs != [] ==>
                var batch := embedder.value.many(BatchCheck(old(FieldsOf(docs))).value);
                && added <= |batch|
                && vectors == old(vectors) + batch[..added]
                && (r.Pass? <==> added == |batch|)
                && (r.Fail? && added == |docs| ==> r.error == DocumentNotHash)
                && (r.Fail? && added < |docs| ==> r.error == InconsistentVectorDimension)
                && (r, added) == ZipRun(old(vectorDim), batch, docs)
      ensures old(vectors) != [] ==> vectorDim == old(vectorDim)
      ensures (r, added) == old(BatchVerdict(docs))
    {
      added := 0;
      if embedder.None? {
        r := Fail(MissingEmbeddingFunction);
        return;
      }
      if docs == [] {
        r := Pass;
        return;
      }
      var contents, failure := CheckBatch(docs);
      if failure.Some? {
        r := Fail(failure.value);
        return;
      }
      var batch := embedder.value.many(contents);
      r, added := AddZipped(batch, docs);
    }

    /** `vectors.zip(documents).each { add_vector }`: one `add_vector` per embedding, in order; an
        embedding without a document raises, and so does the first refused `add_vector`, after the
        earlier pairs were added. */
    method AddZipped(batch: seq<seq<real>>, docs: seq<Document>) returns (r: Outcome<Error>, ghost added: nat)
      requires Valid() && libm.Sound()
      requires forall i :: 0 <= i < |docs| ==> "content" in docs[i].fields
      modifies this
      ensures Valid()
      ensures added <= |batch| && added <= |docs|
      ensures vectors == old(vectors) + batch[..added] && documents == old(documents) + docs[..added]
      ensures r.Pass? <==> added == |batch|
      ensures r.Fail? && added == |docs| ==> r.error == DocumentNotHash
      ensures r.Fail? && added < |docs| ==> r.error == InconsistentVectorDimension
      ensures old(vectors) != [] ==> vectorDim == old(vectorDim)
      ensures (r, added) == ZipRun(old(vectorDim), batch, docs)
    {
      var i := 0;
      while i < |batch|
        invariant 0 <= i <= |batch| && i <= |docs|
        invariant Valid()
        invariant vectors == old(vectors) + batch[..i]
        invariant documents == old(documents) + docs[..i]
        invariant old(vectors) != [] ==> vectorDim == old(vectorDim)
        invariant ZipRun(old(vectorDim), batch, docs) == ZipShift(ZipRun(vectorDim, batch[i..], docs[i..]), i)
      {
        ZipRunStops(vectorDim, batch, docs, i);
        if i >= |docs| {
          return Fail(DocumentNotHash), i;
        }
        ghost var dim := vectorDim;
        var step := AddVector(batch[i], docs[i]);
        if step.Fail? {
          return step, i;
        }
        ZipRunStep(dim, batch, docs, i);
        PrefixSnoc(batch, i);
        PrefixSnoc(docs, i);
        i := i + 1;
      }
      ZipRunStops(vectorDim, batch, docs, i);
      return Pass, i;
    }

    /** Turns the query into a vector: a string goes through the embedding function, which must be
        present; a numeric array is used as is; anything else raises. */
    function ResolveQuery(query: Query): (r: Result<seq<real>, Error>)
      ensures query.NotAQuery? ==> r == Failure(UnsupportedQuery)
      ensures query.Text? && embedder.None? ==> r == Failure(MissingEmbeddingFunction)
      ensures query.Text? && embedder.Some? ==> r == Success(embedder.value.one(query.text))
      ensures query.Vector? ==> r == Success(query.v)
    {
      match query
      case Text(t) => if embedder.None? then Failure(MissingEmbeddingFunction) else Success(embedder.value.one(t))
      case Vector(v) => Success(v)
      case NotAQuery => Failure(UnsupportedQuery)
    }

    /** The answer `search` gives for `query` and `k` in the current state. */
    ghost predicate Answers(query: Query, k: int, r: Result<seq<(Document, real)>, Error>)
      reads this
      requires Valid() && libm.Sound()
    {
      if vectors == [] then r == Success([])
      else match ResolveQuery(query)
        case Failure(e) => r == Failure(e)
        case Success(q) =>
          if Some(|q|) != vectorDim then r == Failure(QueryDimensionMismatch)
          else if k <= 0 then r == Failure(NonPositiveK)
          else r.Success? && IsTopK(r.value, Candidates(metric, libm, vectors, documents, q), ByDistance, k)
    }

    /** Every document a search returns is a stored one. */
    lemma AnswersAreStored(query: Query, k: int, r: seq<(Document, real)>)
      requires Valid() && libm.Sound() && Answers(query, k, Success(r))
      ensures forall p :: p in r ==> p.0 in documents
    {
      if vectors != [] {
        var q := ResolveQuery(query).value;
        var cands := Candidates(metric, libm, vectors, documents, q);
        forall p | p in r ensures p.0 in documents {
          assert p in multiset(r);
          assert p in multiset(cands);
          var i :| 0 <= i < |cands| && cands[i] == p;
          assert documents[i] == p.0;
        }
      }
    }

    /** `search`: an empty store answers `[]` before the query or `k` is looked at. Otherwise the
        query must resolve to a vector of the store's dimension and `k` must be positive; the result
        is then the first min(k, n) entries of all (document, distance) pairs sorted by ascending
        distance. */
    method Search(query: Query, k: int) returns (r: Result<seq<(Document, real)>, Error>)
      requires Valid() && libm.Sound()
      ensures vectors == [] ==> r == Success([])
      ensures vectors != [] && ResolveQuery(query).Failure? ==> r == Failure(ResolveQuery(query).error)
      ensures vectors != [] && ResolveQuery(query).Success? ==>
                var q := ResolveQuery(query).value;
                if Some(|q|) != vectorDim then r == Failure(QueryDimensionMismatch)
                else if k <= 0 then r == Failure(NonPositiveK)
                else r.Success? &&
                     IsTopK(r.value, Candidates(metric, libm, vectors, documents, q), ByDistance, k)
      ensures Answers(query, k, r)
    {
      if vectors == [] {
        return Success([]);
      }
      var resolved := ResolveQuery(query);
      if resolved.Failure? {
        return Failure(resolved.error);
      }
      var q := resolved.value;
      // The source's `return [] if @vector_dim.nil?` cannot fire here: a non-empty store has a dimension.
      if Some(|q|) != vectorDim {
        return Failure(QueryDimensionMismatch);
      }
      if k <= 0 {
        return Failure(NonPositiveK);
      }
      ghost var cands := Candidates(metric, libm, vectors, documents, q);
      var distances: seq<(Document, real)> := [];
      for i := 0 to |vectors|
        invariant distances == cands[..i]
      {
        var d := Distance(metric, libm, q, vectors[i]);
        distances := distances + [(documents[i], d.value)];
      }
      assert cands[..|vectors|] == cands;
      var top := SortedPrefix(distances, ByDistance, k);
      return Success(top);
    }
  }
}

/** Values shared by the three retrieval classes: documents, queries, the errors they raise, and the
    collaborators injected into them (embedding function, floating-point kernels). */
module RagTypes {
  import opened Wrappers

  /** A value stored under a key of a document hash. `Other` stands for any value that is neither a
      string, nil nor a boolean (a number, an array, a hash). */
  datatype Value = Str(s: string) | Nil | Bool(b: bool) | Other {
    /** Ruby truthiness: only nil and false are falsy. */
    predicate Truthy() { !(Nil? || this == Bool(false)) }
  }

  /** A document is a Ruby hash. Indexes and the Retriever hold the same object, and the Retriever
      writes its "id" key in place, so it is a class; object identity is reference equality. */
  class Document {
    var fields: map<string, Value>

    constructor (fields: map<string, Value>)
      ensures this.fields == fields
    {
      this.fields := fields;
    }
  }

  /** What a search receives: a string, an array of numbers, or anything else. */
  datatype Query = Text(text: string) | Vector(v: seq<real>) | NotAQuery

  /** The exceptions the retrieval classes raise, one constructor per cause. */
  datatype Error =
    | UnknownDistanceMetric          // ArgumentError, unknown distance_metric
    | MissingEmbeddingFunction       // RuntimeError or ArgumentError, depending on the copy
    | DocumentNotHash                // TypeError, a nil document paired with a surplus vector
    | MissingContent                 // ArgumentError, no "content" key
    | ContentNotString               // TypeError
    | UnsupportedQuery               // TypeError, query neither string nor numeric array
    | QueryDimensionMismatch         // ArgumentError
    | InconsistentVectorDimension    // ArgumentError, from add_vector
    | VectorsDimensionDiffer         // ArgumentError, from the distance helpers
    | NonPositiveK                   // ArgumentError
    | NegativeKRrf                   // ArgumentError
    | NoIndexes                      // ArgumentError, Retriever built from zero indexes

  /** The injected embedding function, called with one text or with a batch of texts. */
  datatype Embedder = Embedder(one: string -> seq<real>, many: seq<string> -> seq<seq<real>>)

  /** Ruby's `Math.sqrt`, `Math.log` and `Math.exp`, kept abstract. `Sound` lists the only facts
      the model relies on. */
  datatype Libm = Libm(sqrt: real -> real, log: real -> real, exp: real -> real) {
    ghost predicate Sound() {
      && (forall x :: 0.0 <= x ==> 0.0 <= sqrt(x) && sqrt(x) * sqrt(x) == x)
      && (forall x, y :: 0.0 < x < y ==> log(x) < log(y))
      && log(1.0) == 0.0
      && (forall x :: 0.0 < exp(x))
      && (forall x, y :: x < y ==> exp(x) < exp(y))
      && exp(0.0) == 1.0
    }
  }

  /** The validation every index applies to a document hash before reading its content. */
  function ContentOf(fields: map<string, Value>): (r: Result<string, Error>)
    ensures r.Success? <==> "content" in fields && fields["content"].Str?
    ensures r.Success? ==> fields["content"] == Str(r.value)
    ensures r.Failure? ==> r.error == (if "content" !in fields then MissingContent else ContentNotString)
  {
    if "content" !in fields then Failure(MissingContent)
    else if !fields["content"].Str? then Failure(ContentNotString)
    else Success(fields["content"].s)
  }

  /** The hashes of a batch of documents, as they stand in the current state. */
  function FieldsOf(docs: seq<Document>): (r: seq<map<string, Value>>)
    reads docs
    ensures |r| == |docs|
    ensures forall i :: 0 <= i < |docs| ==> r[i] == docs[i].fields
  {
    seq(|docs|, i requires 0 <= i < |docs| reads docs => docs[i].fields)
  }

  /** The same check over a batch, in order: the contents of all hashes, or the first failure. */
  function BatchCheck(rows: seq<map<string, Value>>): (r: Result<seq<string>, Error>)
    ensures r.Success? ==> |r.value| == |rows|
    ensures r.Success? <==> forall i :: 0 <= i < |rows| ==> ContentOf(rows[i]).Success?
    ensures r.Success? ==> forall i :: 0 <= i < |rows| ==> Str(r.value[i]) == rows[i]["content"]
  {
    if rows == [] then Success([])
    else
      var init := rows[..|rows| - 1];
      match BatchCheck(init)
      case Failure(e) => Failure(e)
      case Success(cs) =>
        match ContentOf(rows[|rows| - 1])
        case Failure(e) => Failure(e)
        case Success(c) => Success(cs + [c])
  }

  /** How many hashes at the front of a batch carry string content: the index of the first rejected
      hash, or the whole batch. */
  function AcceptedPrefix(rows: seq<map<string, Value>>): (n: nat)
    ensures n <= |rows|
    ensures forall i :: 0 <= i < n ==> ContentOf(rows[i]).Success?
    ensures n < |rows| ==> ContentOf(rows[n]).Failure?
  {
    if rows == [] || ContentOf(rows[0]).Failure? then 0 else AcceptedPrefix(rows[1..]) + 1
  }

  /** The accepted prefix is the only prefix of accepted hashes followed by a rejected one or the end. */
  lemma AcceptedPrefixUnique(rows: seq<map<string, Value>>, n: nat)
    requires n <= |rows|
    requires forall i :: 0 <= i < n ==> ContentOf(rows[i]).Success?
    requires n < |rows| ==> ContentOf(rows[n]).Failure?
    ensures AcceptedPrefix(rows) == n
  {
  }

  /** The per-document checks of `add_documents`, in order, up to the first rejected document: the
      contents of the accepted prefix, and the error of the document after it. */
  method CheckBatch(docs: seq<Document>) returns (contents: seq<string>, failure: Option<Error>)
    ensures |contents| <= |docs|
    ensures BatchCheck(FieldsOf(docs)[..|contents|]) == Success(contents)
    ensures failure.None? ==> |contents| == |docs|
    ensures failure.Some? ==> |contents| < |docs| && ContentOf(docs[|contents|].fields) == Failure(failure.value)
    ensures BatchCheck(FieldsOf(docs)) == if failure.Some? then Failure(failure.value) else Success(contents)
  {
    ghost var rows := FieldsOf(docs);
    contents := [];
    failure := None;
    while |contents| < |docs|
      invariant |contents| <= |docs|
      invariant BatchCheck(rows[..|contents|]) == Success(contents)
      invariant failure.Some? ==> |contents| < |docs| && ContentOf(rows[|contents|]) == Failure(failure.value)
      decreases |docs| - |contents|
    {
      var content := ContentOf(docs[|contents|].fields);
      if content.Failure? {
        failure := Some(content.error);
        break;
      }
      BatchCheckSnoc(rows, |contents|);
      contents := contents + [content.value];
    }
    if failure.Some? {
      BatchCheckSnoc(rows, |contents|);
      BatchCheckStopsAtFirstFailure(rows, |contents| + 1);
    } else {
      assert rows[..|contents|] == rows;
    }
  }

  /** One more hash: the check of a longer prefix extends the check of the shorter one. */
  lemma BatchCheckSnoc(rows: seq<map<string, Value>>, i: nat)
    requires i < |rows|
    requires BatchCheck(rows[..i]).Success?
    ensures ContentOf(rows[i]).Failure? ==> BatchCheck(rows[..i + 1]) == Failure(ContentOf(rows[i]).error)
    ensures ContentOf(rows[i]).Success? ==>
              BatchCheck(rows[..i + 1]) == Success(BatchCheck(rows[..i]).value + [ContentOf(rows[i]).value])
  {
    assert rows[..i + 1][..i] == rows[..i];
  }

  /** Validation stops at the first failing hash: once a prefix fails, the whole batch fails
      with the same error. */
  lemma {:induction false} BatchCheckStopsAtFirstFailure(rows: seq<map<string, Value>>, n: nat)
    requires n <= |rows|
    requires BatchCheck(rows[..n]).Failure?
    ensures BatchCheck(rows) == BatchCheck(rows[..n])
    decreases |rows| - n
  {
    if n < |rows| {
      var init := rows[..|rows| - 1];
      assert init[..n] == rows[..n];
      BatchCheckStopsAtFirstFailure(init, n);
    } else {
      assert rows[..n] == rows;
    }
  }
}

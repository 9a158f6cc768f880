# Retrieval, chunking, month arithmetic and a text-editing tool, in Dafny

This project models the computational core of the Ruby example repository
`anthropic-sdk-ruby-examples` and proves properties of it:

- **The hybrid retrieval engine** of the retrieval-augmented-generation chapter:
  - `VectorIndex`: an exact nearest-neighbour store with cosine or Euclidean distance;
  - `BM25Index`: a lexical index with a lazily built idf table and Okapi BM25 scoring;
  - `Retriever`: fans a query out to several indexes and merges their answers by Reciprocal Rank Fusion (RRF). In its reranking variant, it gives documents random 4-character ids and reorders the fused top `k` by the id list an injected reranker returns.
- **The three text chunkers**: `chunk_by_char`, `chunk_by_sentence` and `chunk_by_section`.
- **The month and leap-year arithmetic** of `add_duration_to_datetime`.
- **`TextEditorTool`**, a file editor driven by tool calls. It provides a path guard, a numbered `view`, a unique-match `str_replace`, `create`, a line-indexed `insert`, and backup and undo.

The retrieval classes exist in several copies:
- standalone files in `07_a_multi_index_rag_pipeline/`;
- inline copies in `multi_index_rag_pipeline.rb`;
- inline copies in `reranking_results.rb`;
- an earlier `VectorIndex` in `05_implementing_the_rag_flow/`.

They are modelled once. Their differences appear in the model as follows:
- A missing embedding function raises a RuntimeError in one copy and an ArgumentError in another. Both are `MissingEmbeddingFunction`.
- The earlier `VectorIndex` has no `add_documents`.
- The reranker and the id assignment of `reranking_results.rb` are the `reranker` option and `AddDocumentWithId` of `Fusion.Retriever`.
- BM25's `add_document` reads nil content as "", while `add_documents` raises. This is `Lexical.BM25Index.SingleContent` versus `RagTypes.BatchCheck`.

Modules, one per file:

| file | module | what it holds |
|---|---|---|
| `wrappers.dfy` | `Wrappers` | `Option`, `Result`, `Outcome`, `Min`, `Max` |
| `ordering.dfy` | `Ordering` | `sort_by!` followed by `first(k)`, specified as a top-k selection |
| `rag_types.dfy` | `RagTypes` | documents (a class: hashes are shared and mutated), queries, errors, injected embedder and floating-point kernels |
| `vector_index.dfy` | `VectorStore` | distances and the `VectorIndex` class |
| `bm25_index.dfy` | `Lexical` | tokenizer, frequency table, idf, BM25 and the `BM25Index` class |
| `retriever.dfy` | `Fusion` | rank table, RRF, reranking and the `Retriever` class |
| `strings.dfy` | `Strings` | `start_with?`, `split`, `join`, decimal formatting, string order |
| `chunking.dfy` | `Chunking` | the three chunkers |
| `calendar.dfy` | `MonthMath` | `add_duration_to_datetime`'s arithmetic |
| `text_editor.dfy` | `TextEditing` | `TextEditorTool` over a map from absolute path to content |

Conventions:
- Ruby exceptions are `Failure`/`Fail` values that name the cause. A method that raises part-way through a loop returns the failure together with the state reached at that point, which is what the Ruby code leaves behind.
- A batch add that fails part-way through keeps the documents added before the failure, as the Ruby loops leave them: nothing is rolled back.
- `sort_by!` is not stable, so the order among equal keys is left open. Results are specified by `Ordering.IsTopK`: `min(k, n)` candidates, sorted by the key, with no left-out candidate better than a chosen one.

## Model

| member | source | states |
|---|---|---|
| Ordering.SortBy | 07_retrieval_augmented_generation/07_a_multi_index_rag_pipeline/vector_index.rb:99 | `sort_by!` yields a permutation of its input ordered by the key |
| Ordering.Insert | 07_retrieval_augmented_generation/07_a_multi_index_rag_pipeline/vector_index.rb:99 | inserting into a sequence sorted by the key keeps it sorted and adds exactly one copy of the item |
| Ordering.SortedPrefix | 07_retrieval_augmented_generation/07_a_multi_index_rag_pipeline/vector_index.rb:99-101 | sorting then taking the first `k` yields a top-k selection: `min(k, n)` candidates in key order, none left out with a smaller key |
| Ordering.PrefixIsTopK | 07_retrieval_augmented_generation/07_a_multi_index_rag_pipeline/bm25_index.rb:95-98 | the first `k` of any sorted permutation is a top-k selection |
| Ordering.TopOneIsMinimal | 07_retrieval_augmented_generation/07_a_multi_index_rag_pipeline/vector_index.rb:93-101 | a top-1 selection has the smallest key of all candidates |
| RagTypes.ContentOf | 07_retrieval_augmented_generation/07_a_multi_index_rag_pipeline/vector_index.rb:22-29 | a document's content is accepted exactly when the "content" key holds a string; a missing key and a non-string are the two distinct errors |
| RagTypes.BatchCheck | 07_retrieval_augmented_generation/07_a_multi_index_rag_pipeline/vector_index.rb:46-58 | a batch passes exactly when every document passes, and then yields every content in order |
| RagTypes.CheckBatch | 07_retrieval_augmented_generation/07_a_multi_index_rag_pipeline/vector_index.rb:46-58 | the validation loop stops at the first rejected document with that document's error, having collected the contents before it |
| RagTypes.BatchCheckStopsAtFirstFailure | 07_retrieval_augmented_generation/07_a_multi_index_rag_pipeline/bm25_index.rb:45-54 | once a prefix of the batch fails, the whole batch fails with the same error |
| RagTypes.AcceptedPrefix | 07_retrieval_augmented_generation/07_a_multi_index_rag_pipeline/bm25_index.rb:45-54 | the documents before the first rejected hash: all of them accepted, and the next one rejected |
| RagTypes.AcceptedPrefixUnique | 07_retrieval_augmented_generation/07_a_multi_index_rag_pipeline/bm25_index.rb:45-54 | that count is the only one with those two properties |
| VectorStore.ParseMetric | 07_retrieval_augmented_generation/07_a_multi_index_rag_pipeline/vector_index.rb:8-11 | exactly "cosine" and "euclidean" are accepted, anything else is refused |
| VectorStore.DotProduct | 07_retrieval_augmented_generation/07_a_multi_index_rag_pipeline/vector_index.rb:143-148 | succeeds exactly when the dimensions agree |
| VectorStore.EuclideanDistance | 07_retrieval_augmented_generation/07_a_multi_index_rag_pipeline/vector_index.rb:136-141 | succeeds exactly when the dimensions agree, otherwise the dimension error |
| VectorStore.CosineDistance | 07_retrieval_augmented_generation/07_a_multi_index_rag_pipeline/vector_index.rb:154-173 | succeeds exactly when the dimensions agree, and the distance lies in [0, 2] |
| VectorStore.CosineFrom | 07_retrieval_augmented_generation/07_a_multi_index_rag_pipeline/vector_index.rb:168-172 | whatever the kernels return, clamping keeps `1 - similarity` within [0, 2] |
| VectorStore.Distance | 07_retrieval_augmented_generation/07_a_multi_index_rag_pipeline/vector_index.rb:91 | the metric's distance succeeds exactly when the dimensions agree |
| VectorStore.Candidates | 07_retrieval_augmented_generation/07_a_multi_index_rag_pipeline/vector_index.rb:93-97 | one (document, distance) pair per stored vector |
| VectorStore.SumOfSquaresNonNegative | 07_retrieval_augmented_generation/07_a_multi_index_rag_pipeline/vector_index.rb:150-152 | a sum of squares is non-negative and zero exactly for the zero vector |
| VectorStore.MagnitudeZero | 07_retrieval_augmented_generation/07_a_multi_index_rag_pipeline/vector_index.rb:150-152 | a magnitude is non-negative and zero exactly for the zero vector |
| VectorStore.CosineZeroCases | 07_retrieval_augmented_generation/07_a_multi_index_rag_pipeline/vector_index.rb:159-166 | two zero vectors are at distance 0.0, exactly one zero vector gives 1.0 |
| VectorStore.CosineSelfDistance | 07_retrieval_augmented_generation/07_a_multi_index_rag_pipeline/vector_index.rb:154-173 | every vector is at cosine distance 0 from itself |
| VectorStore.EuclideanBasics | 07_retrieval_augmented_generation/07_a_multi_index_rag_pipeline/vector_index.rb:136-141 | Euclidean distances are non-negative and 0 between equal vectors |
| VectorStore.DistanceBasics | 07_retrieval_augmented_generation/07_a_multi_index_rag_pipeline/vector_index.rb:91-96 | both metrics are non-negative and 0 between equal vectors |
| VectorStore.SelfQueryRanksAtDistanceZero | 07_retrieval_augmented_generation/07_a_multi_index_rag_pipeline/vector_index.rb:93-101 | querying with a stored vector returns a best hit at distance 0 |
| VectorStore.VectorIndex.constructor | 07_retrieval_augmented_generation/07_a_multi_index_rag_pipeline/vector_index.rb:4-13 | a new index is empty, consistent, and keeps its metric and embedder |
| VectorStore.VectorIndex.Create | 07_retrieval_augmented_generation/07_a_multi_index_rag_pipeline/vector_index.rb:4-13 | construction succeeds exactly for the two metric names and yields an empty index |
| VectorStore.VectorIndex.AddVector | 07_retrieval_augmented_generation/07_a_multi_index_rag_pipeline/vector_index.rb:104-123 | the first vector fixes the dimension; a mismatched vector or a document without content is refused with the arrays unchanged; otherwise both arrays grow by exactly one entry |
| VectorStore.VectorIndex.AddDocument | 07_retrieval_augmented_generation/07_a_multi_index_rag_pipeline/vector_index.rb:15-33 | embedder, key and string content are checked in that order; on success the embedded content and the document are appended |
| VectorStore.VectorIndex.AddDocuments | 07_retrieval_augmented_generation/07_a_multi_index_rag_pipeline/vector_index.rb:35-65 | all documents are validated before the embedder runs or anything is added; the answer and the number added are what `BatchVerdict` gives for the state before the call: no embedder, the first rejected hash with nothing added, or the zipped run, which stops at the first embedding whose dimension differs or that meets a nil document, the earlier pairs staying added |
| VectorStore.VectorIndex.AddZipped | 07_retrieval_augmented_generation/07_a_multi_index_rag_pipeline/vector_index.rb:62-64 | one `add_vector` per embedding in order; the answer and the count are `ZipRun` of the dimension before the call, and a store that held vectors keeps its dimension |
| VectorStore.ZipRunStopsAtFirstMismatch | 07_retrieval_augmented_generation/07_a_multi_index_rag_pipeline/vector_index.rb:62-64 | the zipped run adds a prefix of the batch and passes exactly when it adds all of it; every added embedding has the batch's dimension; it stops with the nil-document error exactly when the documents run out, and otherwise with the dimension error at the first embedding whose dimension differs |
| VectorStore.VectorIndex.ResolveQuery | 07_retrieval_augmented_generation/07_a_multi_index_rag_pipeline/vector_index.rb:70-79 | a string is embedded (an embedder is required), a numeric array is used as is, anything else raises |
| VectorStore.VectorIndex.AnswersAreStored | 07_retrieval_augmented_generation/07_a_multi_index_rag_pipeline/vector_index.rb:93-101 | every document a search returns is a stored document |
| VectorStore.VectorIndex.Search | 07_retrieval_augmented_generation/07_a_multi_index_rag_pipeline/vector_index.rb:67-102 | an empty store answers [] before anything is checked; otherwise query, dimension and `k` are checked in order, and the answer is a top-min(k, n) of all stored documents by ascending distance |
| Lexical.Downcase | 07_retrieval_augmented_generation/07_a_multi_index_rag_pipeline/bm25_index.rb:119 | maps each character by the ASCII lowercase mapping, position by position |
| Lexical.RunsAreTokens | 07_retrieval_augmented_generation/07_a_multi_index_rag_pipeline/bm25_index.rb:120-121 | the runs split out of lowercase text are non-empty lowercase words |
| Lexical.DefaultTokenizer | 07_retrieval_augmented_generation/07_a_multi_index_rag_pipeline/bm25_index.rb:118-122 | the default tokenizer never emits an empty token, and every token is lowercase word characters |
| Lexical.TokenizeJoinedWords | 07_retrieval_augmented_generation/07_a_multi_index_rag_pipeline/bm25_index.rb:118-122 | tokenizing words joined by spaces gives the words back |
| Lexical.BumpAll | 07_retrieval_augmented_generation/07_a_multi_index_rag_pipeline/bm25_index.rb:127-133 | counting a document's terms adds exactly those terms to the table's keys |
| Lexical.DocFreqsCount | 07_retrieval_augmented_generation/07_a_multi_index_rag_pipeline/bm25_index.rb:124-133 | `doc_freqs[t]` is the number of documents containing `t`, hence at most the document count |
| Lexical.DocFreqsBounds | 07_retrieval_augmented_generation/07_a_multi_index_rag_pipeline/bm25_index.rb:124-133 | the table's terms are exactly those occurring somewhere, each with frequency between 1 and the document count |
| Lexical.DocFreqs | 07_retrieval_augmented_generation/07_a_multi_index_rag_pipeline/bm25_index.rb:124-133 | every recorded term has a frequency between 1 and the number of documents |
| Lexical.Containing | 07_retrieval_augmented_generation/07_a_multi_index_rag_pipeline/bm25_index.rb:127-133 | a term is held by at most all of the documents |
| Lexical.IdfTable | 07_retrieval_augmented_generation/07_a_multi_index_rag_pipeline/bm25_index.rb:138-145 | the idf table has exactly the frequency table's keys |
| Lexical.Idf | 07_retrieval_augmented_generation/07_a_multi_index_rag_pipeline/bm25_index.rb:142 | the idf of a term in at most all documents is positive |
| Lexical.IdfDecreasing | 07_retrieval_augmented_generation/07_a_multi_index_rag_pipeline/bm25_index.rb:142 | a rarer term has a strictly larger idf |
| Lexical.IdfTablePositive | 07_retrieval_augmented_generation/07_a_multi_index_rag_pipeline/bm25_index.rb:138-145 | every idf of a built table is positive |
| Lexical.TermScore | 07_retrieval_augmented_generation/07_a_multi_index_rag_pipeline/bm25_index.rb:165-173 | a query token without an idf entry, or absent from the document, contributes 0 |
| Lexical.Bm25Score | 07_retrieval_augmented_generation/07_a_multi_index_rag_pipeline/bm25_index.rb:160-177 | a document sharing no query token scores 0 |
| Lexical.Saturation | 07_retrieval_augmented_generation/07_a_multi_index_rag_pipeline/bm25_index.rb:172-173 | the BM25 denominator, with its 1e-9, is positive |
| Lexical.LengthNorm | 07_retrieval_augmented_generation/07_a_multi_index_rag_pipeline/bm25_index.rb:172 | the length normalisation is non-negative for `b` in [0, 1] |
| Lexical.ContributionSign | 07_retrieval_augmented_generation/07_a_multi_index_rag_pipeline/bm25_index.rb:171-173 | a term weight is non-negative, and positive exactly when the term occurs |
| Lexical.TermScoreSign | 07_retrieval_augmented_generation/07_a_multi_index_rag_pipeline/bm25_index.rb:165-173 | a query token contributes positively exactly when it has an idf entry and occurs in the document |
| Lexical.ScoreStep | 07_retrieval_augmented_generation/07_a_multi_index_rag_pipeline/bm25_index.rb:165-174 | one more query token adds its term score to the running sum |
| Lexical.ScoreSign | 07_retrieval_augmented_generation/07_a_multi_index_rag_pipeline/bm25_index.rb:160-177 | a score is non-negative, and positive exactly when the document shares a query term with an idf entry |
| Lexical.Normalize | 07_retrieval_augmented_generation/07_a_multi_index_rag_pipeline/bm25_index.rb:97-101 | one normalised pair per kept raw score |
| Lexical.RawScores | 07_retrieval_augmented_generation/07_a_multi_index_rag_pipeline/bm25_index.rb:87-93 | only scores above 1e-9 are kept, at most one per document |
| Lexical.RawScoresAreStored | 07_retrieval_augmented_generation/07_a_multi_index_rag_pipeline/bm25_index.rb:87-93 | every kept raw score names a stored document |
| Lexical.NormalizedScoresInUnitInterval | 07_retrieval_augmented_generation/07_a_multi_index_rag_pipeline/bm25_index.rb:95-105 | the ranking has `min(k, n)` entries, each score strictly between 0 and 1 |
| Lexical.NormalizationReversesOrder | 07_retrieval_augmented_generation/07_a_multi_index_rag_pipeline/bm25_index.rb:99 | `exp(-f * raw)` is strictly decreasing in `raw`, so lower means better |
| Lexical.SelectionIsNormalizedTopK | 07_retrieval_augmented_generation/07_a_multi_index_rag_pipeline/bm25_index.rb:95-103 | a top-k by descending raw score, normalised and re-sorted ascending, is a normalised ranking |
| Lexical.NormalizedDocsFromRaw | 07_retrieval_augmented_generation/07_a_multi_index_rag_pipeline/bm25_index.rb:95-103 | a normalised top-k ranking holds only documents that have a raw score |
| Lexical.NormalizeAll | 07_retrieval_augmented_generation/07_a_multi_index_rag_pipeline/bm25_index.rb:97-101 | the normalisation loop computes exactly the normalised list |
| Lexical.BM25Index.constructor | 07_retrieval_augmented_generation/07_a_multi_index_rag_pipeline/bm25_index.rb:4-16 | a new index is empty and unbuilt, with the default tokenizer when none is given |
| Lexical.BM25Index.UpdateStatsAdd | 07_retrieval_augmented_generation/07_a_multi_index_rag_pipeline/bm25_index.rb:124-136 | records the length, counts each distinct token once, and marks the index unbuilt |
| Lexical.BM25Index.SingleContent | 07_retrieval_augmented_generation/07_a_multi_index_rag_pipeline/bm25_index.rb:19-29 | a missing key raises, nil or false reads as "", another non-string raises |
| Lexical.BM25Index.AddDocument | 07_retrieval_augmented_generation/07_a_multi_index_rag_pipeline/bm25_index.rb:18-36 | appends the document, its tokens and its length in lockstep and keeps the frequency table in step; a rejected document changes nothing |
| Lexical.BM25Index.Append | 07_retrieval_augmented_generation/07_a_multi_index_rag_pipeline/bm25_index.rb:33-35 | the three arrays grow by one entry each and the index becomes unbuilt |
| Lexical.BM25Index.AddDocuments | 07_retrieval_augmented_generation/07_a_multi_index_rag_pipeline/bm25_index.rb:38-65 | documents are checked and added one by one; the answer and the number added are `BatchVerdict`: every document when all contents are strings, otherwise the first rejected document's error with the documents before it added |
| Lexical.BM25Index.TokenizeAll | 07_retrieval_augmented_generation/07_a_multi_index_rag_pipeline/bm25_index.rb:57 | every accepted content is tokenized in order |
| Lexical.BM25Index.AppendAll | 07_retrieval_augmented_generation/07_a_multi_index_rag_pipeline/bm25_index.rb:59-64 | appends a batch in order; a non-empty batch leaves the index unbuilt |
| Lexical.BM25Index.Tokenized | 07_retrieval_augmented_generation/07_a_multi_index_rag_pipeline/bm25_index.rb:57 | one token list per content, by the index's tokenizer |
| Lexical.BM25Index.CalculateIdf | 07_retrieval_augmented_generation/07_a_multi_index_rag_pipeline/bm25_index.rb:138-145 | rebuilds the idf table from the current frequencies and document count, changing nothing else |
| Lexical.BM25Index.BuildIndex | 07_retrieval_augmented_generation/07_a_multi_index_rag_pipeline/bm25_index.rb:147-158 | sets the average length to total length over count, the idf table to the current one, and the built flag |
| Lexical.BM25Index.ComputeScore | 07_retrieval_augmented_generation/07_a_multi_index_rag_pipeline/bm25_index.rb:160-177 | the accumulation loop computes the BM25 score of document `i` |
| Lexical.BM25Index.Search | 07_retrieval_augmented_generation/07_a_multi_index_rag_pipeline/bm25_index.rb:67-106 | an empty index answers [] whatever the query; otherwise the type and `k` are checked, the index is built if it is not, and the answer is the normalised ranking |
| Lexical.BM25Index.AnswersAreStored | 07_retrieval_augmented_generation/07_a_multi_index_rag_pipeline/bm25_index.rb:87-105 | every document a search returns is a stored document |
| Lexical.BM25Index.RankBuilt | 07_retrieval_augmented_generation/07_a_multi_index_rag_pipeline/bm25_index.rb:82-105 | [] for an all-empty corpus or a tokenless query; otherwise the top `k` raw scores above 1e-9, normalised and sorted ascending |
| Lexical.BM25Index.ScoreAll | 07_retrieval_augmented_generation/07_a_multi_index_rag_pipeline/bm25_index.rb:87-93 | the scoring loop keeps exactly the documents scoring above 1e-9, in order |
| Fusion.Contribution | 07_retrieval_augmented_generation/07_a_multi_index_rag_pipeline/retriever.rb:51 | an absent slot contributes 0, a present one a value in (0, 1] |
| Fusion.RrfScore | 07_retrieval_augmented_generation/07_a_multi_index_rag_pipeline/retriever.rb:50-52 | a document absent from every list scores 0, and a score is at most the number of lists |
| Fusion.RrfScoreSign | 07_retrieval_augmented_generation/07_a_multi_index_rag_pipeline/retriever.rb:50-52 | an RRF score is non-negative, and positive exactly when some slot is finite |
| Fusion.RrfMonotone | 07_retrieval_augmented_generation/07_a_multi_index_rag_pipeline/retriever.rb:50-52 | better ranks slot by slot give an equal or higher score |
| Fusion.RrfStrictlyMonotone | 07_retrieval_augmented_generation/07_a_multi_index_rag_pipeline/retriever.rb:50-52 | one strictly better slot gives a strictly higher score |
| Fusion.FirstPlaceIsBest | 07_retrieval_augmented_generation/07_a_multi_index_rag_pipeline/retriever.rb:51 | rank 1 contributes the most of any slot value |
| Fusion.AllFirstBeatsOneFirst | 07_retrieval_augmented_generation/07_a_multi_index_rag_pipeline/retriever.rb:50-52 | with two or more indexes, first everywhere beats first in only one |
| Fusion.DocsOf | 07_retrieval_augmented_generation/07_a_multi_index_rag_pipeline/retriever.rb:38 | the documents of a result list, position by position |
| Fusion.LastRank | 07_retrieval_augmented_generation/07_a_multi_index_rag_pipeline/retriever.rb:38-46 | a slot is infinite exactly when the document is absent, otherwise its last 1-based position |
| Fusion.FlattenMember | 07_retrieval_augmented_generation/07_a_multi_index_rag_pipeline/retriever.rb:37-38 | a document is recorded exactly when some index returned it |
| Fusion.Order | 07_retrieval_augmented_generation/07_a_multi_index_rag_pipeline/retriever.rb:40-45 | the table holds each document once |
| Fusion.OrderMember | 07_retrieval_augmented_generation/07_a_multi_index_rag_pipeline/retriever.rb:40-45 | deduplication keeps every returned document and adds none |
| Fusion.Infinities | 07_retrieval_augmented_generation/07_a_multi_index_rag_pipeline/retriever.rb:43 | a new entry has one infinite slot per index |
| Fusion.RankVector | 07_retrieval_augmented_generation/07_a_multi_index_rag_pipeline/retriever.rb:36-48 | one slot per index, holding the document's rank in that index's result |
| Fusion.BuildRankTable | 07_retrieval_augmented_generation/07_a_multi_index_rag_pipeline/retriever.rb:36-48 | the nested loops record exactly the returned documents, in first-seen order, each with its rank vector |
| Fusion.RecordList | 07_retrieval_augmented_generation/07_a_multi_index_rag_pipeline/retriever.rb:38-47 | recording one result list extends the table by that list's ranks |
| Fusion.RecordEntry | 07_retrieval_augmented_generation/07_a_multi_index_rag_pipeline/retriever.rb:39-46 | recording one entry sets that document's slot and changes nothing else |
| Fusion.Scored | 07_retrieval_augmented_generation/07_a_multi_index_rag_pipeline/retriever.rb:54-56 | one scored pair per recorded document |
| Fusion.PositiveMember | 07_retrieval_augmented_generation/07_a_multi_index_rag_pipeline/retriever.rb:58 | the filter keeps exactly the pairs with a positive score |
| Fusion.Positive | 07_retrieval_augmented_generation/07_a_multi_index_rag_pipeline/retriever.rb:58 | the filter keeps at most all pairs, each with a positive score |
| Fusion.Fused | 07_retrieval_augmented_generation/07_a_multi_index_rag_pipeline/retriever.rb:54-58 | at most one pair per recorded document, each with a positive score |
| Fusion.FilterKeepsEverything | 07_retrieval_augmented_generation/07_a_multi_index_rag_pipeline/retriever.rb:50-58 | every recorded document has a finite slot, so the `score > 0` filter removes nothing |
| Fusion.ScoredEntry | 07_retrieval_augmented_generation/07_a_multi_index_rag_pipeline/retriever.rb:54-56 | a scored pair is a returned document with its positive RRF score |
| Fusion.Fuse | 07_retrieval_augmented_generation/07_a_multi_index_rag_pipeline/retriever.rb:54-61 | the fused result is a top `k` of the scored documents by descending score |
| Fusion.ScoreAll | 07_retrieval_augmented_generation/07_a_multi_index_rag_pipeline/retriever.rb:54-56 | the scoring loop computes exactly the scored list |
| Fusion.KeepPositive | 07_retrieval_augmented_generation/07_a_multi_index_rag_pipeline/retriever.rb:58 | the filter loop computes exactly the positive pairs, in order |
| Fusion.FusedResult | 07_retrieval_augmented_generation/07_a_multi_index_rag_pipeline/retriever.rb:54-61 | at most `k` distinct returned documents, each with its positive RRF score, in non-increasing score order |
| Fusion.ScoredDistinct | 07_retrieval_augmented_generation/07_a_multi_index_rag_pipeline/retriever.rb:36-56 | no document is scored twice |
| Fusion.LastWithKey | 07_retrieval_augmented_generation/08_reranking_results/reranking_results.rb:433 | `to_h` keeps the last candidate for a repeated id |
| Fusion.Reordered | 07_retrieval_augmented_generation/08_reranking_results/reranking_results.rb:439-445 | the reranked list is no longer than the reranker's id list |
| Fusion.ReorderedFollowsIds | 07_retrieval_augmented_generation/08_reranking_results/reranking_results.rb:433-447 | when every id names a candidate, the output follows the reranker's order one entry per id |
| Fusion.ReorderedKeepsScores | 07_retrieval_augmented_generation/08_reranking_results/reranking_results.rb:437-445 | with distinct candidates, every reranked entry is a candidate with its fused score |
| Fusion.ScoreOfDistinct | 07_retrieval_augmented_generation/08_reranking_results/reranking_results.rb:437-442 | the score looked up for a distinct candidate is its own |
| Fusion.AssignIds | 07_retrieval_augmented_generation/08_reranking_results/reranking_results.rb:427-431 | a candidate without an "id" gets the id drawn for its position; one with an id keeps it |
| Fusion.BuildLookup | 07_retrieval_augmented_generation/08_reranking_results/reranking_results.rb:433 | the lookup maps each id to the last candidate holding it |
| Fusion.BuildScores | 07_retrieval_augmented_generation/08_reranking_results/reranking_results.rb:437 | maps each candidate to its fused score |
| Fusion.Rerank | 07_retrieval_augmented_generation/08_reranking_results/reranking_results.rb:436-445 | the reorder loop keeps only ids naming a candidate, in the reranker's order |
| Fusion.RerankFused | 07_retrieval_augmented_generation/08_reranking_results/reranking_results.rb:424-448 | ids are assigned before the reranker is called, and its answer is mapped back to the candidates |
| Fusion.IdsOf | 07_retrieval_augmented_generation/08_reranking_results/reranking_results.rb:433 | one id value per candidate hash |
| Fusion.WithId | 07_retrieval_augmented_generation/08_reranking_results/reranking_results.rb:372-375 | setting an id adds only the "id" key and keeps every existing value, an existing id included; a missing id becomes the drawn one |
| Fusion.AddToIndex | 07_retrieval_augmented_generation/07_a_multi_index_rag_pipeline/retriever.rb:11 | one index either stores the document or reports why not |
| Fusion.AddAllToIndex | 07_retrieval_augmented_generation/07_a_multi_index_rag_pipeline/retriever.rb:17 | one index stores a prefix of the batch, all of it for BM25 on success, and answers with that index's batch verdict before the call |
| Fusion.SearchIndex | 07_retrieval_augmented_generation/07_a_multi_index_rag_pipeline/retriever.rb:33 | asking an index leaves its documents and every hash unchanged and returns only stored documents |
| Fusion.Retriever.constructor | 07_retrieval_augmented_generation/07_a_multi_index_rag_pipeline/retriever.rb:2-7 | the retriever holds the given indexes and reranker |
| Fusion.Retriever.Create | 07_retrieval_augmented_generation/07_a_multi_index_rag_pipeline/retriever.rb:2-7 | construction fails exactly for an empty index list |
| Fusion.Retriever.AddDocument | 07_retrieval_augmented_generation/07_a_multi_index_rag_pipeline/retriever.rb:9-13 | the document goes to each index in order; the first rejecting index stops the loop, the earlier ones keep it |
| Fusion.Retriever.AddDocumentWithId | 07_retrieval_augmented_generation/08_reranking_results/reranking_results.rb:372-380 | an id is set only when the key is absent; every index before the stopping one accepted the document with its id and stored it, and the stopping index's own verdict is the error |
| Fusion.Retriever.AddDocuments | 07_retrieval_augmented_generation/07_a_multi_index_rag_pipeline/retriever.rb:15-19 | the batch goes to each index in order, without ids; every index before the stopping one passed its batch verdict and stored what it names, the stopping index failed with its own verdict after storing the prefix it names, and later indexes store nothing |
| Fusion.Retriever.AddAt | 07_retrieval_augmented_generation/07_a_multi_index_rag_pipeline/retriever.rb:10-12 | one loop turn touches only index `cur` |
| Fusion.Retriever.AddAllAt | 07_retrieval_augmented_generation/07_a_multi_index_rag_pipeline/retriever.rb:16-18 | one loop turn gives the batch to index `cur` only: it answers that index's batch verdict before the call, and every other index keeps its documents and its batch verdict |
| Fusion.Retriever.QueryAll | 07_retrieval_augmented_generation/07_a_multi_index_rag_pipeline/retriever.rb:32-34 | every index is asked in order; the first error stops the loop; nothing stored changes |
| Fusion.Retriever.QueryIndex | 07_retrieval_augmented_generation/07_a_multi_index_rag_pipeline/retriever.rb:33 | asking one index extends the answered lists or reports its error |
| Fusion.Retriever.FusedAreStored | 07_retrieval_augmented_generation/07_a_multi_index_rag_pipeline/retriever.rb:54-61 | the fused candidates are stored documents, each listed once |
| Fusion.Retriever.FuseStored | 07_retrieval_augmented_generation/07_a_multi_index_rag_pipeline/retriever.rb:36-61 | fusion changes no index and yields distinct stored documents |
| Fusion.Retriever.RerankStored | 07_retrieval_augmented_generation/08_reranking_results/reranking_results.rb:424-448 | each candidate gets its id, the indexes keep their documents, and the answer is the candidates in the reranker's order |
| Fusion.Retriever.Search | 07_retrieval_augmented_generation/08_reranking_results/reranking_results.rb:388-451 | query type, `k` and `k_rrf` are checked before any index is asked; each index is asked for `k * 5`; the answer is the fused top `k`, reordered by the reranker when there is one |
| Strings.DropTrailingEmpty | 07_retrieval_augmented_generation/02_text_chunking_strategies/text_chunking_strategies.rb:27 | `split` keeps a prefix of the fields, drops only empty ones, and ends on a non-empty one |
| Strings.SplitOn | 07_retrieval_augmented_generation/02_text_chunking_strategies/text_chunking_strategies.rb:49 | splitting yields at least one field |
| Strings.FindFrom | 06_tool_use_with_claude/13_the_text_edit_tool/the_text_edit_tool.rb:91 | finds the leftmost occurrence at or after a position, or reports that there is none |
| Strings.SplitOnJoin | 07_retrieval_augmented_generation/02_text_chunking_strategies/text_chunking_strategies.rb:47-50 | joining the split fields with the separator gives the text back, and no field contains the separator |
| Strings.NatToString | 06_tool_use_with_claude/13_the_text_edit_tool/the_text_edit_tool.rb:71 | a decimal numeral is non-empty digits without a leading zero |
| Strings.NatToStringRoundTrip | 06_tool_use_with_claude/13_the_text_edit_tool/the_text_edit_tool.rb:71 | reading the digits back gives the number |
| Strings.NatToStringInjective | 06_tool_use_with_claude/13_the_text_edit_tool/the_text_edit_tool.rb:71 | different modification times give different backup names |
| Strings.LessCommonPrefix | 06_tool_use_with_claude/13_the_text_edit_tool/the_text_edit_tool.rb:83 | a common prefix does not change the string order |
| Strings.LessIrreflexive | 06_tool_use_with_claude/13_the_text_edit_tool/the_text_edit_tool.rb:83 | no string is smaller than itself |
| Strings.LessTotal | 06_tool_use_with_claude/13_the_text_edit_tool/the_text_edit_tool.rb:83 | two different strings are ordered one way or the other |
| Strings.LessTransitive | 06_tool_use_with_claude/13_the_text_edit_tool/the_text_edit_tool.rb:83 | the string order is transitive |
| Strings.LessAsymmetric | 06_tool_use_with_claude/13_the_text_edit_tool/the_text_edit_tool.rb:83 | the string order is asymmetric |
| Chunking.Window | 07_retrieval_augmented_generation/02_text_chunking_strategies/text_chunking_strategies.rb:10-12 | `text[start...end]` copies items from `start` on: `min(size, rest)` of them for a non-negative size; for a negative size the end counts from the back, so only a window whose end falls before 0 is non-empty, with `max(n + size, 0)` items |
| Chunking.Windows | 07_retrieval_augmented_generation/02_text_chunking_strategies/text_chunking_strategies.rb:9-20 | the scan yields no chunk exactly when its start is at or past the end of the text |
| Chunking.WindowsEach | 07_retrieval_augmented_generation/02_text_chunking_strategies/text_chunking_strategies.rb:9-19 | chunk `i` is the window at the `i`-th start, inside the text, and every chunk but the last stops short of the end |
| Chunking.NegativeSizeCountsFromBack | 07_retrieval_augmented_generation/02_text_chunking_strategies/text_chunking_strategies.rb:10-19 | `chunk_by_char("abc", chunk_size: -1, chunk_overlap: -2)` gives ["ab", "", ""]: the first end counts from the back and the later windows are empty |
| Chunking.NegativeMaxCountsFromBack | 07_retrieval_augmented_generation/02_text_chunking_strategies/text_chunking_strategies.rb:32-38 | with `max_sentences_per_chunk: -1` and `overlap_sentences: -2`, three sentences give the windows [first two], [], []: the first end counts from the back and the later windows are empty |
| Chunking.WindowStartIsProduct | 07_retrieval_augmented_generation/02_text_chunking_strategies/text_chunking_strategies.rb:38 | the `i`-th start is `i * (size - overlap)` |
| Chunking.WindowAt | 07_retrieval_augmented_generation/02_text_chunking_strategies/text_chunking_strategies.rb:9-19 | chunk `i` is the window at its start, inside the text; every chunk but the last stops short of the end |
| Chunking.WindowsReachEnd | 07_retrieval_augmented_generation/02_text_chunking_strategies/text_chunking_strategies.rb:15-19 | with a non-negative overlap the last chunk ends at the end of the text |
| Chunking.WindowsShape | 07_retrieval_augmented_generation/02_text_chunking_strategies/text_chunking_strategies.rb:9-19 | there are no chunks exactly for empty text; chunk `i` is the window at the `i`-th start; every chunk but the last stops short of the end, and the last reaches it |
| Chunking.WindowsSizes | 07_retrieval_augmented_generation/02_text_chunking_strategies/text_chunking_strategies.rb:10-12 | every chunk is non-empty and at most `chunk_size` long |
| Chunking.TailsAfter | 07_retrieval_augmented_generation/02_text_chunking_strategies/text_chunking_strategies.rb:9-19 | the later chunks minus their overlaps are exactly the rest of the text |
| Chunking.WindowsRoundTrip | 07_retrieval_augmented_generation/02_text_chunking_strategies/text_chunking_strategies.rb:9-20 | for `0 <= overlap < size`, the first chunk plus every later chunk minus its overlap rebuilds the text |
| Chunking.ChunkByChar | 07_retrieval_augmented_generation/02_text_chunking_strategies/text_chunking_strategies.rb:5-23 | the loop computes exactly the windows of the scan |
| Chunking.SteppedWindowAt | 07_retrieval_augmented_generation/02_text_chunking_strategies/text_chunking_strategies.rb:32-38 | chunk `i` of the sentence scan is the window at `i * (max - overlap)` |
| Chunking.SteppedWindowsPassEnd | 07_retrieval_augmented_generation/02_text_chunking_strategies/text_chunking_strategies.rb:32-38 | the loop stops once the start passes the last sentence |
| Chunking.SteppedWindows | 07_retrieval_augmented_generation/02_text_chunking_strategies/text_chunking_strategies.rb:32-41 | the sentence scan yields no chunk exactly when its start is at or past the last sentence, and at most one chunk per remaining sentence |
| Chunking.SteppedWindowsShape | 07_retrieval_augmented_generation/02_text_chunking_strategies/text_chunking_strategies.rb:32-38 | there are no chunks exactly for no sentences; chunk `i` is the window at the `i`-th start; the chunks continue until the next start passes the last sentence |
| Chunking.SteppedWindowsEach | 07_retrieval_augmented_generation/02_text_chunking_strategies/text_chunking_strategies.rb:32-41 | sentence chunk `i` is the window at the `i`-th start `i * (max - overlap)` steps on, and that start lies inside the sentence list |
| Chunking.FirstBreak | 07_retrieval_augmented_generation/02_text_chunking_strategies/text_chunking_strategies.rb:27 | finds the leftmost sentence break (a terminator followed by whitespace) |
| Chunking.RunEnd | 07_retrieval_augmented_generation/02_text_chunking_strategies/text_chunking_strategies.rb:27 | `\s+` is greedy: the whitespace run ends at a non-space or the end |
| Chunking.SentenceFieldsShape | 07_retrieval_augmented_generation/02_text_chunking_strategies/text_chunking_strategies.rb:27 | no field contains a sentence break, and only the last may be empty |
| Chunking.SentencesShape | 07_retrieval_augmented_generation/02_text_chunking_strategies/text_chunking_strategies.rb:27 | every sentence is non-empty and contains no sentence break |
| Chunking.SentenceFields | 07_retrieval_augmented_generation/02_text_chunking_strategies/text_chunking_strategies.rb:27 | splitting at the sentence breaks yields at least one field |
| Chunking.Sentences | 07_retrieval_augmented_generation/02_text_chunking_strategies/text_chunking_strategies.rb:27 | `split` keeps a prefix of the sentence fields that ends on a non-empty one |
| Chunking.JoinEach | 07_retrieval_augmented_generation/02_text_chunking_strategies/text_chunking_strategies.rb:36 | each chunk is its sentences joined with single spaces |
| Chunking.ChunkBySentence | 07_retrieval_augmented_generation/02_text_chunking_strategies/text_chunking_strategies.rb:26-44 | the loop computes exactly the joined windows of the stepped scan |
| Chunking.SentenceChunksShape | 07_retrieval_augmented_generation/02_text_chunking_strategies/text_chunking_strategies.rb:32-38 | chunk `i` joins the consecutive sentences of the window at `i * (max - overlap)`, at most `max` of them (at most `n + max` for a negative `max`), and the chunks run until the start passes the end |
| Chunking.TrailingChunkIsOnlyOverlap | 07_retrieval_augmented_generation/02_text_chunking_strategies/text_chunking_strategies.rb:32-38 | as written, two sentences with max 2 and overlap 1 give a second chunk made only of overlap |
| Chunking.ChunkBySentenceCorrected | 07_retrieval_augmented_generation/02_text_chunking_strategies/text_chunking_strategies.rb:26-44 | with `chunk_by_char`'s exit, the loop computes the windows that stop at the last sentence |
| Chunking.CharLoopNeverEnds | 07_retrieval_augmented_generation/02_text_chunking_strategies/text_chunking_strategies.rb:9-19 | as written, with a window that cannot advance on a text longer than one window, the start stays at or below 0 after every turn, so the loop never ends |
| Chunking.ChunkByCharChecked | 07_retrieval_augmented_generation/02_text_chunking_strategies/text_chunking_strategies.rb:5-23 | the checked chunker refuses exactly the parameters with which the window cannot advance, and otherwise gives the chunks of `chunk_by_char` |
| Chunking.SentenceLoopNeverEnds | 07_retrieval_augmented_generation/02_text_chunking_strategies/text_chunking_strategies.rb:32-41 | as written, with an overlap of at least the chunk size, the start stays 0 after every turn, so on a text with a sentence the loop never ends |
| Chunking.ChunkBySentenceChecked | 07_retrieval_augmented_generation/02_text_chunking_strategies/text_chunking_strategies.rb:26-44 | the checked chunker refuses exactly an overlap of at least the chunk size on a text with sentences, and otherwise gives the chunks of `chunk_by_sentence` |
| Chunking.WindowsEachReachFurther | 07_retrieval_augmented_generation/02_text_chunking_strategies/text_chunking_strategies.rb:15-19 | with that exit each chunk ends later than the one before it |
| Chunking.SectionsShape | 07_retrieval_augmented_generation/02_text_chunking_strategies/text_chunking_strategies.rb:47-50 | sections are the split fields up to the last non-empty one, joining the fields gives the document, and no section contains "\n## " |
| Chunking.ChunkBySection | 07_retrieval_augmented_generation/02_text_chunking_strategies/text_chunking_strategies.rb:47-50 | the sections are a prefix of the fields split at "\n## ", ending on a non-empty one |
| MonthMath.UnitSeconds | 06_tool_use_with_claude/08_implementing_multiple_turns/implementing_multiple_turns.rb:51-60 | exactly the five fixed-length units have a length in seconds |
| MonthMath.AddDuration | 06_tool_use_with_claude/08_implementing_multiple_turns/implementing_multiple_turns.rb:50-77 | the five fixed-length units give an offset, "months" and "years" give new calendar fields, and any other unit fails with "Unsupported time unit: " and the unit |
| MonthMath.DaysInMonth | 06_tool_use_with_claude/08_implementing_multiple_turns/implementing_multiple_turns.rb:69-70 | every month has 28 to 31 days |
| MonthMath.AddMonths | 06_tool_use_with_claude/08_implementing_multiple_turns/implementing_multiple_turns.rb:62-68 | the month lands in 1..12 and `year * 12 + month - 1` moves by exactly `duration`, negative durations included |
| MonthMath.MonthIndexInjective | 06_tool_use_with_claude/08_implementing_multiple_turns/implementing_multiple_turns.rb:62-68 | a month index determines year and month |
| MonthMath.AddMonthsComposes | 06_tool_use_with_claude/08_implementing_multiple_turns/implementing_multiple_turns.rb:62-68 | adding `a` then `b` months is adding `a + b`; adding `-a` undoes adding `a` |
| MonthMath.DaysInMonthTable | 06_tool_use_with_claude/08_implementing_multiple_turns/implementing_multiple_turns.rb:69-70 | February has 29 days exactly in Gregorian leap years, and a year has 366 or 365 days |
| MonthMath.LeapCycle | 06_tool_use_with_claude/08_implementing_multiple_turns/implementing_multiple_turns.rb:69 | the leap-year rule repeats every 400 years |
| MonthMath.MonthsResult | 06_tool_use_with_claude/08_implementing_multiple_turns/implementing_multiple_turns.rb:61-72 | "months" gives a valid month `duration` on, the day clamped to that month's length, and the time kept |
| MonthMath.YearsResult | 06_tool_use_with_claude/08_implementing_multiple_turns/implementing_multiple_turns.rb:73-74 | "years" changes the year only |
| MonthMath.FixedUnitsAgree | 06_tool_use_with_claude/08_implementing_multiple_turns/implementing_multiple_turns.rb:51-60 | a week is 7 days, a day 24 hours, an hour 60 minutes, a minute 60 seconds |
| MonthMath.UnsupportedUnit | 06_tool_use_with_claude/08_implementing_multiple_turns/implementing_multiple_turns.rb:75-76 | exactly the units outside the seven listed fail, with "Unsupported time unit" |
| TextEditing.Basename | 06_tool_use_with_claude/13_the_text_edit_tool/the_text_edit_tool.rb:70 | the base name is the slash-free tail after the last "/" |
| TextEditing.CheckPathAsWritten | 06_tool_use_with_claude/13_the_text_edit_tool/the_text_edit_tool.rb:59-65 | as written, the guard accepts exactly the resolved paths that start with the base directory as a string, returns them, and refuses the rest with "Access denied" naming the given path |
| TextEditing.CheckPath | 06_tool_use_with_claude/13_the_text_edit_tool/the_text_edit_tool.rb:59-65 | the corrected guard returns the resolved path unchanged or refuses with "Access denied" naming the given path |
| TextEditing.CheckPathInsideDir | 06_tool_use_with_claude/13_the_text_edit_tool/the_text_edit_tool.rb:59-65 | the corrected guard admits exactly the paths inside the base directory, returns them unchanged, and refuses the rest with "Access denied" |
| TextEditing.SiblingDirectoryPasses | 06_tool_use_with_claude/13_the_text_edit_tool/the_text_edit_tool.rb:61 | as written, "/srv/app-data/key" passes the guard for base "/srv/app" |
| TextEditing.NewlineFrom | 06_tool_use_with_claude/13_the_text_edit_tool/the_text_edit_tool.rb:190 | finds the first line feed at or after a position, or reports that there is none |
| TextEditing.ConcatAppend | 06_tool_use_with_claude/13_the_text_edit_tool/the_text_edit_tool.rb:202 | joining two line lists is joining each |
| TextEditing.ReadLinesJoin | 06_tool_use_with_claude/13_the_text_edit_tool/the_text_edit_tool.rb:190 | `readlines` cuts the content into well-formed lines that join back to it |
| TextEditing.ReadLinesOfConcat | 06_tool_use_with_claude/13_the_text_edit_tool/the_text_edit_tool.rb:190-202 | `readlines` of joined well-formed lines gives the lines back |
| TextEditing.ReadLines | 06_tool_use_with_claude/13_the_text_edit_tool/the_text_edit_tool.rb:190 | `readlines` gives no lines exactly for empty content, and no line is empty |
| TextEditing.RangeSlice | 06_tool_use_with_claude/13_the_text_edit_tool/the_text_edit_tool.rb:121 | `lines[a...b]` is nil exactly when the start lies outside the array |
| TextEditing.NumberLines | 06_tool_use_with_claude/13_the_text_edit_tool/the_text_edit_tool.rb:124-133 | the numbering loop computes "n: line" for each line, counting from the first number |
| TextEditing.ViewRangeIsPartOfWholeView | 06_tool_use_with_claude/13_the_text_edit_tool/the_text_edit_tool.rb:115-133 | [1, -1] shows the whole file, and [s, e] shows exactly lines s..e of the whole view with the same numbers |
| TextEditing.ViewText | 06_tool_use_with_claude/13_the_text_edit_tool/the_text_edit_tool.rb:115-136 | only a range can fail, and then with the no-such-range error; a range starting at a line from 1 to n + 1 always succeeds |
| TextEditing.CountMatchesZero | 06_tool_use_with_claude/13_the_text_edit_tool/the_text_edit_tool.rb:90-92 | no match is counted exactly when the text does not occur |
| TextEditing.CountMatches | 06_tool_use_with_claude/13_the_text_edit_tool/the_text_edit_tool.rb:90-92 | at most one match per character of the text, plus one for the empty pattern |
| TextEditing.ReplaceAll | 06_tool_use_with_claude/13_the_text_edit_tool/the_text_edit_tool.rb:158 | text without an occurrence of the pattern, or a replacement equal to the pattern, is left unchanged |
| TextEditing.StrReplaceText | 06_tool_use_with_claude/13_the_text_edit_tool/the_text_edit_tool.rb:148-158 | succeeds exactly when the pattern occurs once; otherwise "no match" for none and "N matches" for more |
| TextEditing.StrReplaceUnique | 06_tool_use_with_claude/13_the_text_edit_tool/the_text_edit_tool.rb:148-160 | succeeds exactly on one match, with "no match" and "N matches" errors otherwise, and replaces that occurrence alone, keeping the text before and after |
| TextEditing.InsertAddsBlankLine | 06_tool_use_with_claude/13_the_text_edit_tool/the_text_edit_tool.rb:192-197 | as written, inserting "X" at line 0 into "a" writes "\nX\na", three lines |
| TextEditing.InsertLinesAsWritten | 06_tool_use_with_claude/13_the_text_edit_tool/the_text_edit_tool.rb:192-200 | as written, succeeds exactly for a line number in 0..n, otherwise the out-of-range error with the line count; on success one line more, the old lines before and after the insertion point kept |
| TextEditing.InsertLines | 06_tool_use_with_claude/13_the_text_edit_tool/the_text_edit_tool.rb:192-200 | the corrected insert succeeds exactly for 0..n with the same error otherwise; on success one line more, the old lines before and after the insertion point kept |
| TextEditing.TerminateLastIsLineList | 06_tool_use_with_claude/13_the_text_edit_tool/the_text_edit_tool.rb:192 | ending the last line with "\n" adds just that "\n" and leaves every line terminated |
| TextEditing.InsertedIsLineList | 06_tool_use_with_claude/13_the_text_edit_tool/the_text_edit_tool.rb:194-197 | inserting a terminated line keeps the lines well formed |
| TextEditing.InsertAddsOneLine | 06_tool_use_with_claude/13_the_text_edit_tool/the_text_edit_tool.rb:192-202 | the corrected insert at 0..n adds exactly one line at that position and keeps every old line |
| TextEditing.BackupNameRecognised | 06_tool_use_with_claude/13_the_text_edit_tool/the_text_edit_tool.rb:70-79 | every backup name `backup_file` makes is found again by the corrected filter for that file |
| TextEditing.BackupNameHasOneOwner | 06_tool_use_with_claude/13_the_text_edit_tool/the_text_edit_tool.rb:79 | under the corrected filter a backup belongs to one file name only |
| TextEditing.MatchesAsWritten | 06_tool_use_with_claude/13_the_text_edit_tool/the_text_edit_tool.rb:79 | the filter as written admits every backup name `backup_file` makes for the file |
| TextEditing.UndoPicksOtherFilesBackup | 06_tool_use_with_claude/13_the_text_edit_tool/the_text_edit_tool.rb:79-83 | as written, undoing "notes" picks the backup of "notes.md" as the greatest name |
| TextEditing.Greatest | 06_tool_use_with_claude/13_the_text_edit_tool/the_text_edit_tool.rb:83 | `backups.max` returns a name above every other one |
| TextEditing.GreatestUnique | 06_tool_use_with_claude/13_the_text_edit_tool/the_text_edit_tool.rb:83 | the greatest name is unique |
| TextEditing.TextEditor.constructor | 06_tool_use_with_claude/13_the_text_edit_tool/the_text_edit_tool.rb:51-55 | an empty base directory means the working directory, and an empty backup directory means ".backups" inside the base |
| TextEditing.TextEditor.ValidatePath | 06_tool_use_with_claude/13_the_text_edit_tool/the_text_edit_tool.rb:59-65 | the tool's guard admits exactly the resolved paths inside the base directory, returns the resolved path, and refuses the rest with "Access denied" |
| TextEditing.TextEditor.BackupsOf | 06_tool_use_with_claude/13_the_text_edit_tool/the_text_edit_tool.rb:76-79 | the listed backups are exactly the entries of the backup directory that are backup names of the file |
| TextEditing.TextEditor.BackupFile | 06_tool_use_with_claude/13_the_text_edit_tool/the_text_edit_tool.rb:67-74 | a missing file gives "" and no change; otherwise the content is copied to "<basename>.<mtime>" in the backup directory |
| TextEditing.TextEditor.RestoreBackup | 06_tool_use_with_claude/13_the_text_edit_tool/the_text_edit_tool.rb:76-88 | with no backup it fails and changes nothing; otherwise the greatest backup's content is copied over the file |
| TextEditing.TextEditor.View | 06_tool_use_with_claude/13_the_text_edit_tool/the_text_edit_tool.rb:96-139 | a refused path or missing file is reported, and a directory is reported as one; otherwise the numbered view of the file, for the whole file or a range |
| TextEditing.TextEditor.StrReplace | 06_tool_use_with_claude/13_the_text_edit_tool/the_text_edit_tool.rb:141-165 | a refused path, a missing file and a directory are reported with the files unchanged, as are a missing or repeated match; on a unique match the backup is taken first, then the file gets the replaced text |
| TextEditing.TextEditor.Create | 06_tool_use_with_claude/13_the_text_edit_tool/the_text_edit_tool.rb:167-181 | refuses a path that names an existing file or directory (the base and backup directories, or any directory holding a file) and changes nothing; otherwise the file's content becomes exactly the given text |
| TextEditing.TextEditor.Insert | 06_tool_use_with_claude/13_the_text_edit_tool/the_text_edit_tool.rb:183-207 | a refused path, a missing file and a directory are reported with the files unchanged; otherwise the backup is taken first, even when the line number is then refused, and on success the file becomes the joined new lines |
| TextEditing.TextEditor.UndoEdit | 06_tool_use_with_claude/13_the_text_edit_tool/the_text_edit_tool.rb:209-220 | a missing file is "File not found" and a directory is reported as one; no backup is "No previous edits to undo"; otherwise the greatest backup of the file is restored |

## Left out

- `Math.sqrt`, `Math.log` and `Math.exp` are injected as `RagTypes.Libm`. Its `Sound()` predicate states the only facts used: square roots square back, log is increasing with `log(1) = 0`, and exp is positive and increasing with `exp(0) = 1`. Floating-point rounding is not modelled, and all arithmetic is exact on `real`.
- Embedding functions, the reranker and `Array#sample` are parameters: `RagTypes.Embedder`, `Fusion.Reranker` and a `draws` function from position to id. Network calls and randomness are not part of this model.
- `length` and `to_s` of the indexes are not modelled, because they only format state.
- `VectorStore.VectorIndex.AddDocuments` and the other batch adds: a non-array argument and a non-hash element cannot occur, because a batch is a sequence of document objects. Only the nil document met by a surplus embedding is modelled.
- `Fusion.Retriever.constructor`: the index objects must be pairwise distinct. The Ruby code also accepts the same index twice, which would add each document to it twice.
- `Lexical.BM25Index.constructor` requires `k1 >= 0` and `0 <= b <= 1`, so that the BM25 denominator stays positive. The Ruby code accepts any numbers.
- `Chunking.ChunkByChar` requires that the window advances. Otherwise the Ruby loop never ends (see Findings); `Chunking.ChunkByCharChecked` refuses those parameters.
- `Chunking.ChunkBySentence` requires `overlap < max` on a text with sentences. Otherwise the Ruby loop never ends (see Findings); `Chunking.ChunkBySentenceChecked` refuses those parameters.
- Time parsing (`Time.strptime`), `Time` plus seconds and `strftime` formatting are not modelled: `MonthMath.AddDuration` returns the offset or the fields. The normalisation `Time.new` applies is not modelled either. For example, "years" from February 29 to a non-leap year gives day 29 of February, which `Time.new` turns into March 1.
- `TextEditing.TextEditor.View`: listing a directory is not modelled; on a directory the model reports `IsADirectory` where Ruby lists its entries. Permission and encoding errors are not modelled, here or in the other commands.
- `TextEditing.TextEditor.Create`: creating the missing parent directories is not modelled, because the file map has no directories. A path below an existing file is not refused: the model adds it, where Ruby's `mkdir_p` or `File.write` fails because the parent is not a directory.
- `TextEditing.ReplaceAll` takes the replacement literally. Ruby's `gsub` would expand backslash sequences such as `\0` or `\&` in `new_str`.
- `TextEditing.TextEditor.BackupFile`: the file's modification time is a parameter (`mtime`), and `preserve: true` has no counterpart.
- `TextEditing.Basename` does not strip trailing slashes the way `File.basename` does. The paths it receives come from `File.expand_path`, which leaves none.
- `File.expand_path(File.join(base_dir, file_path))` is the injected `resolve` function of `TextEditing.TextEditor`.
- `TextEditing.TextEditor.ValidatePath` uses the corrected guard `TextEditing.CheckPath`, which admits the base directory and paths below it at a "/". Ruby's bare `start_with?` is `TextEditing.CheckPathAsWritten`, and `TextEditing.SiblingDirectoryPasses` shows a path the two treat differently (see Findings).
- `TextEditing.TextEditor.View` checks its path with `ValidatePath`, so it uses the corrected guard, not the one as written.
- `TextEditing.TextEditor.StrReplace` checks its path with `ValidatePath`, so it uses the corrected guard, not the one as written.
- `TextEditing.TextEditor.Create` checks its path with `ValidatePath`, so it uses the corrected guard, not the one as written.
- `TextEditing.TextEditor.Insert` uses the corrected guard and the corrected `TextEditing.InsertLines`, which prefixes "\n" only when the text goes after an unterminated last line. Ruby prefixes it wherever the text goes; that is `TextEditing.InsertLinesAsWritten`, and `TextEditing.InsertAddsBlankLine` shows the difference (see Findings).
- `TextEditing.TextEditor.UndoEdit` uses the corrected guard and the corrected backup filter `TextEditing.IsBackupName`, which admits only "<name>.<digits>". Ruby admits every entry starting with "<name>."; that is `TextEditing.MatchesAsWritten`, and `TextEditing.UndoPicksOtherFilesBackup` shows the difference (see Findings).
- `TextEditing.TextEditor.BackupsOf` lists the backups by the corrected filter `TextEditing.IsBackupName`, which admits only "<name>.<digits>". Ruby's `start_with?("#{file_name}.")` is `TextEditing.MatchesAsWritten` (see Findings).
- `TextEditing.TextEditor.UndoEdit` on a directory reports `IsADirectory`. Ruby passes its `File.exist?` check and goes on to look for backups named after the directory, copying the latest one into it.
- `TextEditing.TextEditor.Insert` on a directory reports `IsADirectory` with the files unchanged. Whatever Ruby's failing backup copy of the directory leaves in the backup directory is not modelled.
- `TextEditing.TextEditor.RestoreBackup` uses the corrected backup filter `TextEditing.IsBackupName`, for the same reason as `UndoEdit`.
- `Lexical.Downcase` maps only the ASCII letters A-Z. Ruby's `String#downcase` applies full Unicode case mapping, which lowercases other letters too and can change the length: "İ" (U+0130) becomes "i̇", two code points.
- `MonthMath.AddDuration` takes an integer duration. Ruby also accepts a Float, which the fixed units multiply and the month arithmetic would carry into `Time.new`. The keyword defaults `duration: 0` and `unit: "days"` are not modelled: every call passes both.
- `Fusion.Retriever.Search` takes `k` and `k_rrf` as integers. Ruby accepts any numbers and checks only `k <= 0` and `k_rrf < 0`, so a fractional `k_rrf` such as 60.5 is not modelled.
- `Fusion.Contribution` and the RRF functions take `k_rrf` as a natural number, the value `Search` has checked. A fractional `k_rrf` is not modelled.
- Keyword defaults are not modelled; every call passes every argument. The defaults are: chunk size 150 with overlap 20 for `chunk_by_char`; 5 sentences with overlap 1 for `chunk_by_sentence`; `k: 1` and `k_rrf: 60` for `search`; `score_normalization_factor: 0.1` for BM25 `search`; `k1: 1.5` and `b: 0.75` for `BM25Index`; and metric "cosine" for `VectorIndex`.

## Findings

| source | as written | input that shows it | evidently intended | confidence | as-written member | corrected member |
|---|---|---|---|---|---|---|
| 06_tool_use_with_claude/13_the_text_edit_tool/the_text_edit_tool.rb:61 | the path guard is a bare string-prefix test against the base directory | base "/srv/app", path "../app-data/key", which resolves to "/srv/app-data/key" and is accepted | only the base directory itself and paths below it at a "/" are allowed | high, not executed | TextEditing.SiblingDirectoryPasses | TextEditing.CheckPathInsideDir |
| 06_tool_use_with_claude/13_the_text_edit_tool/the_text_edit_tool.rb:192 | `"\n"` is prepended to the new text whenever the last line lacks one, wherever the text goes | file "a", insert_line 0, new_str "X" writes "\nX\na": a blank first line, and "X" on line 2 | the prefix only when the text goes after the unterminated last line | high, not executed | TextEditing.InsertAddsBlankLine | TextEditing.InsertAddsOneLine |
| 06_tool_use_with_claude/13_the_text_edit_tool/the_text_edit_tool.rb:79 | backups are selected by the prefix "#{file_name}." | backups "notes.7" and "notes.md.8": undo_edit of "notes" restores the content of "notes.md" | only "<file_name>.<digits>", the names `backup_file` makes for that file | high, not executed | TextEditing.UndoPicksOtherFilesBackup | TextEditing.BackupNameHasOneOwner |
| 07_retrieval_augmented_generation/02_text_chunking_strategies/text_chunking_strategies.rb:38 | the start advances by `max - overlap` even after a chunk reached the last sentence | sentences "A." and "B.", max 2, overlap 1 give ["A. B.", "B."]; the second chunk is only overlap | stop once a chunk reaches the last sentence, as `chunk_by_char` does | medium, not executed | Chunking.TrailingChunkIsOnlyOverlap | Chunking.ChunkBySentenceCorrected |
| 07_retrieval_augmented_generation/02_text_chunking_strategies/text_chunking_strategies.rb:15-19 | the next start is `end_idx - chunk_overlap`, and the loop runs while the start is below the text length | "abcd" with chunk_size 2 and chunk_overlap 2: start_idx stays 0 and the chunk list grows without end | parameters with which the window cannot advance are refused | medium, not executed | Chunking.CharLoopNeverEnds | Chunking.ChunkByCharChecked |
| 07_retrieval_augmented_generation/02_text_chunking_strategies/text_chunking_strategies.rb:38-40 | the start moves by `max_sentences_per_chunk - overlap_sentences` and a negative start is reset to 0 | "A. B." with max_sentences_per_chunk 1 and overlap_sentences 1: start_idx stays 0 and the chunk list grows without end | an overlap of at least the chunk size is refused | medium, not executed | Chunking.SentenceLoopNeverEnds | Chunking.ChunkBySentenceChecked |

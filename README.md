# Incremental chunk-diffing and vectorized storage of articles

This project models the per-article ingestion core of the wikichat loader,
`scripts/wikichat/processing/articles.py`. The core does five things:

- It splits an article into chunks and identifies each chunk by the SHA-256 hex digest of its content.
- It compares those digests with the baseline stored for the article by the previous pass. The baseline is the `ChunkedArticleMetadataOnly` record, whose `chunks_metadata` dictionary is keyed by chunk hash. The comparison sorts chunks into new, unchanged and deleted.
- It asks the embedding service for vectors of the new chunks only, and skips the whole article when the service returns a degenerate vector.
- It replaces the article's baseline, then stores the delta in batches of 20. Inserts tolerate `DOCUMENT_ALREADY_EXISTS` and stop at any other error. Deletes go by chunk hash, and only after every insert batch succeeded.
- It feeds article metadata into a pipeline that rejects items once it is full.

Modules:

- `Wrappers`: `Option` and `Result`.
- `Batching`: splitting a list into consecutive batches of at most 20, and the facts about it.
- `Chunking`: the entities, `chunk_article`, and the baseline built from a chunked article (`from_chunked_article`, an insertion-ordered dictionary keyed by hash).
- `ChunkDiff`: `calc_chunk_diff` as a pure function of the chunked article and the stored baseline (`None` when there is none), with its classification lemmas.
- `Vectorize`: the zero-vector gate and the pairing of `vectorize_diff`, as a pure function of the diff and the embedding service's answer.
- `Store`: the document store as the class `Backend`. Its fields are:
  - the embeddings collection, a map from document id to document;
  - the metadata collection, a map from article id to baseline;
  - the log of requests sent to the store and to the embedding service, in order: the baseline lookup, the embedding request, the inserts, the deletes and the baseline upsert (the suggestions upsert is left out, see below);
  - the audit log of already-existing documents;
  - the metric counters.

  Each stage from `chunk_article` to `store_article_diff` is a method of `Backend`, proved against the specification functions `InsertFrom`, `DeleteRequests` and the pure functions above. The embedding service's answer and the store's answer to each insert batch are inputs.
- `Admission`: `process_article_metadata` over a `Pipeline` class holding its first step's admitted and offered items.

Assumptions about code outside the model:

- `wikichat.utils.batch_list` is taken to yield consecutive slices of at most 20 items, in input order.
- `EmbeddingDocument.from_vectored_chunk` is taken to give the document the chunk's hash as `_id`. `delete_vectored_chunks` deletes by exactly that id (line 145).
- `ChunkedArticleMetadataOnly.from_vectored_diff` is taken to build the same baseline as `from_chunked_article` applied to the diff's chunked article.
- `chunks_metadata` is taken to be built as `{hash: metadata}` over the chunks in order. Each hash keeps its first position and its last value.
- `AsyncPipeline.put_to_first_step` is taken to accept an item exactly while fewer than `max_items` items have been admitted.

Four behaviours of the code that an idealised pipeline would not have, all kept by the model:

- A degenerate vector does not filter out only its own chunk. It makes `vectorize_diff` return `None` for the whole article (lines 70-77).
- Duplicate chunk contents are not removed from `new_chunks` or `unchanged_chunks` (lines 50 and 52).
- The baseline is replaced before the insert rather than after it (lines 105-107). See Findings.
- The embedding service is called even when there is no new chunk to embed (line 61). See Findings.

## Model

| member | source | states |
|---|---|---|
| Batching.Batches | scripts/wikichat/processing/articles.py:115 | every batch is non-empty and holds at most 20 items; there is no batch exactly when the input is empty |
| Batching.FlattenBatches | scripts/wikichat/processing/articles.py:115 | the batches, concatenated, give back the input: nothing lost, nothing duplicated, order kept |
| Batching.BatchesAreFull | scripts/wikichat/processing/articles.py:115 | every batch but the last holds exactly 20 items |
| Batching.BatchesUnique | scripts/wikichat/processing/articles.py:115 | any split into non-empty batches of at most 20, full but the last, that concatenates to the input is this batching |
| Chunking.Digests | scripts/wikichat/processing/articles.py:31 | one digest per piece, digest i being SHA-256 hex of piece i |
| Chunking.Enumerate | scripts/wikichat/processing/articles.py:35 | `enumerate(zip(...))` stops at the shorter list; entry i holds piece i, position start+i, the piece's length and hash i |
| Chunking.ChunkArticle | scripts/wikichat/processing/articles.py:28-36 | one chunk per splitter output; chunk i holds piece i, index i, the piece's length and its SHA-256 hex digest; the article is kept |
| Chunking.PutKeys | scripts/wikichat/processing/articles.py:39 | setting a key of the baseline dictionary adds exactly that key |
| Chunking.PutValues | scripts/wikichat/processing/articles.py:39 | setting a key stores the new value and no value that was not there before |
| Chunking.PutUnique | scripts/wikichat/processing/articles.py:39 | setting a key keeps the dictionary's keys distinct |
| Chunking.BaselineOfChunks | scripts/wikichat/processing/articles.py:39 | the baseline of a chunked article has exactly its chunk hashes as keys, each once, and each value is the metadata of one of its chunks |
| Chunking.BaselineKeysAreDigests | scripts/wikichat/processing/articles.py:31-39 | the chunk hashes, and so the baseline keys, are exactly the digests of the splitter output |
| ChunkDiff.SelectMembers | scripts/wikichat/processing/articles.py:50-52 | a chunk is selected exactly when it is a current chunk whose hash is (or is not) a baseline key |
| ChunkDiff.StaleMembers | scripts/wikichat/processing/articles.py:51 | an entry is stale exactly when it is a baseline entry whose hash is not current |
| ChunkDiff.DiffClassifies | scripts/wikichat/processing/articles.py:38-55 | the contract of `ChunkDiff.CalcChunkDiff`: without a baseline every chunk is new and nothing else is filled; new and unchanged chunks together are the current chunks, duplicates included; a chunk is new iff its hash is not a baseline key, unchanged iff it is; a baseline entry is deleted iff no current chunk has its hash |
| ChunkDiff.SelectPartition | scripts/wikichat/processing/articles.py:50-52 | every chunk, duplicates included, lands on exactly one side of the split |
| ChunkDiff.SelectAppend | scripts/wikichat/processing/articles.py:50-52 | the filters keep the chunks' order: selecting from a concatenation concatenates the selections |
| ChunkDiff.SelectAllPresent | scripts/wikichat/processing/articles.py:50-52 | when every hash is a baseline key, all chunks are unchanged and none is new |
| ChunkDiff.NoStaleEntries | scripts/wikichat/processing/articles.py:51 | when every baseline key is current, nothing is deleted |
| ChunkDiff.SameHashesNothingToDo | scripts/wikichat/processing/articles.py:38-55 | diffing against a baseline with the same hashes, as when an unchanged article is ingested again, finds nothing new and nothing deleted, and every chunk unchanged |
| ChunkDiff.ReorderedPiecesNothingToDo | scripts/wikichat/processing/articles.py:28-55 | reordering the same pieces gives no new and no deleted chunk: a chunk's identity is its content, not its position |
| ChunkDiff.OneStaleEntry | scripts/wikichat/processing/articles.py:51 | when exactly one baseline entry has a hash that is not current, it is the only deleted one |
| ChunkDiff.EditSelection | scripts/wikichat/processing/articles.py:50-52 | after one chunk is edited to content with a new hash, that chunk is the only new one and the others are unchanged, in order |
| ChunkDiff.EditStale | scripts/wikichat/processing/articles.py:51 | after such an edit of a chunk whose old hash no other chunk shares, its old metadata is the only deleted entry |
| ChunkDiff.SingleChunkEdit | scripts/wikichat/processing/articles.py:38-55 | editing one chunk is delete-old plus insert-new: exactly that chunk is new, exactly its old metadata is deleted, every other chunk is unchanged |
| Vectorize.NonZeroVectors | scripts/wikichat/processing/articles.py:65 | the filter keeps every vector exactly when every vector is a list with a non-zero component, and then keeps their components in order |
| Vectorize.Pair | scripts/wikichat/processing/articles.py:94-101 | `zip` pairs vector i with chunk i for as many items as the shorter list has |
| Vectorize.VectorizeDiff | scripts/wikichat/processing/articles.py:59-101 | the diff is vectored iff every vector is usable; otherwise the article is skipped with no partial result, or the debug loop raises IndexError iff an all-zero list sits past the new chunks; when vectored, vector i is paired with new chunk i, truncated to the shorter list, and the deleted chunks pass through |
| Vectorize.EveryNewChunkVectored | scripts/wikichat/processing/articles.py:79-101 | with one usable vector per new chunk, every new chunk is vectored, in order |
| Store.ExistsCount | scripts/wikichat/processing/articles.py:121 | at most as many already-exists errors as errors |
| Store.AllExist | scripts/wikichat/processing/articles.py:121-131 | the counts agree, so the batch is accepted, exactly when every error code is `DOCUMENT_ALREADY_EXISTS` |
| Store.NotInsertedMembers | scripts/wikichat/processing/articles.py:125-130 | the audit records are exactly the batch's documents not reported inserted, each without its vector |
| Store.RecordOnlyAdds | scripts/wikichat/processing/articles.py:119 | an insert keeps every stored document, and each document it adds was sent and reported inserted |
| Store.InsertRaisesIffFatal | scripts/wikichat/processing/articles.py:115-133 | the insert raises ValueError exactly when some batch is answered with an error other than `DOCUMENT_ALREADY_EXISTS` |
| Store.InsertStopsAtFirstFatal | scripts/wikichat/processing/articles.py:115-133 | the batches up to the first fatal one are sent, in order, no later batch is sent, and the error carries that batch's errors |
| Store.InsertSendsEveryBatch | scripts/wikichat/processing/articles.py:115-135 | without a fatal answer every batch is sent, in order, and the insert ends normally |
| Store.InsertOnlyAdds | scripts/wikichat/processing/articles.py:115-133 | the insert never replaces or removes a stored document; every document it adds was sent in a batch whose answer reported it inserted |
| Store.AuditOnlyUnreported | scripts/wikichat/processing/articles.py:122-130 | every audit record is a sent document, without its vector, from a batch that met an existing document and did not report that document inserted |
| Store.DeletedIdsOfBatches | scripts/wikichat/processing/articles.py:142-145 | the ids sent by the delete requests are the batches' hashes, concatenated in order |
| Store.DeleteSendsEveryIdOnce | scripts/wikichat/processing/articles.py:138-147 | every chunk's hash is sent in exactly one delete request, in input order, each request holding 1 to 20 ids |
| Store.IdsAreKeys | scripts/wikichat/processing/articles.py:145 | the ids a delete request filters on are exactly the batch's hashes |
| Store.UnchangedArticleStillEmbeds | scripts/wikichat/processing/articles.py:59-61 | the embedding request for the diff of an article against its own baseline, as when an unchanged article is ingested again, is sent with no texts in it |
| Store.FailedInsertLeavesChunkOut | scripts/wikichat/processing/articles.py:104-107 | when the first insert batch is answered with a fatal error and nothing inserted, the insert raises, a new chunk stays out of the collection, and the article diffed against the baseline already written finds no new chunk |
| Store.RetryFindsUnstoredChunks | scripts/wikichat/processing/articles.py:50 | whatever baseline is stored, a current chunk whose hash it does not list is new to the next diff |
| Store.Backend.ChunkArticle | scripts/wikichat/processing/articles.py:28-36 | the chunks are those of `chunk_article`; `chunks_created` grows by the number of pieces; nothing else changes |
| Store.Backend.CalcChunkDiff | scripts/wikichat/processing/articles.py:38-55 | one lookup request is sent for the article's id, and the diff is taken against the baseline stored under it, if any; without one only `chunk_diff_new` grows, by all chunks; with one `articles_read` grows by one and the three diff counters by the three list lengths |
| Store.Backend.VectorizeDiff | scripts/wikichat/processing/articles.py:59-101 | one embedding request with the new chunks' contents is sent first, even when there are none; the outcome is `vectorize_diff`'s; `chunks_vectorized` grows by the answer's length, `zero_vectors` by one when the article is skipped; the raw insert is sent only for a vectored diff; stored documents, baselines and the audit log are untouched |
| Store.Backend.GateAndPair | scripts/wikichat/processing/articles.py:62-101 | given the service's answer: the outcome is `vectorize_diff`'s, the metrics grow as above, and the only request is the raw insert of a vectored diff |
| Store.Backend.VectorizeDiffSkippingEmpty | scripts/wikichat/processing/articles.py:59-61 | as `vectorize_diff`, except that a diff with no new chunk sends no embedding request and is gated as the empty answer would be |
| Store.Backend.InsertBatch | scripts/wikichat/processing/articles.py:117-131 | one batch: the request is sent, the collection takes the reported documents, the collision count and audit records are those of its answer, and the batch is fatal iff not every error is an already-exists one |
| Store.Backend.SendBatch | scripts/wikichat/processing/articles.py:116-133 | one pass of the insert loop advances the effect so far by the batch's own effect; the pass raises iff the batch's answer is fatal, and then the loop's whole effect is reached, carrying that batch's errors |
| Store.Backend.SendBatches | scripts/wikichat/processing/articles.py:115-134 | the loop has exactly the effect `InsertFrom` describes: outcome, requests, collection, audit log and collision count |
| Store.Backend.InsertVectoredChunks | scripts/wikichat/processing/articles.py:110-136 | batches of 20 with the effect `InsertFrom` describes; `chunks_inserted` grows by the whole list only when no batch raised; the metadata is untouched |
| Store.Backend.DeleteVectoredChunks | scripts/wikichat/processing/articles.py:138-148 | one delete request per batch of 20, in order; the collection loses exactly the documents whose id is an input hash; `chunks_deleted` grows by the input length; it never raises on its own |
| Store.Backend.UpdateArticleMetadata | scripts/wikichat/processing/articles.py:150-157 | the baseline built from all current chunks replaces or creates the one under the article's id; `articles_inserted` grows by one and the recent URL is the article's |
| Store.Backend.StoreArticleDiff | scripts/wikichat/processing/articles.py:104-108 | the baseline upsert, then the insert, then the delete only if the insert did not raise, in that request order; the diff is returned unchanged, or the insert's errors; the baseline is replaced whatever the outcome; the collection, audit log and collision count are the insert's, less the deleted ids on success; `articles_inserted` grows by one and the recent URL is the article's; `chunks_inserted` and `chunks_deleted` grow only on success |
| Store.Backend.StoreArticleDiffMetadataLast | scripts/wikichat/processing/articles.py:104-108 | insert, delete, then baseline upsert; when the insert raises the stored baselines, `articles_inserted` and the recent URL are unchanged; the collection, audit log and other counters are as for `StoreArticleDiff` |
| Store.Backend.FailedStoreLosesChunk | scripts/wikichat/processing/articles.py:104-107 | with the baseline replaced first, a first batch answered with a fatal error and nothing inserted makes the pass fail, leaves a new chunk out of the collection, and the next diff of the article finds no new chunk |
| Store.Backend.FailedStoreRetriesChunk | scripts/wikichat/processing/articles.py:104-107 | with the baseline upserted last, the same failed pass leaves the chunk out of the collection, and the next diff finds it new again |
| Store.Backend.ReingestWithoutEmbedding | scripts/wikichat/processing/articles.py:59-61 | with the empty request skipped, ingesting an article whose stored baseline is its own sends no embedding request |
| Admission.OfferStopsAtFirstRejection | scripts/wikichat/processing/articles.py:159-164 | every item is admitted iff they all fit; otherwise the pipeline fills up and exactly one more item is offered |
| Admission.Pipeline.PutToFirstStep | scripts/wikichat/processing/articles.py:161 | the item is offered, and admitted iff the pipeline has room |
| Admission.ProcessArticleMetadata | scripts/wikichat/processing/articles.py:159-164 | the items are offered in order up to and including the first rejected one, no later item is offered, and the answer is true iff every item was admitted |

## Left out

- Concurrency and the thread dispatch of blocking calls (`wrap_blocking_io`). Each call is taken to complete before the next one starts.
- Logging, timing and the `existing_chunks` logger's output format. Audit records are kept as values.
- `load_article` and the scraper, the text splitter (its output is an input), and SHA-256 itself (a function parameter).
- The embedding service (`get_embeddings` in `scripts/wikichat/processing/embeddings.py`). The request is logged and its answer is an input; its retries and its own failures are not modelled. The exception path of lines 64-68 is not modelled: a list of numeric components cannot make `any(x != 0 ...)` raise.
- Floating point: vector components are reals, and only the exact-zero test is made on them.
- Store.Backend.VectorizeDiff: the preliminary `insert_many` of the raw vectored chunks (line 89) is logged as a request but adds nothing to the embeddings map. Those documents have no id derived from the chunk. The store's failure on it is swallowed by the source (lines 91-92), so the model has no failure input for it.
- Store.Backend.InsertBatch: the store's behaviour is an input. A document is taken to be stored exactly when its id is reported inserted and was free. An answer without `status.insertedIds` while already-exists errors are present would raise `KeyError` at line 125. The model assumes the store always reports it.
- Store.Backend.UpdateArticleMetadata: the update of `RECENT_ARTICLES` and the suggestions collection (lines 154-155) is not modelled. `RecentArticles` is not part of this model.
- Failures of the store calls themselves are not modelled: the baseline lookup (line 41), an `insert_many` that raises instead of returning `errors` (line 119), `delete_many` (line 145) and the two upserts (lines 153 and 155). Each call is taken to return. The model therefore cannot show that a `delete_many` raising after a clean insert leaves stale embeddings that, with the baseline already replaced at line 105, no later pass deletes.
- Metric counters are plain counters. The metrics store's own persistence is not modelled.
- `scripts/wikichat/database.py`, `scripts/wikichat/database_setup.py`, `scripts/enableVectorSearch.js`, `scripts/wikichat/text.py` and `app/layout.tsx`: client construction, collection setup, a UI and a file check. None of them is part of the ingestion logic.
- `wikichat.utils.batch_list`, `wikichat.processing.model` and `AsyncPipeline` are not part of this model. Their behaviour is assumed as stated above.

## Findings

| source | as written | input that shows it | evidently intended | confidence | as-written member | corrected member |
|---|---|---|---|---|---|---|
| scripts/wikichat/processing/articles.py:104-107 | `store_article_diff` replaces the article's baseline before inserting the new chunks. When the insert raises, the new baseline already lists the unstored chunks. The next pass then diffs them as unchanged and never embeds or stores them again. The deletes of that pass are never re-sent either. | an article with one new chunk whose hash is not stored; the first insert batch is answered with an error code other than `DOCUMENT_ALREADY_EXISTS` and reports nothing inserted | replace the baseline only after the insert and the delete succeed, so that a failed pass leaves the previous baseline and the next pass retries it | medium, not executed | Store.Backend.FailedStoreLosesChunk | Store.Backend.StoreArticleDiffMetadataLast |
| scripts/wikichat/processing/articles.py:61 | `vectorize_diff` calls `get_embeddings` with the new chunks' contents even when there are none, and `get_embeddings` passes the list to the service unconditionally (`scripts/wikichat/processing/embeddings.py:35`). Re-ingesting an unchanged article therefore still makes one embedding call, with no texts in it. | an article whose stored baseline lists exactly its current chunk hashes | no embedding request when there is no new chunk, so that an unchanged article costs no embedding call | low, not executed | Store.UnchangedArticleStillEmbeds | Store.Backend.VectorizeDiffSkippingEmpty |

/**
 * The store step: the batched insert (`insert_vectored_chunks`) and delete
 * (`delete_vectored_chunks`) of embeddings, the baseline upsert (`update_article_metadata`),
 * their composition (`store_article_diff`), and the metric updates of the earlier stages.
 *
 * The document store is the class `Backend`: the embeddings collection as a map from
 * document id to document, the metadata collection as a map from article id to baseline,
 * the log of requests sent to the store and the embedding service, in order (all but the
 * suggestions upsert), the audit log of documents that already existed, and the metric
 * counters. The store's answers are inputs, and each store call is taken to return.
 */
module Store {
  import opened Wrappers
  import opened Batching
  import opened Chunking
  import opened ChunkDiff
  import opened Vectorize

  /** The one insert error code that is not fatal. */
  const AlreadyExists: string := "DOCUMENT_ALREADY_EXISTS"

  /** The stored form of a vectored chunk; its id is the chunk's hash. */
  datatype EmbeddingDocument = EmbeddingDocument(id: Hash, vector: seq<real>, content: string, articleUrl: string)

  /** An embedding document with its `$vector` removed, as written to the audit log. */
  datatype AuditRecord = AuditRecord(id: Hash, content: string, articleUrl: string)

  /**
   * The store's answer to one insert request: the `errorCode` of each reported error
   * (`None` for an error without one) and the ids it reports inserted.
   */
  datatype InsertResponse = InsertResponse(errorCodes: seq<Option<string>>, insertedIds: set<Hash>)

  /** A request sent to the embedding service (`Embed`) or to the store (the others): a baseline lookup, the inserts, a delete, a baseline upsert. */
  datatype Request =
    | Embed(texts: seq<string>)
    | FindMetadata(id: string)
    | InsertRaw(chunks: seq<VectoredChunk>)
    | InsertMany(documents: seq<EmbeddingDocument>)
    | DeleteMany(ids: seq<Hash>)
    | ReplaceMetadata(metadata: ChunkedArticleMetadataOnly)

  datatype Metrics = Metrics(
    chunksCreated: nat,
    chunkDiffNew: nat,
    chunkDiffDeleted: nat,
    chunkDiffUnchanged: nat,
    articlesRead: nat,
    chunksVectorized: nat,
    zeroVectors: nat,
    chunkCollision: nat,
    chunksInserted: nat,
    chunksDeleted: nat,
    articlesInserted: nat,
    recentUrl: string)

  /** How the insert of a list of vectored chunks ends: normally, or raising ValueError. */
  datatype InsertOutcome = Inserted | ValueError(errors: seq<Option<string>>)

  /**
   * What inserting a list of batches does: how it ends, the requests it sends, the
   * embeddings collection afterwards, the audit records it calls and the collisions it counts.
   */
  datatype InsertEffect = InsertEffect(
    outcome: InsertOutcome,
    requests: seq<Request>,
    embeddings: map<Hash, EmbeddingDocument>,
    audit: seq<AuditRecord>,
    collisions: nat)

  /** `EmbeddingDocument.from_vectored_chunk` */
  function ToDocument(vc: VectoredChunk): EmbeddingDocument
  {
    EmbeddingDocument(vc.chunk.metadata.hash, vc.vector, vc.chunk.content, vc.chunkedArticle.article.metadata.url)
  }

  function ToDocuments(batch: seq<VectoredChunk>): seq<EmbeddingDocument>
  {
    if batch == [] then [] else [ToDocument(batch[0])] + ToDocuments(batch[1..])
  }

  function WithoutVector(doc: EmbeddingDocument): AuditRecord
  {
    AuditRecord(doc.id, doc.content, doc.articleUrl)
  }

  /** The number of `DOCUMENT_ALREADY_EXISTS` errors. */
  function ExistsCount(codes: seq<Option<string>>): (n: nat)
    ensures n <= |codes|
  {
    if codes == [] then 0
    else (if codes[0] == Some(AlreadyExists) then 1 else 0) + ExistsCount(codes[1..])
  }

  /** Every error is `DOCUMENT_ALREADY_EXISTS` exactly when all of them are counted. */
  lemma {:induction false} AllExist(codes: seq<Option<string>>)
    ensures ExistsCount(codes) == |codes| <==> forall i :: 0 <= i < |codes| ==> codes[i] == Some(AlreadyExists)
  {
    if codes != [] {
      AllExist(codes[1..]);
      if codes[0] == Some(AlreadyExists) {
        forall i | 1 <= i < |codes| ensures codes[i] == codes[1..][i - 1] {}
      }
    }
  }

  /** The number of errors differs from the number of already-exists errors: some error is not `DOCUMENT_ALREADY_EXISTS`. */
  predicate Fatal(resp: InsertResponse)
  {
    ExistsCount(resp.errorCodes) != |resp.errorCodes|
  }

  /** The audit records of the documents the store did not report inserted, in order. */
  function NotInserted(docs: seq<EmbeddingDocument>, ids: set<Hash>): seq<AuditRecord>
  {
    if docs == [] then []
    else
      var init, last := docs[..|docs| - 1], docs[|docs| - 1];
      NotInserted(init, ids) + (if last.id !in ids then [WithoutVector(last)] else [])
  }

  /** The audit records are exactly the documents not reported inserted, without their vectors. */
  lemma {:induction false} NotInsertedMembers(docs: seq<EmbeddingDocument>, ids: set<Hash>)
    ensures forall a :: a in NotInserted(docs, ids) <==> exists d :: d in docs && d.id !in ids && a == WithoutVector(d)
  {
    if docs != [] {
      var init, last := docs[..|docs| - 1], docs[|docs| - 1];
      assert docs == init + [last];
      NotInsertedMembers(init, ids);
    }
  }

  /** The audit records one insert request leads to: none unless some document already existed. */
  function Audited(docs: seq<EmbeddingDocument>, resp: InsertResponse): seq<AuditRecord>
  {
    if ExistsCount(resp.errorCodes) > 0 then NotInserted(docs, resp.insertedIds) else []
  }

  /**
   * The embeddings collection after an insert request: each document reported inserted
   * whose id was free is added; nothing stored is replaced or removed.
   */
  function Record(m: map<Hash, EmbeddingDocument>, docs: seq<EmbeddingDocument>, ids: set<Hash>)
    : map<Hash, EmbeddingDocument>
    decreases |docs|
  {
    if docs == [] then m
    else
      var d := docs[0];
      Record(if d.id in ids && d.id !in m then m[d.id := d] else m, docs[1..], ids)
  }

  /**
   * Recording keeps every stored document, and each document it adds is one of those sent
   * whose id was reported inserted.
   */
  lemma {:induction false} RecordOnlyAdds(m: map<Hash, EmbeddingDocument>, docs: seq<EmbeddingDocument>, ids: set<Hash>)
    ensures var r := Record(m, docs, ids);
            && (forall id :: id in m ==> id in r && r[id] == m[id])
            && (forall id :: id in r && id !in m ==> id in ids && exists d :: d in docs && d.id == id && r[id] == d)
    decreases |docs|
  {
    if docs != [] {
      var d := docs[0];
      var m' := if d.id in ids && d.id !in m then m[d.id := d] else m;
      RecordOnlyAdds(m', docs[1..], ids);
      var r := Record(m, docs, ids);
      forall id | id in r && id !in m
        ensures id in ids && exists d :: d in docs && d.id == id && r[id] == d
      {
        if id in m' {
          assert r[id] == d;
        } else {
          var x :| x in docs[1..] && x.id == id && r[id] == x;
          assert x in docs;
        }
      }
    }
  }

  /** What sending one batch does, and whether its answer raises. */
  function BatchEffect(m: map<Hash, EmbeddingDocument>, docs: seq<EmbeddingDocument>, resp: InsertResponse): InsertEffect
  {
    InsertEffect(
      if Fatal(resp) then ValueError(resp.errorCodes) else Inserted,
      [InsertMany(docs)],
      Record(m, docs, resp.insertedIds),
      Audited(docs, resp),
      ExistsCount(resp.errorCodes))
  }

  /** The effect of `first` followed by `rest`, which starts from the collection `first` leaves. */
  function Then(first: InsertEffect, rest: InsertEffect): InsertEffect
  {
    InsertEffect(rest.outcome, first.requests + rest.requests, rest.embeddings,
                 first.audit + rest.audit, first.collisions + rest.collisions)
  }

  /** Following an effect by the insert of no batches adds no request, no audit record and no collision. */
  lemma ThenNothing(e: InsertEffect, m: map<Hash, EmbeddingDocument>)
    ensures Then(e, InsertEffect(Inserted, [], m, [], 0)) == e.(outcome := Inserted, embeddings := m)
  {
    assert e.requests + [] == e.requests && e.audit + [] == e.audit;
  }

  /**
   * The insert loop from batch `i` on, against collection `m`, answered by `responses`:
   * batches go out in order until one is answered with an error other than
   * `DOCUMENT_ALREADY_EXISTS`, which raises after that batch's own effects.
   */
  function InsertFrom(m: map<Hash, EmbeddingDocument>, batches: seq<seq<VectoredChunk>>,
                      responses: seq<InsertResponse>, i: nat): InsertEffect
    requires |batches| <= |responses| && i <= |batches|
    decreases |batches| - i
  {
    if i == |batches| then InsertEffect(Inserted, [], m, [], 0)
    else
      var b := BatchEffect(m, ToDocuments(batches[i]), responses[i]);
      if b.outcome.ValueError? then b else Then(b, InsertFrom(b.embeddings, batches, responses, i + 1))
  }

  /** The insert requests for batches `from` up to but excluding `until`. */
  function InsertRequests(batches: seq<seq<VectoredChunk>>, from: nat, until: nat): seq<Request>
    requires from <= until <= |batches|
    decreases until - from
  {
    if from == until then [] else [InsertMany(ToDocuments(batches[from]))] + InsertRequests(batches, from + 1, until)
  }

  /** The insert raises exactly when some batch from `i` on is answered with a fatal error. */
  lemma {:induction false} InsertRaisesIffFatal(m: map<Hash, EmbeddingDocument>, batches: seq<seq<VectoredChunk>>,
                                                responses: seq<InsertResponse>, i: nat)
    requires |batches| <= |responses| && i <= |batches|
    ensures InsertFrom(m, batches, responses, i).outcome.ValueError?
            <==> exists j :: i <= j < |batches| && Fatal(responses[j])
    decreases |batches| - i
  {
    if i < |batches| && !Fatal(responses[i]) {
      InsertRaisesIffFatal(Record(m, ToDocuments(batches[i]), responses[i].insertedIds), batches, responses, i + 1);
    }
  }

  /**
   * When batch k is the first from `i` on answered with a fatal error, batches i..k are sent,
   * in order, no later batch is, and the error raised carries batch k's errors.
   */
  lemma {:induction false} InsertStopsAtFirstFatal(m: map<Hash, EmbeddingDocument>, batches: seq<seq<VectoredChunk>>,
                                                   responses: seq<InsertResponse>, i: nat, k: nat)
    requires |batches| <= |responses| && i <= k < |batches|
    requires Fatal(responses[k])
    requires forall j :: i <= j < k ==> !Fatal(responses[j])
    ensures var e := InsertFrom(m, batches, responses, i);
            e.outcome == ValueError(responses[k].errorCodes) && e.requests == InsertRequests(batches, i, k + 1)
    decreases k - i
  {
    if i < k {
      var docs := ToDocuments(batches[i]);
      InsertStopsAtFirstFatal(Record(m, docs, responses[i].insertedIds), batches, responses, i + 1, k);
    }
  }

  /**
   * When no batch from `i` on is answered with a fatal error, every one of them is sent, in
   * order, and the insert ends normally.
   */
  lemma {:induction false} InsertSendsEveryBatch(m: map<Hash, EmbeddingDocument>, batches: seq<seq<VectoredChunk>>,
                                                 responses: seq<InsertResponse>, i: nat)
    requires |batches| <= |responses| && i <= |batches|
    requires forall j :: i <= j < |batches| ==> !Fatal(responses[j])
    ensures var e := InsertFrom(m, batches, responses, i);
            e.outcome == Inserted && e.requests == InsertRequests(batches, i, |batches|)
    decreases |batches| - i
  {
    if i < |batches| {
      var docs := ToDocuments(batches[i]);
      InsertSendsEveryBatch(Record(m, docs, responses[i].insertedIds), batches, responses, i + 1);
    }
  }

  /**
   * The insert never replaces or removes a stored document, and every document it adds was
   * sent in some batch whose answer reported its id inserted.
   */
  lemma {:induction false} InsertOnlyAdds(m: map<Hash, EmbeddingDocument>, batches: seq<seq<VectoredChunk>>,
                                          responses: seq<InsertResponse>, i: nat)
    requires |batches| <= |responses| && i <= |batches|
    ensures var e := InsertFrom(m, batches, responses, i);
            && (forall id :: id in m ==> id in e.embeddings && e.embeddings[id] == m[id])
            && (forall id :: id in e.embeddings && id !in m ==>
                  exists j :: i <= j < |batches| && id in responses[j].insertedIds
                              && e.embeddings[id] in ToDocuments(batches[j]))
    decreases |batches| - i
  {
    if i < |batches| {
      var docs := ToDocuments(batches[i]);
      var m' := Record(m, docs, responses[i].insertedIds);
      RecordOnlyAdds(m, docs, responses[i].insertedIds);
      if !Fatal(responses[i]) {
        InsertOnlyAdds(m', batches, responses, i + 1);
        var e := InsertFrom(m, batches, responses, i);
        forall id | id in e.embeddings && id !in m
          ensures exists j :: i <= j < |batches| && id in responses[j].insertedIds
                              && e.embeddings[id] in ToDocuments(batches[j])
        {
          if id in m' {
            assert id in responses[i].insertedIds && e.embeddings[id] in docs;
          }
        }
      }
    }
  }

  /**
   * Every audit record is a document, without its vector, sent in a batch that met an
   * already-existing document and whose answer did not report that document's id inserted.
   */
  lemma {:induction false} AuditOnlyUnreported(m: map<Hash, EmbeddingDocument>, batches: seq<seq<VectoredChunk>>,
                                               responses: seq<InsertResponse>, i: nat)
    requires |batches| <= |responses| && i <= |batches|
    ensures forall a :: a in InsertFrom(m, batches, responses, i).audit ==>
              exists j, d :: i <= j < |batches| && d in ToDocuments(batches[j])
                             && ExistsCount(responses[j].errorCodes) > 0
                             && d.id !in responses[j].insertedIds && a == WithoutVector(d)
    decreases |batches| - i
  {
    if i < |batches| {
      var docs := ToDocuments(batches[i]);
      var m' := Record(m, docs, responses[i].insertedIds);
      NotInsertedMembers(docs, responses[i].insertedIds);
      if !Fatal(responses[i]) {
        AuditOnlyUnreported(m', batches, responses, i + 1);
      }
      var e := InsertFrom(m, batches, responses, i);
      forall a | a in e.audit
        ensures exists j, d :: i <= j < |batches| && d in ToDocuments(batches[j])
                               && ExistsCount(responses[j].errorCodes) > 0
                               && d.id !in responses[j].insertedIds && a == WithoutVector(d)
      {
        if a in Audited(docs, responses[i]) {
          var d :| d in docs && d.id !in responses[i].insertedIds && a == WithoutVector(d);
          assert i <= i < |batches| && d in ToDocuments(batches[i]) && ExistsCount(responses[i].errorCodes) > 0;
        } else {
          assert a in InsertFrom(m', batches, responses, i + 1).audit;
        }
      }
    }
  }

  /** The hashes of a batch of chunk metadata, in order. */
  function IdsOf(metas: seq<ChunkMetadata>): seq<Hash>
  {
    seq(|metas|, i requires 0 <= i < |metas| => metas[i].hash)
  }

  /** The delete requests for a list of batches, in order. */
  function DeleteRequests(batches: seq<seq<ChunkMetadata>>): seq<Request>
  {
    seq(|batches|, i requires 0 <= i < |batches| => DeleteMany(IdsOf(batches[i])))
  }

  /** The ids sent by a list of delete requests, concatenated. */
  function DeletedIds(requests: seq<Request>): seq<Hash>
  {
    if requests == [] then []
    else (if requests[0].DeleteMany? then requests[0].ids else []) + DeletedIds(requests[1..])
  }

  lemma {:induction false} DeletedIdsOfBatches(batches: seq<seq<ChunkMetadata>>)
    ensures DeletedIds(DeleteRequests(batches)) == IdsOf(Flatten(batches))
  {
    if batches != [] {
      DeletedIdsOfBatches(batches[1..]);
      assert DeleteRequests(batches)[1..] == DeleteRequests(batches[1..]);
      assert IdsOf(Flatten(batches)) == IdsOf(batches[0]) + IdsOf(Flatten(batches[1..]));
    }
  }

  /**
   * The delete sends every chunk's hash exactly once, in input order, in requests of at most
   * 20 ids each.
   */
  lemma DeleteSendsEveryIdOnce(chunks: seq<ChunkMetadata>)
    ensures var rs := DeleteRequests(Batches(chunks, BatchSize));
            && (forall i :: 0 <= i < |rs| ==> rs[i].DeleteMany? && 0 < |rs[i].ids| <= BatchSize)
            && DeletedIds(rs) == IdsOf(chunks)
  {
    DeletedIdsOfBatches(Batches(chunks, BatchSize));
    FlattenBatches(chunks, BatchSize);
  }

  /** The ids of a batch, as a set, are its keys. */
  lemma IdsAreKeys(metas: seq<ChunkMetadata>)
    ensures (set id | id in IdsOf(metas)) == Keys(metas)
  {
    var ids := IdsOf(metas);
    forall id ensures id in ids <==> id in Keys(metas) {
      if id in ids {
        var k :| 0 <= k < |ids| && ids[k] == id;
        assert metas[k] in metas;
      }
      if id in Keys(metas) {
        var e: ChunkMetadata :| e in metas && e.hash == id;
        var k :| 0 <= k < |metas| && metas[k] == e;
        assert ids[k] == id;
      }
    }
  }

  /** Deleting one more batch sends one more request and removes that batch's keys. */
  lemma DeleteStep(batches: seq<seq<ChunkMetadata>>, i: nat)
    requires i < |batches|
    ensures DeleteRequests(batches[..i + 1]) == DeleteRequests(batches[..i]) + [DeleteMany(IdsOf(batches[i]))]
    ensures Keys(Flatten(batches[..i + 1])) == Keys(Flatten(batches[..i])) + (set id | id in IdsOf(batches[i]))
  {
    assert batches[..i + 1] == batches[..i] + [batches[i]];
    FlattenAppend(batches[..i], [batches[i]]);
    assert Flatten([batches[i]]) == batches[i] + Flatten([batches[i]][1..]);
    IdsAreKeys(batches[i]);
    var f := Flatten(batches[..i]);
    assert Keys(f + batches[i]) == Keys(f) + Keys(batches[i]);
  }

  /** Sequence concatenation is associative; stated once so that loops can cite it cheaply. */
  lemma Associative<T>(a: seq<T>, b: seq<T>, c: seq<T>)
    ensures a + (b + c) == (a + b) + c
  {
  }

  /** Effects compose associatively. */
  lemma ThenAssociative(a: InsertEffect, b: InsertEffect, c: InsertEffect)
    ensures Then(Then(a, b), c) == Then(a, Then(b, c))
  {
    Associative(a.requests, b.requests, c.requests);
    Associative(a.audit, b.audit, c.audit);
  }

  /** The request `vectorize_diff` sends to the embedding service: the new chunks' contents. */
  function EmbedRequest(d: ChunkedArticleDiff): Request
  {
    Embed(seq(|d.newChunks|, i requires 0 <= i < |d.newChunks| => d.newChunks[i].content))
  }

  /**
   * Ingesting an unchanged article again still sends the embedding service a request, with
   * no texts in it.
   */
  lemma UnchangedArticleStillEmbeds(ca: ChunkedArticle)
    ensures EmbedRequest(CalcChunkDiff(ca, Some(FromChunkedArticle(ca)))) == Embed([])
  {
    SameHashesNothingToDo(ca, ca);
  }

  /**
   * With the baseline replaced before the insert, as `store_article_diff` does, an insert
   * whose first batch is answered with a fatal error and nothing inserted leaves a new chunk
   * out of the embeddings collection, while diffing the same article against the baseline
   * then stored finds no new chunk.
   */
  lemma FailedInsertLeavesChunkOut(m: map<Hash, EmbeddingDocument>, diff: VectoredChunkedArticleDiff,
                                   responses: seq<InsertResponse>)
    requires |Batches(diff.newChunks, BatchSize)| <= |responses|
    requires diff.newChunks != [] && diff.newChunks[0].chunk.metadata.hash !in m
    requires Fatal(responses[0]) && responses[0].insertedIds == {}
    ensures var e := InsertFrom(m, Batches(diff.newChunks, BatchSize), responses, 0);
            && e.outcome.ValueError?
            && diff.newChunks[0].chunk.metadata.hash !in e.embeddings
            && CalcChunkDiff(diff.chunkedArticle, Some(FromChunkedArticle(diff.chunkedArticle))).newChunks == []
  {
    var batches := Batches(diff.newChunks, BatchSize);
    RecordOnlyAdds(m, ToDocuments(batches[0]), {});
    SameHashesNothingToDo(diff.chunkedArticle, diff.chunkedArticle);
  }

  /**
   * Whatever baseline is stored, a current chunk whose hash it does not list is new to the
   * next diff: a pass that leaves the baseline as it was is retried in full.
   */
  lemma RetryFindsUnstoredChunks(ca: ChunkedArticle, prev: Option<ChunkedArticleMetadataOnly>, c: Chunk)
    requires c in ca.chunks
    requires prev.Some? ==> c.metadata.hash !in Keys(prev.value.chunksMetadata)
    ensures c in CalcChunkDiff(ca, prev).newChunks
  {
    DiffClassifies(ca, prev);
  }

  class Backend {
    var embeddings: map<Hash, EmbeddingDocument>
    var metadata: map<string, ChunkedArticleMetadataOnly>
    var calls: seq<Request>
    var auditLog: seq<AuditRecord>
    var metrics: Metrics

    constructor ()
      ensures embeddings == map[] && metadata == map[] && calls == [] && auditLog == []
      ensures metrics == Metrics(0, 0, 0, 0, 0, 0, 0, 0, 0, 0, 0, "")
    {
      embeddings := map[];
      metadata := map[];
      calls := [];
      auditLog := [];
      metrics := Metrics(0, 0, 0, 0, 0, 0, 0, 0, 0, 0, 0, "");
    }

    /** `chunk_article` with its metric: the chunks of the splitter output `pieces`. */
    method ChunkArticle(article: Article, pieces: seq<string>, sha256Hex: string -> Hash) returns (ca: ChunkedArticle)
      modifies this
      ensures ca == Chunking.ChunkArticle(article, pieces, sha256Hex)
      ensures metrics == old(metrics).(chunksCreated := old(metrics).chunksCreated + |pieces|)
      ensures embeddings == old(embeddings) && metadata == old(metadata)
      ensures calls == old(calls) && auditLog == old(auditLog)
    {
      ca := Chunking.ChunkArticle(article, pieces, sha256Hex);
      metrics := metrics.(chunksCreated := metrics.chunksCreated + |ca.chunks|);
    }

    /**
     * `calc_chunk_diff` with its lookup and metrics: the baseline stored under the article's
     * id, if any, is the one diffed against.
     */
    method CalcChunkDiff(ca: ChunkedArticle) returns (d: ChunkedArticleDiff)
      modifies this
      ensures var id := ca.article.metadata.id;
              d == ChunkDiff.CalcChunkDiff(ca, if id in metadata then Some(metadata[id]) else None)
      ensures calls == old(calls) + [FindMetadata(ca.article.metadata.id)]
      ensures ca.article.metadata.id !in metadata ==>
                metrics == old(metrics).(chunkDiffNew := old(metrics).chunkDiffNew + |ca.chunks|)
      ensures ca.article.metadata.id in metadata ==>
                metrics == old(metrics).(
                  articlesRead := old(metrics).articlesRead + 1,
                  chunkDiffNew := old(metrics).chunkDiffNew + |d.newChunks|,
                  chunkDiffDeleted := old(metrics).chunkDiffDeleted + |d.deletedChunks|,
                  chunkDiffUnchanged := old(metrics).chunkDiffUnchanged + |d.unchangedChunks|)
      ensures embeddings == old(embeddings) && metadata == old(metadata) && auditLog == old(auditLog)
    {
      var id := FromChunkedArticle(ca).id;
      calls := calls + [FindMetadata(id)];
      if id !in metadata {
        d := ChunkDiff.CalcChunkDiff(ca, None);
        metrics := metrics.(chunkDiffNew := metrics.chunkDiffNew + |ca.chunks|);
        return;
      }
      metrics := metrics.(articlesRead := metrics.articlesRead + 1);
      d := ChunkDiff.CalcChunkDiff(ca, Some(metadata[id]));
      metrics := metrics.(
        chunkDiffNew := metrics.chunkDiffNew + |d.newChunks|,
        chunkDiffDeleted := metrics.chunkDiffDeleted + |d.deletedChunks|,
        chunkDiffUnchanged := metrics.chunkDiffUnchanged + |d.unchangedChunks|);
    }

    /**
     * `vectorize_diff`: the embedding service is asked for the new chunks' contents, even
     * when there are none, and its answer `vectors` goes through the gate and the pairing.
     */
    method VectorizeDiff(d: ChunkedArticleDiff, vectors: seq<Embedding>) returns (r: VectorizeOutcome)
      modifies this
      ensures r == Vectorize.VectorizeDiff(d, vectors)
      ensures metrics == old(metrics).(
                chunksVectorized := old(metrics).chunksVectorized + |vectors|,
                zeroVectors := old(metrics).zeroVectors + (if r.Skipped? then 1 else 0))
      ensures calls == old(calls) + [EmbedRequest(d)] + (if r.Vectored? then [InsertRaw(r.diff.newChunks)] else [])
      ensures embeddings == old(embeddings) && metadata == old(metadata) && auditLog == old(auditLog)
    {
      calls := calls + [EmbedRequest(d)];
      r := GateAndPair(d, vectors);
    }

    /**
     * What `vectorize_diff` does with the service's answer: the metrics, the gate and the
     * pairing, and the preliminary `insert_many` of the raw vectored chunks, whose failure is
     * swallowed: the request is logged as sent, and nothing else depends on how it ends.
     */
    method GateAndPair(d: ChunkedArticleDiff, vectors: seq<Embedding>) returns (r: VectorizeOutcome)
      modifies this
      ensures r == Vectorize.VectorizeDiff(d, vectors)
      ensures metrics == old(metrics).(
                chunksVectorized := old(metrics).chunksVectorized + |vectors|,
                zeroVectors := old(metrics).zeroVectors + (if r.Skipped? then 1 else 0))
      ensures calls == old(calls) + (if r.Vectored? then [InsertRaw(r.diff.newChunks)] else [])
      ensures embeddings == old(embeddings) && metadata == old(metadata) && auditLog == old(auditLog)
    {
      metrics := metrics.(chunksVectorized := metrics.chunksVectorized + |vectors|);
      r := Vectorize.VectorizeDiff(d, vectors);
      if r.Skipped? {
        metrics := metrics.(zeroVectors := metrics.zeroVectors + 1);
      } else if r.Vectored? {
        calls := calls + [InsertRaw(r.diff.newChunks)];
      }
    }

    /**
     * `vectorize_diff` without the request for no texts: a diff with no new chunk is
     * vectored as the empty answer would be, and the embedding service is not called.
     */
    method VectorizeDiffSkippingEmpty(d: ChunkedArticleDiff, vectors: seq<Embedding>) returns (r: VectorizeOutcome)
      modifies this
      ensures var answer := if d.newChunks == [] then [] else vectors;
              && r == Vectorize.VectorizeDiff(d, answer)
              && metrics == old(metrics).(
                   chunksVectorized := old(metrics).chunksVectorized + |answer|,
                   zeroVectors := old(metrics).zeroVectors + (if r.Skipped? then 1 else 0))
      ensures calls == old(calls) + (if d.newChunks == [] then [] else [EmbedRequest(d)])
                       + (if r.Vectored? then [InsertRaw(r.diff.newChunks)] else [])
      ensures embeddings == old(embeddings) && metadata == old(metadata) && auditLog == old(auditLog)
    {
      if d.newChunks == [] {
        r := GateAndPair(d, []);
      } else {
        calls := calls + [EmbedRequest(d)];
        r := GateAndPair(d, vectors);
      }
    }

    /**
     * One pass of the insert loop: send the batch, count its `DOCUMENT_ALREADY_EXISTS`
     * errors and, when there are any, audit-log each document not reported inserted.
     */
    method InsertBatch(docs: seq<EmbeddingDocument>, resp: InsertResponse) returns (existing: nat)
      modifies this`embeddings, this`calls, this`auditLog, this`metrics
      ensures var b := BatchEffect(old(embeddings), docs, resp);
              && existing == b.collisions
              && (existing != |resp.errorCodes| <==> b.outcome.ValueError?)
              && calls == old(calls) + b.requests
              && embeddings == b.embeddings
              && auditLog == old(auditLog) + b.audit
              && metrics == old(metrics).(chunkCollision := old(metrics).chunkCollision + existing)
      ensures metadata == old(metadata)
    {
      calls := calls + [InsertMany(docs)];
      embeddings := Record(embeddings, docs, resp.insertedIds);
      existing := ExistsCount(resp.errorCodes);
      if existing > 0 {
        metrics := metrics.(chunkCollision := metrics.chunkCollision + existing);
        var j := 0;
        while j < |docs|
          invariant 0 <= j <= |docs|
          invariant auditLog == old(auditLog) + NotInserted(docs[..j], resp.insertedIds)
          invariant calls == old(calls) + [InsertMany(docs)] && metadata == old(metadata)
          invariant embeddings == Record(old(embeddings), docs, resp.insertedIds)
          invariant metrics == old(metrics).(chunkCollision := old(metrics).chunkCollision + existing)
        {
          assert docs[..j + 1][..j] == docs[..j];
          if docs[j].id !in resp.insertedIds {
            auditLog := auditLog + [WithoutVector(docs[j])];
          }
          j := j + 1;
        }
        assert docs[..j] == docs;
      }
    }

    /**
     * The request log, the audit log and the collision counter hold what was there at the
     * start (`calls0`, `audit0`, `metrics0`) followed by the effect `done`.
     */
    ghost predicate Accounted(calls0: seq<Request>, audit0: seq<AuditRecord>, metrics0: Metrics, done: InsertEffect)
      reads this
    {
      && calls == calls0 + done.requests
      && auditLog == audit0 + done.audit
      && metrics == metrics0.(chunkCollision := metrics0.chunkCollision + done.collisions)
    }

    /** One pass of the insert loop, as `InsertFrom` accounts it: batch `i` is sent. */
    method SendBatch(batches: seq<seq<VectoredChunk>>, responses: seq<InsertResponse>, i: nat,
                     ghost total: InsertEffect, ghost done: InsertEffect,
                     ghost calls0: seq<Request>, ghost audit0: seq<AuditRecord>, ghost metrics0: Metrics)
      returns (fatal: bool, ghost done': InsertEffect)
      requires |batches| <= |responses| && i < |batches|
      requires total == Then(done, InsertFrom(embeddings, batches, responses, i))
      requires Accounted(calls0, audit0, metrics0, done)
      modifies this`embeddings, this`calls, this`auditLog, this`metrics
      ensures fatal <==> Fatal(responses[i])
      ensures Accounted(calls0, audit0, metrics0, done')
      ensures fatal ==> total == done' && embeddings == total.embeddings
      ensures fatal ==> done'.outcome == ValueError(responses[i].errorCodes)
      ensures !fatal ==> total == Then(done', InsertFrom(embeddings, batches, responses, i + 1))
      ensures metadata == old(metadata)
    {
      var docs := ToDocuments(batches[i]);
      var resp := responses[i];
      ghost var b := BatchEffect(embeddings, docs, resp);
      var existing := InsertBatch(docs, resp);
      Associative(calls0, done.requests, b.requests);
      Associative(audit0, done.audit, b.audit);
      fatal := existing != |resp.errorCodes|;
      if !fatal {
        ThenAssociative(done, b, InsertFrom(embeddings, batches, responses, i + 1));
      }
      done' := Then(done, b);
    }

    /**
     * `insert_vectored_chunks`: the batches of at most 20, answered by `responses` in turn,
     * with exactly the effects `InsertFrom` describes; `chunks_inserted` grows by the whole
     * list only when every batch went through.
     */
    method InsertVectoredChunks(vectoredChunks: seq<VectoredChunk>, responses: seq<InsertResponse>)
      returns (outcome: InsertOutcome)
      requires |Batches(vectoredChunks, BatchSize)| <= |responses|
      modifies this
      ensures var e := InsertFrom(old(embeddings), Batches(vectoredChunks, BatchSize), responses, 0);
              && outcome == e.outcome
              && embeddings == e.embeddings
              && calls == old(calls) + e.requests
              && auditLog == old(auditLog) + e.audit
              && metrics == old(metrics).(
                   chunkCollision := old(metrics).chunkCollision + e.collisions,
                   chunksInserted := old(metrics).chunksInserted + (if outcome.Inserted? then |vectoredChunks| else 0))
      ensures metadata == old(metadata)
    {
      outcome := SendBatches(Batches(vectoredChunks, BatchSize), responses);
      if outcome.Inserted? {
        metrics := metrics.(chunksInserted := metrics.chunksInserted + |vectoredChunks|);
      }
    }

    /** The loop of `insert_vectored_chunks` over its batches, up to the first fatal answer. */
    method SendBatches(batches: seq<seq<VectoredChunk>>, responses: seq<InsertResponse>)
      returns (outcome: InsertOutcome)
      requires |batches| <= |responses|
      modifies this`embeddings, this`calls, this`auditLog, this`metrics
      ensures var e := InsertFrom(old(embeddings), batches, responses, 0);
              && outcome == e.outcome
              && embeddings == e.embeddings
              && calls == old(calls) + e.requests
              && auditLog == old(auditLog) + e.audit
              && metrics == old(metrics).(chunkCollision := old(metrics).chunkCollision + e.collisions)
      ensures metadata == old(metadata)
    {
      ghost var total := InsertFrom(embeddings, batches, responses, 0);
      ghost var done := InsertEffect(Inserted, [], embeddings, [], 0);
      var i := 0;
      while i < |batches|
        invariant 0 <= i <= |batches|
        invariant total == Then(done, InsertFrom(embeddings, batches, responses, i))
        invariant Accounted(old(calls), old(auditLog), old(metrics), done)
      {
        var fatal;
        fatal, done := SendBatch(batches, responses, i, total, done, old(calls), old(auditLog), old(metrics));
        if fatal {
          return ValueError(responses[i].errorCodes);
        }
        i := i + 1;
      }
      ThenNothing(done, embeddings);
      outcome := Inserted;
    }

    /**
     * `delete_vectored_chunks`: one delete request per batch of at most 20, each removing the
     * documents whose id is a hash of the batch; deleting an absent id changes nothing.
     */
    method DeleteVectoredChunks(chunks: seq<ChunkMetadata>)
      modifies this
      ensures calls == old(calls) + DeleteRequests(Batches(chunks, BatchSize))
      ensures embeddings == old(embeddings) - Keys(chunks)
      ensures metrics == old(metrics).(chunksDeleted := old(metrics).chunksDeleted + |chunks|)
      ensures metadata == old(metadata) && auditLog == old(auditLog)
    {
      var batches := Batches(chunks, BatchSize);
      var i := 0;
      while i < |batches|
        invariant 0 <= i <= |batches|
        invariant calls == old(calls) + DeleteRequests(batches[..i])
        invariant embeddings == old(embeddings) - Keys(Flatten(batches[..i]))
        invariant metrics == old(metrics) && metadata == old(metadata) && auditLog == old(auditLog)
      {
        var ids := IdsOf(batches[i]);
        calls := calls + [DeleteMany(ids)];
        embeddings := embeddings - (set id | id in ids);
        DeleteStep(batches, i);
        i := i + 1;
      }
      assert batches[..i] == batches;
      FlattenBatches(chunks, BatchSize);
      metrics := metrics.(chunksDeleted := metrics.chunksDeleted + |chunks|);
    }

    /**
     * `update_article_metadata`: the article's baseline, built from all its current chunks,
     * replaces or creates the one stored under its id.
     */
    method UpdateArticleMetadata(diff: VectoredChunkedArticleDiff)
      modifies this
      ensures var m := FromChunkedArticle(diff.chunkedArticle);
              && metadata == old(metadata)[m.id := m]
              && calls == old(calls) + [ReplaceMetadata(m)]
              && metrics == old(metrics).(
                   articlesInserted := old(metrics).articlesInserted + 1,
                   recentUrl := diff.chunkedArticle.article.metadata.url)
      ensures embeddings == old(embeddings) && auditLog == old(auditLog)
    {
      var m := FromChunkedArticle(diff.chunkedArticle);
      metadata := metadata[m.id := m];
      calls := calls + [ReplaceMetadata(m)];
      metrics := metrics.(articlesInserted := metrics.articlesInserted + 1, recentUrl := m.articleMetadata.url);
    }

    /**
     * `store_article_diff`: the baseline upsert, then the insert of the new vectored chunks,
     * then (unless the insert raised) the delete of the deleted chunks; the diff is returned
     * unchanged. The baseline is replaced even when the insert raises.
     */
    method StoreArticleDiff(diff: VectoredChunkedArticleDiff, responses: seq<InsertResponse>)
      returns (r: Result<VectoredChunkedArticleDiff, seq<Option<string>>>)
      requires |Batches(diff.newChunks, BatchSize)| <= |responses|
      modifies this
      ensures var m := FromChunkedArticle(diff.chunkedArticle);
              var e := InsertFrom(old(embeddings), Batches(diff.newChunks, BatchSize), responses, 0);
              && metadata == old(metadata)[m.id := m]
              && (r.Success? <==> e.outcome.Inserted?)
              && (r.Success? ==> r.value == diff)
              && (r.Failure? ==> e.outcome == ValueError(r.error))
              && calls == old(calls) + [ReplaceMetadata(m)] + e.requests
                           + (if r.Success? then DeleteRequests(Batches(diff.deletedChunks, BatchSize)) else [])
              && embeddings == (if r.Success? then e.embeddings - Keys(diff.deletedChunks) else e.embeddings)
              && auditLog == old(auditLog) + e.audit
              && metrics == old(metrics).(
                   articlesInserted := old(metrics).articlesInserted + 1,
                   recentUrl := diff.chunkedArticle.article.metadata.url,
                   chunkCollision := old(metrics).chunkCollision + e.collisions,
                   chunksInserted := old(metrics).chunksInserted + (if r.Success? then |diff.newChunks| else 0),
                   chunksDeleted := old(metrics).chunksDeleted + (if r.Success? then |diff.deletedChunks| else 0))
    {
      UpdateArticleMetadata(diff);
      var outcome := InsertVectoredChunks(diff.newChunks, responses);
      if outcome.ValueError? {
        return Failure(outcome.errors);
      }
      DeleteVectoredChunks(diff.deletedChunks);
      return Success(diff);
    }

    /**
     * The store step in the order the baseline's role calls for: the insert, then the
     * delete, and only then the baseline upsert, so that an insert that raises leaves the
     * previous baseline in place and the next pass retries the same new chunks.
     */
    method StoreArticleDiffMetadataLast(diff: VectoredChunkedArticleDiff, responses: seq<InsertResponse>)
      returns (r: Result<VectoredChunkedArticleDiff, seq<Option<string>>>)
      requires |Batches(diff.newChunks, BatchSize)| <= |responses|
      modifies this
      ensures var m := FromChunkedArticle(diff.chunkedArticle);
              var e := InsertFrom(old(embeddings), Batches(diff.newChunks, BatchSize), responses, 0);
              && (r.Success? <==> e.outcome.Inserted?)
              && (r.Success? ==> r.value == diff && metadata == old(metadata)[m.id := m])
              && (r.Failure? ==> e.outcome == ValueError(r.error) && metadata == old(metadata))
              && calls == old(calls) + e.requests
                           + (if r.Success? then DeleteRequests(Batches(diff.deletedChunks, BatchSize)) + [ReplaceMetadata(m)] else [])
              && embeddings == (if r.Success? then e.embeddings - Keys(diff.deletedChunks) else e.embeddings)
              && auditLog == old(auditLog) + e.audit
              && metrics == old(metrics).(
                   articlesInserted := old(metrics).articlesInserted + (if r.Success? then 1 else 0),
                   recentUrl := if r.Success? then diff.chunkedArticle.article.metadata.url else old(metrics).recentUrl,
                   chunkCollision := old(metrics).chunkCollision + e.collisions,
                   chunksInserted := old(metrics).chunksInserted + (if r.Success? then |diff.newChunks| else 0),
                   chunksDeleted := old(metrics).chunksDeleted + (if r.Success? then |diff.deletedChunks| else 0))
    {
      var outcome := InsertVectoredChunks(diff.newChunks, responses);
      if outcome.ValueError? {
        return Failure(outcome.errors);
      }
      DeleteVectoredChunks(diff.deletedChunks);
      UpdateArticleMetadata(diff);
      return Success(diff);
    }

    /**
     * The loss the store order allows: a pass whose first insert batch is answered with a
     * fatal error and nothing inserted leaves a new chunk out of the embeddings collection,
     * and the next diff of the same article finds no new chunk to store.
     */
    method FailedStoreLosesChunk(diff: VectoredChunkedArticleDiff, responses: seq<InsertResponse>)
      returns (r: Result<VectoredChunkedArticleDiff, seq<Option<string>>>, next: ChunkedArticleDiff)
      requires |Batches(diff.newChunks, BatchSize)| <= |responses|
      requires diff.newChunks != [] && diff.newChunks[0].chunk.metadata.hash !in embeddings
      requires Fatal(responses[0]) && responses[0].insertedIds == {}
      modifies this
      ensures r.Failure?
      ensures diff.newChunks[0].chunk.metadata.hash !in embeddings
      ensures next.newChunks == []
    {
      FailedInsertLeavesChunkOut(embeddings, diff, responses);
      r := StoreArticleDiff(diff, responses);
      next := CalcChunkDiff(diff.chunkedArticle);
    }

    /**
     * The same pass with the baseline upserted last: the chunk is still missing from the
     * collection, but the baseline left in place does not list it, so the next diff finds
     * it new again.
     */
    method FailedStoreRetriesChunk(diff: VectoredChunkedArticleDiff, responses: seq<InsertResponse>)
      returns (r: Result<VectoredChunkedArticleDiff, seq<Option<string>>>, next: ChunkedArticleDiff)
      requires |Batches(diff.newChunks, BatchSize)| <= |responses|
      requires diff.newChunks != [] && diff.newChunks[0].chunk.metadata.hash !in embeddings
      requires diff.newChunks[0].chunk in diff.chunkedArticle.chunks
      requires var id := diff.chunkedArticle.article.metadata.id;
               id in metadata ==> diff.newChunks[0].chunk.metadata.hash !in Keys(metadata[id].chunksMetadata)
      requires Fatal(responses[0]) && responses[0].insertedIds == {}
      modifies this
      ensures r.Failure?
      ensures diff.newChunks[0].chunk.metadata.hash !in embeddings
      ensures diff.newChunks[0].chunk in next.newChunks
    {
      FailedInsertLeavesChunkOut(embeddings, diff, responses);
      r := StoreArticleDiffMetadataLast(diff, responses);
      var id := diff.chunkedArticle.article.metadata.id;
      RetryFindsUnstoredChunks(diff.chunkedArticle, if id in metadata then Some(metadata[id]) else None, diff.newChunks[0].chunk);
      next := CalcChunkDiff(diff.chunkedArticle);
    }

    /**
     * Ingesting an unchanged article again, with the embedding request skipped for a diff
     * without new chunks: the embedding service is not called.
     */
    method ReingestWithoutEmbedding(ca: ChunkedArticle, vectors: seq<Embedding>) returns (r: VectorizeOutcome)
      requires ca.article.metadata.id in metadata && metadata[ca.article.metadata.id] == FromChunkedArticle(ca)
      modifies this
      ensures forall k :: |old(calls)| <= k < |calls| ==> !calls[k].Embed?
    {
      SameHashesNothingToDo(ca, ca);
      var d := CalcChunkDiff(ca);
      assert d.newChunks == [];
      ghost var looked := calls;
      r := VectorizeDiffSkippingEmpty(d, vectors);
      assert forall k :: |looked| <= k < |calls| ==> calls[k].InsertRaw?;
    }
  }
}

/**
 * The three-way diff of `calc_chunk_diff`: the current chunks of an article against the
 * baseline stored for it by the previous pass.
 */
module ChunkDiff {
  import opened Wrappers
  import opened Chunking

  datatype ChunkedArticleDiff = ChunkedArticleDiff(
    chunkedArticle: ChunkedArticle,
    newChunks: seq<Chunk>,
    deletedChunks: seq<ChunkMetadata>,
    unchangedChunks: seq<Chunk>)

  /**
   * The chunks whose hash is (`present`) or is not (`!present`) among `keys`, in their order,
   * duplicates kept.
   */
  function SelectByKey(chunks: seq<Chunk>, keys: set<Hash>, present: bool): seq<Chunk>
  {
    if chunks == [] then []
    else
      (if (chunks[0].metadata.hash in keys) == present then [chunks[0]] else [])
      + SelectByKey(chunks[1..], keys, present)
  }

  /** The baseline entries whose hash is not among `current`, in their order. */
  function StaleEntries(entries: seq<ChunkMetadata>, current: set<Hash>): seq<ChunkMetadata>
  {
    if entries == [] then []
    else
      (if entries[0].hash !in current then [entries[0]] else []) + StaleEntries(entries[1..], current)
  }

  /**
   * `calc_chunk_diff`. Without a stored baseline every current chunk is new; otherwise the
   * current chunks are split by whether their hash is a key of the baseline, and the stale
   * baseline entries are the deleted ones.
   */
  function CalcChunkDiff(ca: ChunkedArticle, prev: Option<ChunkedArticleMetadataOnly>): ChunkedArticleDiff
  {
    match prev
    case None => ChunkedArticleDiff(ca, ca.chunks, [], [])
    case Some(p) =>
      var prevKeys := Keys(p.chunksMetadata);
      var currKeys := Keys(FromChunkedArticle(ca).chunksMetadata);
      ChunkedArticleDiff(
        ca,
        SelectByKey(ca.chunks, prevKeys, false),
        StaleEntries(p.chunksMetadata, currKeys),
        SelectByKey(ca.chunks, prevKeys, true))
  }

  /** A chunk is selected exactly when it is one of the chunks and its key test matches. */
  lemma {:induction false} SelectMembers(chunks: seq<Chunk>, keys: set<Hash>, present: bool)
    ensures forall c :: c in SelectByKey(chunks, keys, present) <==>
                          c in chunks && (c.metadata.hash in keys) == present
  {
    if chunks != [] {
      assert chunks == [chunks[0]] + chunks[1..];
      SelectMembers(chunks[1..], keys, present);
    }
  }

  /** An entry is stale exactly when it is one of the entries and its hash is not current. */
  lemma {:induction false} StaleMembers(entries: seq<ChunkMetadata>, current: set<Hash>)
    ensures forall e :: e in StaleEntries(entries, current) <==> e in entries && e.hash !in current
  {
    if entries != [] {
      assert entries == [entries[0]] + entries[1..];
      StaleMembers(entries[1..], current);
    }
  }

  /**
   * What `calc_chunk_diff` promises: the diff is of the given article; without a baseline
   * every chunk is new; new and unchanged chunks together are the current chunks, duplicates
   * included; a chunk is new exactly when its hash is not a baseline key and unchanged
   * exactly when it is; a baseline entry is deleted exactly when no current chunk has its
   * hash.
   */
  lemma DiffClassifies(ca: ChunkedArticle, prev: Option<ChunkedArticleMetadataOnly>)
    ensures var d := CalcChunkDiff(ca, prev);
            && d.chunkedArticle == ca
            && (prev.None? ==> d.newChunks == ca.chunks && d.deletedChunks == [] && d.unchangedChunks == [])
            && multiset(d.newChunks) + multiset(d.unchangedChunks) == multiset(ca.chunks)
    ensures prev.Some? ==> forall c ::
              var d := CalcChunkDiff(ca, prev);
              && (c in d.newChunks <==> c in ca.chunks && c.metadata.hash !in Keys(prev.value.chunksMetadata))
              && (c in d.unchangedChunks <==> c in ca.chunks && c.metadata.hash in Keys(prev.value.chunksMetadata))
    ensures prev.Some? ==> forall e ::
              e in CalcChunkDiff(ca, prev).deletedChunks <==>
              e in prev.value.chunksMetadata && e.hash !in HashSet(ca.chunks)
  {
    if prev.Some? {
      var keys := Keys(prev.value.chunksMetadata);
      SelectPartition(ca.chunks, keys);
      SelectMembers(ca.chunks, keys, false);
      SelectMembers(ca.chunks, keys, true);
      BaselineOfChunks(ca.chunks);
      StaleMembers(prev.value.chunksMetadata, HashSet(ca.chunks));
    }
  }

  /** Every chunk, duplicates included, is selected on exactly one side. */
  lemma {:induction false} SelectPartition(chunks: seq<Chunk>, keys: set<Hash>)
    ensures multiset(SelectByKey(chunks, keys, false)) + multiset(SelectByKey(chunks, keys, true))
            == multiset(chunks)
  {
    if chunks != [] {
      SelectPartition(chunks[1..], keys);
      assert chunks == [chunks[0]] + chunks[1..];
    }
  }

  /** Selection keeps the order: it distributes over concatenation. */
  lemma {:induction false} SelectAppend(a: seq<Chunk>, b: seq<Chunk>, keys: set<Hash>, present: bool)
    ensures SelectByKey(a + b, keys, present) == SelectByKey(a, keys, present) + SelectByKey(b, keys, present)
  {
    if a == [] {
      assert a + b == b;
    } else {
      assert (a + b)[0] == a[0];
      assert (a + b)[1..] == a[1..] + b;
      SelectAppend(a[1..], b, keys, present);
    }
  }

  /** When every hash is a key, all chunks are selected as present and none as absent. */
  lemma {:induction false} SelectAllPresent(chunks: seq<Chunk>, keys: set<Hash>)
    requires HashSet(chunks) <= keys
    ensures SelectByKey(chunks, keys, true) == chunks
    ensures SelectByKey(chunks, keys, false) == []
  {
    if chunks != [] {
      assert chunks[0] in chunks;
      assert HashSet(chunks[1..]) <= HashSet(chunks) by {
        forall h | h in HashSet(chunks[1..]) ensures h in HashSet(chunks) {
          var c :| c in chunks[1..] && c.metadata.hash == h;
          assert c in chunks;
        }
      }
      SelectAllPresent(chunks[1..], keys);
      assert chunks == [chunks[0]] + chunks[1..];
    }
  }

  /** With no stale keys, no entry is stale. */
  lemma {:induction false} NoStaleEntries(entries: seq<ChunkMetadata>, current: set<Hash>)
    requires Keys(entries) <= current
    ensures StaleEntries(entries, current) == []
  {
    if entries != [] {
      assert entries[0] in entries;
      assert Keys(entries[1..]) <= Keys(entries) by {
        forall h | h in Keys(entries[1..]) ensures h in Keys(entries) {
          var e :| e in entries[1..] && e.hash == h;
          assert e in entries;
        }
      }
      NoStaleEntries(entries[1..], current);
    }
  }

  /**
   * Diffing against a baseline whose keys are the current hashes finds nothing new and
   * nothing deleted: every current chunk is unchanged. Re-ingesting an unchanged article is
   * the case `before == after`.
   */
  lemma SameHashesNothingToDo(before: ChunkedArticle, after: ChunkedArticle)
    requires HashSet(after.chunks) == HashSet(before.chunks)
    ensures CalcChunkDiff(after, Some(FromChunkedArticle(before)))
            == ChunkedArticleDiff(after, [], [], after.chunks)
  {
    BaselineOfChunks(before.chunks);
    BaselineOfChunks(after.chunks);
    SelectAllPresent(after.chunks, HashSet(before.chunks));
    NoStaleEntries(FromChunkedArticle(before).chunksMetadata, HashSet(after.chunks));
  }

  /**
   * A chunk's identity is its content, not its position: chunking a reordering of the same
   * pieces yields no new and no deleted chunks against the baseline of the original order.
   */
  lemma ReorderedPiecesNothingToDo(article: Article, pieces: seq<string>, reordered: seq<string>, sha256Hex: string -> Hash)
    requires multiset(reordered) == multiset(pieces)
    ensures var d := CalcChunkDiff(ChunkArticle(article, reordered, sha256Hex),
                                   Some(FromChunkedArticle(ChunkArticle(article, pieces, sha256Hex))));
            d.newChunks == [] && d.deletedChunks == []
  {
    var before := ChunkArticle(article, pieces, sha256Hex);
    var after := ChunkArticle(article, reordered, sha256Hex);
    BaselineKeysAreDigests(article, pieces, sha256Hex);
    BaselineKeysAreDigests(article, reordered, sha256Hex);
    assert (set p | p in pieces :: sha256Hex(p)) == (set p | p in reordered :: sha256Hex(p)) by {
      forall p ensures p in pieces <==> p in reordered {
        assert p in pieces <==> p in multiset(pieces);
        assert p in reordered <==> p in multiset(reordered);
      }
    }
    SameHashesNothingToDo(before, after);
  }

  /** Exactly one entry of a dictionary is stale: the stale list is that one entry. */
  lemma {:induction false} OneStaleEntry(entries: seq<ChunkMetadata>, current: set<Hash>, k: nat)
    requires UniqueKeys(entries)
    requires k < |entries| && entries[k].hash !in current
    requires forall j :: 0 <= j < |entries| && j != k ==> entries[j].hash in current
    ensures StaleEntries(entries, current) == [entries[k]]
  {
    if k == 0 {
      assert Keys(entries[1..]) <= current by {
        forall h | h in Keys(entries[1..]) ensures h in current {
          var e :| e in entries[1..] && e.hash == h;
          var j :| 0 <= j < |entries[1..]| && entries[1..][j] == e;
          assert entries[j + 1] == e;
        }
      }
      NoStaleEntries(entries[1..], current);
    } else {
      assert entries[0].hash in current;
      OneStaleEntry(entries[1..], current, k - 1);
    }
  }

  /** A slice has no hash the whole list lacks. */
  lemma SliceHashes(s: seq<Chunk>, i: nat, j: nat)
    requires i <= j <= |s|
    ensures HashSet(s[i..j]) <= HashSet(s)
  {
    forall c | c in s[i..j] ensures c.metadata.hash in HashSet(s) {
      assert c in s;
    }
  }

  /** The sides of an edit at position k whose new hash is not a baseline key. */
  lemma {:induction false} EditSelection(before: seq<Chunk>, newChunk: Chunk, k: nat, present: bool)
    requires k < |before|
    requires newChunk.metadata.hash !in HashSet(before)
    ensures SelectByKey(before[..k] + [newChunk] + before[k + 1..], HashSet(before), present)
            == if present then before[..k] + before[k + 1..] else [newChunk]
  {
    var keys := HashSet(before);
    var head, tail := before[..k], before[k + 1..];
    SliceHashes(before, 0, k);
    SliceHashes(before, k + 1, |before|);
    SelectAllPresent(head, keys);
    SelectAllPresent(tail, keys);
    SelectAppend(head + [newChunk], tail, keys, present);
    SelectAppend(head, [newChunk], keys, present);
    assert SelectByKey([newChunk], keys, present) == if present then [] else [newChunk];
  }

  /** The deleted side of an edit at position k whose old hash no other chunk shares. */
  lemma EditStale(before: seq<Chunk>, after: seq<Chunk>, entries: seq<ChunkMetadata>, k: nat)
    requires |after| == |before| && k < |before|
    requires forall j :: 0 <= j < |before| && j != k ==> after[j] == before[j]
    requires after[k].metadata.hash !in HashSet(before)
    requires forall j :: 0 <= j < |before| && j != k ==> before[j].metadata.hash != before[k].metadata.hash
    requires Keys(entries) == HashSet(before) && UniqueKeys(entries)
    requires forall e :: e in entries ==> exists i :: 0 <= i < |before| && before[i].metadata == e
    ensures StaleEntries(entries, HashSet(after)) == [before[k].metadata]
  {
    var currKeys := HashSet(after);
    var gone := before[k].metadata;
    assert before[k] in before;
    var kk :| 0 <= kk < |entries| && entries[kk].hash == gone.hash by {
      assert gone.hash in Keys(entries);
    }
    assert entries[kk] == gone by {
      assert entries[kk] in entries;
      var i :| 0 <= i < |before| && before[i].metadata == entries[kk];
    }
    forall c | c in after
      ensures c.metadata.hash != gone.hash
    {
      var j :| 0 <= j < |after| && after[j] == c;
    }
    forall j | 0 <= j < |entries| && j != kk
      ensures entries[j].hash in currKeys
    {
      assert entries[j] in entries;
      var i :| 0 <= i < |before| && before[i].metadata == entries[j];
      assert i != k;
      assert after[i] in after;
    }
    OneStaleEntry(entries, currKeys, kk);
  }

  /**
   * Editing the content of one chunk, whose old hash no other chunk shares, into content with
   * a hash the article did not have: exactly that chunk is new, exactly its old metadata is
   * deleted, and every other chunk is unchanged.
   */
  lemma SingleChunkEdit(before: ChunkedArticle, after: ChunkedArticle, k: nat)
    requires |after.chunks| == |before.chunks| && k < |before.chunks|
    requires forall j :: 0 <= j < |before.chunks| && j != k ==> after.chunks[j] == before.chunks[j]
    requires after.chunks[k].metadata.hash !in HashSet(before.chunks)
    requires forall j :: 0 <= j < |before.chunks| && j != k ==>
               before.chunks[j].metadata.hash != before.chunks[k].metadata.hash
    ensures var d := CalcChunkDiff(after, Some(FromChunkedArticle(before)));
            && d.newChunks == [after.chunks[k]]
            && d.deletedChunks == [before.chunks[k].metadata]
            && d.unchangedChunks == before.chunks[..k] + before.chunks[k + 1..]
  {
    assert after.chunks == before.chunks[..k] + [after.chunks[k]] + before.chunks[k + 1..];
    BaselineOfChunks(before.chunks);
    BaselineOfChunks(after.chunks);
    EditSelection(before.chunks, after.chunks[k], k, false);
    EditSelection(before.chunks, after.chunks[k], k, true);
    EditStale(before.chunks, after.chunks, FromChunkedArticle(before).chunksMetadata, k);
  }
}

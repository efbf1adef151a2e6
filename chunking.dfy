/**
 * Chunk construction (`chunk_article`) and the per-article baseline record built from a
 * chunked article (`ChunkedArticleMetadataOnly.from_chunked_article`).
 *
 * The text splitter is outside the model: its output is the input `pieces`. SHA-256 over
 * the UTF-8 bytes of a piece, written as a lowercase hex string, is the parameter
 * `sha256Hex`, an arbitrary but fixed function.
 */
module Chunking {

  /** A chunk's identity: the hex digest of its content. */
  type Hash = string

  /** `id` is the article identity under which its baseline is stored. */
  datatype ArticleMetadata = ArticleMetadata(id: string, url: string)

  datatype Article = Article(metadata: ArticleMetadata, content: string)

  datatype ChunkMetadata = ChunkMetadata(index: nat, length: nat, hash: Hash)

  datatype Chunk = Chunk(content: string, metadata: ChunkMetadata)

  datatype ChunkedArticle = ChunkedArticle(article: Article, chunks: seq<Chunk>)

  /**
   * The persisted baseline of one article. `chunksMetadata` is a dictionary keyed by chunk
   * hash; it is kept as its list of values in insertion order, the key of an entry being
   * the entry's own `hash`.
   */
  datatype ChunkedArticleMetadataOnly =
    ChunkedArticleMetadataOnly(id: string, articleMetadata: ArticleMetadata, chunksMetadata: seq<ChunkMetadata>)

  /** The keys of a baseline dictionary. */
  function Keys(entries: seq<ChunkMetadata>): set<Hash>
  {
    set e | e in entries :: e.hash
  }

  /** The set of hashes of a list of chunks. */
  function HashSet(chunks: seq<Chunk>): set<Hash>
  {
    set c | c in chunks :: c.metadata.hash
  }

  /** No two entries share a key, as in a dictionary. */
  predicate UniqueKeys(entries: seq<ChunkMetadata>)
  {
    forall i, j :: 0 <= i < j < |entries| ==> entries[i].hash != entries[j].hash
  }

  /** The SHA-256 hex digest of each piece's UTF-8 bytes, in piece order. */
  function Digests(pieces: seq<string>, sha256Hex: string -> Hash): (hashes: seq<Hash>)
    ensures |hashes| == |pieces|
    ensures forall i :: 0 <= i < |pieces| ==> hashes[i] == sha256Hex(pieces[i])
  {
    if pieces == [] then [] else [sha256Hex(pieces[0])] + Digests(pieces[1..], sha256Hex)
  }

  /** One chunk per piece paired with its hash, numbered from `start`, as long as the shorter of the two lists. */
  function Enumerate(pieces: seq<string>, hashes: seq<Hash>, start: nat): (chunks: seq<Chunk>)
    ensures |chunks| == if |pieces| <= |hashes| then |pieces| else |hashes|
    ensures forall i :: 0 <= i < |chunks| ==>
              chunks[i] == Chunk(pieces[i], ChunkMetadata(start + i, |pieces[i]|, hashes[i]))
  {
    if pieces == [] || hashes == [] then []
    else [Chunk(pieces[0], ChunkMetadata(start, |pieces[0]|, hashes[0]))]
         + Enumerate(pieces[1..], hashes[1..], start + 1)
  }

  /**
   * `chunk_article`: one chunk per splitter output; chunk i holds piece i, its position i,
   * its length and its digest.
   */
  function ChunkArticle(article: Article, pieces: seq<string>, sha256Hex: string -> Hash): (ca: ChunkedArticle)
    ensures ca.article == article
    ensures |ca.chunks| == |pieces|
    ensures forall i :: 0 <= i < |pieces| ==>
              && ca.chunks[i].content == pieces[i]
              && ca.chunks[i].metadata == ChunkMetadata(i, |pieces[i]|, sha256Hex(pieces[i]))
  {
    ChunkedArticle(article, Enumerate(pieces, Digests(pieces, sha256Hex), 0))
  }

  /**
   * Sets key `m.hash` of a dictionary to `m`: an existing entry keeps its position and takes
   * the new value, a new key goes at the end.
   */
  function Put(entries: seq<ChunkMetadata>, m: ChunkMetadata): seq<ChunkMetadata>
  {
    if entries == [] then [m]
    else if entries[0].hash == m.hash then [m] + entries[1..]
    else [entries[0]] + Put(entries[1..], m)
  }

  /**
   * `{c.metadata.hash: c.metadata for c in chunks}` as an insertion-ordered dictionary: one
   * entry per distinct hash, at its first position, holding the metadata of the last chunk
   * with that hash.
   */
  function BuildEntries(chunks: seq<Chunk>): seq<ChunkMetadata>
  {
    if chunks == [] then [] else Put(BuildEntries(chunks[..|chunks| - 1]), chunks[|chunks| - 1].metadata)
  }

  /** `ChunkedArticleMetadataOnly.from_chunked_article`: the baseline a chunked article yields. */
  function FromChunkedArticle(ca: ChunkedArticle): ChunkedArticleMetadataOnly
  {
    ChunkedArticleMetadataOnly(ca.article.metadata.id, ca.article.metadata, BuildEntries(ca.chunks))
  }

  /** Setting a key adds it to the keys and leaves the others in place. */
  lemma {:induction false} PutKeys(entries: seq<ChunkMetadata>, m: ChunkMetadata)
    ensures Keys(Put(entries, m)) == Keys(entries) + {m.hash}
  {
    if entries != [] {
      assert entries == [entries[0]] + entries[1..];
      assert Keys(entries) == {entries[0].hash} + Keys(entries[1..]);
      if entries[0].hash != m.hash {
        PutKeys(entries[1..], m);
        assert Keys([entries[0]] + Put(entries[1..], m)) == {entries[0].hash} + Keys(Put(entries[1..], m));
      } else {
        assert Keys([m] + entries[1..]) == {m.hash} + Keys(entries[1..]);
      }
    }
  }

  /** Setting a key stores `m` and no value that was not already there. */
  lemma {:induction false} PutValues(entries: seq<ChunkMetadata>, m: ChunkMetadata)
    ensures m in Put(entries, m)
    ensures forall e :: e in Put(entries, m) ==> e == m || e in entries
  {
    if entries != [] && entries[0].hash != m.hash {
      PutValues(entries[1..], m);
    }
  }

  /** Setting a key never makes two entries share a key. */
  lemma {:induction false} PutUnique(entries: seq<ChunkMetadata>, m: ChunkMetadata)
    requires UniqueKeys(entries)
    ensures UniqueKeys(Put(entries, m))
  {
    if entries != [] && entries[0].hash != m.hash {
      var rest := entries[1..];
      assert UniqueKeys(rest) by {
        forall i, j | 0 <= i < j < |rest| ensures rest[i].hash != rest[j].hash {
          assert rest[i] == entries[i + 1] && rest[j] == entries[j + 1];
        }
      }
      PutUnique(rest, m);
      PutKeys(rest, m);
      assert entries[0].hash !in Keys(rest);
      var r := Put(entries, m);
      forall i, j | 0 <= i < j < |r| ensures r[i].hash != r[j].hash {
        if i == 0 {
          assert r[j] == Put(rest, m)[j - 1];
          assert r[j].hash in Keys(Put(rest, m));
        } else {
          assert r[i] == Put(rest, m)[i - 1] && r[j] == Put(rest, m)[j - 1];
        }
      }
    } else if entries != [] {
      var r := Put(entries, m);
      forall i, j | 0 <= i < j < |r| ensures r[i].hash != r[j].hash {
        assert r[j] == entries[j];
        if i > 0 {
          assert r[i] == entries[i];
        }
      }
    }
  }

  /**
   * The baseline of a chunked article has one entry per distinct chunk hash, and each entry
   * is the metadata of one of its chunks.
   */
  lemma {:induction false} BaselineOfChunks(chunks: seq<Chunk>)
    ensures Keys(BuildEntries(chunks)) == HashSet(chunks)
    ensures UniqueKeys(BuildEntries(chunks))
    ensures forall e :: e in BuildEntries(chunks) ==> exists i :: 0 <= i < |chunks| && chunks[i].metadata == e
  {
    if chunks != [] {
      var init := chunks[..|chunks| - 1];
      var last := chunks[|chunks| - 1];
      assert chunks == init + [last];
      assert HashSet(chunks) == HashSet(init) + {last.metadata.hash};
      BaselineOfChunks(init);
      PutKeys(BuildEntries(init), last.metadata);
      PutValues(BuildEntries(init), last.metadata);
      PutUnique(BuildEntries(init), last.metadata);
      forall e | e in BuildEntries(chunks)
        ensures exists i :: 0 <= i < |chunks| && chunks[i].metadata == e
      {
        if e == last.metadata {
          assert chunks[|chunks| - 1].metadata == e;
        } else {
          var i :| 0 <= i < |init| && init[i].metadata == e;
          assert chunks[i] == init[i];
        }
      }
    }
  }

  /**
   * A chunk's identity is its content: the baseline of a chunked article has exactly the
   * digests of the splitter output as keys, so the same pieces in any order give the same keys.
   */
  lemma {:induction false} BaselineKeysAreDigests(article: Article, pieces: seq<string>, sha256Hex: string -> Hash)
    ensures HashSet(ChunkArticle(article, pieces, sha256Hex).chunks) == set p | p in pieces :: sha256Hex(p)
    ensures Keys(FromChunkedArticle(ChunkArticle(article, pieces, sha256Hex)).chunksMetadata)
            == set p | p in pieces :: sha256Hex(p)
  {
    var ca := ChunkArticle(article, pieces, sha256Hex);
    BaselineOfChunks(ca.chunks);
    forall h | h in HashSet(ca.chunks)
      ensures h in set p | p in pieces :: sha256Hex(p)
    {
      var c :| c in ca.chunks && c.metadata.hash == h;
      var i :| 0 <= i < |ca.chunks| && ca.chunks[i] == c;
      assert pieces[i] in pieces;
    }
    forall h | h in set p | p in pieces :: sha256Hex(p)
      ensures h in HashSet(ca.chunks)
    {
      var p :| p in pieces && sha256Hex(p) == h;
      var i :| 0 <= i < |pieces| && pieces[i] == p;
      assert ca.chunks[i] in ca.chunks;
    }
  }
}

/**
 * The zero-vector gate of `vectorize_diff`: the embedding service's answer for the new
 * chunks is either paired with them, or the whole article is skipped.
 */
module Vectorize {
  import opened Chunking
  import opened ChunkDiff

  /**
   * One item of the embedding service's answer: a list of numeric components, or a value
   * of some other kind. Only the exact-zero test is made on components.
   */
  datatype Embedding = Vector(components: seq<real>) | NotAList

  datatype VectoredChunk = VectoredChunk(vector: seq<real>, chunkedArticle: ChunkedArticle, chunk: Chunk)

  datatype VectoredChunkedArticleDiff = VectoredChunkedArticleDiff(
    chunkedArticle: ChunkedArticle,
    newChunks: seq<VectoredChunk>,
    deletedChunks: seq<ChunkMetadata>)

  /**
   * What `vectorize_diff` ends with: the vectored diff, `None` for an article with a
   * degenerate vector, or the IndexError its debug logging raises.
   */
  datatype VectorizeOutcome = Vectored(diff: VectoredChunkedArticleDiff) | Skipped | IndexError

  /** A vector is usable when it is a list with at least one non-zero component. */
  predicate Usable(v: Embedding)
  {
    v.Vector? && exists k :: 0 <= k < |v.components| && v.components[k] != 0.0
  }

  /** A list whose components are all zero; the empty list is one. */
  predicate ZeroList(v: Embedding)
  {
    v.Vector? && forall k :: 0 <= k < |v.components| ==> v.components[k] == 0.0
  }

  /** `non_zero_vectors`: the components of the usable vectors, in order. */
  function NonZeroVectors(vs: seq<Embedding>): (r: seq<seq<real>>)
    ensures |r| <= |vs|
    ensures |r| == |vs| <==> forall i :: 0 <= i < |vs| ==> Usable(vs[i])
    ensures |r| == |vs| ==> forall i :: 0 <= i < |vs| ==> r[i] == vs[i].components
  {
    if vs == [] then []
    else (if Usable(vs[0]) then [vs[0].components] else []) + NonZeroVectors(vs[1..])
  }

  /** Vector i paired with chunk i, for as many pairs as the shorter list allows, each a vectored chunk of article `ca`. */
  function Pair(vectors: seq<seq<real>>, chunks: seq<Chunk>, ca: ChunkedArticle): (r: seq<VectoredChunk>)
    ensures |r| == if |vectors| <= |chunks| then |vectors| else |chunks|
    ensures forall i :: 0 <= i < |r| ==> r[i] == VectoredChunk(vectors[i], ca, chunks[i])
  {
    if vectors == [] || chunks == [] then []
    else [VectoredChunk(vectors[0], ca, chunks[0])] + Pair(vectors[1..], chunks[1..], ca)
  }

  /**
   * The debug loop over a degenerate answer formats `new_chunks[i]` for every all-zero list
   * at index i, which raises IndexError when i is past the new chunks.
   */
  predicate LoggingOverruns(d: ChunkedArticleDiff, vectors: seq<Embedding>)
  {
    exists i :: |d.newChunks| <= i < |vectors| && ZeroList(vectors[i])
  }

  /**
   * `vectorize_diff`, given the service's answer `vectors` for the new chunks' contents.
   * One unusable vector (not a list, or without a non-zero component) skips the article
   * with no partial result; otherwise vector i is paired, untruncated, with new chunk i and
   * the deleted chunks pass through.
   */
  function VectorizeDiff(d: ChunkedArticleDiff, vectors: seq<Embedding>): (r: VectorizeOutcome)
    ensures r.Vectored? <==> forall i :: 0 <= i < |vectors| ==> Usable(vectors[i])
    ensures r.IndexError? <==> !r.Vectored? && LoggingOverruns(d, vectors)
    ensures r.Vectored? ==>
              && r.diff.chunkedArticle == d.chunkedArticle
              && r.diff.deletedChunks == d.deletedChunks
              && |r.diff.newChunks| == (if |vectors| <= |d.newChunks| then |vectors| else |d.newChunks|)
              && forall i :: 0 <= i < |r.diff.newChunks| ==>
                   r.diff.newChunks[i] == VectoredChunk(vectors[i].components, d.chunkedArticle, d.newChunks[i])
  {
    var nonZero := NonZeroVectors(vectors);
    if |vectors| - |nonZero| > 0 then
      if LoggingOverruns(d, vectors) then IndexError else Skipped
    else
      Vectored(VectoredChunkedArticleDiff(d.chunkedArticle, Pair(nonZero, d.newChunks, d.chunkedArticle), d.deletedChunks))
  }

  /**
   * With one usable vector per new chunk, as the embedding service answers, every new chunk
   * is vectored, in order, with its own vector.
   */
  lemma EveryNewChunkVectored(d: ChunkedArticleDiff, vectors: seq<Embedding>)
    requires |vectors| == |d.newChunks|
    requires forall i :: 0 <= i < |vectors| ==> Usable(vectors[i])
    ensures VectorizeDiff(d, vectors).Vectored?
    ensures var vd := VectorizeDiff(d, vectors).diff;
            seq(|vd.newChunks|, i requires 0 <= i < |vd.newChunks| => vd.newChunks[i].chunk) == d.newChunks
  {
  }
}

/**
 * Splitting a list into consecutive batches, as `wikichat.utils.batch_list` is used by the
 * insert and the delete of embeddings. That helper is not part of this model: batches are
 * taken to be consecutive slices of at most `size` items, in input order, the last one
 * possibly shorter.
 */
module Batching {

  /** The batch size used by both the insert and the delete of embeddings. */
  const BatchSize: nat := 20

  function Batches<T>(xs: seq<T>, size: nat): (bs: seq<seq<T>>)
    requires size > 0
    ensures forall i :: 0 <= i < |bs| ==> 0 < |bs[i]| <= size
    ensures xs == [] <==> bs == []
    decreases |xs|
  {
    if xs == [] then []
    else if |xs| <= size then [xs]
    else [xs[..size]] + Batches(xs[size..], size)
  }

  function Flatten<T>(bs: seq<seq<T>>): seq<T>
  {
    if bs == [] then [] else bs[0] + Flatten(bs[1..])
  }

  lemma {:induction false} FlattenAppend<T>(a: seq<seq<T>>, b: seq<seq<T>>)
    ensures Flatten(a + b) == Flatten(a) + Flatten(b)
  {
    if a == [] {
      assert a + b == b;
    } else {
      assert (a + b)[0] == a[0];
      assert (a + b)[1..] == a[1..] + b;
      FlattenAppend(a[1..], b);
    }
  }

  /** Batching loses nothing, duplicates nothing and keeps the input order. */
  lemma {:induction false} FlattenBatches<T>(xs: seq<T>, size: nat)
    requires size > 0
    ensures Flatten(Batches(xs, size)) == xs
    decreases |xs|
  {
    if xs == [] {
    } else if |xs| <= size {
      assert Flatten([xs]) == xs + Flatten([xs][1..]);
    } else {
      var bs := Batches(xs, size);
      assert bs[0] == xs[..size];
      assert bs[1..] == Batches(xs[size..], size);
      FlattenBatches(xs[size..], size);
      assert xs == xs[..size] + xs[size..];
    }
  }

  /** Every batch but the last is full. */
  lemma {:induction false} BatchesAreFull<T>(xs: seq<T>, size: nat)
    requires size > 0
    ensures forall i :: 0 <= i < |Batches(xs, size)| - 1 ==> |Batches(xs, size)[i]| == size
    decreases |xs|
  {
    if |xs| > size {
      var bs := Batches(xs, size);
      var rest := Batches(xs[size..], size);
      assert bs == [xs[..size]] + rest;
      BatchesAreFull(xs[size..], size);
      forall i | 0 <= i < |bs| - 1
        ensures |bs[i]| == size
      {
        if i > 0 {
          assert bs[i] == rest[i - 1];
        }
      }
    }
  }

  /**
   * The batching above is the only split into non-empty batches of at most `size` items,
   * all full but the last, that flattens back to the input.
   */
  lemma {:induction false} BatchesUnique<T>(xs: seq<T>, size: nat, bs: seq<seq<T>>)
    requires size > 0
    requires Flatten(bs) == xs
    requires forall i :: 0 <= i < |bs| ==> 0 < |bs[i]| <= size
    requires forall i :: 0 <= i < |bs| - 1 ==> |bs[i]| == size
    ensures bs == Batches(xs, size)
    decreases |xs|
  {
    if bs == [] {
    } else if |bs| == 1 {
      assert Flatten(bs) == bs[0] + Flatten(bs[1..]);
      assert xs == bs[0];
    } else {
      assert Flatten(bs) == bs[0] + Flatten(bs[1..]);
      assert Flatten(bs[1..]) == bs[1] + Flatten(bs[2..]);
      assert |xs| > size;
      assert xs[..size] == bs[0];
      assert xs[size..] == Flatten(bs[1..]);
      BatchesUnique(xs[size..], size, bs[1..]);
      assert bs == [bs[0]] + bs[1..];
    }
  }
}

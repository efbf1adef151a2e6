/**
 * Admission of article metadata into the ingestion pipeline (`process_article_metadata`):
 * items are offered one at a time until the pipeline, which admits at most `maxItems`
 * items over its lifetime, rejects one.
 */
module Admission {
  import opened Chunking

  /** How far an offer loop gets: whether every item was admitted, and how many were admitted and offered. */
  datatype Progress = Progress(all: bool, admitted: nat, offered: nat)

  /** Offering `items` in turn to a pipeline with `room` free places, up to the first rejection. */
  function Offer(room: nat, items: seq<ArticleMetadata>): Progress
  {
    if items == [] then Progress(true, 0, 0)
    else if room == 0 then Progress(false, 0, 1)
    else
      var rest := Offer(room - 1, items[1..]);
      Progress(rest.all, rest.admitted + 1, rest.offered + 1)
  }

  /**
   * Every item is admitted exactly when they all fit; otherwise the pipeline fills up and
   * the item after the last one admitted is the last one offered.
   */
  lemma {:induction false} OfferStopsAtFirstRejection(room: nat, items: seq<ArticleMetadata>)
    ensures var p := Offer(room, items);
            && (p.all <==> |items| <= room)
            && (p.all ==> p.admitted == |items| && p.offered == |items|)
            && (!p.all ==> p.admitted == room && p.offered == room + 1)
  {
    if items != [] && room > 0 {
      OfferStopsAtFirstRejection(room - 1, items[1..]);
    }
  }

  /**
   * The first step of the pipeline: the items it admitted, and every item offered to it,
   * in order.
   */
  class Pipeline {
    const maxItems: nat
    var admitted: seq<ArticleMetadata>
    var offered: seq<ArticleMetadata>

    ghost predicate Valid()
      reads this
    {
      |admitted| <= maxItems
    }

    constructor (maxItems: nat)
      ensures Valid()
      ensures this.maxItems == maxItems && admitted == [] && offered == []
    {
      this.maxItems := maxItems;
      admitted := [];
      offered := [];
    }

    /** The number of further items the pipeline will admit. */
    function Room(): (n: nat)
      requires Valid()
      reads this
      ensures |admitted| + n == maxItems
    {
      maxItems - |admitted|
    }

    /** `put_to_first_step`: admits the item unless `maxItems` items were already admitted. */
    method PutToFirstStep(item: ArticleMetadata) returns (ok: bool)
      requires Valid()
      modifies this
      ensures Valid()
      ensures ok <==> old(Room()) > 0
      ensures admitted == old(admitted) + (if ok then [item] else [])
      ensures offered == old(offered) + [item]
    {
      offered := offered + [item];
      ok := |admitted| < maxItems;
      if ok {
        admitted := admitted + [item];
      }
    }
  }

  /**
   * `process_article_metadata`: offers the items in turn and stops at the first rejection,
   * offering no later item; the answer is whether every item was admitted.
   */
  method ProcessArticleMetadata(pipeline: Pipeline, items: seq<ArticleMetadata>) returns (all: bool)
    requires pipeline.Valid()
    modifies pipeline
    ensures pipeline.Valid()
    ensures var p := Offer(old(pipeline.Room()), items);
            && all == p.all
            && p.admitted <= p.offered <= |items|
            && pipeline.admitted == old(pipeline.admitted) + items[..p.admitted]
            && pipeline.offered == old(pipeline.offered) + items[..p.offered]
  {
    ghost var room := pipeline.Room();
    OfferStopsAtFirstRejection(room, items);
    var i := 0;
    while i < |items|
      invariant 0 <= i <= |items| && i <= room
      invariant pipeline.Valid() && pipeline.Room() == room - i
      invariant pipeline.admitted == old(pipeline.admitted) + items[..i]
      invariant pipeline.offered == old(pipeline.offered) + items[..i]
    {
      var ok := pipeline.PutToFirstStep(items[i]);
      assert items[..i + 1] == items[..i] + [items[i]];
      if !ok {
        return false;
      }
      i := i + 1;
    }
    assert items[..i] == items;
    all := true;
  }
}

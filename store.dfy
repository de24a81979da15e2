/**
 * The database the `/psm` handlers run against. Each table is a field; a row's id is its
 * position, handed out in insertion order, and no handler deletes a row. A handler's
 * statements update these fields one at a time, and an error raised before the handler's
 * commit leaves every field as it was.
 */
module Store {
  import opened Common
  import opened SlotLedger
  import opened GiftLedger
  import opened Records

  class Db {
    var offers: seq<Offer>
    var slots: seq<Slot>
    var gifts: seq<Gift>
    var requests: seq<Request>
    var engagements: seq<Engagement>
    var reviews: seq<Review>
    var ratings: map<RatingKey, int>

    /** The invariants every handler keeps. */
    ghost predicate Valid()
      reads this
    {
      && (forall i :: 0 <= i < |offers| ==> offers[i].id == i)
      && SlotsOk(slots)
      && GiftsOk(gifts)
      && (forall i :: 0 <= i < |requests| ==> requests[i].id == i)
      && EngagementsOk(engagements, |requests|, |slots|)
      && (forall i :: 0 <= i < |reviews| ==> reviews[i].id == i)
      && ReviewsUnique(reviews)
      && (forall k :: k in ratings ==> 1 <= ratings[k] <= 5)
    }

    /** An empty database. */
    constructor ()
      ensures Valid()
      ensures offers == [] && slots == [] && gifts == [] && requests == []
      ensures engagements == [] && reviews == [] && ratings == map[]
    {
      offers, slots, gifts, requests := [], [], [], [];
      engagements, reviews, ratings := [], [], map[];
    }
  }
}

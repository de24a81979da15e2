/**
 * Reviews of completed engagements: `POST /psm/engagements/{id}/reviews` gates who may
 * review what, and `GET /psm/offers/{offer_id}/reviews` pages an offer's reviews, newest
 * first.
 */
module PsmReviews {
  import opened Common
  import opened Text
  import opened Sorting
  import opened Records
  import opened Store

  /** The body of a review. */
  datatype NewReview = NewReview(stars: int, comment: string)

  /** Some stored review already covers this engagement, or this reviewer on this offer. */
  predicate Duplicate(reviews: seq<Review>, engagementId: EngagementId, offer: OfferId, reviewer: UserId)
  {
    exists i :: 0 <= i < |reviews| &&
      (reviews[i].engagementId == engagementId || (reviews[i].offerId == offer && reviews[i].reviewer == reviewer))
  }

  /**
   * `create_review_for_engagement`. The checks run in this order, the first that fails
   * answering: stars outside 1..5 (400), a comment that is empty once stripped (400), an
   * unknown engagement (404), an engagement not completed (409), a caller other than its
   * requester (403), a review already stored for the engagement or for the offer by this
   * reviewer (409). A failed check stores nothing. Otherwise one review is stored with the
   * stripped comment, under the offer of the engagement's request, and returned.
   */
  method CreateReview(db: Db, engagementId: EngagementId, user: UserId, p: NewReview, now: Time)
    returns (r: Result<Review>)
    requires db.Valid()
    modifies db`reviews
    ensures db.Valid()
    ensures r.Failure? ==> db.reviews == old(db.reviews)
    ensures !(1 <= p.stars <= 5) ==> r == Failure(BadRequest)
    ensures 1 <= p.stars <= 5 && Strip(p.comment) == [] ==> r == Failure(BadRequest)
    ensures 1 <= p.stars <= 5 && Strip(p.comment) != [] ==>
      if engagementId >= |old(db.engagements)| then r == Failure(NotFound)
      else
        var e := old(db.engagements)[engagementId];
        var offer := old(db.requests)[e.requestId].offerId;
        if e.state != Completed then r == Failure(Conflict)
        else if user != e.requester then r == Failure(Forbidden)
        else if Duplicate(old(db.reviews), engagementId, offer, user) then r == Failure(Conflict)
        else
          && r == Success(Review(|old(db.reviews)|, offer, engagementId, user, p.stars, Strip(p.comment), now))
          && db.reviews == old(db.reviews) + [r.value]
    ensures r.Success? ==> Duplicate(db.reviews, engagementId, r.value.offerId, user)
  {
    if p.stars < 1 || p.stars > 5 {
      return Failure(BadRequest);
    }
    var comment := Strip(p.comment);
    if |comment| == 0 {
      return Failure(BadRequest);
    }
    if engagementId >= |db.engagements| {
      return Failure(NotFound);
    }
    var e := db.engagements[engagementId];
    var offer := db.requests[e.requestId].offerId;
    if e.state != Completed {
      return Failure(Conflict);
    }
    if user != e.requester {
      return Failure(Forbidden);
    }
    if Duplicate(db.reviews, engagementId, offer, user) {
      return Failure(Conflict);
    }
    var review := Review(|db.reviews|, offer, engagementId, user, p.stars, comment, now);
    db.reviews := db.reviews + [review];
    assert db.reviews[|db.reviews| - 1] == review;
    r := Success(review);
  }

  /** The reviews of one offer, as a row filter. */
  function OfOffer(offer: OfferId): Review -> bool
  {
    (x: Review) => x.offerId == offer
  }

  /** `order by created_at desc` as an ascending key. */
  function NewestFirst(x: Review): int
  {
    -x.createdAt
  }

  /**
   * `list_offer_reviews`: `limit` outside 1..100 or a negative `offset` is a 422; otherwise
   * the page at `offset` of at most `limit` of the offer's reviews, newest first, as many as
   * there are left from `offset` on.
   */
  function ListOfferReviews(reviews: seq<Review>, offer: OfferId, limit: int, offset: int): (r: Result<seq<Review>>)
    ensures r.Failure? <==> !(1 <= limit <= 100 && 0 <= offset)
    ensures r.Failure? ==> r.error == Unprocessable
    ensures r.Success? ==> forall x :: x in r.value ==> x in reviews && x.offerId == offer
    ensures r.Success? ==> forall i, j :: 0 <= i < j < |r.value| ==> r.value[i].createdAt >= r.value[j].createdAt
    ensures r.Success? ==>
      var count := |Filter(reviews, OfOffer(offer))|;
      |r.value| == if count <= offset then 0 else if limit < count - offset then limit else count - offset
    ensures r.Success? ==> IsPageOf(r.value, Filter(reviews, OfOffer(offer)), NewestFirst, offset, limit)
  {
    if !(1 <= limit <= 100 && 0 <= offset) then Failure(Unprocessable)
    else
      ReviewPage(reviews, offer, offset, limit);
      Success(Page(SortBy(Filter(reviews, OfOffer(offer)), NewestFirst), offset, limit))
  }

  /** The page `ListOfferReviews` returns: the offer's reviews only, newest first, and as many as remain. */
  lemma ReviewPage(reviews: seq<Review>, offer: OfferId, offset: nat, limit: nat)
    ensures var page := Page(SortBy(Filter(reviews, OfOffer(offer)), NewestFirst), offset, limit);
      && (forall x :: x in page ==> x in reviews && x.offerId == offer)
      && (forall i, j :: 0 <= i < j < |page| ==> page[i].createdAt >= page[j].createdAt)
      && var count := |Filter(reviews, OfOffer(offer))|;
         |page| == if count <= offset then 0 else if limit < count - offset then limit else count - offset
  {
    var matching := Filter(reviews, OfOffer(offer));
    var sorted := SortBy(matching, NewestFirst);
    var page := Page(sorted, offset, limit);
    PageOfSorted(sorted, matching, offset, limit, NewestFirst);
    assert |sorted| == |multiset(sorted)| == |multiset(matching)| == |matching|;
    forall x | x in page ensures x in reviews && x.offerId == offer {
      assert x in multiset(matching);
    }
    forall i, j | 0 <= i < j < |page| ensures page[i].createdAt >= page[j].createdAt {
      assert NewestFirst(page[i]) <= NewestFirst(page[j]);
    }
  }
}

/**
 * The gift routes under `/psm/offers/{offer_id}/gifts`: a sponsor donates a pool of
 * sessions, and anyone reads how many donated sessions are still available. The
 * availability sum itself is `GiftLedger.Available`.
 */
module PsmGifts {
  import opened Common
  import opened GiftLedger
  import opened Store

  /** The body of `POST /psm/offers/{offer_id}/gifts`; `units` defaults to 1. */
  datatype NewGift = NewGift(units: int, note: Option<string>, validUntil: Option<Time>)

  /** Appending a pool adds its contribution to the sum. */
  lemma {:induction false} SumRemainingAppend(gifts: seq<Gift>, counts: Gift -> bool, g: Gift)
    ensures SumRemaining(gifts + [g], counts)
      == SumRemaining(gifts, counts) + (if counts(g) then Max(Remaining(g), 0) else 0)
    decreases |gifts|
  {
    if gifts != [] {
      assert (gifts + [g])[1..] == gifts[1..] + [g];
      SumRemainingAppend(gifts[1..], counts, g);
    } else {
      assert [g][1..] == [];
    }
  }

  /**
   * `create_gift`: `units <= 0` is a 400 and inserts nothing; otherwise one active pool with
   * nothing used, the caller as sponsor and the given note. The payload's `valid_until` is
   * not stored, so the pool never expires, and all its units become available at once.
   */
  method CreateGift(db: Db, offer: OfferId, user: UserId, p: NewGift, now: Time) returns (r: Result<GiftId>)
    requires db.Valid()
    modifies db`gifts
    ensures db.Valid()
    ensures r.Failure? <==> p.units <= 0
    ensures r.Failure? ==> r.error == BadRequest && db.gifts == old(db.gifts)
    ensures r.Success? ==>
      && r.value == |old(db.gifts)|
      && db.gifts == old(db.gifts) + [Gift(r.value, offer, user, p.units, 0, Active, None, p.note, now)]
      && forall t :: Available(db.gifts, offer, t) == Available(old(db.gifts), offer, t) + p.units
  {
    if p.units <= 0 {
      return Failure(BadRequest);
    }
    var id := |db.gifts|;
    var g := Gift(id, offer, user, p.units, 0, Active, None, p.note, now);
    forall t
      ensures Available(db.gifts + [g], offer, t) == Available(db.gifts, offer, t) + p.units
    {
      SumRemainingAppend(db.gifts, x => CountsAt(x, offer, t), g);
    }
    db.gifts := db.gifts + [g];
    r := Success(id);
  }
}

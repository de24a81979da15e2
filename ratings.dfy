/**
 * `POST /ratings`: a user rates any entity with 1 to 5 stars, one rating per rater and
 * entity, a later rating replacing the earlier one.
 */
module Ratings {
  import opened Common
  import opened Records
  import opened Store

  /**
   * The rating payload: a missing or empty `entity`/`entity_id` is "", and `stars` is None
   * when it is missing or not an integer.
   */
  datatype RatePayload = RatePayload(entity: string, entityId: string, stars: Option<int>)

  /** The payload check: both keys present and non-empty, an integer number of stars in 1..5. */
  predicate WellFormed(p: RatePayload)
  {
    p.entity != "" && p.entityId != "" && p.stars.Some? && 1 <= p.stars.value <= 5
  }

  /**
   * The upsert on (entity, entity_id, rater): the key ends up holding the new stars, no key
   * is added but this one, and every other rating is kept.
   */
  function Upsert(ratings: map<RatingKey, int>, key: RatingKey, stars: int): (r: map<RatingKey, int>)
    ensures key in r && r[key] == stars
    ensures r.Keys == ratings.Keys + {key}
    ensures forall k :: k in ratings && k != key ==> r[k] == ratings[k]
    ensures key in ratings ==> |r| == |ratings|
    ensures key !in ratings ==> |r| == |ratings| + 1
  {
    assert key !in ratings ==> ratings.Keys + {key} == ratings.Keys + {key} && |ratings.Keys + {key}| == |ratings.Keys| + 1;
    ratings[key := stars]
  }

  /** Rating again replaces the earlier stars: only the last rating of a key is kept. */
  lemma UpsertOverwrites(ratings: map<RatingKey, int>, key: RatingKey, a: int, b: int)
    ensures Upsert(Upsert(ratings, key, a), key, b) == Upsert(ratings, key, b)
  {
    assert Upsert(Upsert(ratings, key, a), key, b).Keys == Upsert(ratings, key, b).Keys;
  }

  /**
   * `rate`: a malformed payload answers `ok: false` and writes nothing; a well-formed one
   * upserts the caller's rating and answers `ok: true`.
   */
  method Rate(db: Db, user: UserId, p: RatePayload) returns (ok: bool)
    requires db.Valid()
    modifies db`ratings
    ensures db.Valid()
    ensures ok <==> WellFormed(p)
    ensures !ok ==> db.ratings == old(db.ratings)
    ensures ok ==> db.ratings == Upsert(old(db.ratings), RatingKey(p.entity, p.entityId, user), p.stars.value)
  {
    if !WellFormed(p) {
      return false;
    }
    db.ratings := Upsert(db.ratings, RatingKey(p.entity, p.entityId, user), p.stars.value);
    ok := true;
  }
}

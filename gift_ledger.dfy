/**
 * The gift ledger: sponsor-donated pools of sessions for one offer, the two "take the
 * oldest eligible pool" updates that consume them, and the availability sum.
 *
 * The accept path counts down a `units_remaining` column while the request path and the
 * availability sum use `units`/`used`; here there is one `units`/`used` pair and
 * `units_remaining` is read as `units - used`, so decrementing it increments `used`.
 */
module GiftLedger {
  import opened Common

  datatype GiftStatus = Active | Exhausted | Cancelled

  /** A row of `offer_gifts`. */
  datatype Gift = Gift(
    id: GiftId,
    offerId: OfferId,
    sponsor: UserId,
    units: int,
    used: int,
    status: GiftStatus,
    validUntil: Option<Time>,
    note: Option<string>,
    createdAt: Time)

  /** The units of a pool not yet consumed (the accept path's `units_remaining`). */
  function Remaining(g: Gift): int
  {
    g.units - g.used
  }

  /**
   * The ledger invariant of one pool: `used` only grows from 0 and never passes `units`,
   * and a pool is marked `exhausted` only once every unit is used.
   */
  predicate GiftOk(g: Gift)
  {
    0 <= g.used <= g.units && (g.status == Exhausted ==> g.used == g.units)
  }

  /** Every row of the gift table keeps the ledger invariant and carries its position as id. */
  ghost predicate GiftsOk(gifts: seq<Gift>)
  {
    forall i :: 0 <= i < |gifts| ==> gifts[i].id == i && GiftOk(gifts[i])
  }

  /** Not expired at `now`, with the request path's and the availability sum's `>=`. */
  predicate ValidAt(g: Gift, now: Time)
  {
    g.validUntil.None? || g.validUntil.value >= now
  }

  /** The pools the request path may take from. */
  predicate EligibleOnRequest(g: Gift, offer: OfferId, now: Time)
  {
    g.offerId == offer && g.status == Active && ValidAt(g, now) && g.used < g.units
  }

  /** The pools the accept path may take from: a strict `valid_until > now`. */
  predicate EligibleOnAccept(g: Gift, offer: OfferId, now: Time)
  {
    && g.offerId == offer && g.status == Active && Remaining(g) > 0
    && (g.validUntil.None? || g.validUntil.value > now)
  }

  /**
   * `order by created_at asc limit 1` over the eligible pools: the position of the oldest
   * one (the first such row on a tie), or None when no pool is eligible.
   */
  function Oldest(gifts: seq<Gift>, eligible: Gift -> bool): (r: Option<GiftId>)
    ensures r.None? <==> forall j :: 0 <= j < |gifts| ==> !eligible(gifts[j])
    ensures r.Some? ==> r.value < |gifts| && eligible(gifts[r.value])
    ensures r.Some? ==> forall j :: 0 <= j < |gifts| && eligible(gifts[j]) ==>
      gifts[r.value].createdAt <= gifts[j].createdAt
    ensures r.Some? ==> forall j :: 0 <= j < r.value && eligible(gifts[j]) ==>
      gifts[r.value].createdAt < gifts[j].createdAt
  {
    if gifts == [] then None
    else
      var last := |gifts| - 1;
      var r := Oldest(gifts[..last], eligible);
      assert forall j :: 0 <= j < last ==> gifts[..last][j] == gifts[j];
      if !eligible(gifts[last]) then r
      else if r.None? || gifts[last].createdAt < gifts[r.value].createdAt then Some(last)
      else r
  }

  /** The request path's update: `used = used + 1`; the status is never touched. */
  function TakeOnRequest(g: Gift): (r: Gift)
    ensures r == g.(used := g.used + 1)
    ensures g.used < g.units && GiftOk(g) ==> GiftOk(r)
  {
    g.(used := g.used + 1)
  }

  /** The accept path's update: one unit fewer remaining; `exhausted` once none remain. */
  function TakeOnAccept(g: Gift): (r: Gift)
    ensures r == g.(used := g.used + 1, status := r.status)
    ensures Remaining(r) > 0 ==> r.status == Active
    ensures Remaining(g) > 0 && GiftOk(g) ==> GiftOk(r) && (r.status == Exhausted <==> r.used == r.units)
  {
    g.(used := g.used + 1, status := if Remaining(g) - 1 <= 0 then Exhausted else Active)
  }

  /** `create_request` with `use_gift`: take one unit of the oldest eligible pool, if any. */
  function ConsumeOnRequest(gifts: seq<Gift>, offer: OfferId, now: Time): (r: (seq<Gift>, Option<GiftId>))
    ensures r.1.None? <==> forall j :: 0 <= j < |gifts| ==> !EligibleOnRequest(gifts[j], offer, now)
    ensures r.1.None? ==> r.0 == gifts
    ensures r.1.Some? ==> r.1.value < |gifts| && EligibleOnRequest(gifts[r.1.value], offer, now)
    ensures r.1.Some? ==> r.0 == gifts[r.1.value := TakeOnRequest(gifts[r.1.value])]
    ensures r.1.Some? ==> forall j :: 0 <= j < |gifts| && EligibleOnRequest(gifts[j], offer, now) ==>
      gifts[r.1.value].createdAt <= gifts[j].createdAt
    ensures r.1.Some? ==> forall j :: 0 <= j < r.1.value && EligibleOnRequest(gifts[j], offer, now) ==>
      gifts[r.1.value].createdAt < gifts[j].createdAt
  {
    match Oldest(gifts, g => EligibleOnRequest(g, offer, now))
    case None => (gifts, None)
    case Some(i) => (gifts[i := TakeOnRequest(gifts[i])], Some(i))
  }

  /** `update_request` accept with `use_gift`: best effort, take one unit of the oldest eligible pool. */
  function ConsumeOnAccept(gifts: seq<Gift>, offer: OfferId, now: Time): (r: (seq<Gift>, Option<GiftId>))
    ensures r.1.None? <==> forall j :: 0 <= j < |gifts| ==> !EligibleOnAccept(gifts[j], offer, now)
    ensures r.1.None? ==> r.0 == gifts
    ensures r.1.Some? ==> r.1.value < |gifts| && EligibleOnAccept(gifts[r.1.value], offer, now)
    ensures r.1.Some? ==> r.0 == gifts[r.1.value := TakeOnAccept(gifts[r.1.value])]
    ensures r.1.Some? ==> forall j :: 0 <= j < |gifts| && EligibleOnAccept(gifts[j], offer, now) ==>
      gifts[r.1.value].createdAt <= gifts[j].createdAt
    ensures r.1.Some? ==> forall j :: 0 <= j < r.1.value && EligibleOnAccept(gifts[j], offer, now) ==>
      gifts[r.1.value].createdAt < gifts[j].createdAt
  {
    match Oldest(gifts, g => EligibleOnAccept(g, offer, now))
    case None => (gifts, None)
    case Some(i) => (gifts[i := TakeOnAccept(gifts[i])], Some(i))
  }

  /** `sum(greatest(units - used, 0))` over the pools `counts` selects; 0 over none. */
  function SumRemaining(gifts: seq<Gift>, counts: Gift -> bool): (n: int)
    ensures n >= 0
  {
    if gifts == [] then 0
    else (if counts(gifts[0]) then Max(Remaining(gifts[0]), 0) else 0) + SumRemaining(gifts[1..], counts)
  }

  /** The pools `gifts_available` adds up: the offer's active, unexpired pools. */
  predicate CountsAt(g: Gift, offer: OfferId, now: Time)
  {
    g.offerId == offer && g.status == Active && ValidAt(g, now)
  }

  /** The units `gifts_available` reports for an offer at `now`; never negative. */
  function Available(gifts: seq<Gift>, offer: OfferId, now: Time): (n: int)
    ensures n >= 0
  {
    SumRemaining(gifts, g => CountsAt(g, offer, now))
  }

  /** Replacing one row changes the sum by the difference of that row's contributions. */
  lemma {:induction false} SumRemainingUpdate(gifts: seq<Gift>, counts: Gift -> bool, i: nat, g: Gift)
    requires i < |gifts|
    ensures SumRemaining(gifts[i := g], counts)
      == SumRemaining(gifts, counts)
         - (if counts(gifts[i]) then Max(Remaining(gifts[i]), 0) else 0)
         + (if counts(g) then Max(Remaining(g), 0) else 0)
  {
    if i > 0 {
      SumRemainingUpdate(gifts[1..], counts, i - 1, g);
      assert gifts[i := g][1..] == gifts[1..][i - 1 := g];
    }
  }

  /** The sum is zero exactly when no selected pool has a unit left. */
  lemma {:induction false} SumRemainingZero(gifts: seq<Gift>, counts: Gift -> bool)
    ensures SumRemaining(gifts, counts) == 0 <==>
      forall j :: 0 <= j < |gifts| && counts(gifts[j]) ==> Remaining(gifts[j]) <= 0
  {
    if gifts != [] {
      SumRemainingZero(gifts[1..], counts);
      assert forall j :: 1 <= j < |gifts| ==> gifts[1..][j - 1] == gifts[j];
    }
  }

  /**
   * The request path refuses (409) exactly when `gifts_available` reports 0, and a unit it
   * takes is one unit fewer in `gifts_available` at the same instant.
   */
  lemma ConsumeOnRequestMatchesAvailable(gifts: seq<Gift>, offer: OfferId, now: Time)
    requires GiftsOk(gifts)
    ensures var (after, picked) := ConsumeOnRequest(gifts, offer, now);
      && (picked.None? <==> Available(gifts, offer, now) == 0)
      && (picked.Some? ==> Available(after, offer, now) == Available(gifts, offer, now) - 1)
      && GiftsOk(after)
  {
    var counts := g => CountsAt(g, offer, now);
    SumRemainingZero(gifts, counts);
    var (after, picked) := ConsumeOnRequest(gifts, offer, now);
    if picked.Some? {
      SumRemainingUpdate(gifts, counts, picked.value, TakeOnRequest(gifts[picked.value]));
    } else {
      forall j | 0 <= j < |gifts| && counts(gifts[j])
        ensures Remaining(gifts[j]) <= 0
      {
        assert !EligibleOnRequest(gifts[j], offer, now);
      }
    }
  }

  /** The pools the accept path could still take a unit from: active, strictly unexpired. */
  predicate LiveOnAccept(g: Gift, offer: OfferId, now: Time)
  {
    g.offerId == offer && g.status == Active && (g.validUntil.None? || g.validUntil.value > now)
  }

  /** The accept path takes a unit exactly when a live pool has one, and each take uses one up. */
  lemma ConsumeOnAcceptTakesOne(gifts: seq<Gift>, offer: OfferId, now: Time)
    requires GiftsOk(gifts)
    ensures var (after, picked) := ConsumeOnAccept(gifts, offer, now);
      var live := g => LiveOnAccept(g, offer, now);
      && (picked.None? <==> SumRemaining(gifts, live) == 0)
      && (picked.Some? ==> SumRemaining(after, live) == SumRemaining(gifts, live) - 1)
      && GiftsOk(after)
  {
    var live := g => LiveOnAccept(g, offer, now);
    SumRemainingZero(gifts, live);
    var (after, picked) := ConsumeOnAccept(gifts, offer, now);
    if picked.Some? {
      SumRemainingUpdate(gifts, live, picked.value, TakeOnAccept(gifts[picked.value]));
    } else {
      forall j | 0 <= j < |gifts| && live(gifts[j])
        ensures Remaining(gifts[j]) <= 0
      {
        assert !EligibleOnAccept(gifts[j], offer, now);
      }
    }
  }

  /** `n` accepts with `use_gift` in a row: the resulting pools and how many got a unit. */
  function AcceptAttempts(gifts: seq<Gift>, offer: OfferId, now: Time, n: nat): (seq<Gift>, nat)
    decreases n
  {
    if n == 0 then (gifts, 0)
    else
      var (after, picked) := ConsumeOnAccept(gifts, offer, now);
      var (final, k) := AcceptAttempts(after, offer, now, n - 1);
      (final, if picked.Some? then k + 1 else k)
  }

  /**
   * No unit is handed out twice: with N units left in the live pools, of `n` accepts
   * exactly `min(n, N)` get a unit, and after N of them nothing is left.
   */
  lemma {:induction false} AcceptAttemptsTakeAtMostSupply(gifts: seq<Gift>, offer: OfferId, now: Time, n: nat)
    requires GiftsOk(gifts)
    ensures var supply := SumRemaining(gifts, g => LiveOnAccept(g, offer, now));
      var (final, k) := AcceptAttempts(gifts, offer, now, n);
      && k == (if n < supply then n else supply)
      && SumRemaining(final, g => LiveOnAccept(g, offer, now)) == supply - k
      && GiftsOk(final)
    decreases n
  {
    if n > 0 {
      ConsumeOnAcceptTakesOne(gifts, offer, now);
      var (after, picked) := ConsumeOnAccept(gifts, offer, now);
      AcceptAttemptsTakeAtMostSupply(after, offer, now, n - 1);
    }
  }

  /**
   * The accept path never marks a pool exhausted early, but the request path never marks
   * one exhausted at all: a pool drained by requests stays `active` with nothing left.
   */
  lemma RequestPathLeavesDrainedPoolActive(g: Gift, now: Time)
    requires GiftOk(g) && g.status == Active && g.used + 1 == g.units && ValidAt(g, now)
    ensures EligibleOnRequest(g, g.offerId, now)
    ensures TakeOnRequest(g).status == Active && Remaining(TakeOnRequest(g)) == 0
    ensures !EligibleOnRequest(TakeOnRequest(g), g.offerId, now)
  {
  }

  /**
   * The two paths disagree at the expiry instant: a pool whose `valid_until` is exactly
   * `now` is counted by `gifts_available` and taken by `create_request`, but the accept
   * path passes it over.
   */
  lemma ExpiryBoundaryDiffers(g: Gift)
    requires GiftOk(g) && g.status == Active && g.used < g.units && g.validUntil.Some?
    ensures EligibleOnRequest(g, g.offerId, g.validUntil.value)
    ensures !EligibleOnAccept(g, g.offerId, g.validUntil.value)
    ensures Available([g], g.offerId, g.validUntil.value) == Remaining(g)
  {
    var counts := x => CountsAt(x, g.offerId, g.validUntil.value);
    assert [g][1..] == [];
    assert SumRemaining([g][1..], counts) == 0;
    assert counts([g][0]);
    assert SumRemaining([g], counts) == Remaining(g);
  }
}

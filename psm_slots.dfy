/**
 * The slot routes under `/psm/offers/{offer_id}`: create a slot, soft-cancel it (by DELETE
 * or by its PATCH alias), list the offer's slots, list them by date range, and the "next
 * slots" snippet.
 *
 * `GET /psm/offers/{offer_id}/slots` is declared twice; the first declaration, `list_slots`,
 * is the one that answers, so `list_slots_by_range` is reachable by no request. Both are
 * modelled. Neither create nor cancel checks that the caller owns the offer.
 */
module PsmSlots {
  import opened Common
  import opened Sorting
  import opened SlotLedger
  import opened Store

  /** The body of `POST /psm/offers/{offer_id}/slots`. */
  datatype NewSlot = NewSlot(start: Time, end: Time, capacity: Option<int>, note: Option<string>)

  /** The capacity stored for a requested one: as given, or 1 when absent or 0. */
  function StoredCapacity(c: Option<int>): (r: int)
    ensures c.None? ==> r == 1
    ensures c == Some(0) ==> r == 1
    ensures c.Some? && c.value != 0 ==> r == c.value
  {
    if c.None? || c.value == 0 then 1 else c.value
  }

  /**
   * `create_slot`: inserts an open slot with nothing reserved, the stored capacity and the
   * note or "". The insert is refused (500, nothing stored) when the stored capacity is
   * below 1, the constraint the slot table is modelled with.
   */
  method CreateSlot(db: Db, offer: OfferId, p: NewSlot) returns (r: Result<SlotId>)
    requires db.Valid()
    modifies db`slots
    ensures db.Valid()
    ensures r.Failure? <==> StoredCapacity(p.capacity) < 1
    ensures r.Failure? ==> r.error == ServerError && db.slots == old(db.slots)
    ensures r.Success? ==>
      && r.value == |old(db.slots)|
      && db.slots == old(db.slots) + [Slot(r.value, offer, p.start, p.end, StoredCapacity(p.capacity), 0, Open,
                                           if p.note.Some? then p.note.value else "")]
  {
    var capacity := StoredCapacity(p.capacity);
    if capacity < 1 {
      return Failure(ServerError);
    }
    var id := |db.slots|;
    db.slots := db.slots + [Slot(id, offer, p.start, p.end, capacity, 0, Open,
                                 if p.note.Some? then p.note.value else "")];
    r := Success(id);
  }

  /** The cancel update as a whole-table step: it applies when the id and the offer both match. */
  function CancelIn(slots: seq<Slot>, offer: OfferId, id: SlotId): (r: Result<seq<Slot>>)
    ensures r.Failure? <==> !(id < |slots| && slots[id].offerId == offer)
    ensures r.Failure? ==> r.error == NotFound
    ensures r.Success? ==>
      && |r.value| == |slots|
      && r.value[id].status == Cancelled
      && r.value[id].reserved == slots[id].reserved && r.value[id].capacity == slots[id].capacity
      && r.value[id].(status := slots[id].status) == slots[id]
      && forall j :: 0 <= j < |slots| && j != id ==> r.value[j] == slots[j]
    ensures r.Success? && SlotsOk(slots) ==> SlotsOk(r.value)
  {
    if id < |slots| && slots[id].offerId == offer then
      assert SlotsOk(slots) ==> SlotsOk(slots[id := SlotLedger.Cancel(slots[id])]) by {
        if SlotsOk(slots) {
          SlotsOkUpdate(slots, id, SlotLedger.Cancel(slots[id]));
        }
      }
      Success(slots[id := SlotLedger.Cancel(slots[id])])
    else Failure(NotFound)
  }

  /** Cancelling a slot a second time succeeds again and changes nothing further. */
  lemma CancelInRepeatable(slots: seq<Slot>, offer: OfferId, id: SlotId)
    requires CancelIn(slots, offer, id).Success?
    ensures var once := CancelIn(slots, offer, id).value;
      CancelIn(once, offer, id) == Success(once)
  {
    var once := CancelIn(slots, offer, id).value;
    assert once[id := SlotLedger.Cancel(once[id])] == once;
  }

  /** `cancel_slot` (DELETE): the cancel update or 404, committing nothing on 404. */
  method CancelSlot(db: Db, offer: OfferId, id: SlotId) returns (r: Result<()>)
    requires db.Valid()
    modifies db`slots
    ensures db.Valid()
    ensures r.Failure? <==> CancelIn(old(db.slots), offer, id).Failure?
    ensures r.Failure? ==> r.error == NotFound && db.slots == old(db.slots)
    ensures r.Success? ==> db.slots == CancelIn(old(db.slots), offer, id).value
  {
    var next := CancelIn(db.slots, offer, id);
    if next.Failure? {
      return Failure(NotFound);
    }
    db.slots := next.value;
    r := Success(());
  }

  /** `cancel_slot_patch`: the same statement as the DELETE route, so the same outcome. */
  method CancelSlotPatch(db: Db, offer: OfferId, id: SlotId) returns (r: Result<()>)
    requires db.Valid()
    modifies db`slots
    ensures db.Valid()
    ensures r.Failure? <==> CancelIn(old(db.slots), offer, id).Failure?
    ensures r.Failure? ==> r.error == NotFound && db.slots == old(db.slots)
    ensures r.Success? ==> db.slots == CancelIn(old(db.slots), offer, id).value
  {
    r := CancelSlot(db, offer, id);
  }

  /** `list_slots`: every slot of the offer, whatever its status, ascending by start. */
  function ListSlots(slots: seq<Slot>, offer: OfferId): (r: seq<Slot>)
    ensures SortedBy(r, StartOf)
    ensures forall s :: multiset(r)[s] == if s.offerId == offer then multiset(slots)[s] else 0
  {
    SortBy(Filter(slots, (s: Slot) => s.offerId == offer), StartOf)
  }

  /** One condition of the `where` list `list_slots_by_range` builds. */
  datatype Cond = OfOffer(offer: OfferId) | IsOpen | StartsAtOrAfter(t: Time) | StartsBefore(t: Time)

  predicate Holds(c: Cond, s: Slot)
  {
    match c
    case OfOffer(offer) => s.offerId == offer
    case IsOpen => s.status == Open
    case StartsAtOrAfter(t) => s.start >= t
    case StartsBefore(t) => s.start < t
  }

  /** The conditions joined with `and`. */
  predicate AllHold(conds: seq<Cond>, s: Slot)
  {
    forall c :: c in conds ==> Holds(c, s)
  }

  /**
   * What the range listing selects: the offer's slots, only open ones when asked, starting
   * on or after 00:00 UTC of `from` and before 00:00 UTC of the day after `to`.
   */
  predicate InRange(s: Slot, offer: OfferId, from: Option<Day>, to: Option<Day>, onlyOpen: bool)
  {
    && s.offerId == offer
    && (onlyOpen ==> s.status == Open)
    && (from.Some? ==> s.start >= Midnight(from.value))
    && (to.Some? ==> s.start < Midnight(to.value + 1))
  }

  /** The bounds select by calendar day: a slot is in range exactly when the day it starts on is. */
  lemma InRangeByDay(s: Slot, offer: OfferId, from: Option<Day>, to: Option<Day>, onlyOpen: bool)
    ensures InRange(s, offer, from, to, onlyOpen) <==>
      && s.offerId == offer
      && (onlyOpen ==> s.status == Open)
      && (from.Some? ==> from.value <= DayOf(s.start))
      && (to.Some? ==> DayOf(s.start) <= to.value)
  {
  }

  /**
   * The `where` list of `list_slots_by_range`, built by appending: the offer condition
   * first, then one condition per option given. Their conjunction is `InRange`.
   */
  method RangeConditions(offer: OfferId, from: Option<Day>, to: Option<Day>, onlyOpen: bool)
    returns (conds: seq<Cond>)
    ensures |conds| == 1 + (if onlyOpen then 1 else 0) + (if from.Some? then 1 else 0) + (if to.Some? then 1 else 0)
    ensures conds[0] == OfOffer(offer)
    ensures forall s :: AllHold(conds, s) <==> InRange(s, offer, from, to, onlyOpen)
  {
    conds := [OfOffer(offer)];
    AllHoldSingle(OfOffer(offer));
    if onlyOpen {
      AllHoldAppend(conds, IsOpen);
      conds := conds + [IsOpen];
    }
    assert forall s :: AllHold(conds, s) <==> InRange(s, offer, None, None, onlyOpen);
    if from.Some? {
      AllHoldAppend(conds, StartsAtOrAfter(Midnight(from.value)));
      conds := conds + [StartsAtOrAfter(Midnight(from.value))];
    }
    assert forall s :: AllHold(conds, s) <==> InRange(s, offer, from, None, onlyOpen);
    if to.Some? {
      AllHoldAppend(conds, StartsBefore(Midnight(to.value + 1)));
      conds := conds + [StartsBefore(Midnight(to.value + 1))];
    }
  }

  lemma AllHoldSingle(c: Cond)
    ensures forall s :: AllHold([c], s) <==> Holds(c, s)
  {
  }

  /** Appending a condition conjoins it. */
  lemma AllHoldAppend(conds: seq<Cond>, c: Cond)
    ensures forall s :: AllHold(conds + [c], s) <==> AllHold(conds, s) && Holds(c, s)
  {
  }

  /** `list_slots_by_range`: the slots `InRange` selects, ascending by start. */
  method ListSlotsByRange(slots: seq<Slot>, offer: OfferId, from: Option<Day>, to: Option<Day>, onlyOpen: bool)
    returns (r: seq<Slot>)
    ensures SortedBy(r, StartOf)
    ensures forall s :: multiset(r)[s] == if InRange(s, offer, from, to, onlyOpen) then multiset(slots)[s] else 0
  {
    var conds := RangeConditions(offer, from, to, onlyOpen);
    r := SortBy(Filter(slots, (s: Slot) => AllHold(conds, s)), StartOf);
  }

  /** What `next_slots` offers: open, not full, and starting strictly after `now`. */
  predicate Upcoming(s: Slot, offer: OfferId, now: Time)
  {
    s.offerId == offer && s.status == Open && s.reserved < s.capacity && s.start > now
  }

  /** `Upcoming` as a row filter. */
  function UpcomingOf(offer: OfferId, now: Time): Slot -> bool
  {
    s => Upcoming(s, offer, now)
  }

  /**
   * `next_slots`: at most `limit` clamped to [1, 12] upcoming slots, ascending by start; fewer
   * only when there are no more, and no upcoming slot left out starts earlier than one returned.
   */
  function NextSlots(slots: seq<Slot>, offer: OfferId, limit: int, now: Time): (r: seq<Slot>)
    ensures |r| <= 12 && (1 <= limit <= 12 ==> |r| <= limit)
    ensures |r| == Clamp(limit, 1, 12) || |r| == |Filter(slots, UpcomingOf(offer, now))|
    ensures |r| <= Clamp(limit, 1, 12)
    ensures SortedBy(r, StartOf)
    ensures forall s :: s in r ==> Upcoming(s, offer, now)
    ensures multiset(r) <= multiset(Filter(slots, UpcomingOf(offer, now)))
    ensures forall s, t :: s in multiset(Filter(slots, UpcomingOf(offer, now))) - multiset(r) && t in r ==>
      t.start <= s.start
  {
    FirstBy(slots, UpcomingOf(offer, now), StartOf, Clamp(limit, 1, 12))
  }
}

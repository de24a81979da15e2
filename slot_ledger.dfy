/**
 * The slot ledger: a slot's capacity and reservation arithmetic, as the three atomic
 * updates of the slot table perform it (reserve on accept, release on engagement cancel,
 * soft cancel by the offer's routes).
 */
module SlotLedger {
  import opened Common

  datatype SlotStatus = Open | Full | Cancelled

  /** A row of `offer_slots`. */
  datatype Slot = Slot(
    id: SlotId,
    offerId: OfferId,
    start: Time,
    end: Time,
    capacity: int,
    reserved: int,
    status: SlotStatus,
    note: string)

  /** The ordering key of every slot listing (`order by start_at`). */
  function StartOf(s: Slot): Time
  {
    s.start
  }

  /**
   * The ledger invariant of one slot: at least one seat, never more reservations than
   * seats, and, unless cancelled, `full` exactly when every seat is taken.
   */
  predicate SlotOk(s: Slot)
  {
    && 1 <= s.capacity
    && 0 <= s.reserved <= s.capacity
    && (s.status != Cancelled ==> (s.status == Full <==> s.reserved == s.capacity))
  }

  /** Every row of the slot table keeps the ledger invariant and carries its position as id. */
  ghost predicate SlotsOk(slots: seq<Slot>)
  {
    forall i :: 0 <= i < |slots| ==> slots[i].id == i && SlotOk(slots[i])
  }

  /** The guard of the reserve update: the slot belongs to the offer, is not cancelled, has a free seat. */
  predicate CanReserve(s: Slot, offer: OfferId)
  {
    s.offerId == offer && s.status != Cancelled && s.reserved < s.capacity
  }

  /** The assignments of the reserve update; the status is computed from the old count. */
  function Reserve(s: Slot): Slot
  {
    s.(reserved := s.reserved + 1,
       status := if s.reserved + 1 >= s.capacity then Full else s.status)
  }

  /**
   * Reserve as one conditional update: applied exactly when the guard holds. Taking the last
   * seat flips the slot to `full`; any other reservation leaves the status alone.
   */
  function TryReserve(s: Slot, offer: OfferId): (r: Option<Slot>)
    ensures r.Some? <==> CanReserve(s, offer)
    ensures r.Some? ==> r.value == s.(reserved := s.reserved + 1, status := r.value.status)
    ensures r.Some? ==> r.value.reserved <= r.value.capacity
    ensures r.Some? && r.value.reserved == s.capacity ==> r.value.status == Full
    ensures r.Some? && r.value.reserved < s.capacity ==> r.value.status == s.status
    ensures r.Some? && SlotOk(s) ==> SlotOk(r.value)
  {
    if CanReserve(s, offer) then Some(Reserve(s)) else None
  }

  /**
   * The release update run when an engagement bound to the slot is cancelled: one seat
   * fewer, floored at zero; a `full` slot reopens; any other status, `cancelled` included,
   * stays as it was.
   */
  function Release(s: Slot): (r: Slot)
    ensures r == s.(reserved := Max(s.reserved - 1, 0), status := r.status)
    ensures s.status != Full ==> r.status == s.status
    ensures SlotOk(s) && s.status == Full ==> r.status == Open
    ensures SlotOk(s) ==> SlotOk(r)
  {
    s.(reserved := Max(s.reserved - 1, 0),
       status := if s.status == Full && s.reserved - 1 < s.capacity then Open else s.status)
  }

  /** The soft cancel: only the status changes; reservation counts are kept. */
  function Cancel(s: Slot): (r: Slot)
    ensures r.status == Cancelled
    ensures r.reserved == s.reserved && r.capacity == s.capacity && r.offerId == s.offerId
    ensures r.(status := s.status) == s
    ensures SlotOk(s) ==> SlotOk(r)
    ensures forall offer :: TryReserve(r, offer).None?
  {
    s.(status := Cancelled)
  }

  /** Cancelling twice is cancelling once, so a repeated cancel succeeds with no further effect. */
  lemma CancelIdempotent(s: Slot)
    ensures Cancel(Cancel(s)) == Cancel(s)
  {
  }

  /** Releasing right after a successful reserve restores the slot exactly. */
  lemma ReleaseUndoesReserve(s: Slot, offer: OfferId)
    requires SlotOk(s) && CanReserve(s, offer)
    ensures Release(Reserve(s)) == s
  {
  }

  /**
   * Releasing twice for one booking (an engagement cancelled twice) takes two seats off:
   * with two bookings held, one of them is no longer counted.
   */
  lemma DoubleReleaseLosesABooking(s: Slot, offer: OfferId)
    requires SlotOk(s) && s.reserved == 0 && 2 <= s.capacity && CanReserve(s, offer)
    ensures CanReserve(Reserve(s), offer)
    ensures Release(Release(Reserve(Reserve(s)))).reserved == 0
  {
  }

  /**
   * `n` reserve attempts in a row against one slot (each its own conditional update):
   * the resulting slot and how many attempts were applied.
   */
  function ReserveAttempts(s: Slot, offer: OfferId, n: nat): (Slot, nat)
    decreases n
  {
    if n == 0 then (s, 0)
    else
      match TryReserve(s, offer)
      case None => ReserveAttempts(s, offer, n - 1)
      case Some(t) =>
        var (u, k) := ReserveAttempts(t, offer, n - 1);
        (u, k + 1)
  }

  /**
   * No sequence of reservations overbooks: of `n` attempts against a live slot exactly
   * `min(n, capacity - reserved)` succeed, `reserved` ends at most `capacity`, and the slot
   * is `full` exactly when the last seat went.
   */
  lemma {:induction false} AtMostCapacityReservations(s: Slot, offer: OfferId, n: nat)
    requires SlotOk(s) && s.offerId == offer && s.status != Cancelled
    ensures var (t, k) := ReserveAttempts(s, offer, n);
      && k == (if n < s.capacity - s.reserved then n else s.capacity - s.reserved)
      && t.reserved == s.reserved + k
      && SlotOk(t)
      && (t.status == Full <==> t.reserved == t.capacity)
    decreases n
  {
    if n > 0 {
      match TryReserve(s, offer)
      case None =>
        AtMostCapacityReservations(s, offer, n - 1);
      case Some(t) =>
        AtMostCapacityReservations(t, offer, n - 1);
    }
  }

  /** Updating one row with a slot that keeps the invariant keeps the table's invariant. */
  lemma SlotsOkUpdate(slots: seq<Slot>, i: nat, s: Slot)
    requires SlotsOk(slots) && i < |slots| && s.id == i && SlotOk(s)
    ensures SlotsOk(slots[i := s])
  {
  }
}

/**
 * `POST /psm/requests` and `PATCH /psm/requests/{id}`: a requester asks for an offer,
 * possibly spending a sponsored unit; the owner accepts or declines, the requester
 * withdraws. Accepting composes a slot reservation, a best-effort gift consumption, the
 * status change and the creation of one engagement, all committed together.
 *
 * As written, no transition looks at the request's current status: a request already
 * accepted, declined or withdrawn can be accepted again, and each such accept books
 * another seat and creates another engagement.
 */
module PsmRequests {
  import opened Common
  import opened Text
  import opened Records
  import opened Store
  import SlotLedger
  import GiftLedger

  /** The body of `POST /psm/requests`; a missing `offer_id` is None, a missing message "". */
  datatype NewRequest = NewRequest(
    offerId: Option<OfferId>,
    message: string,
    preferredTimes: seq<Window>,
    useGift: bool)

  /** The body of `PATCH /psm/requests/{id}`; a missing reason is "". */
  datatype RequestAction = RequestAction(
    action: string,
    slotId: Option<SlotId>,
    useGift: bool,
    reason: string)

  /** What a successful `update_request` answers. */
  datatype RequestReply =
    | AcceptReply(engagementId: EngagementId, scheduledAt: Option<Time>)
    | DoneReply

  const RequestActions: set<string> := {"accept", "decline", "withdraw"}

  /**
   * `create_request`: 422 without an offer or a message; with `use_gift`, one unit of the
   * oldest eligible pool is taken first and its absence is a 409 with no request inserted;
   * otherwise one pending request is appended.
   */
  method CreateRequest(db: Db, user: UserId, p: NewRequest, now: Time) returns (r: Result<RequestId>)
    requires db.Valid()
    modifies db`gifts, db`requests
    ensures db.Valid()
    ensures p.offerId.None? || p.message == "" ==> r == Failure(Unprocessable)
    ensures r.Success? <==>
      p.offerId.Some? && p.message != ""
      && !(p.useGift && GiftLedger.Available(old(db.gifts), p.offerId.value, now) == 0)
    ensures r.Failure? ==> db.gifts == old(db.gifts) && db.requests == old(db.requests)
    ensures r == Failure(Conflict) <==>
      p.offerId.Some? && p.message != "" && p.useGift
      && GiftLedger.Available(old(db.gifts), p.offerId.value, now) == 0
    ensures r.Success? ==>
      && p.offerId.Some? && p.message != ""
      && r.value == |old(db.requests)|
      && db.requests == old(db.requests)
           + [Request(r.value, p.offerId.value, user, p.message, p.preferredTimes, Pending, None)]
      && db.gifts == (if p.useGift then GiftLedger.ConsumeOnRequest(old(db.gifts), p.offerId.value, now).0
                      else old(db.gifts))
    ensures p.useGift && r.Success? ==>
      GiftLedger.Available(db.gifts, p.offerId.value, now)
        == GiftLedger.Available(old(db.gifts), p.offerId.value, now) - 1
  {
    if p.offerId.None? || p.message == "" {
      return Failure(Unprocessable);
    }
    var offer := p.offerId.value;
    if p.useGift {
      GiftLedger.ConsumeOnRequestMatchesAvailable(db.gifts, offer, now);
      var (after, picked) := GiftLedger.ConsumeOnRequest(db.gifts, offer, now);
      if picked.None? {
        return Failure(Conflict);
      }
      db.gifts := after;
    }
    var id := |db.requests|;
    db.requests := db.requests + [Request(id, offer, user, p.message, p.preferredTimes, Pending, None)];
    r := Success(id);
  }

  /** The request exists and so does its offer (the handler's join). */
  predicate Found(requests: seq<Request>, offers: seq<Offer>, id: RequestId)
  {
    id < |requests| && requests[id].offerId < |offers|
  }

  /**
   * The caller may take the action: the offer's owner accepts and declines, the requester
   * withdraws.
   */
  predicate MayAct(action: string, owner: UserId, requester: UserId, user: UserId)
  {
    if action == "withdraw" then user == requester else user == owner
  }

  /** The slot an accept books, or None when it names no slot. */
  function Booked(slots: seq<SlotLedger.Slot>, slotId: Option<SlotId>): Option<SlotLedger.Slot>
  {
    if slotId.Some? && slotId.value < |slots| then Some(slots[slotId.value]) else None
  }

  /** The engagement a successful accept creates. */
  function NewEngagement(id: EngagementId, rq: Request, owner: UserId, user: UserId,
                         slotId: Option<SlotId>, scheduledAt: Option<Time>, now: Time): (e: Engagement)
    ensures e.state == (if scheduledAt.Some? then Scheduled else EngagementState.Accepted)
    ensures e.audit == [AuditEntry(now, user, AcceptAction(slotId))]
    ensures e.requestId == rq.id && e.practitioner == owner && e.requester == rq.requester
    ensures e.id == id && e.scheduledAt == scheduledAt && e.slotId == slotId
    ensures e.completedAt.None? && e.cancellationReason.None?
  {
    Engagement(id, rq.id, owner, rq.requester,
               if scheduledAt.Some? then Scheduled else EngagementState.Accepted,
               scheduledAt, slotId, None, None, [AuditEntry(now, user, AcceptAction(slotId))])
  }

  /**
   * `update_request`. An unknown action is a 422 before anything is read, an unknown
   * request a 404, a caller without the right role a 403. Accept with a slot that cannot be
   * reserved is a 409; every error leaves the database as it was. A successful accept books
   * the slot (if named), takes a gift unit if one is eligible (never failing for lack of
   * one), marks the request accepted and appends exactly one engagement, `scheduled` at
   * the slot's start when a slot was booked and `accepted` otherwise. Decline and withdraw
   * change only the request.
   */
  method UpdateRequest(db: Db, id: RequestId, user: UserId, p: RequestAction, now: Time)
    returns (r: Result<RequestReply>)
    requires db.Valid()
    modifies db
    ensures db.Valid()
    ensures r.Failure? ==> unchanged(db)
    ensures db.offers == old(db.offers) && db.reviews == old(db.reviews) && db.ratings == old(db.ratings)
    ensures Lower(p.action) !in RequestActions ==> r == Failure(Unprocessable)
    ensures Lower(p.action) in RequestActions && !Found(old(db.requests), old(db.offers), id) ==>
      r == Failure(NotFound)
    ensures Lower(p.action) in RequestActions && Found(old(db.requests), old(db.offers), id) ==>
      var rq := old(db.requests)[id];
      var owner := old(db.offers)[rq.offerId].owner;
      && (!MayAct(Lower(p.action), owner, rq.requester, user) ==> r == Failure(Forbidden))
      && (MayAct(Lower(p.action), owner, rq.requester, user) && Lower(p.action) == "accept" ==>
            var booked := Booked(old(db.slots), p.slotId);
            if p.slotId.Some? && !(booked.Some? && SlotLedger.CanReserve(booked.value, rq.offerId)) then
              r == Failure(Conflict)
            else
              var scheduledAt := if p.slotId.Some? then Some(booked.value.start) else None;
              && r == Success(AcceptReply(|old(db.engagements)|, scheduledAt))
              && db.slots == (if p.slotId.Some?
                              then old(db.slots)[p.slotId.value := SlotLedger.TryReserve(booked.value, rq.offerId).value]
                              else old(db.slots))
              && db.gifts == (if p.useGift then GiftLedger.ConsumeOnAccept(old(db.gifts), rq.offerId, now).0
                              else old(db.gifts))
              && db.requests == old(db.requests)[id := rq.(status := RequestStatus.Accepted)]
              && db.engagements == old(db.engagements)
                   + [NewEngagement(|old(db.engagements)|, rq, owner, user, p.slotId, scheduledAt, now)])
      && (MayAct(Lower(p.action), owner, rq.requester, user) && Lower(p.action) == "decline" ==>
            && r == Success(DoneReply)
            && db.requests == old(db.requests)[id := rq.(status := Declined, declineReason := Some(p.reason))]
            && db.slots == old(db.slots) && db.gifts == old(db.gifts)
            && db.engagements == old(db.engagements))
      && (MayAct(Lower(p.action), owner, rq.requester, user) && Lower(p.action) == "withdraw" ==>
            && r == Success(DoneReply)
            && db.requests == old(db.requests)[id := rq.(status := Withdrawn)]
            && db.slots == old(db.slots) && db.gifts == old(db.gifts)
            && db.engagements == old(db.engagements))
  {
    var action := Lower(p.action);
    if action !in RequestActions {
      return Failure(Unprocessable);
    }
    if !Found(db.requests, db.offers, id) {
      return Failure(NotFound);
    }
    var rq := db.requests[id];
    var owner := db.offers[rq.offerId].owner;
    if (action == "accept" || action == "decline") && user != owner {
      return Failure(Forbidden);
    }
    if action == "withdraw" && user != rq.requester {
      return Failure(Forbidden);
    }

    if action == "accept" {
      var scheduledAt: Option<Time> := None;
      if p.slotId.Some? {
        var sid := p.slotId.value;
        var took := if sid < |db.slots| then SlotLedger.TryReserve(db.slots[sid], rq.offerId) else None;
        if took.None? {
          return Failure(Conflict);
        }
        scheduledAt := Some(db.slots[sid].start);
        SlotLedger.SlotsOkUpdate(db.slots, sid, took.value);
        db.slots := db.slots[sid := took.value];
      }
      if p.useGift {
        GiftLedger.ConsumeOnAcceptTakesOne(db.gifts, rq.offerId, now);
        var (after, _) := GiftLedger.ConsumeOnAccept(db.gifts, rq.offerId, now);
        db.gifts := after;
      }
      db.requests := db.requests[id := rq.(status := RequestStatus.Accepted)];
      var eid := |db.engagements|;
      db.engagements := db.engagements + [NewEngagement(eid, rq, owner, user, p.slotId, scheduledAt, now)];
      return Success(AcceptReply(eid, scheduledAt));
    }

    if action == "decline" {
      db.requests := db.requests[id := rq.(status := Declined, declineReason := Some(p.reason))];
      return Success(DoneReply);
    }

    db.requests := db.requests[id := rq.(status := Withdrawn)];
    r := Success(DoneReply);
  }
}

/** The rows of the offer, request, engagement, review and rating tables. */
module Records {
  import opened Common

  /** A row of `offers` (read through the `offer_public` view). */
  datatype Offer = Offer(
    id: OfferId,
    owner: UserId,
    kind: string,          // the `type` column
    title: string,
    description: string,
    tags: seq<string>,
    feeType: string,
    region: string,
    languages: seq<string>,
    createdAt: Time)

  /** One preferred time window of a request. */
  datatype Window = Window(start: Time, end: Time)

  datatype RequestStatus = Pending | Accepted | Declined | Withdrawn

  /** A row of `offer_requests`. */
  datatype Request = Request(
    id: RequestId,
    offerId: OfferId,
    requester: UserId,
    message: string,
    preferredTimes: seq<Window>,
    status: RequestStatus,
    declineReason: Option<string>)

  datatype EngagementState = Accepted | Scheduled | Completed | Cancelled

  /** What an audit entry records besides its time and actor. */
  datatype AuditAction =
    | AcceptAction(slotId: Option<SlotId>)
    | ScheduleAction(scheduledAt: Time)
    | CompleteAction
    | CancelAction(reason: string)

  /** One element of an engagement's `audit` list. */
  datatype AuditEntry = AuditEntry(at: Time, actor: UserId, action: AuditAction)

  /** A row of `engagements`. */
  datatype Engagement = Engagement(
    id: EngagementId,
    requestId: RequestId,
    practitioner: UserId,
    requester: UserId,
    state: EngagementState,
    scheduledAt: Option<Time>,
    slotId: Option<SlotId>,
    completedAt: Option<Time>,
    cancellationReason: Option<string>,
    audit: seq<AuditEntry>)

  /** The two parties of an engagement. */
  predicate IsParty(e: Engagement, user: UserId)
  {
    user == e.practitioner || user == e.requester
  }

  /**
   * The invariant of the engagement table: ids are positions, every engagement's request
   * exists, its slot (if any) exists, and its audit starts with the accept that created it.
   */
  ghost predicate EngagementsOk(engagements: seq<Engagement>, requestCount: nat, slotCount: nat)
  {
    forall i :: 0 <= i < |engagements| ==>
      && engagements[i].id == i
      && engagements[i].requestId < requestCount
      && (engagements[i].slotId.Some? ==> engagements[i].slotId.value < slotCount)
      && |engagements[i].audit| >= 1
      && engagements[i].audit[0].action.AcceptAction?
  }

  /** A row of `offer_reviews`. */
  datatype Review = Review(
    id: ReviewId,
    offerId: OfferId,
    engagementId: EngagementId,
    reviewer: UserId,
    stars: int,
    comment: string,
    createdAt: Time)

  /** The two unique constraints of `offer_reviews`: one per engagement, one per (offer, reviewer). */
  ghost predicate ReviewsUnique(reviews: seq<Review>)
  {
    forall i, j :: 0 <= i < j < |reviews| ==>
      && reviews[i].engagementId != reviews[j].engagementId
      && (reviews[i].offerId, reviews[i].reviewer) != (reviews[j].offerId, reviews[j].reviewer)
  }

  /** The key of the `ratings` table. */
  datatype RatingKey = RatingKey(entity: string, entityId: string, rater: UserId)
}

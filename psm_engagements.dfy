/**
 * `GET` and `PATCH /psm/engagements/{id}`: the parties read an engagement; the practitioner
 * schedules and completes it, either party cancels it. Every transition overwrites the
 * state in place and appends one entry to the audit list; a cancel also releases the seat
 * of the slot the engagement is bound to.
 *
 * As written, no transition looks at the current state: a completed engagement can be
 * cancelled, and a cancelled one cancelled again, which releases its slot a second time.
 */
module PsmEngagements {
  import opened Common
  import opened Text
  import opened Records
  import opened Store
  import SlotLedger

  /** The body of `PATCH /psm/engagements/{id}`; a missing or empty `scheduled_at` is None, a missing reason "". */
  datatype EngagementAction = EngagementAction(action: string, scheduledAt: Option<Time>, reason: string)

  /** A validated transition. */
  datatype Step = Schedule(at: Time) | Complete | Cancel(reason: string)

  const EngagementActions: set<string> := {"schedule", "complete", "cancel"}

  /**
   * `get_engagement`: 404 for an unknown id, 403 for anyone but the two parties, otherwise
   * the engagement.
   */
  function GetEngagement(engagements: seq<Engagement>, id: EngagementId, user: UserId): (r: Result<Engagement>)
    ensures id >= |engagements| <==> r == Failure(NotFound)
    ensures id < |engagements| && !IsParty(engagements[id], user) <==> r == Failure(Forbidden)
    ensures r.Success? <==> id < |engagements| && IsParty(engagements[id], user)
    ensures r.Success? ==> r.value == engagements[id]
  {
    if id >= |engagements| then Failure(NotFound)
    else if !IsParty(engagements[id], user) then Failure(Forbidden)
    else Success(engagements[id])
  }

  /** The role check: only the practitioner schedules and completes; either party cancels. */
  predicate MayTake(e: Engagement, action: string, user: UserId)
  {
    if action == "cancel" then IsParty(e, user) else user == e.practitioner
  }

  /** The audit entry a transition appends. */
  function AuditOf(step: Step, user: UserId, now: Time): AuditEntry
  {
    AuditEntry(now, user,
      match step
      case Schedule(at) => ScheduleAction(at)
      case Complete => CompleteAction
      case Cancel(reason) => CancelAction(reason))
  }

  /**
   * The engagement update of one transition. Whatever the current state, the audit keeps
   * every entry it had and gains exactly one at the end; schedule sets the time, complete
   * stamps the completion, cancel records the reason; nothing else changes.
   */
  function Apply(e: Engagement, step: Step, user: UserId, now: Time): (r: Engagement)
    ensures r.audit == e.audit + [AuditOf(step, user, now)]
    ensures |r.audit| == |e.audit| + 1 && r.audit[..|e.audit|] == e.audit
    ensures r.id == e.id && r.requestId == e.requestId && r.slotId == e.slotId
    ensures r.practitioner == e.practitioner && r.requester == e.requester
    ensures step.Schedule? ==>
      r.state == Scheduled && r.scheduledAt == Some(step.at)
      && r.completedAt == e.completedAt && r.cancellationReason == e.cancellationReason
    ensures step.Complete? ==>
      r.state == Completed && r.completedAt == Some(now)
      && r.scheduledAt == e.scheduledAt && r.cancellationReason == e.cancellationReason
    ensures step.Cancel? ==>
      r.state == EngagementState.Cancelled && r.cancellationReason == Some(step.reason)
      && r.scheduledAt == e.scheduledAt && r.completedAt == e.completedAt
  {
    var audit := e.audit + [AuditOf(step, user, now)];
    match step
    case Schedule(at) => e.(state := Scheduled, scheduledAt := Some(at), audit := audit)
    case Complete => e.(state := Completed, completedAt := Some(now), audit := audit)
    case Cancel(reason) => e.(state := EngagementState.Cancelled, cancellationReason := Some(reason), audit := audit)
  }

  /** A run of transitions applied to one engagement, the later ones on the result of the earlier. */
  function ApplyAll(e: Engagement, steps: seq<(Step, UserId, Time)>): Engagement
    decreases |steps|
  {
    if steps == [] then e
    else ApplyAll(Apply(e, steps[0].0, steps[0].1, steps[0].2), steps[1..])
  }

  /**
   * The audit is append-only: after any run of transitions the old audit is a prefix of the
   * new one, which holds exactly one more entry per transition, in order.
   */
  lemma {:induction false} AuditAppendOnly(e: Engagement, steps: seq<(Step, UserId, Time)>)
    ensures var r := ApplyAll(e, steps);
      && |r.audit| == |e.audit| + |steps|
      && r.audit[..|e.audit|] == e.audit
      && forall i :: 0 <= i < |steps| ==> r.audit[|e.audit| + i] == AuditOf(steps[i].0, steps[i].1, steps[i].2)
    decreases |steps|
  {
    if steps != [] {
      var e1 := Apply(e, steps[0].0, steps[0].1, steps[0].2);
      AuditAppendOnly(e1, steps[1..]);
      var r := ApplyAll(e1, steps[1..]);
      assert r.audit[..|e1.audit|] == e1.audit;
      assert r.audit[..|e.audit|] == e1.audit[..|e.audit|];
      forall i | 0 <= i < |steps|
        ensures r.audit[|e.audit| + i] == AuditOf(steps[i].0, steps[i].1, steps[i].2)
      {
        if i > 0 {
          assert steps[1..][i - 1] == steps[i];
        }
      }
    }
  }

  /**
   * `update_engagement`. An unknown action is a 422 before anything is read, an unknown id
   * a 404, a caller without the role a 403, a schedule without a time a 422; each leaves the
   * database as it was. Otherwise the engagement is replaced by `Apply` of the transition,
   * and a cancel of an engagement bound to a slot applies the release update to that slot
   * (whatever the engagement's state was); no other slot, and no other table, changes.
   */
  method UpdateEngagement(db: Db, id: EngagementId, user: UserId, p: EngagementAction, now: Time)
    returns (r: Result<()>)
    requires db.Valid()
    modifies db`engagements, db`slots
    ensures db.Valid()
    ensures r.Failure? ==> db.engagements == old(db.engagements) && db.slots == old(db.slots)
    ensures Lower(p.action) !in EngagementActions ==> r == Failure(Unprocessable)
    ensures Lower(p.action) in EngagementActions && id >= |old(db.engagements)| ==> r == Failure(NotFound)
    ensures Lower(p.action) in EngagementActions && id < |old(db.engagements)| ==>
      var e := old(db.engagements)[id];
      var action := Lower(p.action);
      if !MayTake(e, action, user) then r == Failure(Forbidden)
      else if action == "schedule" && p.scheduledAt.None? then r == Failure(Unprocessable)
      else
        var step := if action == "schedule" then Schedule(p.scheduledAt.value)
                    else if action == "complete" then Complete
                    else Cancel(p.reason);
        && r == Success(())
        && db.engagements == old(db.engagements)[id := Apply(e, step, user, now)]
        && db.slots == (if step.Cancel? && e.slotId.Some?
                        then old(db.slots)[e.slotId.value := SlotLedger.Release(old(db.slots)[e.slotId.value])]
                        else old(db.slots))
  {
    var action := Lower(p.action);
    if action !in EngagementActions {
      return Failure(Unprocessable);
    }
    if id >= |db.engagements| {
      return Failure(NotFound);
    }
    var e := db.engagements[id];
    if (action == "schedule" || action == "complete") && user != e.practitioner {
      return Failure(Forbidden);
    }
    if action == "cancel" && user != e.practitioner && user != e.requester {
      return Failure(Forbidden);
    }

    var step: Step;
    if action == "schedule" {
      if p.scheduledAt.None? {
        return Failure(Unprocessable);
      }
      step := Schedule(p.scheduledAt.value);
    } else if action == "complete" {
      step := Complete;
    } else {
      step := Cancel(p.reason);
    }

    db.engagements := db.engagements[id := Apply(e, step, user, now)];
    if step.Cancel? && e.slotId.Some? {
      var sid := e.slotId.value;
      SlotLedger.SlotsOkUpdate(db.slots, sid, SlotLedger.Release(db.slots[sid]));
      db.slots := db.slots[sid := SlotLedger.Release(db.slots[sid])];
    }
    r := Success(());
  }
}

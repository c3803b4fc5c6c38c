/** Delivery of review events to the review controller: any events, repeated, in any order. */
module AccessDelivery {
  import opened Options
  import opened AccessModel
  import opened AccessSystem
  import opened AccessSafety

  /** What the stored reviews say about the current step. */
  datatype Verdict = Refused | Cleared | Waiting

  function CurrentVerdict(req: Request, reviews: map<Uid, Review>, dir: Directory): Verdict
    requires HasCurrentStep(req)
  {
    var i := req.CurrentStep();
    if StepRejected(req, reviews, dir, req.Steps()[i], i) then Refused
    else if StepApproved(req, reviews, dir, req.Steps()[i], i) then Cleared
    else Waiting
  }

  /** The event makes the controller look at the step. */
  predicate Counts(req: Request, reviews: map<Uid, Review>, dir: Directory, id: Uid, seen: Decision, force: bool, now: Time) {
    && seen != DecisionUnset && id in reviews && reviews[id].decision != DecisionUnset
    && reviews[id].request == req.uid && req.Status() == Pending
    && Relevant(req, reviews, dir, id, force, now)
  }

  /** The request's place in the workflow: its status and its step. */
  function Place(req: Request): (Status, int) {
    (req.Status(), req.CurrentStep())
  }

  function PlaceAfter(req: Request, v: Verdict): (Status, int) {
    var i := req.CurrentStep();
    match v
    case Refused => (Rejected, i)
    case Cleared => if i + 1 >= |req.Steps()| then (Approved, i) else (Pending, i + 1)
    case Waiting => (Pending, i)
  }

  /** An eligible rejection refuses the step by itself. */
  lemma RejectionRefuses(req: Request, reviews: map<Uid, Review>, dir: Directory, id: Uid, step: Step, i: int)
    requires id in reviews && reviews[id] == Review(req.uid, reviews[id].user, i, REJECT)
    requires Eligible(dir, step, req, reviews[id].user)
    ensures StepRejected(req, reviews, dir, step, i)
  {
    hide Eligible;
    var u := reviews[id].user;
    assert u in Voters(req.uid, reviews, i, REJECT);
    assert IsUserEligible(dir, u) by {
      EligibleIsKnown(dir, step, req, u);
    }
    assert u in Voters(req.uid, reviews, i, REJECT) * EligibleReviewers(dir, step, req);
  }

  lemma EligibleIsKnown(dir: Directory, step: Step, req: Request, u: Uid)
    requires Eligible(dir, step, req, u)
    ensures IsUserEligible(dir, u)
  {
  }

  /** Whichever review is delivered, an event that counts moves the request exactly where the
      stored reviews of the step put it; any other event changes nothing. */
  lemma DeliverOutcome(req: Request, reviews: map<Uid, Review>, dir: Directory,
                       id: Uid, seen: Decision, force: bool, now: Time)
    requires ReqInv(req)
    ensures var r := ReconcileReview(req, reviews, dir, id, seen, force, now);
            if Counts(req, reviews, dir, id, seen, force, now)
            then HasCurrentStep(req) && r.Ok?
                 && Place(r.value) == PlaceAfter(req, CurrentVerdict(req, reviews, dir))
            else r.Ok? ==> r.value == req
  {
    if Counts(req, reviews, dir, id, seen, force, now) {
      var i := req.CurrentStep();
      var step := req.Steps()[i];
      assert ValidStep(step);
      if reviews[id].decision == REJECT {
        RejectionRefuses(req, reviews, dir, id, step, i);
      }
      hide StepApproved;
      hide StepRejected;
      hide Eligible;
    }
  }

  /** The request the store holds after an event: an error leaves the stored one. */
  function After(req: Request, reviews: map<Uid, Review>, dir: Directory,
                 id: Uid, seen: Decision, force: bool, now: Time): Request {
    var r := ReconcileReview(req, reviews, dir, id, seen, force, now);
    if r.Ok? then r.value else req
  }

  /** An event that counted is noted in the request, unless the request has moved on. */
  lemma DeliveryIsNoted(req: Request, reviews: map<Uid, Review>, dir: Directory,
                        id: Uid, seen: Decision, force: bool, now: Time)
    requires ReqInv(req) && Counts(req, reviews, dir, id, seen, force, now)
    ensures var r := After(req, reviews, dir, id, seen, force, now);
            && r.progress.Some?
            && (Place(r) == Place(req) ==> r == req.(progress := Some(Record(ProgressOf(req, now), id, reviews[id]))))
  {
    DeliverOutcome(req, reviews, dir, id, seen, force, now);
    hide StepApproved;
    hide StepRejected;
    hide Eligible;
    hide ReqInv;
    hide ValidSteps;
  }

  lemma RecordTwice(p: Progress, id: Uid, rev: Review)
    ensures var q := Record(p, id, rev);
            && FindApplied(q.lastSteps, id).Some?
            && Record(q, id, rev) == q
            && q.currentStep == p.currentStep && q.startedAt == p.startedAt
  {
    var q := Record(p, id, rev);
    var f := FindApplied(p.lastSteps, id);
    if f.Some? {
      assert q.lastSteps[f.value].review == id;
      var g := FindApplied(q.lastSteps, id);
      assert p.lastSteps[g.value].review == id;
      assert q.lastSteps[g.value := q.lastSteps[g.value]] == q.lastSteps;
    } else {
      var n := |p.lastSteps|;
      assert q.lastSteps[n].review == id;
      var g := FindApplied(q.lastSteps, id);
      assert g.value == n;
      assert q.lastSteps[n := q.lastSteps[n]] == q.lastSteps;
    }
  }

  /** At-least-once delivery is safe: repeating an event changes nothing. */
  lemma RedeliveryIsHarmless(req: Request, reviews: map<Uid, Review>, dir: Directory,
                             id: Uid, seen: Decision, force: bool, now: Time, later: Time)
    requires ReqInv(req)
    ensures var once := After(req, reviews, dir, id, seen, force, now);
            After(once, reviews, dir, id, seen, force, later) == once
  {
    var once := After(req, reviews, dir, id, seen, force, now);
    DeliverKeeps(req, reviews, dir, id, seen, force, now);
    DeliverOutcome(req, reviews, dir, id, seen, force, now);
    DeliverOutcome(once, reviews, dir, id, seen, force, later);
    if Counts(req, reviews, dir, id, seen, force, now) && Place(once) == Place(req) {
      DeliveryIsNoted(req, reviews, dir, id, seen, force, now);
      RecordTwice(ProgressOf(req, now), id, reviews[id]);
      if Counts(once, reviews, dir, id, seen, force, later) {
        SameVerdict(req, once, reviews, dir);
        DeliveryIsNoted(once, reviews, dir, id, seen, force, later);
      }
    }
    hide ReconcileReview;
    hide ReqInv;
    hide Eligible;
    hide CurrentVerdict;
  }

  /** Notes about reviews have no say in the verdict. */
  lemma SameVerdict(req: Request, req': Request, reviews: map<Uid, Review>, dir: Directory)
    requires HasCurrentStep(req) && HasCurrentStep(req') && Place(req) == Place(req')
    requires req'.uid == req.uid && req'.requester == req.requester && req'.subject == req.subject && req'.rule == req.rule
    ensures CurrentVerdict(req', reviews, dir) == CurrentVerdict(req, reviews, dir)
  {
    hide StepRejected;
    hide StepApproved;
    SameQuorum(req, req', reviews, dir, req.Steps()[req.CurrentStep()], req.CurrentStep());
  }

  lemma SameQuorum(req: Request, req': Request, reviews: map<Uid, Review>, dir: Directory, step: Step, i: int)
    requires req'.uid == req.uid && req'.requester == req.requester && req'.subject == req.subject
    ensures StepRejected(req', reviews, dir, step, i) == StepRejected(req, reviews, dir, step, i)
    ensures StepApproved(req', reviews, dir, step, i) == StepApproved(req, reviews, dir, step, i)
  {
    hide EligibleReviewers;
    hide Voters;
    SameReviewers(dir, step, req, req');
  }

  lemma SameReviewers(dir: Directory, step: Step, req: Request, req': Request)
    requires req'.requester == req.requester && req'.subject == req.subject
    ensures EligibleReviewers(dir, step, req') == EligibleReviewers(dir, step, req)
  {
    forall u
      ensures Eligible(dir, step, req', u) <==> Eligible(dir, step, req, u)
    {
    }
    hide Eligible;
  }

  /** No review runs ahead of the request. */
  predicate NoneAhead(req: Request, reviews: map<Uid, Review>) {
    forall id :: id in reviews && reviews[id].request == req.uid ==> reviews[id].stepIndex <= req.CurrentStep()
  }

  // ---------- lists of events ----------

  /** What a watch delivers: a review, the decision it carried, and whether that had changed. */
  datatype Event = Event(review: Uid, seen: Decision, force: bool)

  /** The request after a list of events, handled at the given times. */
  function AfterAll(req: Request, reviews: map<Uid, Review>, dir: Directory,
                    events: seq<Event>, times: seq<Time>): Request
    requires |times| == |events|
    decreases |events|
  {
    if events == [] then req
    else AfterAll(After(req, reviews, dir, events[0].review, events[0].seen, events[0].force, times[0]),
                  reviews, dir, events[1..], times[1..])
  }

  /** Whether an event counts does not depend on when it is handled. */
  predicate EventCounts(req: Request, reviews: map<Uid, Review>, dir: Directory, e: Event) {
    Counts(req, reviews, dir, e.review, e.seen, e.force, 0)
  }

  lemma CountsAtAnyTime(req: Request, reviews: map<Uid, Review>, dir: Directory, e: Event, now: Time)
    ensures EventCounts(req, reviews, dir, e) <==> Counts(req, reviews, dir, e.review, e.seen, e.force, now)
  {
    hide Eligible;
  }

  ghost predicate AnyCounts(req: Request, reviews: map<Uid, Review>, dir: Directory, events: seq<Event>) {
    exists e :: e in events && EventCounts(req, reviews, dir, e)
  }

  /** One event: the request stays sound, no review gets ahead of it, and it stays as it was or goes
      where the verdict puts it. Once it has moved, nothing stored counts any more. */
  lemma OneEvent(req: Request, reviews: map<Uid, Review>, dir: Directory, e: Event, now: Time)
    requires ReqInv(req) && NoneAhead(req, reviews)
    ensures var r := After(req, reviews, dir, e.review, e.seen, e.force, now);
            && ReqInv(r) && NoneAhead(r, reviews)
            && (!EventCounts(req, reviews, dir, e) ==> r == req)
            && (EventCounts(req, reviews, dir, e) ==>
                  HasCurrentStep(req) && Place(r) == PlaceAfter(req, CurrentVerdict(req, reviews, dir)))
            && (Place(r) != Place(req) ==> forall f :: !EventCounts(r, reviews, dir, f))
            && (Place(r) == Place(req) && HasCurrentStep(req) ==>
                  HasCurrentStep(r) && CurrentVerdict(r, reviews, dir) == CurrentVerdict(req, reviews, dir)
                  && |r.Steps()| == |req.Steps()|)
  {
    var r := After(req, reviews, dir, e.review, e.seen, e.force, now);
    CountsAtAnyTime(req, reviews, dir, e, now);
    DeliverKeeps(req, reviews, dir, e.review, e.seen, e.force, now);
    DeliverOutcome(req, reviews, dir, e.review, e.seen, e.force, now);
    hide ReconcileReview;
    hide ReqInv;
    hide Eligible;
    if Place(r) == Place(req) && HasCurrentStep(req) {
      SameVerdict(req, r, reviews, dir);
    }
    hide CurrentVerdict;
  }

  /** Any list of events, in any order and with any repetitions: if one of them counts, the request ends
      where the stored reviews of its step put it, otherwise it stays as it was. */
  lemma {:induction false} AllEvents(req: Request, reviews: map<Uid, Review>, dir: Directory,
                                     events: seq<Event>, times: seq<Time>)
    requires ReqInv(req) && NoneAhead(req, reviews) && |times| == |events|
    ensures var r := AfterAll(req, reviews, dir, events, times);
            if AnyCounts(req, reviews, dir, events)
            then HasCurrentStep(req) && Place(r) == PlaceAfter(req, CurrentVerdict(req, reviews, dir))
            else r == req
    decreases |events|
  {
    hide After;
    hide ReqInv;
    hide NoneAhead;
    hide EventCounts;
    hide CurrentVerdict;
    hide HasCurrentStep;
    if events != [] {
      var e, rest := events[0], events[1..];
      var m := After(req, reviews, dir, e.review, e.seen, e.force, times[0]);
      OneEvent(req, reviews, dir, e, times[0]);
      AllEvents(m, reviews, dir, rest, times[1..]);
      assert forall f :: f in events <==> f == e || f in rest;
      if EventCounts(req, reviews, dir, e) {
        assert e in events;
      }
    }
  }

  /** Only which events arrive matters: two lists with the same events leave the request in the same
      place, whatever their order, repetitions and times. */
  lemma DeliveryOrderIrrelevant(req: Request, reviews: map<Uid, Review>, dir: Directory,
                                events: seq<Event>, times: seq<Time>, others: seq<Event>, otherTimes: seq<Time>)
    requires ReqInv(req) && NoneAhead(req, reviews) && |times| == |events| && |otherTimes| == |others|
    requires forall e :: e in events <==> e in others
    ensures Place(AfterAll(req, reviews, dir, events, times)) == Place(AfterAll(req, reviews, dir, others, otherTimes))
  {
    AllEvents(req, reviews, dir, events, times);
    AllEvents(req, reviews, dir, others, otherTimes);
    hide AfterAll;
    hide ReqInv;
    hide EventCounts;
    hide CurrentVerdict;
  }

  /** A second copy of a stored review has no say in the verdict. */
  lemma CopiesDoNotCount(req: Request, reviews: map<Uid, Review>, dir: Directory, id: Uid, copy: Uid)
    requires HasCurrentStep(req) && id in reviews && copy !in reviews
    ensures CurrentVerdict(req, reviews[copy := reviews[id]], dir) == CurrentVerdict(req, reviews, dir)
  {
    var i := req.CurrentStep();
    CopiesChangeNothing(req, reviews, dir, req.Steps()[i], i, id, copy);
    hide StepRejected;
    hide StepApproved;
  }

  lemma CopiesChangeNothing(req: Request, reviews: map<Uid, Review>, dir: Directory, step: Step, i: int, id: Uid, copy: Uid)
    requires id in reviews && copy !in reviews
    ensures StepRejected(req, reviews[copy := reviews[id]], dir, step, i) == StepRejected(req, reviews, dir, step, i)
    ensures StepApproved(req, reviews[copy := reviews[id]], dir, step, i) == StepApproved(req, reviews, dir, step, i)
  {
    CopiesAreOneVote(req.uid, reviews, i, APPROVE, id, copy);
    CopiesAreOneVote(req.uid, reviews, i, REJECT, id, copy);
    hide Voters;
    hide Eligible;
    hide EligibleReviewers;
  }

  lemma CopiesAreOneVote(req: Uid, reviews: map<Uid, Review>, i: int, decision: Decision, id: Uid, copy: Uid)
    requires id in reviews && copy !in reviews
    ensures Voters(req, reviews[copy := reviews[id]], i, decision) == Voters(req, reviews, i, decision)
  {
    var more := reviews[copy := reviews[id]];
    forall u | u in Voters(req, more, i, decision)
      ensures u in Voters(req, reviews, i, decision)
    {
      var r :| r in more && more[r].request == req && more[r].stepIndex == i && more[r].decision == decision && more[r].user == u;
      assert reviews[if r == copy then id else r] == more[r];
    }
    forall u | u in Voters(req, reviews, i, decision)
      ensures u in Voters(req, more, i, decision)
    {
      var r :| r in reviews && reviews[r].request == req && reviews[r].stepIndex == i
               && reviews[r].decision == decision && reviews[r].user == u;
      assert more[r] == reviews[r];
    }
  }

  /** Another review of the user for this step carries the decision. */
  ghost predicate HasOtherVote(req: Uid, reviews: map<Uid, Review>, i: int, decision: Decision, user: Uid, id: Uid) {
    exists other :: other in reviews && other != id && reviews[other] == Review(req, user, i, decision)
  }

  /** A reviewer who replaces a decision takes it back, unless a second review of theirs for the step
      still carries it. */
  lemma WithdrawnExactly(req: Uid, reviews: map<Uid, Review>, id: Uid, decision: Decision)
    requires id in reviews && reviews[id].request == req && decision != reviews[id].decision
    ensures var rev, i := reviews[id], reviews[id].stepIndex;
            rev.user in Voters(req, reviews[id := rev.(decision := decision)], i, rev.decision)
            <==> HasOtherVote(req, reviews, i, rev.decision, rev.user, id)
  {
    var rev, i := reviews[id], reviews[id].stepIndex;
    var changed := reviews[id := rev.(decision := decision)];
    if HasOtherVote(req, reviews, i, rev.decision, rev.user, id) {
      var other :| other in reviews && other != id && reviews[other] == Review(req, rev.user, i, rev.decision);
      assert changed[other] == reviews[other];
    }
    if rev.user in Voters(req, changed, i, rev.decision) {
      var r :| r in changed && changed[r].request == req && changed[r].stepIndex == i
               && changed[r].decision == rev.decision && changed[r].user == rev.user;
      assert reviews[r] == changed[r];
    }
  }
}

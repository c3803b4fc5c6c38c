/** What wakes the review controller: no decision of a reviewer goes unheard, but a change of the
    directory does. */
module AccessProgress {
  import opened Options
  import opened AccessModel
  import opened AccessSystem
  import opened AccessSafety
  import opened AccessDelivery
  import opened AccessRuns

  /** The request has not noted this review. */
  predicate IsUnheard(req: Request, id: Uid) {
    req.progress.Some? ==> FindApplied(req.progress.value.lastSteps, id).None?
  }

  /** A decision that is accepted makes its own event count: a new review always, a changed one because
      it is delivered as changed. */
  lemma DecisionIsHeard(s: System, user: Uid, decision: Decision, id: Uid, force: bool, now: Time)
    requires ReqInv(s.req) && ApplyDecide(s, user, decision, id).Ok? && decision != DecisionUnset
    requires IsUnheard(s.req, id) || (IsOwnReview(s, id, user) && force)
    ensures var t := ApplyDecide(s, user, decision, id).value;
            Counts(t.req, t.reviews, t.dir, id, decision, force, now)
  {
    hide Eligible;
    hide TimeInv;
    hide ValidSteps;
    var p := ProgressOf(s.req, now);
    var found := FindApplied(p.lastSteps, id);
    if found.Some? {
      assert p.lastSteps[found.value] in p.lastSteps;
    }
  }

  /** Only the delivery of a stored review makes the request note it. */
  lemma NotedFromStored(s: System, a: Action, id: Uid)
    requires Inv(s) && IsUnheard(s.req, id) && id !in s.reviews
    ensures IsUnheard(Next(s, a).req, id)
  {
    hide Inv;
    match a {
      case DeliverReview(rev, seen, force, now) =>
        DeliveryNotes(s.req, s.reviews, s.dir, rev, seen, force, now, id);
        hide ReconcileReview;
      case ReconcileAction(item, matched, targetResolves, now) =>
        PassNotesNothing(s.req, matched, now, id);
        hide ReconcileRequest;
      case Watch(now) =>
        WatchNotesNothing(s.req, now, id);
        hide CheckRequest;
      case _ =>
        hide SetState;
        hide ReconcileReview;
    }
    hide Eligible;
  }

  lemma DeliveryNotes(req: Request, reviews: map<Uid, Review>, dir: Directory,
                      rev: Uid, seen: Decision, force: bool, now: Time, id: Uid)
    requires IsUnheard(req, id) && id !in reviews
    ensures var r := ReconcileReview(req, reviews, dir, rev, seen, force, now); r.Ok? ==> IsUnheard(r.value, id)
  {
    hide Eligible;
    hide StepApproved;
    hide StepRejected;
  }

  lemma PassNotesNothing(req: Request, matched: Option<Rule>, now: Time, id: Uid)
    requires IsUnheard(req, id)
    ensures var r := ReconcileRequest(req, matched, now); r.Ok? ==> IsUnheard(r.value, id)
  {
  }

  lemma WatchNotesNothing(req: Request, now: Time, id: Uid)
    requires IsUnheard(req, id)
    ensures IsUnheard(CheckRequest(req, now), id)
  {
  }

  /** A review that does not exist and was never deleted is one the request has not noted. */
  lemma {:induction false} NewReviewIsUnheard(ss: seq<System>, acts: seq<Action>, k: nat, id: Uid)
    requires IsRun(ss, acts) && k < |ss| && id !in ss[k].reviews
    requires forall j :: 0 <= j < k ==> acts[j] != DeleteReview(id)
    ensures IsUnheard(ss[k].req, id)
    decreases k
  {
    hide Next;
    hide Inv;
    if k > 0 {
      RunStep(ss, acts, k - 1);
      if id in ss[k - 1].reviews {
        ReviewStays(ss[k - 1], acts[k - 1], id);
      }
      NewReviewIsUnheard(ss, acts, k - 1, id);
      NotedFromStored(ss[k - 1], acts[k - 1], id);
    }
  }

  lemma ReviewStays(s: System, a: Action, id: Uid)
    requires id in s.reviews && a != DeleteReview(id)
    ensures id in Next(s, a).reviews
  {
    hide Eligible;
    hide ReconcileReview;
    hide ReconcileRequest;
    hide CheckRequest;
    hide SetState;
  }

  /** The decision changes a review, and is delivered as a change, or makes a new one under a new uid. */
  predicate IsAnnounced(ss: seq<System>, acts: seq<Action>, k: nat, user: Uid, id: Uid, force: bool)
    requires k < |acts| && k < |ss|
  {
    if id in ss[k].reviews then IsOwnReview(ss[k], id, user) && force
    else forall j :: 0 <= j < k ==> acts[j] != DeleteReview(id)
  }

  /** No quorum is lost: once the event of the latest decision is delivered, alone or among any others, in
      any order, the request is where the stored reviews put it. */
  lemma NoDecisionIsLost(ss: seq<System>, acts: seq<Action>, k: nat, user: Uid, decision: Decision, id: Uid,
                         force: bool, events: seq<Event>, times: seq<Time>)
    requires IsRun(ss, acts) && k < |acts| && acts[k] == Decide(user, decision, id)
    requires ApplyDecide(ss[k], user, decision, id).Ok? && decision != DecisionUnset
    requires IsAnnounced(ss, acts, k, user, id, force)
    requires |times| == |events| && Event(id, decision, force) in events
    ensures var t := ss[k + 1];
            && HasCurrentStep(t.req)
            && Place(AfterAll(t.req, t.reviews, t.dir, events, times))
               == PlaceAfter(t.req, CurrentVerdict(t.req, t.reviews, t.dir))
  {
    var t := ss[k + 1];
    RunStep(ss, acts, k);
    if id !in ss[k].reviews {
      NewReviewIsUnheard(ss, acts, k, id);
    }
    DecisionIsHeard(ss[k], user, decision, id, force, 0);
    assert t == ApplyDecide(ss[k], user, decision, id).value;
    assert EventCounts(t.req, t.reviews, t.dir, Event(id, decision, force));
    assert NoneAhead(t.req, t.reviews);
    assert ReqInv(t.req);
    hide *;
    assert AnyCounts(t.req, t.reviews, t.dir, events);
    AllEvents(t.req, t.reviews, t.dir, events, times);
  }

  // ---------- a quorum nobody announces ----------

  const BOTH := Step([UserReviewer("b"), UserReviewer("c")], ALL, 0, 0, TimeoutUnset, false, false)
  const REVIEWED := Rule(REVIEW, Some([BOTH]), 0)
  const ASKED := Request("r", "a", None, None, 0, Some(State(0, Pending)), [], None, None, 0, None, None, None)
  const MATCHED := ASKED.(rule := Some(REVIEWED), progress := Some(Progress(0, Some(SECOND), [])),
                          effectiveSeconds := 86400, approvalStartAt := Some(SECOND))
  const WAITING := MATCHED.(progress := Some(Progress(0, Some(SECOND), [Applied("v", 0, APPROVE, "b")])))
  const VOTES := map["v" := Review("r", "b", 0, APPROVE)]

  function People(isDisabled: bool): Directory {
    Directory(map["a" := User("alice", false, false, {}), "b" := User("bob", false, false, {}),
                  "c" := User("carol", isDisabled, false, {})], map[])
  }

  lemma ReviewersOfBoth(req: Request, isDisabled: bool)
    requires req.requester == "a" && req.subject.None?
    ensures EligibleReviewers(People(isDisabled), BOTH, req) == if isDisabled then {"b"} else {"b", "c"}
    ensures Eligible(People(isDisabled), BOTH, req, "b")
    ensures Voters("r", VOTES, 0, APPROVE) == {"b"} && Voters("r", VOTES, 0, REJECT) == {}
  {
    assert BOTH.reviewers[0] in BOTH.reviewers && BOTH.reviewers[1] in BOTH.reviewers;
    assert VOTES["v"].user == "b";
    hide Voters;
    var dir := People(isDisabled);
    assert Eligible(dir, BOTH, req, "b");
    assert Eligible(dir, BOTH, req, "c") <==> !isDisabled;
    assert !Eligible(dir, BOTH, req, "a");
    hide Eligible;
  }

  lemma BobDecides()
    ensures Next(System(MATCHED, map[], People(false), None), Decide("b", APPROVE, "v"))
         == System(MATCHED, VOTES, People(false), None)
  {
    ReviewersOfBoth(MATCHED, false);
    hide Eligible;
  }

  lemma BobIsNotEnough()
    ensures Next(System(MATCHED, VOTES, People(false), None), DeliverReview("v", APPROVE, false, SECOND))
         == System(WAITING, VOTES, People(false), None)
  {
    ReviewersOfBoth(MATCHED, false);
    assert VOTES["v"] == Review("r", "b", 0, APPROVE);
    hide Eligible;
    hide EligibleReviewers;
    hide Voters;
    hide People;
    assert Record(MATCHED.progress.value, "v", VOTES["v"]) == WAITING.progress.value;
    assert "c" in EligibleReviewers(People(false), BOTH, MATCHED);
  }

  /** With Carol disabled, Bob alone is a quorum of all, but only an event delivered as a change says so. */
  lemma BobIsEnough()
    ensures var s := System(WAITING, VOTES, People(true), None);
            && HasCurrentStep(s.req) && CurrentVerdict(s.req, s.reviews, s.dir) == Cleared
            && (forall id, seen, now :: Next(s, DeliverReview(id, seen, false, now)) == s)
            && LeavesByQuorum(s, DeliverReview("v", APPROVE, true, SECOND))
            && Counts(s.req, s.reviews, s.dir, "v", APPROVE, true, SECOND)
  {
    ReviewersOfBoth(WAITING, true);
    assert VOTES["v"] == Review("r", "b", 0, APPROVE);
    assert WAITING.progress.value.lastSteps[0].review == "v";
    hide Eligible;
    hide EligibleReviewers;
    hide Voters;
    hide People;
  }

  /** A change of the directory is not announced: Bob has approved, all are asked, Carol is disabled; the
      request could go on, but waits, since no event of a stored review counts unless that review
      changes again. */
  lemma ClearedButUnheard() returns (ss: seq<System>, acts: seq<Action>)
    ensures IsRun(ss, acts) && |acts| == 4 && acts[3].ChangeDirectory?
    ensures HasCurrentStep(ss[4].req) && CurrentVerdict(ss[4].req, ss[4].reviews, ss[4].dir) == Cleared
    ensures forall id, seen, now :: Next(ss[4], DeliverReview(id, seen, false, now)) == ss[4]
    ensures LeavesByQuorum(ss[4], DeliverReview("v", APPROVE, true, SECOND))
  {
    var dir := People(false);
    acts := [ReconcileAction(ASKED, Some(REVIEWED), true, SECOND), Decide("b", APPROVE, "v"),
             DeliverReview("v", APPROVE, false, SECOND), ChangeDirectory(People(true))];
    ss := [System(ASKED, map[], dir, None), System(MATCHED, map[], dir, None), System(MATCHED, VOTES, dir, None),
           System(WAITING, VOTES, dir, None), System(WAITING, VOTES, People(true), None)];
    hide People;
    assert Init(ss[0]) && Next(ss[0], acts[0]) == ss[1];
    assert Next(ss[3], acts[3]) == ss[4];
    hide Next;
    hide LeavesByQuorum;
    hide CurrentVerdict;
    hide Init;
    BobDecides();
    BobIsNotEnough();
    BobIsEnough();
    assert WasSeen(ss, 0, ASKED) by {
      assert ss[0].req == ASKED;
    }
  }
}

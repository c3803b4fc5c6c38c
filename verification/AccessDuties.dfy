/** Separation of duties: whom it keeps from deciding on their own access. Requester and subject are
    told from a reviewer by uid, but a subject may be named without one. */
module AccessDuties {
  import opened Options
  import opened AccessModel
  import opened AccessSystem
  import opened AccessDecisions
  import opened AccessRuns

  /** Where a step excludes the subject, the duty check refuses the user the subject reference leads to
      if and only if that reference carries a uid, or the user is an excluded requester anyway. */
  lemma DutyNeedsUid(dir: Directory, step: Step, req: Request, u: Uid)
    requires Refers(dir, req.SubjectRef(), u) && IsUserEligible(dir, u) && !step.allowSubjectReview
    ensures !SeparationOfDuties(step, u, req) <==>
              req.SubjectRef().uid != "" || (!step.allowRequesterReview && u == req.requester)
  {
  }

  /** No subject, whoever it turns out to be, passes the duty check. */
  ghost predicate KeepsSubjectOut(step: Step, req: Request) {
    forall dir, u :: Refers(dir, req.SubjectRef(), u) && IsUserEligible(dir, u) ==> !SeparationOfDuties(step, u, req)
  }

  /** A step that excludes the subject keeps the subject out, whatever the directory, if and only if the
      request refers to the subject by uid. */
  lemma SubjectKeptOutExactly(step: Step, req: Request)
    requires req.SubjectRef().uid != "" || req.SubjectRef().name != ""
    requires !step.allowSubjectReview
    ensures KeepsSubjectOut(step, req) <==> req.SubjectRef().uid != ""
  {
    if req.SubjectRef().uid == "" {
      var u := req.requester + "x";
      assert |u| > |req.requester|;
      var dir := Directory(map[u := User(req.SubjectRef().name, false, false, {})], map[]);
      DutyNeedsUid(dir, step, req, u);
      assert Refers(dir, req.SubjectRef(), u);
    }
  }

  /** In no run does a subject referred to by uid approve a step that excludes the subject. */
  lemma SubjectByUidNeverApproves(ss: seq<System>, acts: seq<Action>, j: nat, u: Uid)
    requires IsRun(ss, acts) && j < |ss| && HasCurrentStep(ss[j].req)
    requires !ss[j].req.Steps()[ss[j].req.CurrentStep()].allowSubjectReview
    requires ss[j].req.SubjectRef().uid != "" && Refers(ss[j].dir, ss[j].req.SubjectRef(), u)
    ensures !ApprovedStep(ss, acts, j, u)
  {
    if ApprovedStep(ss, acts, j, u) {
      var d: nat :| d < j && d < |acts| && ApprovesAt(ss[d], acts[d], ss[j].req, u);
      RequestLifecycle(ss, acts, d, j);
    }
  }

  /** The user was active, and not locked or disabled, when deciding to approve the step state j is at. */
  ghost predicate ApprovedWhileActive(ss: seq<System>, acts: seq<Action>, j: nat, u: Uid) {
    exists d: nat :: d < j < |ss| && d < |acts| && ApprovesAt(ss[d], acts[d], ss[j].req, u) && IsActive(ss[d].dir, u)
  }

  /** No locked or disabled user is in a quorum: its members are active when it counts, and were when they
      decided. */
  lemma QuorumIsActive(ss: seq<System>, acts: seq<Action>, j: nat) returns (voters: set<Uid>)
    requires IsRun(ss, acts) && j < |acts| && LeavesByQuorum(ss[j], acts[j])
    ensures var step := ss[j].req.Steps()[ss[j].req.CurrentStep()];
            MeetsRequirement(step, voters, EligibleReviewers(ss[j].dir, step, ss[j].req))
    ensures forall u :: u in voters ==> IsActive(ss[j].dir, u) && ApprovedWhileActive(ss, acts, j, u)
  {
    voters := QuorumIsGenuine(ss, acts, j);
    var req, step := ss[j].req, ss[j].req.Steps()[ss[j].req.CurrentStep()];
    hide IsRun;
    hide LeavesByQuorum;
    forall u | u in voters
      ensures IsActive(ss[j].dir, u) && ApprovedWhileActive(ss, acts, j, u)
    {
      EligibleExactly(ss[j].dir, step, req, u);
      assert Eligible(ss[j].dir, step, req, u);
      var d: nat :| d < j && d < |acts| && ApprovesAt(ss[d], acts[d], req, u);
      EligibleExactly(ss[d].dir, ss[d].req.Steps()[ss[d].req.CurrentStep()], ss[d].req, u);
      hide Eligible;
      hide MatchesReviewer;
    }
  }

  /** A locked or disabled user's decision changes nothing. */
  lemma InactiveIsRefused(s: System, user: Uid, decision: Decision, id: Uid)
    requires !IsActive(s.dir, user)
    ensures Next(s, Decide(user, decision, id)) == s
  {
    DecideExactly(s, user, decision, id);
    if HasCurrentStep(s.req) {
      EligibleExactly(s.dir, s.req.Steps()[s.req.CurrentStep()], s.req, user);
    }
    hide Next;
    hide Eligible;
  }

  // ---------- a run in which the subject approves ----------

  const STEP := Step([UserReviewer("b")], ANY, 0, 0, TimeoutUnset, false, false)
  const REVIEWED := Rule(REVIEW, Some([STEP]), 0)

  function Asked(duration: Duration): Request {
    Request("r", "a", Some(Ref("", "bob")), None, duration, Some(State(0, Pending)), [], None, None, 0, None, None, None)
  }

  function Matched(duration: Duration, seconds: nat): Request {
    Asked(duration).(rule := Some(REVIEWED), progress := Some(Progress(0, Some(SECOND), [])),
                     effectiveSeconds := seconds, approvalStartAt := Some(SECOND))
  }

  const VOTES := map["v" := Review("r", "b", 0, APPROVE)]
  const PEOPLE := Directory(map["a" := User("alice", false, false, {}), "b" := User("bob", false, false, {})], map[])

  function At(req: Request, reviews: map<Uid, Review>): System {
    System(req, reviews, PEOPLE, None)
  }

  lemma BobIsEligible(duration: Duration, seconds: nat)
    ensures Eligible(PEOPLE, STEP, Matched(duration, seconds), "b")
  {
    assert UserReviewer("b") in STEP.reviewers;
  }

  lemma BobDecides(duration: Duration, seconds: nat)
    ensures Next(At(Matched(duration, seconds), map[]), Decide("b", APPROVE, "v")) == At(Matched(duration, seconds), VOTES)
  {
    BobIsEligible(duration, seconds);
    hide Eligible;
  }

  /** Bob's approval, delivered, is a quorum. */
  lemma BobIsQuorum(duration: Duration, seconds: nat)
    ensures LeavesByQuorum(At(Matched(duration, seconds), VOTES), DeliverReview("v", APPROVE, false, SECOND))
    ensures var req := Matched(duration, seconds);
            Next(At(req, VOTES), DeliverReview("v", APPROVE, false, SECOND)).req
            == SetState(req.(progress := Some(Record(ProgressOf(req, SECOND), "v", VOTES["v"]))), Approved, SECOND)
  {
    var req := Matched(duration, seconds);
    BobIsEligible(duration, seconds);
    hide Eligible;
    assert VOTES["v"].user == "b";
    assert "b" in Voters("r", VOTES, 0, APPROVE) * EligibleReviewers(PEOPLE, STEP, req);
    assert Voters("r", VOTES, 0, REJECT) == {};
  }

  /** Alice asks for access for the user named bob; the step excludes the subject and has Bob as its
      reviewer. Bob approves his own access. */
  lemma SubjectByNameApproves() returns (ss: seq<System>, acts: seq<Action>)
    ensures IsRun(ss, acts) && |acts| == 3 && LeavesByQuorum(ss[2], acts[2])
    ensures ss[2].req.Steps() == [STEP] && !STEP.allowSubjectReview
    ensures Refers(ss[2].dir, ss[2].req.SubjectRef(), "b") && ApprovedStep(ss, acts, 2, "b")
    ensures Voters("r", ss[2].reviews, 0, APPROVE) == {"b"}
    ensures ss[3].req.Status() == Approved
  {
    var asked, matched := Asked(60 * SECOND), Matched(60 * SECOND, 60);
    acts := [ReconcileAction(asked, Some(REVIEWED), true, SECOND), Decide("b", APPROVE, "v"),
             DeliverReview("v", APPROVE, false, SECOND)];
    var s := At(matched, VOTES);
    ss := [At(asked, map[]), At(matched, map[]), s, Next(s, acts[2])];
    BobIsEligible(60 * SECOND, 60);
    BobDecides(60 * SECOND, 60);
    BobIsQuorum(60 * SECOND, 60);
    hide Eligible;
    assert Next(ss[0], acts[0]) == ss[1];
    hide Next;
    hide LeavesByQuorum;
    assert WasSeen(ss, 0, asked) by {
      assert ss[0].req == asked;
    }
    assert ApprovesAt(ss[1], acts[1], ss[2].req, "b");
    assert Voters("r", VOTES, 0, APPROVE) == {"b"} by {
      assert VOTES["v"].user == "b";
    }
  }
}

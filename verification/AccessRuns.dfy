/** Safety of the access-request workflow over whole runs. */
module AccessRuns {
  import opened Options
  import opened AccessModel
  import opened AccessSystem
  import opened AccessSafety
  import opened AccessDelivery

  lemma {:induction false} RunKeepsInv(ss: seq<System>, acts: seq<Action>, j: nat)
    requires IsRun(ss, acts) && j < |ss|
    ensures Inv(ss[j])
    decreases j, 0
  {
    hide Inv;
    hide Next;
    hide Handed;
    if j == 0 {
      InitInv(ss[0]);
    } else {
      RunKeepsInv(ss, acts, j - 1);
      HandedInRun(ss, acts, j - 1);
      NextKeeps(ss[j - 1], acts[j - 1]);
    }
  }

  /** The life of a request, over any stretch of any run: rejected, revoked, expired and cancelled
      are final; an approval is only ever revoked or expires; the matched rule and the end of
      access never change once set; steps are never taken back; no past state is forgotten. */
  lemma {:induction false} RequestLifecycle(ss: seq<System>, acts: seq<Action>, j: nat, k: nat)
    requires IsRun(ss, acts) && j <= k < |ss|
    ensures Descends(ss[j].req, ss[k].req)
    decreases k, 1
  {
    hide Next;
    hide Inv;
    hide Handed;
    if j < k {
      RequestLifecycle(ss, acts, j, k - 1);
      RunKeepsInv(ss, acts, k - 1);
      HandedInRun(ss, acts, k - 1);
      NextKeeps(ss[k - 1], acts[k - 1]);
      DescendsStep(ss[j].req, ss[k - 1].req, ss[k].req);
    }
  }

  /** Whatever the request controller is handed in a run is an earlier form of the request. */
  lemma {:induction false} HandedInRun(ss: seq<System>, acts: seq<Action>, j: nat)
    requires IsRun(ss, acts) && j < |acts|
    ensures Handed(ss[j], acts[j])
    decreases j, 2
  {
    hide Next;
    hide ReqInv;
    hide Descends;
    if acts[j].ReconcileAction? {
      var i: nat :| i <= j && ss[i].req == acts[j].item;
      RunKeepsInv(ss, acts, i);
      RequestLifecycle(ss, acts, i, j);
    }
  }

  /** One action of a run. */
  lemma RunStep(ss: seq<System>, acts: seq<Action>, j: nat)
    requires IsRun(ss, acts) && j < |acts|
    ensures Inv(ss[j]) && Handed(ss[j], acts[j]) && ss[j + 1] == Next(ss[j], acts[j])
    ensures Inv(ss[j + 1]) && Evolves(ss[j].req, ss[j + 1].req)
  {
    hide Next;
    hide Inv;
    hide Handed;
    RunKeepsInv(ss, acts, j);
    HandedInRun(ss, acts, j);
    NextKeeps(ss[j], acts[j]);
  }

  /** A run goes on with any action; what the request controller is handed may be the current request. */
  lemma RunGoesOn(ss: seq<System>, acts: seq<Action>, a: Action) returns (ss': seq<System>, acts': seq<Action>)
    requires IsRun(ss, acts) && (a.ReconcileAction? ==> a.item == ss[|acts|].req)
    ensures IsRun(ss', acts')
    ensures ss' == ss + [Next(ss[|acts|], a)] && acts' == acts + [a]
  {
    hide Next;
    hide Init;
    ss', acts' := ss + [Next(ss[|acts|], a)], acts + [a];
    forall j | 0 <= j < |acts'| && acts'[j].ReconcileAction?
      ensures WasSeen(ss', j, acts'[j].item)
    {
      if j < |acts| {
        var i :| 0 <= i <= j && ss[i].req == acts[j].item;
        assert ss'[i].req == acts'[j].item;
      } else {
        assert ss'[j].req == acts'[j].item;
      }
    }
  }

  // ---------- the history of states ----------

  /** The request is or has been in this state. */
  predicate Remembers(req: Request, st: State) {
    req.state == Some(st) || st in req.lastStates
  }

  ghost predicate StateOccurred(ss: seq<System>, st: State, k: nat) {
    exists j :: 0 <= j <= k && j < |ss| && ss[j].req.state == Some(st)
  }

  /** A run never fills the bounded history: it has two entries at most, and state and history
      together are exactly the states the request has been in. */
  lemma {:induction false} HistoryIsExact(ss: seq<System>, acts: seq<Action>, k: nat, st: State)
    requires IsRun(ss, acts) && k < |ss|
    ensures |ss[k].req.lastStates| <= 2 < MAX_STATE_HISTORY
    ensures Remembers(ss[k].req, st) <==> StateOccurred(ss, st, k)
  {
    hide Next;
    RunKeepsInv(ss, acts, k);
    hide RuleInv;
    hide TimeInv;
    hide GrantInv;
    hide ReviewsInv;
    if StateOccurred(ss, st, k) {
      var j: nat :| j <= k && ss[j].req.state == Some(st);
      RequestLifecycle(ss, acts, j, k);
    }
    if k > 0 {
      hide Inv;
      RunStep(ss, acts, k - 1);
      HistoryIsExact(ss, acts, k - 1, st);
    }
  }

  // ---------- how a step is left ----------

  /** The action lets the review controller find the current step approved and not rejected,
      by the reviews and the directory as they are at that moment. */
  predicate LeavesByQuorum(s: System, a: Action) {
    && HasCurrentStep(s.req) && a.DeliverReview?
    && StepApproved(s.req, s.reviews, s.dir, s.req.Steps()[s.req.CurrentStep()], s.req.CurrentStep())
    && !StepRejected(s.req, s.reviews, s.dir, s.req.Steps()[s.req.CurrentStep()], s.req.CurrentStep())
  }

  /** The action lets the watcher find the current step timed out, and the step says to go on then. */
  predicate LeavesByTimeout(s: System, a: Action) {
    && HasCurrentStep(s.req) && a.Watch?
    && StepTimedOut(s.req, a.now)
    && s.req.Steps()[s.req.CurrentStep()].onTimeout == GotoNextStep
    && s.req.CurrentStep() + 1 < |s.req.Steps()|
  }

  lemma WatchMovesOnTimeout(req: Request, now: Time)
    requires CheckRequest(req, now).CurrentStep() > req.CurrentStep()
    ensures HasCurrentStep(req) && StepTimedOut(req, now) && req.CurrentStep() + 1 < |req.Steps()|
    ensures req.Steps()[req.CurrentStep()].onTimeout == GotoNextStep
  {
  }

  /** Nothing but a quorum or a timeout moves a request on, and nothing but a quorum on the
      last step approves a request under review. */
  lemma OnlyQuorumOrTimeout(s: System, a: Action)
    requires Inv(s) && s.req.rule.Some? && s.req.rule.value.effect == REVIEW
    ensures Next(s, a).req.CurrentStep() > s.req.CurrentStep() ==> LeavesByQuorum(s, a) || LeavesByTimeout(s, a)
    ensures WasApproved(Next(s, a).req) && !WasApproved(s.req) ==>
              LeavesByQuorum(s, a) && s.req.CurrentStep() == |s.req.Steps()| - 1
  {
    hide StepApproved;
    hide StepRejected;
    hide ValidSteps;
    hide Eligible;
    hide GrantInv;
    hide ReviewsInv;
    hide TimeInv;
    hide Descends;
    match a {
      case DeliverReview(id, seen, force, now) =>
        DeliverOutcome(s.req, s.reviews, s.dir, id, seen, force, now);
        hide ReconcileReview;
        hide Counts;
      case Watch(now) =>
        WatchKeeps(s.req, now);
        if CheckRequest(s.req, now).CurrentStep() > s.req.CurrentStep() {
          WatchMovesOnTimeout(s.req, now);
        }
        hide CheckRequest;
        hide StepTimedOut;
      case Cancel(user, now) =>
        if s.req.Status() == Pending {
          SetStateKeeps(s.req, Cancelled, now);
        }
        hide SetState;
      case Revoke(now) =>
        if !Final(s.req.Status()) {
          SetStateKeeps(s.req, Revoked, now);
        }
        hide SetState;
      case ReconcileAction(item, matched, targetResolves, now) =>
        ReconcileKeeps(s.req, matched, now);
        hide ReconcileRequest;
      case _ =>
    }
  }

  /** The steps a request has behind it. */
  function StepsBehind(req: Request): int {
    if WasApproved(req) then |req.Steps()| else req.CurrentStep()
  }

  /** Action j of the run left step i of this rule behind: by a quorum, or by a timeout when the
      step is not the last. */
  ghost predicate StepLeftAt(ss: seq<System>, acts: seq<Action>, rule: Rule, i: int, j: nat) {
    && j < |acts| && j < |ss|
    && ss[j].req.rule == Some(rule) && ss[j].req.CurrentStep() == i
    && (LeavesByQuorum(ss[j], acts[j]) || LeavesByTimeout(ss[j], acts[j]))
  }

  ghost predicate WasLeft(ss: seq<System>, acts: seq<Action>, rule: Rule, i: int, k: nat) {
    exists j: nat :: j < k && StepLeftAt(ss, acts, rule, i, j)
  }

  /** A rule that asks for reviews starts at its first step. */
  lemma ReviewStartsAtZero(s: System, a: Action)
    requires Inv(s) && s.req.rule.None?
    requires Next(s, a).req.rule.Some? && Next(s, a).req.rule.value.effect == REVIEW
    ensures StepsBehind(Next(s, a).req) == 0
  {
    hide ValidSteps;
    hide StepApproved;
    hide StepRejected;
    hide Eligible;
    hide CheckRequest;
    if a.ReconcileAction? && NeedsInitialization(s.req) {
      InitializeKeeps(s.req, a.matched, a.now);
    } else if a.Watch? {
      WatchKeepsRule(s.req, a.now);
    }
  }

  lemma WatchKeepsRule(req: Request, now: Time)
    ensures CheckRequest(req, now).rule == req.rule
  {
  }

  /** Every step a request has behind it was left by a quorum or a timeout, at some point of the run. */
  lemma {:induction false} StepWasLeft(ss: seq<System>, acts: seq<Action>, k: nat, i: int) returns (j: nat)
    requires IsRun(ss, acts) && k < |ss|
    requires ss[k].req.rule.Some? && ss[k].req.rule.value.effect == REVIEW
    requires 0 <= i < StepsBehind(ss[k].req)
    ensures j < k && StepLeftAt(ss, acts, ss[k].req.rule.value, i, j)
    decreases k
  {
    hide Next;
    hide Inv;
    hide LeavesByQuorum;
    hide LeavesByTimeout;
    RunStep(ss, acts, k - 1);
    var s := ss[k - 1];
    if s.req.rule.None? {
      ReviewStartsAtZero(s, acts[k - 1]);
    } else if i < StepsBehind(s.req) {
      j := StepWasLeft(ss, acts, k - 1, i);
    } else {
      OnlyQuorumOrTimeout(s, acts[k - 1]);
      hide WasApproved;
      j := k - 1;
    }
  }

  /** No approval without review: an approved request, now or earlier, has had every step of its
      rule left by a quorum or a timeout, and the last one by a quorum. */
  lemma ApprovalIsEarned(ss: seq<System>, acts: seq<Action>, k: nat)
    requires IsRun(ss, acts) && k < |ss| && WasApproved(ss[k].req)
    ensures ss[k].req.rule.Some?
    ensures var rule := ss[k].req.rule.value;
            || rule.effect == AUTO_APPROVE
            || (rule.effect == REVIEW && ss[k].req.Steps() != [] &&
                forall i :: 0 <= i < |ss[k].req.Steps()| ==> WasLeft(ss, acts, rule, i, k))
  {
    RunKeepsInv(ss, acts, k);
    var rule := ss[k].req.rule.value;
    assert rule.effect == REVIEW ==> ss[k].req.Steps() != [];
    assert rule.effect in {REVIEW, AUTO_APPROVE};
    hide Inv;
    hide IsRun;
    if rule.effect == REVIEW {
      forall i | 0 <= i < |ss[k].req.Steps()|
        ensures WasLeft(ss, acts, rule, i, k)
      {
        var j := StepWasLeft(ss, acts, k, i);
      }
    }
  }

  // ---------- votes ----------

  /** Only a decision of an eligible reviewer on the current step writes a review of the request. */
  lemma ReviewWritten(s: System, a: Action, id: Uid)
    requires Evolves(s.req, Next(s, a).req)
    requires id in Next(s, a).reviews && Next(s, a).reviews[id].request == s.req.uid
    requires id !in s.reviews || s.reviews[id] != Next(s, a).reviews[id]
    ensures var rev := Next(s, a).reviews[id];
            && a == Decide(rev.user, rev.decision, id)
            && HasCurrentStep(s.req) && s.req.CurrentStep() == rev.stepIndex
            && Eligible(s.dir, s.req.Steps()[rev.stepIndex], s.req, rev.user)
            && (id !in s.reviews ==> forall other :: other in s.reviews ==> !IsOwnReview(s, other, rev.user))
            && (id in s.reviews ==> IsOwnReview(s, id, rev.user))
  {
    hide Eligible;
    hide ReconcileReview;
    hide ReconcileRequest;
    hide CheckRequest;
    hide SetState;
  }

  /** Votes are genuine: a stored review of the request says what its reviewer decided last, on the
      step the request was at, and at that moment the reviewer was eligible. */
  lemma {:induction false} VoteIsGenuine(ss: seq<System>, acts: seq<Action>, k: nat, id: Uid) returns (j: nat)
    requires IsRun(ss, acts) && k < |ss|
    requires id in ss[k].reviews && ss[k].reviews[id].request == ss[k].req.uid
    ensures j < k && j < |acts|
    ensures var rev := ss[k].reviews[id];
            && acts[j] == Decide(rev.user, rev.decision, id)
            && HasCurrentStep(ss[j].req) && ss[j].req.CurrentStep() == rev.stepIndex
            && Eligible(ss[j].dir, ss[j].req.Steps()[rev.stepIndex], ss[j].req, rev.user)
    decreases k
  {
    hide Next;
    hide Inv;
    hide Eligible;
    RunStep(ss, acts, k - 1);
    if id in ss[k - 1].reviews && ss[k - 1].reviews[id] == ss[k].reviews[id] {
      j := VoteIsGenuine(ss, acts, k - 1, id);
    } else {
      ReviewWritten(ss[k - 1], acts[k - 1], id);
      j := k - 1;
    }
  }

  /** No reviewer has two reviews for one step. */
  predicate OneVoteEach(s: System) {
    forall a, b :: a in s.reviews && b in s.reviews && a != b
                   && s.reviews[a].request == s.req.uid && s.reviews[b].request == s.req.uid ==>
                     s.reviews[a].user != s.reviews[b].user || s.reviews[a].stepIndex != s.reviews[b].stepIndex
  }

  lemma OneVoteEachKept(s: System, a: Action)
    requires OneVoteEach(s) && Evolves(s.req, Next(s, a).req)
    ensures OneVoteEach(Next(s, a))
  {
    var s' := Next(s, a);
    forall x, y | x in s'.reviews && y in s'.reviews && x != y
                  && s'.reviews[x].request == s.req.uid && s'.reviews[y].request == s.req.uid
      ensures s'.reviews[x].user != s'.reviews[y].user || s'.reviews[x].stepIndex != s'.reviews[y].stepIndex
    {
      if x !in s.reviews || s.reviews[x] != s'.reviews[x] {
        ReviewWritten(s, a, x);
      }
      if y !in s.reviews || s.reviews[y] != s'.reviews[y] {
        ReviewWritten(s, a, y);
      }
      hide Next;
      hide Eligible;
    }
  }

  /** Nobody votes twice on a step, in any run. */
  lemma {:induction false} NobodyVotesTwice(ss: seq<System>, acts: seq<Action>, k: nat)
    requires IsRun(ss, acts) && k < |ss|
    ensures OneVoteEach(ss[k])
    decreases k
  {
    hide Next;
    hide Inv;
    if k > 0 {
      NobodyVotesTwice(ss, acts, k - 1);
      RunStep(ss, acts, k - 1);
      OneVoteEachKept(ss[k - 1], acts[k - 1]);
    }
  }

  /** In every run the latest decision of a reviewer is the one that counts for the step, and the only one. */
  lemma LatestDecisionCounts(ss: seq<System>, acts: seq<Action>, k: nat, user: Uid, decision: Decision, id: Uid, d: Decision)
    requires IsRun(ss, acts) && k < |acts| && acts[k] == Decide(user, decision, id)
    requires ApplyDecide(ss[k], user, decision, id).Ok?
    ensures user in Voters(ss[k + 1].req.uid, ss[k + 1].reviews, ss[k].req.CurrentStep(), d) <==> d == decision
  {
    NobodyVotesTwice(ss, acts, k + 1);
    hide Eligible;
    var t := ss[k + 1];
    assert t == ApplyDecide(ss[k], user, decision, id).value;
    assert id in t.reviews && t.reviews[id] == Review(t.req.uid, user, ss[k].req.CurrentStep(), decision);
    hide Next;
    hide ApplyDecide;
    hide IsRun;
  }

  /** Before state j, the user decided to approve the step the request is at, as an eligible reviewer. */
  ghost predicate ApprovedStep(ss: seq<System>, acts: seq<Action>, j: nat, u: Uid) {
    exists d: nat :: d < j < |ss| && d < |acts| && ApprovesAt(ss[d], acts[d], ss[j].req, u)
  }

  predicate ApprovesAt(s: System, a: Action, req: Request, u: Uid) {
    && a.Decide? && a.user == u && a.decision == APPROVE
    && HasCurrentStep(s.req) && s.req.CurrentStep() == req.CurrentStep()
    && Eligible(s.dir, s.req.Steps()[s.req.CurrentStep()], s.req, u)
  }

  /** These people meet the requirement of the step. */
  predicate MeetsRequirement(step: Step, voters: set<Uid>, eligible: set<Uid>) {
    && voters <= eligible
    && match step.requirement
       case ANY => voters != {}
       case ALL => voters == eligible != {}
       case COUNT => |voters| >= step.approvalCount > 0
       case RequirementUnset => false
  }

  lemma QuorumMeetsRequirement(s: System, a: Action)
    requires LeavesByQuorum(s, a)
    ensures var i, step := s.req.CurrentStep(), s.req.Steps()[s.req.CurrentStep()];
            MeetsRequirement(step, Voters(s.req.uid, s.reviews, i, APPROVE) * EligibleReviewers(s.dir, step, s.req),
                             EligibleReviewers(s.dir, step, s.req))
  {
    var i := s.req.CurrentStep();
    var approvers, eligible := Voters(s.req.uid, s.reviews, i, APPROVE), EligibleReviewers(s.dir, s.req.Steps()[i], s.req);
    hide Voters;
    hide EligibleReviewers;
    if eligible <= approvers {
      assert approvers * eligible == eligible;
    }
  }

  /** A quorum is genuine as a whole: the people who meet the requirement are different eligible
      reviewers, each of whom had decided to approve this very step. */
  lemma QuorumIsGenuine(ss: seq<System>, acts: seq<Action>, j: nat) returns (voters: set<Uid>)
    requires IsRun(ss, acts) && j < |acts| && LeavesByQuorum(ss[j], acts[j])
    ensures var step := ss[j].req.Steps()[ss[j].req.CurrentStep()];
            MeetsRequirement(step, voters, EligibleReviewers(ss[j].dir, step, ss[j].req))
    ensures forall u :: u in voters ==> ApprovedStep(ss, acts, j, u)
  {
    var s, i := ss[j], ss[j].req.CurrentStep();
    QuorumMeetsRequirement(s, acts[j]);
    voters := Voters(s.req.uid, s.reviews, i, APPROVE) * EligibleReviewers(s.dir, s.req.Steps()[i], s.req);
    hide IsRun;
    hide LeavesByQuorum;
    hide EligibleReviewers;
    hide Eligible;
    hide MeetsRequirement;
    forall u | u in voters
      ensures ApprovedStep(ss, acts, j, u)
    {
      var id :| id in s.reviews && s.reviews[id] == Review(s.req.uid, u, i, APPROVE);
      var d := VoteIsGenuine(ss, acts, j, id);
      assert ApprovesAt(ss[d], acts[d], s.req, u);
    }
  }

  /** No self-approval: an approval by review was completed by a reviewer of the last step who had
      decided to approve it, was eligible when it counted, and is neither the requester nor the
      subject, unless that step allows it or the subject was named without a uid. */
  lemma ApprovedByIndependentReviewer(ss: seq<System>, acts: seq<Action>, k: nat)
    returns (d: nat, j: nat, u: Uid)
    requires IsRun(ss, acts) && k < |ss| && WasApproved(ss[k].req)
    requires ss[k].req.rule.Some? && ss[k].req.rule.value.effect == REVIEW
    ensures d < j < k && LeavesByQuorum(ss[j], acts[j])
    ensures acts[d].Decide? && acts[d].user == u && acts[d].decision == APPROVE
    ensures var req, last := ss[k].req, |ss[k].req.Steps()| - 1;
            && last >= 0 && ss[d].req.CurrentStep() == ss[j].req.CurrentStep() == last && ss[j].req.rule == req.rule
            && Eligible(ss[j].dir, req.Steps()[last], req, u)
            && (!req.Steps()[last].allowRequesterReview ==> u != req.requester)
            && (!req.Steps()[last].allowSubjectReview && req.SubjectRef().uid != "" ==>
                  !Refers(ss[j].dir, req.SubjectRef(), u))
  {
    hide Next;
    RunKeepsInv(ss, acts, k);
    var last := |ss[k].req.Steps()| - 1;
    j := StepWasLeft(ss, acts, k, last);
    assert LeavesByQuorum(ss[j], acts[j]);
    hide LeavesByQuorum;
    hide LeavesByTimeout;
    RequestLifecycle(ss, acts, j, k);
    hide Inv;
    var voters := QuorumIsGenuine(ss, acts, j);
    u :| u in voters;
    d :| d < j && ApprovesAt(ss[d], acts[d], ss[j].req, u);
    SameReviewers(ss[j].dir, ss[k].req.Steps()[last], ss[j].req, ss[k].req);
  }
}

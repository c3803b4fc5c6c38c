/** What each operation decides, in terms of what is stored: who may review, what the votes say, how an
    event, the clock, a match and the people involved change a request. */
module AccessDecisions {
  import opened Options
  import opened AccessModel
  import opened AccessSystem
  import opened AccessSafety
  import opened AccessDelivery

  // ---------- who may review ----------

  predicate IsActive(dir: Directory, u: Uid) {
    u in dir.users && !dir.users[u].isDisabled && !dir.users[u].isLocked
  }

  /** Eligible reviewers are the active users a step names, or names a group of, less the requester and
      the subject where the step does not allow them. */
  lemma EligibleExactly(dir: Directory, step: Step, req: Request, u: Uid)
    ensures Eligible(dir, step, req, u) <==>
              && u != "" && u in dir.users && !dir.users[u].isDisabled && !dir.users[u].isLocked
              && (u == req.requester ==> step.allowRequesterReview)
              && (u == (if req.subject.Some? then req.subject.value.uid else req.requester) ==> step.allowSubjectReview)
              && (UserReviewer(u) in step.reviewers ||
                  exists g :: GroupReviewer(g) in step.reviewers && g in dir.groups && dir.groups[g] in dir.users[u].groups)
  {
    if exists r :: r in step.reviewers && MatchesReviewer(dir, u, r) {
      var r :| r in step.reviewers && MatchesReviewer(dir, u, r);
      match r {
        case UserReviewer(user) => assert r == UserReviewer(u);
        case GroupReviewer(group) => assert GroupReviewer(group) in step.reviewers;
        case NoReviewer =>
      }
    }
    if UserReviewer(u) in step.reviewers && u != "" {
      assert MatchesReviewer(dir, u, UserReviewer(u));
    }
    if u in dir.users {
      forall g | GroupReviewer(g) in step.reviewers && g in dir.groups && dir.groups[g] in dir.users[u].groups
        ensures MatchesReviewer(dir, u, GroupReviewer(g))
      {
      }
    }
  }

  // ---------- what the votes say ----------

  /** A review of the current step that carries the user's decision is stored. */
  ghost predicate HasVote(req: Request, reviews: map<Uid, Review>, decision: Decision, u: Uid) {
    exists id :: id in reviews && reviews[id] == Review(req.uid, u, req.CurrentStep(), decision)
  }

  lemma VotersHaveVotes(req: Request, reviews: map<Uid, Review>, decision: Decision, u: Uid)
    ensures u in Voters(req.uid, reviews, req.CurrentStep(), decision) <==> HasVote(req, reviews, decision, u)
  {
    if HasVote(req, reviews, decision, u) {
      var id :| id in reviews && reviews[id] == Review(req.uid, u, req.CurrentStep(), decision);
      assert reviews[id].user == u;
    }
    if u in Voters(req.uid, reviews, req.CurrentStep(), decision) {
      var id :| id in reviews && reviews[id].request == req.uid && reviews[id].stepIndex == req.CurrentStep()
                && reviews[id].decision == decision && reviews[id].user == u;
      assert reviews[id] == Review(req.uid, u, req.CurrentStep(), decision);
    }
  }

  /** These users are all eligible and have all voted to approve. */
  ghost predicate AllApprove(req: Request, reviews: map<Uid, Review>, dir: Directory, step: Step, voters: set<Uid>) {
    forall u :: u in voters ==> Eligible(dir, step, req, u) && HasVote(req, reviews, APPROVE, u)
  }

  /** What the stored votes say. One eligible rejection refuses the step. Otherwise it is cleared, for ANY, by
      one approval of an eligible reviewer; for ALL, by an approval of each, if there are any; for COUNT, by
      approvals of that many different ones. */
  lemma VerdictExactly(req: Request, reviews: map<Uid, Review>, dir: Directory, step: Step)
    requires HasCurrentStep(req) && step == req.Steps()[req.CurrentStep()]
    ensures CurrentVerdict(req, reviews, dir) == Refused <==>
            exists u :: Eligible(dir, step, req, u) && HasVote(req, reviews, REJECT, u)
    ensures CurrentVerdict(req, reviews, dir) != Refused && step.requirement == ANY ==>
              (CurrentVerdict(req, reviews, dir) == Cleared <==>
               exists u :: Eligible(dir, step, req, u) && HasVote(req, reviews, APPROVE, u))
    ensures CurrentVerdict(req, reviews, dir) != Refused && step.requirement == ALL ==>
              (CurrentVerdict(req, reviews, dir) == Cleared <==>
               && (exists u :: Eligible(dir, step, req, u))
               && (forall u :: Eligible(dir, step, req, u) ==> HasVote(req, reviews, APPROVE, u)))
    ensures CurrentVerdict(req, reviews, dir) != Refused && step.requirement == COUNT ==>
              (CurrentVerdict(req, reviews, dir) == Cleared <==>
               && step.approvalCount > 0
               && exists voters: set<Uid> :: |voters| == step.approvalCount && AllApprove(req, reviews, dir, step, voters))
    ensures step.requirement == RequirementUnset ==> CurrentVerdict(req, reviews, dir) != Cleared
  {
    var refused, cleared := EligibleVoters(req, reviews, dir, step, REJECT), EligibleVoters(req, reviews, dir, step, APPROVE);
    VotesAreVotes(req, reviews, dir, step, REJECT);
    VotesAreVotes(req, reviews, dir, step, APPROVE);
    hide Eligible;
    hide Voters;
    hide HasVote;
    if step.requirement == ALL {
      EachApproves(req, reviews, dir, step);
    } else if step.requirement == COUNT {
      EnoughApprove(req, reviews, dir, step, cleared);
    }
    hide EligibleReviewers;
    hide AllApprove;
  }

  /** The eligible reviewers who have voted so. */
  function EligibleVoters(req: Request, reviews: map<Uid, Review>, dir: Directory, step: Step, decision: Decision): set<Uid> {
    Voters(req.uid, reviews, req.CurrentStep(), decision) * EligibleReviewers(dir, step, req)
  }

  lemma VotesAreVotes(req: Request, reviews: map<Uid, Review>, dir: Directory, step: Step, decision: Decision)
    ensures forall u :: u in EligibleVoters(req, reviews, dir, step, decision) <==>
                        Eligible(dir, step, req, u) && HasVote(req, reviews, decision, u)
  {
    forall u
      ensures u in EligibleVoters(req, reviews, dir, step, decision) <==>
              Eligible(dir, step, req, u) && HasVote(req, reviews, decision, u)
    {
      VotersHaveVotes(req, reviews, decision, u);
      hide Eligible;
      hide Voters;
      hide HasVote;
      IsListed(dir, step, req, u);
    }
  }

  lemma IsListed(dir: Directory, step: Step, req: Request, u: Uid)
    ensures u in EligibleReviewers(dir, step, req) <==> Eligible(dir, step, req, u)
  {
  }

  lemma EachApproves(req: Request, reviews: map<Uid, Review>, dir: Directory, step: Step)
    ensures var eligible, approvers := EligibleReviewers(dir, step, req), Voters(req.uid, reviews, req.CurrentStep(), APPROVE);
            eligible != {} && eligible <= approvers <==>
            && (exists u :: Eligible(dir, step, req, u))
            && (forall u :: Eligible(dir, step, req, u) ==> HasVote(req, reviews, APPROVE, u))
  {
    forall u
      ensures u in EligibleReviewers(dir, step, req) <==> Eligible(dir, step, req, u)
      ensures u in Voters(req.uid, reviews, req.CurrentStep(), APPROVE) <==> HasVote(req, reviews, APPROVE, u)
    {
      IsListed(dir, step, req, u);
      VotersHaveVotes(req, reviews, APPROVE, u);
    }
    hide Eligible;
    hide EligibleReviewers;
    hide Voters;
    hide HasVote;
  }

  lemma EnoughApprove(req: Request, reviews: map<Uid, Review>, dir: Directory, step: Step, all: set<Uid>)
    requires forall u :: u in all <==> Eligible(dir, step, req, u) && HasVote(req, reviews, APPROVE, u)
    ensures |all| >= step.approvalCount <==>
            exists voters: set<Uid> :: |voters| == step.approvalCount && AllApprove(req, reviews, dir, step, voters)
  {
    hide Eligible;
    hide HasVote;
    if |all| >= step.approvalCount {
      var voters := SomeOf(all, step.approvalCount);
      assert AllApprove(req, reviews, dir, step, voters);
    }
    if exists voters: set<Uid> :: |voters| == step.approvalCount && AllApprove(req, reviews, dir, step, voters) {
      var voters: set<Uid> :| |voters| == step.approvalCount && AllApprove(req, reviews, dir, step, voters);
      SubsetIsSmaller(voters, all);
    }
  }

  lemma {:induction false} SomeOf(all: set<Uid>, n: nat) returns (some: set<Uid>)
    requires n <= |all|
    ensures some <= all && |some| == n
    decreases n
  {
    if n == 0 {
      some := {};
    } else {
      var rest := SomeOf(all, n - 1);
      if all <= rest {
        SubsetIsSmaller(all, rest);
        assert false;
      }
      var u :| u in all && u !in rest;
      some := rest + {u};
    }
  }

  lemma {:induction false} SubsetIsSmaller(a: set<Uid>, b: set<Uid>)
    requires a <= b
    ensures |a| <= |b|
    decreases |a|
  {
    if a != {} {
      var u :| u in a;
      SubsetIsSmaller(a - {u}, b - {u});
    }
  }

  // ---------- what an event does ----------

  /** Events that say nothing: about no decision, about a review that is gone, withdrawn, of another request
      or step, or by someone who is not eligible, about a request that is not pending, or, unless forced,
      about a review the request has noted. They change nothing. */
  lemma IgnoredEvents(s: System, id: Uid, seen: Decision, force: bool, now: Time)
    requires Inv(s)
    requires || seen == DecisionUnset || id !in s.reviews || s.reviews[id].decision == DecisionUnset
             || s.reviews[id].request != s.req.uid || s.req.Status() != Pending || !HasCurrentStep(s.req)
             || s.reviews[id].stepIndex != s.req.CurrentStep()
             || !Eligible(s.dir, s.req.Steps()[s.req.CurrentStep()], s.req, s.reviews[id].user)
             || (!force && s.req.progress.Some? && exists a :: a in s.req.progress.value.lastSteps && a.review == id)
    ensures Next(s, DeliverReview(id, seen, force, now)) == s
  {
    DeliverOutcome(s.req, s.reviews, s.dir, id, seen, force, now);
    hide ReconcileReview;
    hide Eligible;
    hide GrantInv;
    hide ReviewsInv;
    hide HistoryShape;
    hide TimeInv;
    hide CurrentVerdict;
  }

  /** Where an event that counts leaves the request, by the verdict of the stored votes. A request that goes
      on to its next step starts the clock of that step. */
  lemma EventOutcome(s: System, id: Uid, seen: Decision, force: bool, now: Time)
    requires Inv(s) && Counts(s.req, s.reviews, s.dir, id, seen, force, now)
    ensures HasCurrentStep(s.req) && Next(s, DeliverReview(id, seen, force, now)).req.progress.Some?
    ensures var r := Next(s, DeliverReview(id, seen, force, now)).req;
            match CurrentVerdict(s.req, s.reviews, s.dir)
            case Refused => r.state == Some(State(now, Rejected)) && r.CurrentStep() == s.req.CurrentStep()
            case Cleared =>
              if s.req.CurrentStep() == |s.req.Steps()| - 1
              then r.state == Some(State(now, Approved)) && r.CurrentStep() == s.req.CurrentStep()
              else && r.state == s.req.state && r.CurrentStep() == s.req.CurrentStep() + 1
                   && r.progress.value.startedAt == Some(now)
            case Waiting => && r.state == s.req.state && r.CurrentStep() == s.req.CurrentStep()
                            && r.progress.value.startedAt == s.req.progress.value.startedAt
  {
    DeliverOutcome(s.req, s.reviews, s.dir, id, seen, force, now);
    var step := s.req.Steps()[s.req.CurrentStep()];
    assert ValidStep(step);
    hide StepApproved;
    hide StepRejected;
    hide Eligible;
    hide GrantInv;
    hide ReviewsInv;
    hide TimeInv;
    hide ValidSteps;
  }

  /** The request notes the delivered review with the decision it carries now. */
  lemma EventIsNoted(s: System, id: Uid, seen: Decision, force: bool, now: Time)
    requires Inv(s) && Counts(s.req, s.reviews, s.dir, id, seen, force, now)
    ensures var r := Next(s, DeliverReview(id, seen, force, now)).req;
            && r.progress.Some?
            && (exists a :: a in r.progress.value.lastSteps && a.review == id && a.decision == s.reviews[id].decision)
            && (forall a :: a in r.progress.value.lastSteps && a.review != id ==>
                              s.req.progress.Some? && a in s.req.progress.value.lastSteps)
  {
    var p := ProgressOf(s.req, now);
    RecordNotes(p, id, s.reviews[id]);
    assert ValidStep(s.req.Steps()[s.req.CurrentStep()]);
    hide Record;
    hide FindApplied;
    hide StepApproved;
    hide StepRejected;
    hide Eligible;
    hide GrantInv;
    hide ReviewsInv;
    hide TimeInv;
    hide ValidSteps;
    assert Next(s, DeliverReview(id, seen, force, now)).req.progress.value.lastSteps == Record(p, id, s.reviews[id]).lastSteps;
  }

  lemma RecordNotes(p: Progress, id: Uid, rev: Review)
    ensures var q := Record(p, id, rev);
            && (exists a :: a in q.lastSteps && a.review == id && a.decision == rev.decision)
            && (forall a :: a in q.lastSteps && a.review != id ==> a in p.lastSteps)
  {
    var q := Record(p, id, rev);
    var f := FindApplied(p.lastSteps, id);
    var at := if f.Some? then f.value else |p.lastSteps|;
    assert q.lastSteps[at] in q.lastSteps;
  }

  // ---------- the clock ----------

  /** When the current step began, as far as the request knows. */
  function Began(req: Request): Option<Time>
    requires req.progress.Some?
  {
    if req.progress.value.startedAt.Some? then req.progress.value.startedAt
    else if req.CurrentStep() == 0 then req.approvalStartAt else None
  }

  /** What the watcher makes of a pending request. A passed deadline expires it. A step that has had its
      time is followed by the next one, or the request is rejected, or it expires, as the step says; there
      being no next step, it expires too. Otherwise nothing happens but that a missing clock is started. */
  lemma WatchPending(s: System, now: Time)
    requires Inv(s) && s.req.Status() == Pending
    ensures var r := Next(s, Watch(now)).req;
            if s.req.deadline.Some? && s.req.deadline.value <= now then r.state == Some(State(now, Expired))
            else if !HasCurrentStep(s.req) || s.req.progress.None? || s.req.Steps()[s.req.CurrentStep()].timeout == 0 then r == s.req
            else
              var step := s.req.Steps()[s.req.CurrentStep()];
              if Began(s.req).None? then
                r == s.req.(progress := Some(s.req.progress.value.(startedAt := Some(now))))
              else if now < Began(s.req).value + step.timeout then r == s.req
              else if step.onTimeout == TimeoutReject then r.state == Some(State(now, Rejected))
              else if step.onTimeout == GotoNextStep && s.req.CurrentStep() + 1 < |s.req.Steps()| then
                && r.state == s.req.state && r.CurrentStep() == s.req.CurrentStep() + 1
                && r.progress.Some? && r.progress.value.startedAt == Some(now)
              else r.state == Some(State(now, Expired))
  {
    hide ValidSteps;
    hide GrantInv;
    hide ReviewsInv;
    hide RuleInv;
    hide TimeInv;
  }

  /** What the watcher makes of any other request: an approval expires with its access, and nothing else happens. */
  lemma WatchDecided(s: System, now: Time)
    requires Inv(s) && s.req.Status() != Pending
    ensures var r := Next(s, Watch(now)).req;
            if s.req.Status() == Approved && s.req.accessEndsAt.Some? && s.req.accessEndsAt.value <= now
            then r.state == Some(State(now, Expired)) else r == s.req
  {
    hide GrantInv;
    hide ReviewsInv;
    hide RuleInv;
    hide TimeInv;
  }

  // ---------- the match ----------

  /** Access lasts as long as asked for, if that is within what the rule allows, and otherwise as long as the
      rule allows; a rule that sets no maximum allows 24 hours. */
  lemma DurationExactly(req: Request, rule: Rule)
    ensures var limit := if rule.maxAccess > 0 then rule.maxAccess else 24 * 60 * 60 * 1_000_000_000;
            && MaxAccess(rule) == limit
            && AccessDuration(req, rule) <= limit
            && (0 < req.duration <= limit ==> AccessDuration(req, rule) == req.duration)
            && (req.duration == 0 || req.duration > limit ==> AccessDuration(req, rule) == limit)
  {
  }

  /** A review step that cannot be completed as it stands. */
  predicate IsUnusable(step: Step) {
    || step.reviewers == []
    || step.requirement == RequirementUnset
    || (step.requirement == COUNT && step.approvalCount == 0)
    || (step.requirement != COUNT && step.approvalCount != 0)
  }

  /** A rule that asks for reviews is refused exactly if it has no step or an unusable one. Otherwise the
      request waits at the first step, whose clock starts, and the length of access is fixed in seconds. */
  lemma ReviewBegins(s: System, rule: Rule, targetResolves: bool, now: Time)
    requires Inv(s) && s.req.Status() == Pending && s.req.rule.None? && rule.effect == REVIEW
    ensures var a := ReconcileAction(s.req, Some(rule), targetResolves, now);
            var bad := rule.steps.None? || rule.steps.value == [] || exists x :: x in rule.steps.value && IsUnusable(x);
            && (Apply(s, a).Err? <==> bad)
            && (if bad then Next(s, a) == s
                else && Next(s, a).req.state == s.req.state && Next(s, a).req.rule == Some(rule)
                     && Next(s, a).req.progress == Some(Progress(0, Some(now), []))
                     && Next(s, a).req.approvalStartAt.Some?
                     && Next(s, a).req.effectiveSeconds * SECOND <= AccessDuration(s.req, rule)
                                                          < (Next(s, a).req.effectiveSeconds + 1) * SECOND)
  {
    if rule.steps.Some? {
      assert ValidSteps(rule.steps.value) <==>
             rule.steps.value != [] && forall x :: x in rule.steps.value ==> !IsUnusable(x);
    }
    hide ValidSteps;
    hide IsUnusable;
    assert AccessDuration(s.req.(rule := Some(rule)), rule) == AccessDuration(s.req, rule);
    hide AccessDuration;
    hide GrantInv;
    hide ReviewsInv;
    hide EnsureAccessEndsAt;
  }

  /** No rule, or a rule that denies, rejects the request. */
  lemma NoRuleRejects(s: System, matched: Option<Rule>, targetResolves: bool, now: Time)
    requires Inv(s) && s.req.Status() == Pending && s.req.rule.None?
    requires matched.None? || matched.value.effect == DENY
    ensures var r := Next(s, ReconcileAction(s.req, matched, targetResolves, now)).req;
            r.state == Some(State(now, Rejected)) && r.rule == matched
  {
    hide ValidSteps;
    hide GrantInv;
    hide ReviewsInv;
    hide EnsureAccessEndsAt;
  }

  /** An approval whose access has ended expires when the controller is handed it, and gives no grant. */
  lemma EndedApprovalExpires(s: System, matched: Option<Rule>, targetResolves: bool, now: Time)
    requires Inv(s) && s.req.Status() == Approved && s.req.accessEndsAt.Some? && s.req.accessEndsAt.value <= now
    ensures var t := Next(s, ReconcileAction(s.req, matched, targetResolves, now));
            t.req.state == Some(State(now, Expired)) && t.grant == s.grant
  {
    hide ValidSteps;
    hide GrantInv;
    hide ReviewsInv;
    hide Initialize;
  }

  /** The grant after the controller was handed an item: an approved item whose access is fixed and not over,
      and whose target resolves, lets its subject in until that end, a final item takes the grant away, and
      any other leaves it as it is. */
  lemma GrantExactly(s: System, item: Request, matched: Option<Rule>, targetResolves: bool, now: Time)
    requires Handed(s, ReconcileAction(item, matched, targetResolves, now))
    ensures Next(s, ReconcileAction(item, matched, targetResolves, now)).grant ==
            if item.Status() == Approved && item.accessEndsAt.Some? && now < item.accessEndsAt.value && targetResolves
            then Some(Grant(if item.subject.Some? then item.subject.value else Ref(item.requester, ""), item.accessEndsAt))
            else if item.Status() in {Rejected, Revoked, Expired, Cancelled} then None
            else s.grant
  {
    if item.Status() == Approved {
      EndOfAccessKeeps(item, now);
    }
    hide Descends;
    hide Initialize;
    hide HistoryShape;
  }

  // ---------- what people can do ----------

  /** A decision is accepted from whoever is an eligible reviewer of the current step of a pending request, as
      long as it changes their own review of the step, still unapplied, or makes their first one. */
  lemma DecideExactly(s: System, user: Uid, decision: Decision, id: Uid)
    ensures var i := s.req.CurrentStep();
            var accepted :=
              && HasCurrentStep(s.req) && Eligible(s.dir, s.req.Steps()[i], s.req, user)
              && (if id in s.reviews
                  then && s.reviews[id] == Review(s.req.uid, user, i, s.reviews[id].decision)
                       && (s.req.progress.Some? ==>
                             forall a :: a in s.req.progress.value.lastSteps && a.review == id ==> a.stepIndex == i)
                  else !exists d, other :: other in s.reviews && s.reviews[other] == Review(s.req.uid, user, i, d));
            && (Apply(s, Decide(user, decision, id)).Ok? <==> accepted)
            && Next(s, Decide(user, decision, id)) ==
               if accepted then s.(reviews := s.reviews[id := Review(s.req.uid, user, s.req.CurrentStep(), decision)]) else s
  {
    hide Eligible;
    assert forall other :: IsOwnReview(s, other, user) <==>
                           other in s.reviews && s.reviews[other] == Review(s.req.uid, user, s.req.CurrentStep(), s.reviews[other].decision);
  }

  /** The requester can cancel a pending request and nobody can cancel any other; who is not the requester
      changes nothing. */
  lemma CancelExactly(s: System, user: Uid, now: Time)
    requires Inv(s)
    ensures var t := Next(s, Cancel(user, now));
            if user == s.req.requester && s.req.Status() == Pending
            then && t.req.state == Some(State(now, Cancelled)) && t == s.(req := t.req)
                 && t.req.lastStates == [s.req.state.value] + s.req.lastStates
            else t == s
  {
    hide GrantInv;
    hide ReviewsInv;
    hide RuleInv;
    hide TimeInv;
  }

  /** An administrator can revoke a pending or an approved request, and no other. */
  lemma RevokeExactly(s: System, now: Time)
    requires Inv(s)
    ensures var t := Next(s, Revoke(now));
            if s.req.Status() in {Pending, Approved}
            then && t.req.state == Some(State(now, Revoked)) && t == s.(req := t.req)
                 && t.req.lastStates == [s.req.state.value] + s.req.lastStates
            else t == s
  {
    hide GrantInv;
    hide ReviewsInv;
    hide RuleInv;
    hide TimeInv;
  }

  /** Deadline and duration are all that can be amended, by the requester, while the request is pending. */
  lemma AmendExactly(s: System, user: Uid, deadline: Option<Time>, duration: Duration)
    requires Inv(s)
    ensures Next(s, Amend(user, deadline, duration)) ==
            if user == s.req.requester && s.req.Status() == Pending
            then s.(req := s.req.(deadline := deadline, duration := duration)) else s
  {
    hide GrantInv;
    hide ReviewsInv;
    hide RuleInv;
    hide TimeInv;
  }

  // ---------- the grant watcher ----------

  /** The grant watcher removes a grant exactly when its time is over or its request is final, and touches
      nothing else. */
  lemma SweepExactly(s: System, now: Time)
    requires Inv(s) && s.grant.Some?
    ensures s.grant.value.notAfter.Some?
    ensures Next(s, SweepGrant(now)) ==
            if s.grant.value.notAfter.value <= now || s.req.Status() in {Rejected, Revoked, Expired, Cancelled}
            then s.(grant := None) else s
  {
    hide ReqInv;
    hide ReviewsInv;
  }
}

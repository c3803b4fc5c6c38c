/** The review controller as it runs: loops over reviewers and reviews, and one write to the store. */
module ReviewController {
  import opened Options
  import opened AccessModel

  /** The users behind the reviews with this decision. */
  function ByDecision(items: seq<Review>, decision: Decision): set<Uid> {
    set r | r in items && r.decision == decision :: r.user
  }

  lemma ByDecisionStep(items: seq<Review>, k: nat, decision: Decision)
    requires k < |items|
    ensures ByDecision(items[..k + 1], decision) ==
            ByDecision(items[..k], decision) + if items[k].decision == decision then {items[k].user} else {}
  {
    assert items[..k + 1] == items[..k] + [items[k]];
    var both := ByDecision(items[..k], decision) + if items[k].decision == decision then {items[k].user} else {};
    forall u | u in both
      ensures u in ByDecision(items[..k + 1], decision)
    {
      if u in ByDecision(items[..k], decision) {
        var r :| r in items[..k] && r.decision == decision && r.user == u;
        assert r in items[..k + 1];
      } else {
        assert items[k] in items[..k + 1];
      }
    }
  }

  /** The stored reviews of one step of the request, in some order. */
  ghost predicate ListsStep(items: seq<Review>, reviews: map<Uid, Review>, req: Uid, i: int) {
    && (forall r :: r in items ==> exists id :: id in reviews && reviews[id] == r && r.request == req && r.stepIndex == i)
    && (forall id :: id in reviews && reviews[id].request == req && reviews[id].stepIndex == i ==> reviews[id] in items)
  }

  lemma ListedVoters(items: seq<Review>, reviews: map<Uid, Review>, req: Uid, i: int, decision: Decision)
    requires ListsStep(items, reviews, req, i)
    ensures ByDecision(items, decision) == Voters(req, reviews, i, decision)
  {
    forall u | u in Voters(req, reviews, i, decision)
      ensures u in ByDecision(items, decision)
    {
      var id :| id in reviews && reviews[id].request == req && reviews[id].stepIndex == i
                && reviews[id].decision == decision && reviews[id].user == u;
      assert reviews[id] in items;
    }
  }

  class Controller {
    var req: Request
    var reviews: map<Uid, Review>
    var dir: Directory

    constructor (req: Request, reviews: map<Uid, Review>, dir: Directory)
      ensures this.req == req && this.reviews == reviews && this.dir == dir
    {
      this.req, this.reviews, this.dir := req, reviews, dir;
    }

    // ---------- reviewers ----------

    method UserMatchesAnyReviewer(u: Uid, reviewers: seq<Reviewer>) returns (ok: bool)
      ensures ok <==> exists r :: r in reviewers && MatchesReviewer(dir, u, r)
    {
      for k := 0 to |reviewers|
        invariant forall r :: r in reviewers[..k] ==> !MatchesReviewer(dir, u, r)
      {
        if MatchesReviewer(dir, u, reviewers[k]) {
          return true;
        }
        assert reviewers[..k + 1] == reviewers[..k] + [reviewers[k]];
      }
      assert reviewers[..|reviewers|] == reviewers;
      return false;
    }

    method IsEligibleReviewer(u: Uid, step: Step, next: Request) returns (ok: bool)
      ensures ok <==> Eligible(dir, step, next, u)
    {
      if !IsUserEligible(dir, u) || !SeparationOfDuties(step, u, next) {
        return false;
      }
      ok := UserMatchesAnyReviewer(u, step.reviewers);
    }

    /** The candidates that are eligible users and free of conflicting duties. */
    method AddUsers(candidates: set<Uid>, step: Step, next: Request) returns (added: set<Uid>)
      ensures added == set u | u in candidates && IsUserEligible(dir, u) && SeparationOfDuties(step, u, next)
    {
      added := {};
      var todo := candidates;
      while todo != {}
        invariant todo <= candidates
        invariant added == set u | u in candidates - todo && IsUserEligible(dir, u) && SeparationOfDuties(step, u, next)
        decreases todo
      {
        var u :| u in todo;
        if IsUserEligible(dir, u) && SeparationOfDuties(step, u, next) {
          added := added + {u};
        }
        todo := todo - {u};
      }
    }

    /** GetStepReviewerUsers: groups expanded, every user once. */
    method StepReviewerUsers(step: Step, next: Request) returns (seen: set<Uid>)
      ensures seen == EligibleReviewers(dir, step, next)
    {
      seen := {};
      for k := 0 to |step.reviewers|
        invariant seen == EligibleReviewers(dir, step.(reviewers := step.reviewers[..k]), next)
      {
        var candidates: set<Uid> := {};
        match step.reviewers[k] {
          case UserReviewer(user) =>
            candidates := {user};
          case GroupReviewer(group) =>
            if group in dir.groups {
              candidates := set u | u in dir.users && dir.groups[group] in dir.users[u].groups;
            }
          case NoReviewer =>
        }
        var added := AddUsers(candidates, step, next);
        OneMoreReviewer(dir, step, next, k, added);
        seen := seen + added;
      }
      assert step.(reviewers := step.reviewers[..|step.reviewers|]) == step;
    }

    // ---------- reviews ----------

    method IsStepRejected(step: Step, next: Request, items: seq<Review>) returns (rejected: bool)
      ensures rejected <==> ByDecision(items, REJECT) * EligibleReviewers(dir, step, next) != {}
    {
      rejected := HasEligible(step, next, items, REJECT);
    }

    method IsStepApprovedAny(step: Step, next: Request, items: seq<Review>) returns (approved: bool)
      ensures approved <==> ByDecision(items, APPROVE) * EligibleReviewers(dir, step, next) != {}
    {
      approved := HasEligible(step, next, items, APPROVE);
    }

    /** The first review with this decision by an eligible reviewer settles the question. */
    method HasEligible(step: Step, next: Request, items: seq<Review>, decision: Decision) returns (found: bool)
      ensures found <==> ByDecision(items, decision) * EligibleReviewers(dir, step, next) != {}
    {
      hide Eligible;
      ghost var eligible := EligibleReviewers(dir, step, next);
      for k := 0 to |items|
        invariant ByDecision(items[..k], decision) * eligible == {}
      {
        ByDecisionStep(items, k, decision);
        if items[k].decision != decision {
          continue;
        }
        var ok := IsEligibleReviewer(items[k].user, step, next);
        EligibleIsListed(dir, step, next, items[k].user);
        if ok {
          assert items[k] in items;
          assert items[k].user in ByDecision(items, decision) * eligible;
          return true;
        }
      }
      assert items[..|items|] == items;
      return false;
    }

    method IsStepApprovedAll(step: Step, next: Request, items: seq<Review>) returns (approved: bool)
      ensures approved <==>
                && EligibleReviewers(dir, step, next) != {}
                && EligibleReviewers(dir, step, next) <= ByDecision(items, APPROVE)
    {
      if |step.reviewers| == 0 {
        assert EligibleReviewers(dir, step, next) == {};
        return false;
      }
      var users := StepReviewerUsers(step, next);
      if users == {} {
        return false;
      }
      NobodyIsNameless(dir, step, next);
      hide Eligible;
      var approvals: set<Uid> := {};
      for k := 0 to |items|
        invariant approvals == ByDecision(items[..k], APPROVE) - {""}
      {
        ByDecisionStep(items, k, APPROVE);
        if items[k].decision != APPROVE || items[k].user == "" {
          continue;
        }
        approvals := approvals + {items[k].user};
      }
      assert items[..|items|] == items;
      return users <= approvals;
    }

    method IsStepApprovedCount(step: Step, next: Request, items: seq<Review>) returns (r: Result<bool>)
      ensures r == if step.approvalCount == 0 then Err(BadCount)
                   else Ok(|ByDecision(items, APPROVE) * EligibleReviewers(dir, step, next)| >= step.approvalCount)
    {
      if step.approvalCount == 0 {
        return Err(BadCount);
      }
      hide Eligible;
      ghost var eligible := EligibleReviewers(dir, step, next);
      var approvals: set<Uid> := {};
      for k := 0 to |items|
        invariant approvals == ByDecision(items[..k], APPROVE) * eligible
      {
        ByDecisionStep(items, k, APPROVE);
        if items[k].decision != APPROVE {
          continue;
        }
        var ok := IsEligibleReviewer(items[k].user, step, next);
        EligibleIsListed(dir, step, next, items[k].user);
        if !ok {
          continue;
        }
        approvals := approvals + {items[k].user};
      }
      assert items[..|items|] == items;
      return Ok(|approvals| >= step.approvalCount);
    }

    /** getCurrentStepReviews, over the reviews the store lists. */
    method CurrentStepReviews(i: int) returns (items: seq<Review>)
      ensures ListsStep(items, reviews, req.uid, i)
    {
      items := [];
      var todo := reviews.Keys;
      while todo != {}
        invariant todo <= reviews.Keys
        invariant forall r :: r in items ==> exists id :: id in reviews && reviews[id] == r && r.request == req.uid && r.stepIndex == i
        invariant forall id :: id in reviews.Keys - todo && reviews[id].request == req.uid && reviews[id].stepIndex == i ==>
                                 reviews[id] in items
        decreases todo
      {
        var id :| id in todo;
        if reviews[id].request == req.uid && reviews[id].stepIndex == i {
          items := items + [reviews[id]];
        }
        todo := todo - {id};
      }
    }

    // ---------- the reaction to an event ----------

    method Approve(next: Request, p: Progress, now: Time) returns (r: Result<Request>)
      requires 0 <= p.currentStep < |next.Steps()| && next.uid == req.uid
      ensures r == ApplyApproval(next, p, reviews, dir, now)
    {
      hide Eligible;
      hide SetState;
      var i := p.currentStep;
      var step := next.Steps()[i];
      var items := CurrentStepReviews(i);
      ListedVoters(items, reviews, next.uid, i, REJECT);
      ListedVoters(items, reviews, next.uid, i, APPROVE);
      hide ListsStep;
      hide ByDecision;
      hide Voters;
      hide EligibleReviewers;
      var rejected := IsStepRejected(step, next, items);
      if rejected {
        return Ok(SetState(next.(progress := Some(p)), Rejected, now));
      }
      var approved := false;
      match step.requirement {
        case ANY =>
          approved := IsStepApprovedAny(step, next, items);
        case ALL =>
          approved := IsStepApprovedAll(step, next, items);
        case COUNT =>
          var enough := IsStepApprovedCount(step, next, items);
          if enough.Err? {
            return Err(enough.problem);
          }
          approved := enough.value;
        case RequirementUnset =>
          return Err(BadRequirement);
      }
      if !approved {
        return Ok(next.(progress := Some(p)));
      }
      return Ok(GotoNextStepOrApprove(next, p, |next.Steps()|, now));
    }

    /** reconcile: reads the request, changes a copy, and writes the copy back unless there was an error. */
    method Reconcile(id: Uid, seen: Decision, force: bool, now: Time) returns (err: Option<Problem>)
      modifies this
      ensures reviews == old(reviews) && dir == old(dir)
      ensures var r := ReconcileReview(old(req), old(reviews), old(dir), id, seen, force, now);
              if r.Ok? then req == r.value && err.None? else req == old(req) && err == Some(r.problem)
    {
      if seen == DecisionUnset || id !in reviews || reviews[id].decision == DecisionUnset {
        return None;
      }
      var rev := reviews[id];
      if rev.request != req.uid || req.Status() != Pending {
        return None;
      }
      if req.rule.None? {
        return Some(NoRule);
      }
      if req.rule.value.steps.None? {
        return Some(NoReviewAction);
      }
      var steps := req.Steps();
      if steps == [] {
        return Some(NoSteps);
      }
      var p := ProgressOf(req, now);
      if p.currentStep < 0 || p.currentStep >= |steps| {
        return Some(BadCurrentStep);
      }
      if rev.stepIndex != p.currentStep {
        return None;
      }
      var ok := IsEligibleReviewer(rev.user, steps[p.currentStep], req);
      hide Eligible;
      hide ApplyApproval;
      hide SetState;
      if !ok {
        return None;
      }
      var applied := FindApplied(p.lastSteps, id);
      if applied.Some? && (p.lastSteps[applied.value].stepIndex != p.currentStep || !force) {
        return None;
      }
      p := Record(p, id, rev);
      if rev.decision == REJECT {
        req := SetState(req.(progress := Some(p)), Rejected, now);
        return None;
      }
      var r := Approve(req, p, now);
      if r.Err? {
        return Some(r.problem);
      }
      req := r.value;
      return None;
    }
  }

  lemma EligibleIsListed(dir: Directory, step: Step, req: Request, u: Uid)
    ensures Eligible(dir, step, req, u) <==> u in EligibleReviewers(dir, step, req)
  {
  }

  lemma NobodyIsNameless(dir: Directory, step: Step, req: Request)
    ensures "" !in EligibleReviewers(dir, step, req)
  {
  }

  /** The eligible reviewers of one more reviewer entry. */
  lemma OneMoreReviewer(dir: Directory, step: Step, req: Request, k: nat, added: set<Uid>)
    requires k < |step.reviewers|
    requires forall u :: u in added <==>
                           && IsUserEligible(dir, u) && SeparationOfDuties(step, u, req)
                           && MatchesReviewer(dir, u, step.reviewers[k])
    ensures EligibleReviewers(dir, step.(reviewers := step.reviewers[..k + 1]), req) ==
            EligibleReviewers(dir, step.(reviewers := step.reviewers[..k]), req) + added
  {
    var a, b := step.(reviewers := step.reviewers[..k]), step.(reviewers := step.reviewers[..k + 1]);
    assert b.reviewers == a.reviewers + [step.reviewers[k]];
    forall u
      ensures Eligible(dir, b, req, u) <==> Eligible(dir, a, req, u) || u in added
    {
      if exists r :: r in a.reviewers && MatchesReviewer(dir, u, r) {
        var r :| r in a.reviewers && MatchesReviewer(dir, u, r);
        assert r in b.reviewers;
      }
      assert step.reviewers[k] in b.reviewers;
    }
  }
}

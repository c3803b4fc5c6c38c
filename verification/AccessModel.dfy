/** Access requests, reviews and the people who decide on them. */
module AccessModel {
  import opened Options

  datatype Result<+T> = Ok(value: T) | Err(problem: Problem)

  datatype Problem =
    | NoRule | NoReviewAction | NoSteps | BadReviewAction | BadCurrentStep | BadRequirement | BadCount | BadEffect
    | NotPending | NotAllowed | NotOwner | NotRevocable | AlreadyApplied | Conflict

  type Uid = string

  /** Instants and durations in nanoseconds. */
  type Time = int

  const MILLISECOND: Time := 1_000_000
  const SECOND: Time := 1_000_000_000

  /** The durations people can set are whole milliseconds; zero stands for "not set". */
  type Duration = t: Time | t >= 0 && t % MILLISECOND == 0

  const DEFAULT_MAX_ACCESS: Duration := 24 * 3600 * SECOND
  const MAX_STATE_HISTORY: nat := 100

  // ---------- people ----------

  datatype User = User(name: string, isDisabled: bool, isLocked: bool, groups: set<string>)

  /** Users by uid, and the name of each group by the group's uid. */
  datatype Directory = Directory(users: map<Uid, User>, groups: map<Uid, string>)

  /** A reference to a user: by uid, or by name when the uid is empty. */
  datatype Ref = Ref(uid: Uid, name: string)

  /** Looking the reference up finds this user. */
  predicate Refers(dir: Directory, ref: Ref, u: Uid) {
    u in dir.users && if ref.uid != "" then u == ref.uid else ref.name != "" && dir.users[u].name == ref.name
  }

  // ---------- policy ----------

  datatype Reviewer = UserReviewer(user: Uid) | GroupReviewer(group: Uid) | NoReviewer

  datatype Requirement = RequirementUnset | ANY | ALL | COUNT

  datatype OnTimeout = TimeoutUnset | GotoNextStep | TimeoutReject

  /** A timeout of zero is no timeout. */
  datatype Step = Step(reviewers: seq<Reviewer>, requirement: Requirement, approvalCount: nat,
                       timeout: Duration, onTimeout: OnTimeout,
                       allowRequesterReview: bool, allowSubjectReview: bool)

  datatype Effect = EffectUnset | DENY | REVIEW | AUTO_APPROVE

  /** steps is None when the rule has no review action. */
  datatype Rule = Rule(effect: Effect, steps: Option<seq<Step>>, maxAccess: Duration)

  // ---------- requests and reviews ----------

  datatype Status = Unknown | Pending | Approved | Rejected | Revoked | Expired | Cancelled

  datatype State = State(createdAt: Time, status: Status)

  datatype Decision = DecisionUnset | APPROVE | REJECT

  datatype Review = Review(request: Uid, user: Uid, stepIndex: int, decision: Decision)

  /** A review the request has taken into account. */
  datatype Applied = Applied(review: Uid, stepIndex: int, decision: Decision, user: Uid)

  datatype Progress = Progress(currentStep: int, startedAt: Option<Time>, lastSteps: seq<Applied>)

  datatype Request = Request(
    uid: Uid, requester: Uid, subject: Option<Ref>, deadline: Option<Time>, duration: Duration,
    state: Option<State>, lastStates: seq<State>,
    rule: Option<Rule>, progress: Option<Progress>,
    effectiveSeconds: nat, approvalStartAt: Option<Time>, approvalEndAt: Option<Time>, accessEndsAt: Option<Time>)
  {
    function Status(): Status {
      if state.None? then Unknown else state.value.status
    }

    /** Whoever is to get access: the named subject, otherwise the requester. */
    function SubjectRef(): Ref {
      if subject.Some? then subject.value else Ref(requester, "")
    }

    /** The review steps of the matched rule; none without a review action. */
    function Steps(): seq<Step> {
      if rule.Some? && rule.value.steps.Some? then rule.value.steps.value else []
    }

    function CurrentStep(): int {
      if progress.Some? then progress.value.currentStep else 0
    }
  }

  /** States in which a decision has been taken for good. */
  predicate Decided(s: Status) {
    s != Unknown && s != Pending
  }

  /** setState: the previous state goes to the front of a bounded history. */
  function SetState(req: Request, status: Status, now: Time): Request {
    if req.state.Some? && req.state.value.status == status then req
    else
      var kept := if req.Status() == Unknown then req.lastStates else [req.state.value] + req.lastStates;
      req.(lastStates := if req.Status() != Unknown && |kept| > MAX_STATE_HISTORY then kept[..MAX_STATE_HISTORY]
                         else kept,
           state := Some(State(now, status)),
           approvalEndAt := if Decided(status) && req.approvalEndAt.None? then Some(now) else req.approvalEndAt)
  }

  // ---------- who may review ----------

  predicate MatchesReviewer(dir: Directory, u: Uid, reviewer: Reviewer) {
    match reviewer
    case UserReviewer(user) => user != "" && user == u
    case GroupReviewer(group) => group in dir.groups && u in dir.users && dir.groups[group] in dir.users[u].groups
    case NoReviewer => false
  }

  predicate IsUserEligible(dir: Directory, u: Uid) {
    u != "" && u in dir.users && !dir.users[u].isDisabled && !dir.users[u].isLocked
  }

  /** Requester and subject are told from the reviewer by their uids alone. */
  predicate SeparationOfDuties(step: Step, u: Uid, req: Request) {
    && (step.allowRequesterReview || u != req.requester)
    && (step.allowSubjectReview || u != req.SubjectRef().uid)
  }

  /** isEligibleReviewer. */
  predicate Eligible(dir: Directory, step: Step, req: Request, u: Uid) {
    && IsUserEligible(dir, u)
    && SeparationOfDuties(step, u, req)
    && exists r :: r in step.reviewers && MatchesReviewer(dir, u, r)
  }

  function EligibleReviewers(dir: Directory, step: Step, req: Request): set<Uid> {
    set u | u in dir.users && Eligible(dir, step, req, u)
  }

  /** The users who have taken this decision on the given step of the request. */
  function Voters(req: Uid, reviews: map<Uid, Review>, stepIndex: int, decision: Decision): set<Uid> {
    set r | r in reviews && reviews[r].request == req && reviews[r].stepIndex == stepIndex
            && reviews[r].decision == decision :: reviews[r].user
  }

  // ---------- when a step is over ----------

  /** Some eligible reviewer rejects. */
  predicate StepRejected(req: Request, reviews: map<Uid, Review>, dir: Directory, step: Step, i: int) {
    Voters(req.uid, reviews, i, REJECT) * EligibleReviewers(dir, step, req) != {}
  }

  /** Enough eligible reviewers approve. */
  predicate StepApproved(req: Request, reviews: map<Uid, Review>, dir: Directory, step: Step, i: int) {
    var approvers, eligible := Voters(req.uid, reviews, i, APPROVE), EligibleReviewers(dir, step, req);
    match step.requirement
    case ANY => approvers * eligible != {}
    case ALL => eligible != {} && eligible <= approvers
    case COUNT => step.approvalCount > 0 && |approvers * eligible| >= step.approvalCount
    case RequirementUnset => false
  }

  function GotoNextStepOrApprove(req: Request, p: Progress, count: nat, now: Time): Request {
    if p.currentStep + 1 >= count then SetState(req.(progress := Some(p)), Approved, now)
    else req.(progress := Some(p.(currentStep := p.currentStep + 1, startedAt := Some(now))))
  }

  /** applyApproval. */
  function ApplyApproval(req: Request, p: Progress, reviews: map<Uid, Review>, dir: Directory, now: Time): Result<Request>
    requires 0 <= p.currentStep < |req.Steps()|
  {
    var step := req.Steps()[p.currentStep];
    if StepRejected(req, reviews, dir, step, p.currentStep) then
      Ok(SetState(req.(progress := Some(p)), Rejected, now))
    else if step.requirement == RequirementUnset then Err(BadRequirement)
    else if step.requirement == COUNT && step.approvalCount == 0 then Err(BadCount)
    else if StepApproved(req, reviews, dir, step, p.currentStep) then
      Ok(GotoNextStepOrApprove(req, p, |req.Steps()|, now))
    else Ok(req.(progress := Some(p)))
  }

  function FindAppliedFrom(steps: seq<Applied>, review: Uid, from: nat): (r: Option<nat>)
    requires from <= |steps|
    ensures r.Some? ==> from <= r.value < |steps| && steps[r.value].review == review
    ensures forall i :: from <= i < |steps| && steps[i].review == review ==> r.Some? && r.value <= i
    decreases |steps| - from
  {
    if from == |steps| then None
    else if steps[from].review == review then Some(from)
    else FindAppliedFrom(steps, review, from + 1)
  }

  /** Position of the first applied entry for this review. */
  function FindApplied(steps: seq<Applied>, review: Uid): (r: Option<nat>)
    ensures r.Some? ==> r.value < |steps| && steps[r.value].review == review
    ensures forall i :: 0 <= i < |steps| && steps[i].review == review ==> r.Some? && r.value <= i
  {
    FindAppliedFrom(steps, review, 0)
  }

  /** Notes the decision: in the entry the review already has, or in a new one. */
  function Record(p: Progress, id: Uid, rev: Review): Progress {
    var found := FindApplied(p.lastSteps, id);
    if found.Some? then
      p.(lastSteps := p.lastSteps[found.value := p.lastSteps[found.value].(decision := rev.decision)])
    else p.(lastSteps := p.lastSteps + [Applied(id, rev.stepIndex, rev.decision, rev.user)])
  }

  function ProgressOf(req: Request, now: Time): Progress {
    if req.progress.Some? then req.progress.value else Progress(0, Some(now), [])
  }

  /** Does the delivery of this review still matter to the request? */
  predicate Relevant(req: Request, reviews: map<Uid, Review>, dir: Directory, id: Uid, force: bool, now: Time) {
    var p := ProgressOf(req, now);
    && id in reviews
    && 0 <= p.currentStep < |req.Steps()|
    && reviews[id].stepIndex == p.currentStep
    && Eligible(dir, req.Steps()[p.currentStep], req, reviews[id].user)
    && (var found := FindApplied(p.lastSteps, id);
        found.None? || (p.lastSteps[found.value].stepIndex == p.currentStep && force))
  }

  /** The review controller's reaction to the event that review `id` was added or changed.
      `seen` is the decision the event carries; the stored review is what counts. */
  function ReconcileReview(req: Request, reviews: map<Uid, Review>, dir: Directory,
                           id: Uid, seen: Decision, force: bool, now: Time): Result<Request>
  {
    if seen == DecisionUnset || id !in reviews || reviews[id].decision == DecisionUnset then Ok(req)
    else if reviews[id].request != req.uid || req.Status() != Pending then Ok(req)
    else if req.rule.None? then Err(NoRule)
    else if req.rule.value.steps.None? then Err(NoReviewAction)
    else if req.Steps() == [] then Err(NoSteps)
    else if !(0 <= ProgressOf(req, now).currentStep < |req.Steps()|) then Err(BadCurrentStep)
    else if !Relevant(req, reviews, dir, id, force, now) then Ok(req)
    else
      var p := Record(ProgressOf(req, now), id, reviews[id]);
      if reviews[id].decision == REJECT then Ok(SetState(req.(progress := Some(p)), Rejected, now))
      else ApplyApproval(req, p, reviews, dir, now)
  }

  // ---------- deadlines and timeouts ----------

  function StepStartedAt(req: Request): Option<Time>
    requires req.progress.Some?
  {
    if req.progress.value.startedAt.Some? then req.progress.value.startedAt
    else if req.progress.value.currentStep == 0 then req.approvalStartAt
    else None
  }

  /** The current step has a timeout and it has passed. */
  predicate StepTimedOut(req: Request, now: Time) {
    && req.progress.Some? && 0 <= req.CurrentStep() < |req.Steps()|
    && req.Steps()[req.CurrentStep()].timeout > 0
    && StepStartedAt(req).Some?
    && StepStartedAt(req).value + req.Steps()[req.CurrentStep()].timeout <= now
  }

  /** The watcher's look at one request. */
  function CheckRequest(req: Request, now: Time): Request {
    match req.Status()
    case Pending =>
      if req.deadline.Some? && req.deadline.value <= now then SetState(req, Expired, now)
      else if req.progress.None? || !(0 <= req.CurrentStep() < |req.Steps()|) then req
      else
        var step, p := req.Steps()[req.CurrentStep()], req.progress.value;
        if step.timeout <= 0 then req
        else if StepStartedAt(req).None? then req.(progress := Some(p.(startedAt := Some(now))))
        else if !StepTimedOut(req, now) then req
        else (match step.onTimeout
              case GotoNextStep =>
                if p.currentStep + 1 >= |req.Steps()| then SetState(req, Expired, now)
                else req.(progress := Some(p.(currentStep := p.currentStep + 1, startedAt := Some(now))))
              case TimeoutReject => SetState(req, Rejected, now)
              case TimeoutUnset => SetState(req, Expired, now))
    case Approved =>
      if req.accessEndsAt.Some? && req.accessEndsAt.value <= now then SetState(req, Expired, now) else req
    case _ => req
  }

  // ---------- initialization and grants ----------

  function MaxAccess(rule: Rule): (d: Duration)
    ensures d > 0
  {
    if rule.maxAccess > 0 then rule.maxAccess else DEFAULT_MAX_ACCESS
  }

  /** getAccessDuration: what was asked for, but no more than the rule allows. */
  function AccessDuration(req: Request, rule: Rule): (d: Duration)
    ensures 0 < d <= MaxAccess(rule)
  {
    if req.duration <= 0 || req.duration > MaxAccess(rule) then MaxAccess(rule) else req.duration
  }

  predicate ValidStep(step: Step) {
    && step.reviewers != []
    && step.requirement != RequirementUnset
    && (step.requirement == COUNT <==> step.approvalCount != 0)
  }

  predicate ValidSteps(steps: seq<Step>) {
    steps != [] && forall s :: s in steps ==> ValidStep(s)
  }

  /** initializeRequest, with the rule the policies gave, if any. */
  function Initialize(req: Request, matched: Option<Rule>, now: Time): Result<Request> {
    if matched.None? then Ok(SetState(req, Rejected, now))
    else
      var rule := matched.value;
      var r := req.(rule := matched);
      var timed := r.(effectiveSeconds := AccessDuration(r, rule) / SECOND);
      match rule.effect
      case DENY => Ok(SetState(r, Rejected, now))
      case REVIEW =>
        if rule.steps.None? then Err(NoReviewAction)
        else if !ValidSteps(rule.steps.value) then Err(BadReviewAction)
        else
          var s := SetState(timed, Pending, now);
          Ok(s.(approvalStartAt := if s.approvalStartAt.None? then Some(now) else s.approvalStartAt,
                progress := if s.progress.None? then Some(Progress(0, Some(now), [])) else s.progress))
      case AUTO_APPROVE =>
        var s := SetState(timed, Approved, now);
        Ok(s.(approvalStartAt := if s.approvalStartAt.None? then Some(now) else s.approvalStartAt))
      case EffectUnset => Err(BadEffect)
  }

  /** ensureAccessEndsAt. */
  function EnsureAccessEndsAt(req: Request, now: Time): Request {
    if req.accessEndsAt.Some? || req.rule.None? then req
    else
      var d := if req.effectiveSeconds > 0 then req.effectiveSeconds * SECOND else AccessDuration(req, req.rule.value);
      var anchor := if req.approvalEndAt.Some? then req.approvalEndAt.value else now;
      req.(approvalEndAt := Some(anchor), accessEndsAt := Some(anchor + d))
  }

  predicate NeedsInitialization(req: Request) {
    req.Status() == Unknown || (req.Status() == Pending && req.rule.None?)
  }

  /** What the request controller makes of a request before it looks at the grant. */
  function ReconcileRequest(req: Request, matched: Option<Rule>, now: Time): Result<Request> {
    var first := if NeedsInitialization(req) then Initialize(req, matched, now) else Ok(req);
    if first.Err? || first.value.Status() != Approved then first
    else
      var timed := EnsureAccessEndsAt(first.value, now);
      if timed.accessEndsAt.Some? && timed.accessEndsAt.value <= now then Ok(SetState(timed, Expired, now)) else Ok(timed)
  }
}

/** One access request with everything that acts on it, as a state machine. An action that writes the
    request or a review does so in one piece with reading it; the request controller is handed an
    item some earlier list or event contained. A refused action leaves the system as it was. */
module AccessSystem {
  import opened Options
  import opened AccessModel

  /** The policy trigger that lets the subject in until `notAfter`. */
  datatype Grant = Grant(subject: Ref, notAfter: Option<Time>)

  datatype System = System(req: Request, reviews: map<Uid, Review>, dir: Directory, grant: Option<Grant>)

  datatype Action =
    | ReconcileAction(item: Request, matched: Option<Rule>, targetResolves: bool, now: Time)  // request controller
    | DeliverReview(review: Uid, seen: Decision, force: bool, now: Time)       // review controller
    | Watch(now: Time)                                                         // request watcher
    | SweepGrant(now: Time)                                                    // grant watcher
    | Decide(user: Uid, decision: Decision, review: Uid)                       // a reviewer sets a decision
    | DeleteReview(review: Uid)                                                // an administrator
    | ForeignReview(review: Uid, content: Review)                              // on some other request
    | Cancel(user: Uid, now: Time)                                             // the requester
    | Amend(user: Uid, deadline: Option<Time>, duration: Duration)                 // the requester
    | Revoke(now: Time)                                                        // an administrator
    | ChangeDirectory(dir: Directory)                                          // users and groups change

  /** CurrentStep succeeds. */
  predicate HasCurrentStep(req: Request) {
    req.Status() == Pending && 0 <= req.CurrentStep() < |req.Steps()|
  }

  predicate IsOwnReview(s: System, id: Uid, user: Uid) {
    && id in s.reviews && s.reviews[id].request == s.req.uid
    && s.reviews[id].user == user && s.reviews[id].stepIndex == s.req.CurrentStep()
  }

  /** A review counts as applied, and can no longer be changed, once its step has been left. */
  predicate HasBeenApplied(req: Request, id: Uid) {
    req.progress.Some? &&
    exists a :: a in req.progress.value.lastSteps && a.review == id && a.stepIndex != req.CurrentStep()
  }

  /** SetReviewDecision: changes the reviewer's review of the current step, or creates one. */
  function ApplyDecide(s: System, user: Uid, decision: Decision, id: Uid): Result<System> {
    if !HasCurrentStep(s.req) then Err(NotPending)
    else if !Eligible(s.dir, s.req.Steps()[s.req.CurrentStep()], s.req, user) then Err(NotAllowed)
    else if IsOwnReview(s, id, user) then
      if HasBeenApplied(s.req, id) then Err(AlreadyApplied)
      else Ok(s.(reviews := s.reviews[id := s.reviews[id].(decision := decision)]))
    else if id in s.reviews || (exists other :: other in s.reviews && IsOwnReview(s, other, user)) then Err(NotAllowed)
    else Ok(s.(reviews := s.reviews[id := Review(s.req.uid, user, s.req.CurrentStep(), decision)]))
  }

  /** The request controller: settle the item it is handed, and only when there is nothing to settle
      the grant. The item is not read again: writing back a settled copy of an outdated item is
      refused, but the grant follows the item, outdated or not. */
  function ApplyReconcile(s: System, item: Request, matched: Option<Rule>, targetResolves: bool, now: Time): Result<System> {
    var r := ReconcileRequest(item, matched, now);
    if r.Err? then Err(r.problem)
    else if r.value != item then if item == s.req then Ok(s.(req := r.value)) else Err(Conflict)
    else match item.Status()
      case Approved =>
        if item.rule.None? || !targetResolves then Ok(s)
        else Ok(s.(grant := Some(Grant(item.SubjectRef(), item.accessEndsAt))))
      case Unknown => Ok(s)
      case Pending => Ok(s)
      case _ => Ok(s.(grant := None))
  }

  predicate IsOrphan(s: System, now: Time) {
    s.grant.Some? &&
    ((s.grant.value.notAfter.Some? && s.grant.value.notAfter.value <= now)
     || s.req.Status() in {Rejected, Revoked, Expired, Cancelled})
  }

  function Apply(s: System, a: Action): Result<System> {
    match a
    case ReconcileAction(item, matched, targetResolves, now) => ApplyReconcile(s, item, matched, targetResolves, now)
    case DeliverReview(id, seen, force, now) =>
      var r := ReconcileReview(s.req, s.reviews, s.dir, id, seen, force, now);
      if r.Err? then Err(r.problem) else Ok(s.(req := r.value))
    case Watch(now) => Ok(s.(req := CheckRequest(s.req, now)))
    case SweepGrant(now) => Ok(if IsOrphan(s, now) then s.(grant := None) else s)
    case Decide(user, decision, id) => ApplyDecide(s, user, decision, id)
    case DeleteReview(id) => Ok(s.(reviews := s.reviews - {id}))
    case ForeignReview(id, content) =>
      if (id in s.reviews && s.reviews[id].request == s.req.uid) || content.request == s.req.uid then Err(NotAllowed)
      else Ok(s.(reviews := s.reviews[id := content]))
    case Cancel(user, now) =>
      if user != s.req.requester then Err(NotOwner)
      else if s.req.Status() == Cancelled then Ok(s)
      else if Decided(s.req.Status()) then Err(NotPending)
      else Ok(s.(req := SetState(s.req, Cancelled, now)))
    case Amend(user, deadline, duration) =>
      if user != s.req.requester then Err(NotOwner)
      else if Decided(s.req.Status()) then Err(NotPending)
      else Ok(s.(req := s.req.(deadline := deadline, duration := duration)))
    case Revoke(now) =>
      if s.req.Status() == Revoked then Ok(s)
      else if s.req.Status() !in {Unknown, Pending, Approved} then Err(NotRevocable)
      else Ok(s.(req := SetState(s.req, Revoked, now)))
    case ChangeDirectory(dir) => Ok(s.(dir := dir))
  }

  /** A refused action changes nothing. */
  function Next(s: System, a: Action): System {
    var r := Apply(s, a);
    if r.Ok? then r.value else s
  }

  /** CreateRequest: pending, nothing matched yet, no review and no grant of its own. */
  predicate Init(s: System) {
    && s.req.state.Some? && s.req.Status() == Pending
    && s.req.lastStates == [] && s.req.rule.None? && s.req.progress.None? && s.req.effectiveSeconds == 0
    && s.req.approvalStartAt.None? && s.req.approvalEndAt.None? && s.req.accessEndsAt.None?
    && s.grant.None?
    && s.req.requester != ""
    && (s.req.subject.Some? ==> s.req.subject.value.uid != "" || s.req.subject.value.name != "")
    && forall id :: id in s.reviews ==> s.reviews[id].request != s.req.uid
  }

  /** The item is the request as it was at some point up to j. */
  ghost predicate WasSeen(ss: seq<System>, j: nat, item: Request) {
    exists i :: 0 <= i <= j && i < |ss| && ss[i].req == item
  }

  /** A run: systems ss[0], ss[1], ... linked by the actions, with no item made up. */
  ghost predicate IsRun(ss: seq<System>, acts: seq<Action>) {
    && |ss| == |acts| + 1
    && Init(ss[0])
    && (forall j :: 0 <= j < |acts| ==> ss[j + 1] == Next(ss[j], acts[j]))
    && forall j :: 0 <= j < |acts| && acts[j].ReconcileAction? ==> WasSeen(ss, j, acts[j].item)
  }
}

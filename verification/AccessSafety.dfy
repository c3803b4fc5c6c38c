/** What every run of the access-request workflow keeps. */
module AccessSafety {
  import opened Options
  import opened AccessModel
  import opened AccessSystem

  predicate Final(s: Status) {
    s in {Rejected, Revoked, Expired, Cancelled}
  }

  /** The request is approved or has been. */
  predicate WasApproved(req: Request) {
    req.Status() == Approved || exists st :: st in req.lastStates && st.status == Approved
  }

  /** The statuses the request has been in, latest first, form a path of the workflow. */
  predicate HistoryShape(req: Request) {
    var past := req.lastStates;
    match req.Status()
    case Unknown => false
    case Pending => past == []
    case Approved => |past| == 1 && past[0].status == Pending
    case Rejected => |past| == 1 && past[0].status == Pending
    case Cancelled => |past| == 1 && past[0].status == Pending
    case _ => (|past| == 1 && past[0].status == Pending)
              || (|past| == 2 && past[0].status == Approved && past[1].status == Pending)
  }

  predicate RuleInv(req: Request) {
    && (req.rule.None? ==> req.progress.None? && req.effectiveSeconds == 0 && !WasApproved(req))
    && (req.rule.Some? && req.Status() == Pending ==> req.rule.value.effect == REVIEW)
    && (WasApproved(req) ==> req.rule.value.effect in {REVIEW, AUTO_APPROVE})
    && (req.rule.Some? && req.rule.value.effect == REVIEW ==>
          && ValidSteps(req.Steps()) && req.progress.Some? && 0 <= req.CurrentStep() < |req.Steps()|
          && (WasApproved(req) ==> req.CurrentStep() == |req.Steps()| - 1))
    && (req.rule.Some? && req.rule.value.effect != REVIEW ==> req.progress.None?)
  }

  /** The request was approved at this moment. */
  predicate ApprovedSince(req: Request, t: Time) {
    req.state == Some(State(t, Approved)) || State(t, Approved) in req.lastStates
  }

  predicate TimeInv(req: Request) {
    && (req.Status() == Pending ==> req.approvalEndAt.None?)
    && (req.Status() != Pending ==> req.approvalEndAt.Some?)
    && (req.rule.Some? ==> req.effectiveSeconds * SECOND <= MaxAccess(req.rule.value))
    && (WasApproved(req) ==> req.approvalEndAt.Some? && ApprovedSince(req, req.approvalEndAt.value))
    && (req.accessEndsAt.Some? && req.effectiveSeconds > 0 && req.approvalEndAt.Some? ==>
          req.accessEndsAt.value == req.approvalEndAt.value + req.effectiveSeconds * SECOND)
    && (req.accessEndsAt.Some? ==>
          && WasApproved(req) && req.rule.Some? && req.approvalEndAt.Some?
          && req.approvalEndAt.value < req.accessEndsAt.value
          && req.accessEndsAt.value <= req.approvalEndAt.value + MaxAccess(req.rule.value))
  }

  predicate ReqInv(req: Request) {
    req.state.Some? && HistoryShape(req) && RuleInv(req) && TimeInv(req)
  }

  predicate GrantInv(s: System) {
    s.grant.Some? ==>
      WasApproved(s.req) && s.req.accessEndsAt.Some?
      && s.grant.value == Grant(s.req.SubjectRef(), s.req.accessEndsAt)
  }

  /** No review is ahead of the step the request is at. */
  predicate ReviewsInv(s: System) {
    forall id :: id in s.reviews && s.reviews[id].request == s.req.uid ==>
                   s.req.rule.Some? && s.reviews[id].stepIndex <= s.req.CurrentStep()
  }

  predicate Inv(s: System) {
    ReqInv(s.req) && GrantInv(s) && ReviewsInv(s)
  }

  /** The one status change SetState makes, in a bounded history that never overflows here. */
  lemma SetStateEffect(req: Request, status: Status, now: Time)
    requires req.state.Some? && req.Status() != Unknown && req.Status() != status && |req.lastStates| < MAX_STATE_HISTORY
    ensures var r := SetState(req, status, now);
            && r.Status() == status && r.state == Some(State(now, status))
            && r.lastStates == [req.state.value] + req.lastStates
            && r == req.(state := r.state, lastStates := r.lastStates, approvalEndAt := r.approvalEndAt)
            && (req.approvalEndAt.Some? || !Decided(status) ==> r.approvalEndAt == req.approvalEndAt)
            && (req.approvalEndAt.None? && Decided(status) ==> r.approvalEndAt == Some(now))
  {
  }

  /** What one action may do to a request. */
  predicate Evolves(r: Request, r': Request) {
    && r'.uid == r.uid && r'.requester == r.requester && r'.subject == r.subject
    && r'.state.Some?
    && (r'.state == r.state ==> r'.lastStates == r.lastStates)
    && (r'.state != r.state ==>
          r.state.Some? && r'.lastStates == [r.state.value] + r.lastStates && !Final(r.Status())
          && (r.Status() == Approved ==> r'.Status() in {Revoked, Expired}))
    && (r.rule.Some? ==> r'.rule == r.rule && r'.effectiveSeconds == r.effectiveSeconds)
    && (r.accessEndsAt.Some? ==> r'.accessEndsAt == r.accessEndsAt)
    && r.CurrentStep() <= r'.CurrentStep() <= r.CurrentStep() + 1
    && (r'.CurrentStep() != r.CurrentStep() ==> r.Status() == r'.Status() == Pending)
  }

  /** Evolves, over any number of actions. */
  predicate Descends(r: Request, r': Request) {
    && r'.uid == r.uid && r'.requester == r.requester && r'.subject == r.subject
    && (Final(r.Status()) ==> r'.state == r.state && r'.lastStates == r.lastStates)
    && (WasApproved(r) ==> WasApproved(r'))
    && (r.Status() == Approved ==> r'.Status() in {Approved, Revoked, Expired})
    && (r.rule.Some? ==> r'.rule == r.rule && r'.effectiveSeconds == r.effectiveSeconds)
    && (r.accessEndsAt.Some? ==> r'.accessEndsAt == r.accessEndsAt)
    && r.CurrentStep() <= r'.CurrentStep()
    && |r.lastStates| <= |r'.lastStates|
    && r.lastStates == r'.lastStates[|r'.lastStates| - |r.lastStates|..]
    && (r.state.Some? ==> r'.state == r.state || r.state.value in r'.lastStates)
  }

  lemma DescendsStep(r: Request, m: Request, r': Request)
    requires Descends(r, m) && Evolves(m, r')
    ensures Descends(r, r')
  {
    if WasApproved(m) {
      ApprovalIsRemembered(m, r');
    }
    if r'.state != m.state {
      assert r'.lastStates[|r'.lastStates| - |r.lastStates|..] == m.lastStates[|m.lastStates| - |r.lastStates|..];
      assert r'.lastStates[0] == m.state.value;
      assert forall st :: st in m.lastStates ==> st in r'.lastStates;
    }
  }

  /** The item the request controller is handed is a sound earlier form of the request. */
  predicate Handed(s: System, a: Action) {
    a.ReconcileAction? ==> ReqInv(a.item) && Descends(a.item, s.req)
  }

  lemma InitInv(s: System)
    requires Init(s)
    ensures Inv(s)
  {
  }

  lemma SetStateKeeps(req: Request, status: Status, now: Time)
    requires ReqInv(req) && !Final(req.Status()) && Decided(status) && status != Approved
    requires req.Status() == Approved ==> status in {Revoked, Expired}
    ensures ReqInv(SetState(req, status, now)) && Evolves(req, SetState(req, status, now))
    ensures WasApproved(SetState(req, status, now)) <==> WasApproved(req)
  {
    SetStateEffect(req, status, now);
    var r := SetState(req, status, now);
    hide SetState;
    assert r.lastStates[0] == req.state.value;
    assert req.lastStates != [] ==> r.lastStates[1] == req.lastStates[0];
    hide ValidSteps;
  }

  lemma ApproveKeeps(req: Request, now: Time)
    requires ReqInv(req) && req.Status() == Pending && req.rule.Some? && req.CurrentStep() == |req.Steps()| - 1
    ensures ReqInv(SetState(req, Approved, now)) && Evolves(req, SetState(req, Approved, now))
  {
    SetStateEffect(req, Approved, now);
    hide SetState;
    hide ValidSteps;
  }

  lemma WatchKeeps(req: Request, now: Time)
    requires ReqInv(req)
    ensures ReqInv(CheckRequest(req, now)) && Evolves(req, CheckRequest(req, now))
    ensures WasApproved(CheckRequest(req, now)) <==> WasApproved(req)
  {
    hide SetState;
    hide ValidSteps;
    if req.Status() == Pending {
      SetStateKeeps(req, Expired, now);
      SetStateKeeps(req, Rejected, now);
    } else if req.Status() == Approved {
      SetStateKeeps(req, Expired, now);
    }
  }

  lemma DeliverKeeps(req: Request, reviews: map<Uid, Review>, dir: Directory,
                     id: Uid, seen: Decision, force: bool, now: Time)
    requires ReqInv(req)
    ensures var r := ReconcileReview(req, reviews, dir, id, seen, force, now);
            r.Ok? ==> ReqInv(r.value) && Evolves(req, r.value)
  {
    hide SetState;
    hide ValidSteps;
    hide StepApproved;
    hide StepRejected;
    hide Eligible;
    var r := ReconcileReview(req, reviews, dir, id, seen, force, now);
    if r.Ok? && r.value != req {
      var p := Record(ProgressOf(req, now), id, reviews[id]);
      var noted := req.(progress := Some(p));
      assert ReqInv(noted) && Evolves(req, noted);
      SetStateKeeps(noted, Rejected, now);
      if req.CurrentStep() == |req.Steps()| - 1 {
        ApproveKeeps(noted, now);
      }
    }
  }

  lemma InitializeKeeps(req: Request, matched: Option<Rule>, now: Time)
    requires ReqInv(req) && req.Status() == Pending && req.rule.None?
    ensures var r := Initialize(req, matched, now);
            r.Ok? ==>
              && ReqInv(r.value) && Evolves(req, r.value)
              && (r.value.Status() == Approved ==> r.value.approvalEndAt == Some(now))
  {
    if matched.None? {
      SetStateEffect(req, Rejected, now);
      hide SetState;
      hide ValidSteps;
    } else {
      MatchKeeps(req, matched.value, now);
      hide Initialize;
    }
  }

  lemma MatchKeeps(req: Request, rule: Rule, now: Time)
    requires ReqInv(req) && req.Status() == Pending && req.rule.None?
    ensures var r := Initialize(req, Some(rule), now);
            r.Ok? ==>
              && ReqInv(r.value) && Evolves(req, r.value)
              && (r.value.Status() == Approved ==> r.value.approvalEndAt == Some(now))
  {
    assert forall x :: ValidSteps(x) ==> x != [];
    hide ValidSteps;
    var r := req.(rule := Some(rule));
    var timed := r.(effectiveSeconds := AccessDuration(r, rule) / SECOND);
    AccessDurationInSeconds(r, rule);
    SetStateEffect(r, Rejected, now);
    SetStateEffect(timed, Approved, now);
    assert SetState(timed, Pending, now) == timed;
    hide SetState;
    hide AccessDuration;
    hide MaxAccess;
  }

  lemma EndOfAccessKeeps(req: Request, now: Time)
    requires ReqInv(req) && req.Status() == Approved
    ensures var r := EnsureAccessEndsAt(req, now);
            && ReqInv(r) && Evolves(req, r) && r.state == req.state && r.lastStates == req.lastStates
            && r.accessEndsAt.Some? && (req.approvalEndAt == Some(now) && req.accessEndsAt.None? ==> r.accessEndsAt.value > now)
  {
    hide ValidSteps;
  }

  lemma ReconcileKeeps(req: Request, matched: Option<Rule>, now: Time)
    requires ReqInv(req)
    ensures var r := ReconcileRequest(req, matched, now);
            r.Ok? ==> ReqInv(r.value) && Evolves(req, r.value)
  {
    hide Initialize;
    hide EnsureAccessEndsAt;
    hide ValidSteps;
    hide SetState;
    var r := ReconcileRequest(req, matched, now);
    if r.Ok? {
      if NeedsInitialization(req) {
        InitializeKeeps(req, matched, now);
        var first := Initialize(req, matched, now).value;
        if first.Status() == Approved {
          EndOfAccessKeeps(first, now);
        }
      } else if req.Status() == Approved {
        EndOfAccessKeeps(req, now);
        SetStateKeeps(EnsureAccessEndsAt(req, now), Expired, now);
      }
    }
  }

  /** Whole seconds round the granted time down. */
  lemma AccessDurationInSeconds(req: Request, rule: Rule)
    ensures 0 <= AccessDuration(req, rule) / SECOND * SECOND <= AccessDuration(req, rule)
  {
  }

  lemma AmendKeeps(req: Request, deadline: Option<Time>, duration: Duration)
    requires ReqInv(req)
    ensures var r := req.(deadline := deadline, duration := duration);
            ReqInv(r) && Evolves(req, r)
  {
    hide ValidSteps;
  }

  lemma RequestKeeps(s: System, a: Action)
    requires ReqInv(s.req)
    ensures ReqInv(Next(s, a).req) && Evolves(s.req, Next(s, a).req)
  {
    match a {
      case ReconcileAction(item, matched, targetResolves, now) =>
        ReconcileKeeps(s.req, matched, now);
        hide ReconcileRequest;
      case DeliverReview(id, seen, force, now) =>
        DeliverKeeps(s.req, s.reviews, s.dir, id, seen, force, now);
        hide ReconcileReview;
      case Watch(now) =>
        WatchKeeps(s.req, now);
        hide CheckRequest;
      case Cancel(user, now) =>
        if s.req.Status() == Pending {
          SetStateKeeps(s.req, Cancelled, now);
        }
        hide SetState;
      case Revoke(now) =>
        if !Final(s.req.Status()) {
          SetStateKeeps(s.req, Revoked, now);
        }
        hide SetState;
      case Amend(user, deadline, duration) =>
        AmendKeeps(s.req, deadline, duration);
      case _ =>
    }
    hide ReqInv;
  }

  lemma ApprovalIsRemembered(r: Request, r': Request)
    requires Evolves(r, r') && WasApproved(r)
    ensures WasApproved(r')
  {
    if r'.state != r.state {
      assert r'.lastStates[0] == r.state.value;
      assert forall st :: st in r.lastStates ==> st in r'.lastStates;
    }
  }

  /** The action hands the request controller an approved item whose access is fixed and has not ended. */
  predicate GivesGrant(a: Action) {
    && a.ReconcileAction? && a.targetResolves && a.item.Status() == Approved
    && a.item.accessEndsAt.Some? && a.item.accessEndsAt.value > a.now
  }

  /** A grant is written by those actions and no others, whatever has become of the request meanwhile. */
  lemma GrantChange(s: System, a: Action)
    requires Handed(s, a)
    ensures GivesGrant(a) ==>
              Next(s, a).req == s.req && Next(s, a).grant == Some(Grant(a.item.SubjectRef(), a.item.accessEndsAt))
    ensures !GivesGrant(a) ==> Next(s, a).grant in {s.grant, None}
  {
    if a.ReconcileAction? && a.item.Status() == Approved {
      EndOfAccessKeeps(a.item, a.now);
    }
    hide Descends;
    hide ReconcileReview;
    hide CheckRequest;
    hide Eligible;
    hide Initialize;
    hide HistoryShape;
  }

  lemma GrantKeeps(s: System, a: Action)
    requires GrantInv(s) && Handed(s, a) && Evolves(s.req, Next(s, a).req)
    ensures GrantInv(Next(s, a))
  {
    var s' := Next(s, a);
    GrantChange(s, a);
    hide Next;
    if !GivesGrant(a) && s.grant.Some? {
      ApprovalIsRemembered(s.req, s'.req);
    }
    hide HistoryShape;
    hide RuleInv;
    hide TimeInv;
  }

  lemma ReviewsKeep(s: System, a: Action)
    requires ReviewsInv(s) && Evolves(s.req, Next(s, a).req)
    ensures ReviewsInv(Next(s, a))
  {
    hide Eligible;
    hide ReconcileReview;
    hide ReconcileRequest;
    hide CheckRequest;
    hide SetState;
  }

  /** Every action keeps the invariant and only does what Evolves allows. */
  lemma NextKeeps(s: System, a: Action)
    requires Inv(s) && Handed(s, a)
    ensures Inv(Next(s, a)) && Evolves(s.req, Next(s, a).req)
  {
    hide ReqInv;
    hide GrantInv;
    hide ReviewsInv;
    hide Next;
    hide Handed;
    RequestKeeps(s, a);
    GrantKeeps(s, a);
    ReviewsKeep(s, a);
  }
}

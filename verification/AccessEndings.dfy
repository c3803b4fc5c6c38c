/** Why a request moves and why it ends, over whole runs. */
module AccessEndings {
  import opened Options
  import opened AccessModel
  import opened AccessSystem
  import opened AccessSafety
  import opened AccessDelivery
  import opened AccessDecisions
  import opened AccessRuns
  import opened AccessClock

  /** The watcher finds the current step out of time, and no passed deadline before that. */
  predicate OutOfTime(s: System, a: Action) {
    && a.Watch? && HasCurrentStep(s.req)
    && !(s.req.deadline.Some? && s.req.deadline.value <= a.now)
    && s.req.progress.Some? && Began(s.req).Some?
    && s.req.Steps()[s.req.CurrentStep()].timeout > 0
    && Began(s.req).value + s.req.Steps()[s.req.CurrentStep()].timeout <= a.now
  }

  /** There is a next step, and the current one is followed by it when its time is over. */
  predicate GoesOnInTime(req: Request)
    requires HasCurrentStep(req)
  {
    req.Steps()[req.CurrentStep()].onTimeout == GotoNextStep && req.CurrentStep() + 1 < |req.Steps()|
  }

  /** The review controller looks at the step and finds this verdict. */
  predicate Finds(s: System, a: Action, v: Verdict) {
    && a.DeliverReview? && Counts(s.req, s.reviews, s.dir, a.review, a.seen, a.force, a.now)
    && HasCurrentStep(s.req) && CurrentVerdict(s.req, s.reviews, s.dir) == v
  }

  /** The request controller sees the new request, as it is, for the first time. */
  predicate IsFirstLook(s: System, a: Action) {
    a.ReconcileAction? && a.item == s.req && s.req.Status() == Pending && s.req.rule.None?
  }

  /** The approved time has passed: up to the end already fixed, or else the seconds the match fixed or, being
      none, what is asked for and allowed, counted from the approval. */
  predicate AccessIsOver(req: Request, now: Time) {
    if req.accessEndsAt.Some? then req.accessEndsAt.value <= now
    else && req.approvalEndAt.Some? && req.rule.Some?
         && req.approvalEndAt.value + (if req.effectiveSeconds > 0 then req.effectiveSeconds * SECOND
                                       else AccessDuration(req, req.rule.value)) <= now
  }

  /** What puts an end to a request, by the status it ends in. */
  predicate Causes(s: System, a: Action, end: Status) {
    match end
    case Cancelled => a.Cancel? && a.user == s.req.requester && s.req.Status() == Pending
    case Revoked => a.Revoke? && s.req.Status() in {Pending, Approved}
    case Rejected =>
      || Finds(s, a, Refused)
      || (OutOfTime(s, a) && s.req.Steps()[s.req.CurrentStep()].onTimeout == TimeoutReject)
      || (IsFirstLook(s, a) && (a.matched.None? || a.matched.value.effect == DENY))
    case Expired =>
      || (a.Watch? && s.req.Status() == Pending && s.req.deadline.Some? && s.req.deadline.value <= a.now)
      || (OutOfTime(s, a) && s.req.Steps()[s.req.CurrentStep()].onTimeout != TimeoutReject && !GoesOnInTime(s.req))
      || (a.Watch? && s.req.Status() == Approved && s.req.accessEndsAt.Some? && s.req.accessEndsAt.value <= a.now)
      || (a.ReconcileAction? && a.item == s.req && s.req.Status() == Approved && AccessIsOver(s.req, a.now))
    case _ => false
  }

  lemma EventEnds(s: System, a: Action, end: Status)
    requires Inv(s) && !Final(s.req.Status()) && Final(end) && a.DeliverReview?
    ensures Next(s, a).req.Status() == end <==> Causes(s, a, end)
  {
    DeliverOutcome(s.req, s.reviews, s.dir, a.review, a.seen, a.force, a.now);
    if Counts(s.req, s.reviews, s.dir, a.review, a.seen, a.force, a.now) {
      EventOutcome(s, a.review, a.seen, a.force, a.now);
      hide Next;
    }
    hide Counts;
    hide CurrentVerdict;
    hide ReconcileReview;
    hide Inv;
  }

  lemma WatchEnds(s: System, a: Action, end: Status)
    requires Inv(s) && !Final(s.req.Status()) && Final(end) && a.Watch?
    ensures Next(s, a).req.Status() == end <==> Causes(s, a, end)
  {
    if s.req.Status() == Pending {
      WatchPending(s, a.now);
    } else {
      WatchDecided(s, a.now);
    }
    hide Next;
    hide GrantInv;
    hide ReviewsInv;
    hide TimeInv;
    hide ValidSteps;
  }

  lemma PassEnds(s: System, a: Action, end: Status)
    requires Inv(s) && !Final(s.req.Status()) && Final(end) && a.ReconcileAction?
    ensures Next(s, a).req.Status() == end <==> Causes(s, a, end)
  {
    if a.item == s.req {
      if NeedsInitialization(s.req) {
        FirstPassEnds(s.req, a.matched, a.now);
        hide ReconcileRequest;
      } else if s.req.Status() == Approved {
        EndOfAccessIsSettled(s.req, a.now);
        hide Initialize;
        hide EnsureAccessEndsAt;
        hide AccessIsOver;
      }
    } else {
      hide ReconcileRequest;
    }
    hide GrantInv;
    hide ReviewsInv;
    hide RuleInv;
    hide Finds;
  }

  lemma FirstPassEnds(req: Request, matched: Option<Rule>, now: Time)
    requires ReqInv(req) && req.Status() == Pending && req.rule.None?
    ensures var r := ReconcileRequest(req, matched, now);
            r.Ok? ==> r.value.Status() !in {Expired, Revoked, Cancelled}
                      && (r.value.Status() == Rejected <==> matched.None? || matched.value.effect == DENY)
    ensures matched.None? || matched.value.effect == DENY ==> ReconcileRequest(req, matched, now).Ok?
  {
    hide ValidSteps;
    hide HistoryShape;
  }

  lemma EndOfAccessIsSettled(req: Request, now: Time)
    requires ReqInv(req) && req.Status() == Approved
    ensures var r := EnsureAccessEndsAt(req, now);
            r.Status() == Approved && (r.accessEndsAt.Some? && r.accessEndsAt.value <= now <==> AccessIsOver(req, now))
  {
    hide AccessDuration;
    hide MaxAccess;
    hide ValidSteps;
  }

  lemma OthersEnd(s: System, a: Action, end: Status)
    requires Inv(s) && !Final(s.req.Status()) && Final(end)
    requires !a.ReconcileAction? && !a.DeliverReview? && !a.Watch?
    ensures Next(s, a).req.Status() == end <==> Causes(s, a, end)
  {
    hide Eligible;
    hide HasBeenApplied;
    hide GrantInv;
    hide ReviewsInv;
    hide RuleInv;
    hide TimeInv;
  }

  /** An action ends a request that had not ended if and only if it is one of the causes. */
  lemma EndsExactly(s: System, a: Action, end: Status)
    requires Inv(s) && !Final(s.req.Status()) && Final(end)
    ensures Next(s, a).req.Status() == end <==> Causes(s, a, end)
  {
    hide Inv;
    hide Next;
    hide Causes;
    if a.DeliverReview? {
      EventEnds(s, a, end);
    } else if a.Watch? {
      WatchEnds(s, a, end);
    } else if a.ReconcileAction? {
      PassEnds(s, a, end);
    } else {
      OthersEnd(s, a, end);
    }
  }

  /** Every end has a cause: a request that has ended was ended by one action of the run, which had a cause
      for just that end. */
  lemma {:induction false} EveryEndHasACause(ss: seq<System>, acts: seq<Action>, k: nat) returns (j: nat)
    requires IsRun(ss, acts) && k < |ss| && Final(ss[k].req.Status())
    ensures j < k && !Final(ss[j].req.Status()) && ss[j + 1].req.state == ss[k].req.state
    ensures Causes(ss[j], acts[j], ss[k].req.Status())
    decreases k
  {
    hide Next;
    hide Inv;
    hide Causes;
    RunStep(ss, acts, k - 1);
    if Final(ss[k - 1].req.Status()) {
      RequestLifecycle(ss, acts, k - 1, k);
      j := EveryEndHasACause(ss, acts, k - 1);
    } else {
      j := k - 1;
      EndsExactly(ss[j], acts[j], ss[k].req.Status());
    }
  }

  /** A request goes on to its next step if and only if the review controller finds the current one cleared
      and it is not the last, or the watcher finds it out of time and it says to go on then. */
  lemma AdvancesExactly(s: System, a: Action)
    requires Inv(s) && HasCurrentStep(s.req)
    ensures Next(s, a).req.CurrentStep() != s.req.CurrentStep() <==>
            || (Finds(s, a, Cleared) && s.req.CurrentStep() + 1 < |s.req.Steps()|)
            || (OutOfTime(s, a) && GoesOnInTime(s.req))
  {
    if a.DeliverReview? {
      EventAdvances(s, a);
    } else if a.Watch? {
      WatchAdvances(s, a);
    } else {
      OthersStay(s, a);
    }
    hide Next;
    hide Inv;
    hide Finds;
  }

  lemma EventAdvances(s: System, a: Action)
    requires Inv(s) && HasCurrentStep(s.req) && a.DeliverReview?
    ensures Next(s, a).req.CurrentStep() != s.req.CurrentStep() <==>
            Finds(s, a, Cleared) && s.req.CurrentStep() + 1 < |s.req.Steps()|
  {
    DeliverOutcome(s.req, s.reviews, s.dir, a.review, a.seen, a.force, a.now);
    if Counts(s.req, s.reviews, s.dir, a.review, a.seen, a.force, a.now) {
      EventOutcome(s, a.review, a.seen, a.force, a.now);
      hide Next;
    }
    hide Counts;
    hide CurrentVerdict;
    hide ReconcileReview;
    hide Inv;
  }

  lemma WatchAdvances(s: System, a: Action)
    requires Inv(s) && HasCurrentStep(s.req) && a.Watch?
    ensures Next(s, a).req.CurrentStep() != s.req.CurrentStep() <==> OutOfTime(s, a) && GoesOnInTime(s.req)
  {
    hide ValidSteps;
    hide Inv;
  }

  lemma OthersStay(s: System, a: Action)
    requires Inv(s) && HasCurrentStep(s.req) && !a.DeliverReview? && !a.Watch?
    ensures Next(s, a).req.CurrentStep() == s.req.CurrentStep()
  {
    hide Eligible;
    hide HasBeenApplied;
    hide Initialize;
    hide EnsureAccessEndsAt;
    hide GrantInv;
    hide ReviewsInv;
    hide RuleInv;
    hide TimeInv;
    hide HistoryShape;
  }
}

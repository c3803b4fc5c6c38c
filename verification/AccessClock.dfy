/** The clock of a review step, over whole runs. */
module AccessClock {
  import opened Options
  import opened AccessModel
  import opened AccessSystem
  import opened AccessSafety
  import opened AccessDelivery
  import opened AccessDecisions
  import opened AccessRuns

  /** When an action happens that can move a request into a step. */
  function MomentOf(a: Action): Option<Time> {
    match a
    case ReconcileAction(_, _, _, now) => Some(now)
    case DeliverReview(_, _, _, now) => Some(now)
    case Watch(now) => Some(now)
    case _ => None
  }

  /** The clock of the current step runs since that moment. */
  predicate RunsSince(req: Request, t: Option<Time>) {
    t.Some? && req.progress.Some? && req.progress.value.startedAt == t
  }

  /** The action moves the request into the step it is at afterwards. */
  predicate Enters(s: System, a: Action) {
    s.req.rule.None? || s.req.CurrentStep() < Next(s, a).req.CurrentStep()
  }

  lemma ClockOfEvent(s: System, a: Action)
    requires Inv(s) && s.req.rule.Some? && a.DeliverReview? && HasCurrentStep(Next(s, a).req)
    ensures var r := Next(s, a).req;
            if Enters(s, a) then RunsSince(r, Some(a.now)) else forall t :: RunsSince(s.req, t) ==> RunsSince(r, t)
  {
    DeliverOutcome(s.req, s.reviews, s.dir, a.review, a.seen, a.force, a.now);
    if Counts(s.req, s.reviews, s.dir, a.review, a.seen, a.force, a.now) {
      EventOutcome(s, a.review, a.seen, a.force, a.now);
      hide Next;
    }
    hide Counts;
    hide CurrentVerdict;
    hide ReconcileReview;
    hide Inv;
  }

  lemma ClockOfWatch(s: System, a: Action)
    requires Inv(s) && s.req.rule.Some? && a.Watch? && HasCurrentStep(Next(s, a).req)
    ensures var r := Next(s, a).req;
            if Enters(s, a) then RunsSince(r, Some(a.now)) else forall t :: RunsSince(s.req, t) ==> RunsSince(r, t)
  {
    if s.req.Status() == Pending {
      WatchPending(s, a.now);
    } else {
      WatchDecided(s, a.now);
    }
    hide Next;
    hide Inv;
  }

  lemma ClockOfPass(s: System, a: Action)
    requires Inv(s) && a.ReconcileAction? && HasCurrentStep(Next(s, a).req)
    ensures var r := Next(s, a).req;
            if Enters(s, a) then RunsSince(r, Some(a.now)) else r.progress == s.req.progress
  {
    hide ValidSteps;
    hide AccessDuration;
    hide GrantInv;
    hide ReviewsInv;
    hide TimeInv;
  }

  lemma ClockOfOthers(s: System, a: Action)
    requires Inv(s) && HasCurrentStep(Next(s, a).req)
    requires !a.ReconcileAction? && !a.DeliverReview? && !a.Watch?
    ensures s.req.rule.Some? && Next(s, a).req.progress == s.req.progress && !Enters(s, a)
  {
    hide Eligible;
    hide HasBeenApplied;
    hide GrantInv;
    hide ReviewsInv;
    hide TimeInv;
    hide HistoryShape;
    hide ValidSteps;
  }

  lemma NoRuleNoStep(s: System, a: Action)
    requires Inv(s) && s.req.rule.None? && HasCurrentStep(Next(s, a).req)
    ensures a.ReconcileAction?
  {
    if a.Watch? {
      WatchKeepsRule(s.req, a.now);
    } else if !a.ReconcileAction? && !a.DeliverReview? {
      ClockOfOthers(s, a);
    }
    hide GrantInv;
    hide ReviewsInv;
    hide TimeInv;
    hide HistoryShape;
    hide ValidSteps;
    hide CheckRequest;
  }

  /** The clock of the current step runs since the action that brought the request to that step. */
  lemma {:induction false} ClockRunsSinceEntry(ss: seq<System>, acts: seq<Action>, k: nat) returns (j: nat)
    requires IsRun(ss, acts) && k < |ss| && HasCurrentStep(ss[k].req)
    ensures j < k && Enters(ss[j], acts[j]) && ss[j + 1].req.CurrentStep() == ss[k].req.CurrentStep()
    ensures RunsSince(ss[k].req, MomentOf(acts[j]))
    decreases k
  {
    hide Next;
    hide Inv;
    hide Handed;
    RunStep(ss, acts, k - 1);
    var s, a := ss[k - 1], acts[k - 1];
    StillAtStep(s, a);
    if s.req.rule.None? {
      NoRuleNoStep(s, a);
      ClockOfPass(s, a);
      j := k - 1;
    } else {
      if a.DeliverReview? {
        ClockOfEvent(s, a);
      } else if a.Watch? {
        ClockOfWatch(s, a);
      } else if a.ReconcileAction? {
        ClockOfPass(s, a);
      } else {
        ClockOfOthers(s, a);
      }
      if Enters(s, a) {
        j := k - 1;
      } else {
        j := ClockRunsSinceEntry(ss, acts, k - 1);
      }
    }
  }

  /** A matched request that is at a step after an action was at one before. */
  lemma StillAtStep(s: System, a: Action)
    requires Inv(s) && Inv(Next(s, a)) && Evolves(s.req, Next(s, a).req) && HasCurrentStep(Next(s, a).req)
    ensures s.req.rule.Some? ==> HasCurrentStep(s.req) && s.req.CurrentStep() <= Next(s, a).req.CurrentStep()
  {
    hide Next;
    hide GrantInv;
    hide ReviewsInv;
    hide TimeInv;
    hide ValidSteps;
  }

  /** No step is timed out early: where the watcher moves a pending request, its deadline has passed or the
      current step has had its full time since the request came to it. */
  lemma NoEarlyTimeout(ss: seq<System>, acts: seq<Action>, k: nat, now: Time) returns (j: nat)
    requires IsRun(ss, acts) && k < |acts| && acts[k] == Watch(now)
    requires HasCurrentStep(ss[k].req) && Place(ss[k + 1].req) != Place(ss[k].req)
    requires ss[k].req.deadline.Some? ==> now < ss[k].req.deadline.value
    ensures j < k && Enters(ss[j], acts[j]) && ss[j + 1].req.CurrentStep() == ss[k].req.CurrentStep()
    ensures MomentOf(acts[j]).Some?
    ensures var step := ss[k].req.Steps()[ss[k].req.CurrentStep()];
            step.timeout > 0 && MomentOf(acts[j]).value + step.timeout <= now
  {
    hide Next;
    hide Inv;
    RunKeepsInv(ss, acts, k);
    j := ClockRunsSinceEntry(ss, acts, k);
    WatchPending(ss[k], now);
  }
}

/** Where the watcher and the request controller come to rest. */
module AccessSettling {
  import opened Options
  import opened AccessModel
  import opened AccessSystem
  import opened AccessSafety
  import opened AccessDelivery

  // ---------- the watcher ----------

  /** Something about the request has run out. */
  predicate Due(req: Request, now: Time) {
    || (req.Status() == Pending && req.deadline.Some? && req.deadline.value <= now)
    || (req.Status() == Pending && StepTimedOut(req, now))
    || (req.Status() == Approved && req.accessEndsAt.Some? && req.accessEndsAt.value <= now)
  }

  /** The watcher moves exactly the requests that are due, and leaves none due; looking again at the
      same moment changes nothing. */
  lemma WatchSettles(req: Request, now: Time)
    requires ReqInv(req)
    ensures var r := CheckRequest(req, now);
            && (Place(r) != Place(req) <==> Due(req, now))
            && !Due(r, now)
            && CheckRequest(r, now) == r
  {
    hide ValidSteps;
    if req.Status() == Pending {
      SetStateEffect(req, Expired, now);
      SetStateEffect(req, Rejected, now);
    } else if req.Status() == Approved {
      SetStateEffect(req, Expired, now);
    }
    hide SetState;
    hide RuleInv;
    hide TimeInv;
    hide HistoryShape;
  }

  // ---------- the request controller ----------

  /** The time of access a duration gives: whole seconds, once it is a second long. */
  function Granted(d: Time): Time {
    if d >= SECOND then d - d % SECOND else d
  }

  /** An automatic approval is not expired in the same pass: access starts with the approval and lasts
      for what was asked for or allowed. */
  lemma AutomaticApproval(req: Request, rule: Rule, now: Time)
    requires ReqInv(req) && req.Status() == Pending && req.rule.None? && rule.effect == AUTO_APPROVE
    ensures var r, d := ReconcileRequest(req, Some(rule), now), AccessDuration(req, rule);
            && r.Ok? && r.value.Status() == Approved && r.value.approvalEndAt == Some(now)
            && r.value.accessEndsAt == Some(now + Granted(d))
  {
    var matched := req.(rule := Some(rule));
    var timed := matched.(effectiveSeconds := AccessDuration(matched, rule) / SECOND);
    SetStateEffect(timed, Approved, now);
    hide SetState;
    hide ValidSteps;
    var d := AccessDuration(req, rule);
    assert AccessDuration(matched, rule) == d;
    assert d == d / SECOND * SECOND + d % SECOND;
  }

  /** The end of access of a request that is approved now and settled later, if the requester first
      changes the duration. */
  function EndIfAmended(req: Request, duration: Duration, approvedAt: Time, now: Time): Option<Time> {
    EnsureAccessEndsAt(SetState(req.(duration := duration), Approved, approvedAt), now).accessEndsAt
  }

  /** Changing the duration of a matched request has no effect if and only if the match fixed a second of
      access or more, or the rule allows no more than the shortest duration there is; otherwise the
      requester gets all the rule allows by asking for no particular duration. */
  lemma AmendInertExactly(req: Request, approvedAt: Time, now: Time)
    requires ReqInv(req) && req.Status() == Pending && req.rule.Some?
    ensures (forall duration: Duration ::
               EndIfAmended(req, duration, approvedAt, now) == EndIfAmended(req, req.duration, approvedAt, now))
            <==> req.effectiveSeconds > 0 || MaxAccess(req.rule.value) == MILLISECOND
    ensures req.effectiveSeconds == 0 ==>
              EndIfAmended(req, 0, approvedAt, now) == Some(approvedAt + MaxAccess(req.rule.value))
  {
    assert req.accessEndsAt.None?;
    hide ReqInv;
    if req.effectiveSeconds == 0 {
      assert EndIfAmended(req, MILLISECOND, approvedAt, now) == Some(approvedAt + MILLISECOND);
      assert EndIfAmended(req, 0, approvedAt, now) == Some(approvedAt + MaxAccess(req.rule.value));
    }
  }

  predicate Usable(rule: Rule) {
    rule.effect != EffectUnset && (rule.effect == REVIEW ==> rule.steps.Some? && ValidSteps(rule.steps.value))
  }

  /** Nothing but an automatic rule approves at the first match, and nothing but a valid review
      action keeps the request pending. */
  lemma FirstMatchOutcome(req: Request, matched: Option<Rule>, now: Time)
    requires ReqInv(req) && req.Status() == Pending && req.rule.None?
    ensures var r := ReconcileRequest(req, matched, now);
            && (r.Err? <==> matched.Some? && !Usable(matched.value))
            && (r.Ok? ==>
                  && (r.value.Status() == Rejected <==> matched.None? || matched.value.effect == DENY)
                  && (r.value.Status() == Approved <==> matched.Some? && matched.value.effect == AUTO_APPROVE)
                  && (r.value.Status() == Pending <==> matched.Some? && matched.value.effect == REVIEW)
                  && (r.value.Status() == Pending ==> r.value.CurrentStep() == 0 && r.value.approvalStartAt.Some?))
  {
    if matched.Some? && matched.value.effect == AUTO_APPROVE {
      AutomaticApproval(req, matched.value, now);
      hide EnsureAccessEndsAt;
    }
    hide ValidSteps;
    hide AccessDuration;
  }

  /** Two passes of the request controller, each handed the request as it is, settle the request and its
      grant, whatever the second one would match: an approved request has a grant once a pass could
      resolve its target, no other has one, and the next pass changes nothing any more. */
  lemma ReconcileSettles(s: System, matched: Option<Rule>, other: Option<Rule>, first: bool, second: bool, now: Time)
    requires Inv(s) && ReconcileRequest(s.req, matched, now).Ok?
    ensures var m := Next(s, ReconcileAction(s.req, matched, first, now));
            var t := Next(m, ReconcileAction(m.req, other, second, now));
            && t.req == ReconcileRequest(s.req, matched, now).value
            && (t.req.Status() == Approved ==> (t.grant.Some? <==> second || m.grant.Some?))
            && (t.req.Status() != Approved ==> t.grant.None?)
            && (t.grant.Some? ==> t.grant.value == Grant(t.req.SubjectRef(), t.req.accessEndsAt))
            && Next(t, ReconcileAction(t.req, other, second, now)) == t
  {
    var r := ReconcileRequest(s.req, matched, now).value;
    ReconcileKeeps(s.req, matched, now);
    SettledRequest(s.req, matched, other, now);
    hide ReconcileRequest;
    hide RuleInv;
    hide HistoryShape;
    hide TimeInv;
    var m := Next(s, ReconcileAction(s.req, matched, first, now));
    assert m.req == r;
    var t := Next(m, ReconcileAction(m.req, other, second, now));
    assert t.req == r;
  }

  lemma SettledRequest(req: Request, matched: Option<Rule>, other: Option<Rule>, now: Time)
    requires ReqInv(req) && ReconcileRequest(req, matched, now).Ok?
    ensures var r := ReconcileRequest(req, matched, now).value;
            ReconcileRequest(r, other, now) == Ok(r) && (r.Status() == Approved ==> r.rule.Some?)
  {
    var r := ReconcileRequest(req, matched, now).value;
    ReconcileKeeps(req, matched, now);
    if NeedsInitialization(req) {
      FirstMatchOutcome(req, matched, now);
      MatchIsNoted(req, matched, now);
    }
    hide Initialize;
    hide ValidSteps;
    if r.Status() == Approved {
      EndOfAccessKeeps(r, now);
    }
    hide SetState;
  }

  lemma MatchIsNoted(req: Request, matched: Option<Rule>, now: Time)
    requires ReqInv(req) && req.Status() == Pending && req.rule.None?
    ensures var r := Initialize(req, matched, now); r.Ok? ==> r.value.rule == matched
  {
    hide ValidSteps;
    hide AccessDuration;
  }
}

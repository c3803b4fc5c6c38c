/** Who is let in, for how long, and what lets access come back after the end of a request. */
module AccessGrants {
  import opened Options
  import opened AccessModel
  import opened AccessSystem
  import opened AccessSafety
  import opened AccessDecisions
  import opened AccessRuns
  import Bob = AccessDuties

  /** Whoever is let in was approved, for a bounded time that began at the moment of the approval. */
  lemma GrantIsBounded(ss: seq<System>, acts: seq<Action>, k: nat)
    requires IsRun(ss, acts) && k < |ss| && ss[k].grant.Some?
    ensures var req, grant := ss[k].req, ss[k].grant.value;
            && WasApproved(req) && req.Status() !in {Unknown, Pending, Rejected, Cancelled}
            && req.rule.Some? && req.approvalEndAt.Some? && grant.notAfter.Some?
            && grant.subject == req.SubjectRef()
            && ApprovedSince(req, req.approvalEndAt.value)
            && StateOccurred(ss, State(req.approvalEndAt.value, Approved), k)
            && (req.subject.Some? ==> grant.subject == req.subject.value)
            && (req.subject.None? ==> grant.subject.uid == req.requester)
            && req.approvalEndAt.value < grant.notAfter.value <= req.approvalEndAt.value + MaxAccess(req.rule.value)
            && (req.rule.value.maxAccess > 0 ==>
                  grant.notAfter.value <= req.approvalEndAt.value + req.rule.value.maxAccess)
            && (req.rule.value.maxAccess == 0 ==>
                  grant.notAfter.value <= req.approvalEndAt.value + 24 * 60 * 60 * 1_000_000_000)
  {
    RunKeepsInv(ss, acts, k);
    var req := ss[k].req;
    DurationExactly(req, req.rule.value);
    hide AccessDuration;
    hide IsRun;
    hide ReviewsInv;
    hide RuleInv;
    HistoryIsExact(ss, acts, k, State(req.approvalEndAt.value, Approved));
  }

  // ---------- the length of access ----------

  /** The match fixes the whole seconds of access. */
  lemma MatchFixesSeconds(s: System, a: Action)
    requires Inv(s) && s.req.rule.None?
    requires Next(s, a).req.rule.Some? && Next(s, a).req.rule.value.effect in {REVIEW, AUTO_APPROVE}
    ensures Next(s, a).req.effectiveSeconds == AccessDuration(s.req, Next(s, a).req.rule.value) / SECOND
  {
    hide ReqInv;
    hide GrantInv;
    hide ReviewsInv;
    hide CheckRequest;
    hide ReconcileRequest;
    hide ReconcileReview;
    hide SetState;
    hide AccessDuration;
    if a.Watch? {
      WatchKeepsRule(s.req, a.now);
    } else if a.ReconcileAction? {
      FirstPassFixesSeconds(s.req, a.matched, a.now);
    } else if a.DeliverReview? {
      NoRuleNoReview(s.req, s.reviews, s.dir, a.review, a.seen, a.force, a.now);
    } else if a.Cancel? {
      StateKeepsRule(s.req, Cancelled, a.now);
    } else if a.Revoke? {
      StateKeepsRule(s.req, Revoked, a.now);
    }
  }

  lemma StateKeepsRule(req: Request, status: Status, now: Time)
    ensures SetState(req, status, now).rule == req.rule
  {
  }

  lemma NoRuleNoReview(req: Request, reviews: map<Uid, Review>, dir: Directory,
                       id: Uid, seen: Decision, force: bool, now: Time)
    requires req.rule.None?
    ensures var r := ReconcileReview(req, reviews, dir, id, seen, force, now); r.Ok? ==> r.value == req
  {
  }

  lemma FirstPassFixesSeconds(req: Request, matched: Option<Rule>, now: Time)
    requires req.rule.None?
    ensures var r := ReconcileRequest(req, matched, now);
            r.Ok? && r.value.rule.Some? && r.value.rule.value.effect in {REVIEW, AUTO_APPROVE} ==>
              r.value.effectiveSeconds == AccessDuration(req, r.value.rule.value) / SECOND
  {
    hide ValidSteps;
    if matched.Some? {
      assert AccessDuration(req.(rule := matched), matched.value) == AccessDuration(req, matched.value);
    }
    hide AccessDuration;
    hide MaxAccess;
  }

  /** The length of access is fixed when the request is matched, from the duration asked for at that
      moment: later amendments do not change it, nor does it matter when or by whom the request is
      approved. Access shorter than a second is the exception. */
  lemma AccessLengthIsFixedAtMatch(ss: seq<System>, acts: seq<Action>, j: nat, k: nat)
    requires IsRun(ss, acts) && j + 1 <= k < |ss|
    requires ss[j].req.rule.None? && ss[j + 1].req.rule.Some? && ss[k].req.accessEndsAt.Some?
    ensures ss[k].req.approvalEndAt.Some?
    ensures var d := AccessDuration(ss[j].req, ss[j + 1].req.rule.value);
            d >= SECOND ==> ss[k].req.accessEndsAt.value == ss[k].req.approvalEndAt.value + (d - d % SECOND)
    ensures var asked, allowed := ss[j].req.duration, ss[j + 1].req.rule.value.maxAccess;
            var limit := if allowed > 0 then allowed else 24 * 60 * 60 * SECOND;
            AccessDuration(ss[j].req, ss[j + 1].req.rule.value) == if 0 < asked <= limit then asked else limit
  {
    DurationExactly(ss[j].req, ss[j + 1].req.rule.value);
    RunStep(ss, acts, j);
    RunKeepsInv(ss, acts, k);
    RequestLifecycle(ss, acts, j + 1, k);
    assert ss[k].req.rule == ss[j + 1].req.rule;
    assert ss[k].req.rule.value.effect in {REVIEW, AUTO_APPROVE};
    MatchFixesSeconds(ss[j], acts[j]);
    hide Next;
    hide IsRun;
    hide Handed;
    hide AccessDuration;
    hide GrantInv;
    hide ReviewsInv;
    hide HistoryShape;
    hide RuleInv;
    var d := AccessDuration(ss[j].req, ss[j + 1].req.rule.value);
    assert d == d / SECOND * SECOND + d % SECOND;
  }

  lemma HalfSecondMatched()
    ensures Init(Bob.At(Bob.Asked(500 * MILLISECOND), map[]))
    ensures Bob.At(Bob.Asked(500 * MILLISECOND), map[]).req == Bob.Asked(500 * MILLISECOND)
    ensures Bob.At(Bob.Matched(500 * MILLISECOND, 0), map[]).req.rule == Some(Bob.REVIEWED)
    ensures Bob.Asked(500 * MILLISECOND).rule.None?
    ensures AccessDuration(Bob.Asked(500 * MILLISECOND), Bob.REVIEWED) == 500 * MILLISECOND
    ensures Next(Bob.At(Bob.Asked(500 * MILLISECOND), map[]),
                 ReconcileAction(Bob.Asked(500 * MILLISECOND), Some(Bob.REVIEWED), true, SECOND))
         == Bob.At(Bob.Matched(500 * MILLISECOND, 0), map[])
    ensures Next(Bob.At(Bob.Matched(500 * MILLISECOND, 0), map[]), Amend("a", None, 0)) == Bob.At(Bob.Matched(0, 0), map[])
  {
  }

  /** Approved after the amendment, the request is settled with all the rule allows. */
  lemma AmendedIsSettled(s: System)
    requires s == Next(Bob.At(Bob.Matched(0, 0), Bob.VOTES), DeliverReview("v", APPROVE, false, SECOND))
    ensures var req := Next(s, ReconcileAction(s.req, None, true, SECOND)).req;
            && req.Status() == Approved && req.approvalEndAt == Some(SECOND)
            && req.accessEndsAt == Some(SECOND + DEFAULT_MAX_ACCESS)
  {
    Bob.BobIsQuorum(0, 0);
    hide ReconcileReview;
    hide LeavesByQuorum;
    hide Record;
    hide Initialize;
    hide Descends;
    hide Bob.At;
  }

  /** Half a second is asked for and matched; then the requester withdraws the wish for a duration. */
  lemma HalfSecondAmended() returns (ss: seq<System>, acts: seq<Action>)
    ensures IsRun(ss, acts) && |acts| == 2 && acts[1].Amend?
    ensures ss[0].req.rule.None? && ss[1].req.rule.Some?
    ensures AccessDuration(ss[0].req, ss[1].req.rule.value) == 500 * MILLISECOND
    ensures ss[2] == Bob.At(Bob.Matched(0, 0), map[])
  {
    HalfSecondMatched();
    hide Next;
    hide Init;
    hide AccessDuration;
    hide Bob.Asked;
    hide Bob.Matched;
    hide Bob.At;
    ss, acts := [Bob.At(Bob.Asked(500 * MILLISECOND), map[])], [];
    ss, acts := RunGoesOn(ss, acts, ReconcileAction(ss[0].req, Some(Bob.REVIEWED), true, SECOND));
    ss, acts := RunGoesOn(ss, acts, Amend("a", None, 0));
  }

  /** A concrete run of the exception: half a second is asked for and matched, then the requester withdraws
      the wish for a duration, and access ends 24 hours after the approval. */
  lemma ShortAccessCanGrow() returns (ss: seq<System>, acts: seq<Action>)
    ensures IsRun(ss, acts) && |acts| == 5 && acts[1].Amend?
    ensures ss[0].req.rule.None? && ss[1].req.rule.Some?
    ensures AccessDuration(ss[0].req, ss[1].req.rule.value) == 500 * MILLISECOND
    ensures ss[5].req.Status() == Approved && ss[5].req.approvalEndAt.Some?
    ensures ss[5].req.accessEndsAt == Some(ss[5].req.approvalEndAt.value + DEFAULT_MAX_ACCESS)
  {
    ss, acts := HalfSecondAmended();
    Bob.BobDecides(0, 0);
    hide *;
    ss, acts := RunGoesOn(ss, acts, Decide("b", APPROVE, "v"));
    ss, acts := RunGoesOn(ss, acts, DeliverReview("v", APPROVE, false, SECOND));
    AmendedIsSettled(ss[4]);
    ss, acts := RunGoesOn(ss, acts, ReconcileAction(ss[4].req, None, true, SECOND));
  }

  // ---------- grants come and go ----------

  /** A grant appears exactly where the request controller is handed an approved item whose access is
      fixed and has not ended, whatever has become of the request itself. */
  lemma {:induction false} GrantAppearsExactly(ss: seq<System>, acts: seq<Action>, j: nat, k: nat)
    requires IsRun(ss, acts) && j <= k < |ss| && ss[j].grant.None?
    ensures (exists n :: j <= n <= k && ss[n].grant.Some?) <==> (exists m :: j <= m < k && GivesGrant(acts[m]))
    decreases k
  {
    hide Next;
    hide Inv;
    hide GivesGrant;
    if j < k {
      GrantAppearsExactly(ss, acts, j, k - 1);
      RunStep(ss, acts, k - 1);
      GrantChange(ss[k - 1], acts[k - 1]);
      hide Handed;
      hide Evolves;
    }
  }

  /** The action hands the controller an item from before state j that gives a grant. */
  ghost predicate GivesOldGrant(ss: seq<System>, a: Action, j: nat) {
    GivesGrant(a) && exists i :: 0 <= i < j && i < |ss| && ss[i].req == a.item
  }

  /** After the end of a request without grant, access comes back if and only if the controller is
      still handed an approved, unexpired item from before the end. */
  lemma GrantReturnsExactly(ss: seq<System>, acts: seq<Action>, j: nat, k: nat)
    requires IsRun(ss, acts) && j <= k < |ss| && ss[j].grant.None? && Final(ss[j].req.Status())
    ensures (exists n :: j <= n <= k && ss[n].grant.Some?) <==> (exists m :: j <= m < k && GivesOldGrant(ss, acts[m], j))
  {
    GrantAppearsExactly(ss, acts, j, k);
    hide Next;
    hide Init;
    forall m | j <= m < k && GivesGrant(acts[m])
      ensures GivesOldGrant(ss, acts[m], j)
    {
      var i: nat :| i <= m && ss[i].req == acts[m].item;
      if i >= j {
        RequestLifecycle(ss, acts, j, i);
      }
    }
  }

  /** The controller is handed a final item, or the grant watcher makes its round. */
  predicate ClearsGrant(a: Action) {
    a.SweepGrant? || (a.ReconcileAction? && Final(a.item.Status()))
  }

  lemma FinalGrantIsCleared(s: System, a: Action)
    requires Final(s.req.Status()) && ClearsGrant(a)
    ensures Next(s, a).grant.None?
  {
    hide Initialize;
    hide EnsureAccessEndsAt;
    hide SetState;
  }

  /** A final request loses its grant as soon as the controller sees that it is final or the grant
      watcher makes its round, and for good unless an old approved item is still to come. */
  lemma FinalRequestLosesGrant(ss: seq<System>, acts: seq<Action>, j: nat, k: nat)
    requires IsRun(ss, acts) && j < k < |ss|
    requires Final(ss[j].req.Status()) && ClearsGrant(acts[j])
    ensures ss[j + 1].grant.None?
    ensures (forall n :: j < n <= k ==> ss[n].grant.None?) <==> (forall m :: j < m < k ==> !GivesOldGrant(ss, acts[m], j + 1))
  {
    hide Next;
    hide GivesOldGrant;
    FinalGrantIsCleared(ss[j], acts[j]);
    RequestLifecycle(ss, acts, j, j + 1);
    GrantReturnsExactly(ss, acts, j + 1, k);
  }

  /** After a round of the grant watcher exactly the grants of approved requests whose time is not over are
      left, in every run. */
  lemma SweepLeavesLiveGrants(ss: seq<System>, acts: seq<Action>, j: nat, now: Time)
    requires IsRun(ss, acts) && j < |acts| && acts[j] == SweepGrant(now)
    ensures var grant := ss[j].grant;
            ss[j + 1].grant ==
            if grant.Some? && ss[j].req.Status() == Approved && grant.value.notAfter.Some? && now < grant.value.notAfter.value
            then grant else None
  {
    RunKeepsInv(ss, acts, j);
    if ss[j].grant.Some? {
      SweepExactly(ss[j], now);
    }
    hide RuleInv;
    hide TimeInv;
    hide ReviewsInv;
  }

  // ---------- a run in which access comes back ----------

  const AUTO := Rule(AUTO_APPROVE, None, 0)
  const ASKED := Request("r", "bob", None, None, 60 * SECOND, Some(State(0, Pending)), [],
                         None, None, 0, None, None, None)
  const ALLOWED := Request("r", "bob", None, None, 60 * SECOND, Some(State(SECOND, Approved)), [State(0, Pending)],
                           Some(AUTO), None, 60, Some(SECOND), Some(SECOND), Some(61 * SECOND))
  const REVOKED := SetState(ALLOWED, Revoked, 2 * SECOND)
  const ACCESS := Some(Grant(Ref("bob", ""), Some(61 * SECOND)))

  function At(req: Request, grant: Option<Grant>): System {
    System(req, map[], Directory(map[], map[]), grant)
  }

  lemma AllowedAtMatch(now: Time)
    requires SECOND < now < 61 * SECOND
    ensures Next(At(ASKED, None), ReconcileAction(ASKED, Some(AUTO), true, SECOND)) == At(ALLOWED, None)
    ensures GivesGrant(ReconcileAction(ALLOWED, None, true, now))
    ensures Next(At(ALLOWED, None), Revoke(now)) == At(SetState(ALLOWED, Revoked, now), None)
  {
  }

  lemma GrantFollowsItem(req: Request, now: Time)
    requires SECOND < now < 61 * SECOND
    ensures Next(At(req, None), ReconcileAction(ALLOWED, None, true, now)) == At(req, ACCESS)
  {
    hide SetState;
    hide AccessDuration;
  }

  /** Access is granted and revoked, the controller takes the grant back, and a list of requests made
      before the revocation puts it there again; the next round of the grant watcher removes it. */
  lemma AccessCanComeBack() returns (ss: seq<System>, acts: seq<Action>)
    ensures IsRun(ss, acts) && |acts| == 6
    ensures ss[2].grant.Some? && ss[2].req.Status() == Approved
    ensures ss[4].grant.None? && ss[4].req.Status() == Revoked
    ensures ss[5].grant.Some? && ss[5].req.Status() == Revoked
    ensures ss[6].grant.None?
  {
    var t := 2 * SECOND;
    acts := [ReconcileAction(ASKED, Some(AUTO), true, SECOND), ReconcileAction(ALLOWED, None, true, t), Revoke(t),
             ReconcileAction(REVOKED, None, true, t), ReconcileAction(ALLOWED, None, true, t), SweepGrant(t)];
    ss := [At(ASKED, None), At(ALLOWED, None), At(ALLOWED, ACCESS), At(REVOKED, ACCESS),
           At(REVOKED, None), At(REVOKED, ACCESS), At(REVOKED, None)];
    assert Init(ss[0]);
    AllowedAtMatch(t);
    GrantFollowsItem(ALLOWED, t);
    GrantFollowsItem(REVOKED, t);
    assert ss[3] == Next(ss[2], acts[2]) && ss[4] == Next(ss[3], acts[3]) && ss[6] == Next(ss[5], acts[5]);
    hide Next;
    hide Init;
    assert ss[0].req == ASKED && ss[1].req == ALLOWED && ss[3].req == REVOKED;
    assert WasSeen(ss, 0, ASKED) && WasSeen(ss, 1, ALLOWED) && WasSeen(ss, 3, REVOKED) && WasSeen(ss, 4, ALLOWED);
  }
}

/** Runs that interleave store operations and broker calls, and what stands behind the decisions
    the calls are made with. */
module ConsentRuns {
  import opened Wrappers
  import opened Taxonomy
  import opened IntentRecords
  import opened DecisionInvariant
  import opened Broker
  import opened ConsentSafety

  /** One step: a store operation, a call of the broker with a decision taken from the store, or one
      more event of a call that is under way. */
  datatype SysOp =
    | OnStore(op: Op)
    | Start(a: Request, from: Maybe<(string, nat)>, now: int, w: World)
    | Resume(call: nat)

  /** A call of the broker: how it was made, the store it was made on, and the events it has left. */
  datatype Running = Running(
    a: Request, from: Maybe<(string, nat)>, now: int, w: World, at: Store, todo: seq<Event>)

  /** An event with the number of its call. */
  datatype Tagged = Tagged(call: nat, event: Event)

  datatype Sys = Sys(store: Store, calls: seq<Running>, trace: seq<Tagged>)

  function DecisionAt(s: Store, from: Maybe<(string, nat)>): Maybe<Decision> {
    if from.Some? && from.value.0 in s.byId && from.value.1 < |s.byId[from.value.0].decisions|
    then Some(s.byId[from.value.0].decisions[from.value.1]) else None
  }

  /** Any number of calls may be under way at once; whose event comes next is up to the run. */
  function SysStep(single: bool, y: Sys, op: SysOp): Sys {
    match op
    case OnStore(o) => y.(store := Step(single, y.store, o))
    case Start(a, from, now, w) =>
      var events := Authorized(a, DecisionAt(y.store, from), now, w).events;
      y.(calls := y.calls + [Running(a, from, now, w, y.store, events)])
    case Resume(c) =>
      if c < |y.calls| && y.calls[c].todo != [] then
        var r := y.calls[c];
        y.(calls := y.calls[c := r.(todo := r.todo[1..])], trace := y.trace + [Tagged(c, r.todo[0])])
      else y
  }

  function SysRun(single: bool, ops: seq<SysOp>): Sys {
    if |ops| == 0 then Sys(EMPTY, [], []) else SysStep(single, SysRun(single, ops[..|ops|-1]), ops[|ops|-1])
  }

  /** New ids are new, and nobody votes on an action before it is registered. */
  predicate Orderly(s: Store, op: Op) {
    && FreshEnough(s, op)
    && (op.Decide? && op.v.intentId in s.byId ==> FindAction(s.byId[op.v.intentId].actions, op.v.actionId).Some?)
  }

  ghost predicate OrderlyRun(single: bool, ops: seq<SysOp>) {
    forall k :: 0 <= k < |ops| && ops[k].OnStore? ==> Orderly(SysRun(single, ops[..k]).store, ops[k].op)
  }

  // ---------------------------------------------------------------- the quorum asked for is the action's own

  /** Each decision was taken on a registered action and asked for that action's quorum. */
  ghost predicate QuorumAsked(intent: Intent, a: string) {
    |For(intent.decisions, a)| > 0 ==>
      FindAction(intent.actions, a).Some? &&
      forall k :: 0 <= k < |For(intent.decisions, a)| ==>
        For(intent.decisions, a)[k].needed == QuorumFor(KindOf(intent, a))
  }

  ghost predicate AllAsked(s: Store) {
    forall i, a :: i in s.byId ==> QuorumAsked(s.byId[i], a)
  }

  lemma AskedStep(single: bool, s: Store, op: Op)
    requires AllAsked(s) && Orderly(s, op)
    ensures AllAsked(Step(single, s, op))
  {
    var t := Step(single, s, op);
    forall i, a | i in t.byId ensures QuorumAsked(t.byId[i], a) {
      match op
      case Propose(p, caller, freshId) =>
        if i in s.byId { assert QuorumAsked(s.byId[i], a); }
      case Await(id, action) =>
        assert QuorumAsked(s.byId[i], a);
        if i == id { FindActionMore(s.byId[i].actions, action, a); }
      case Update(_, _, _) =>
        assert QuorumAsked(s.byId[i], a);
        SameKind(t.byId[i], s.byId[i], a);
      case Decide(v) =>
        assert QuorumAsked(s.byId[i], a);
        if i == v.intentId && VoteStatus(single, s, v) == 0 { AskedByVote(single, s, v, a); }
    }
  }

  lemma AskedByVote(single: bool, s: Store, v: Vote, a: string)
    requires AllAsked(s) && Orderly(s, Decide(v)) && VoteStatus(single, s, v) == 0
    ensures v.intentId in VoteStep(single, s, v).byId && QuorumAsked(VoteStep(single, s, v).byId[v.intentId], a)
  {
    hide KindOf, For, IsBlank, ActionKey, QuorumFor, FindAction;
    var i, j := s.byId[v.intentId], VoteStep(single, s, v).byId[v.intentId];
    assert QuorumAsked(i, a);
    SameKind(j, i, a);
    var n := |i.decisions|;
    var d := j.decisions[n];
    assert j.decisions == i.decisions + [d] && d.actionId == v.actionId && d.needed == QuorumFor(KindOf(i, v.actionId));
    ForMore(i.decisions, d, a);
  }

  lemma {:induction false} RunIsGood(single: bool, ops: seq<SysOp>)
    requires OrderlyRun(single, ops)
    ensures Inv(single, SysRun(single, ops).store) && AllAsked(SysRun(single, ops).store)
  {
    if |ops| == 0 {
      EmptyOk(single);
    } else {
      var front, op := ops[..|ops|-1], ops[|ops|-1];
      OrderlyPrefix(single, ops);
      RunIsGood(single, front);
      if op.OnStore? {
        assert Orderly(SysRun(single, ops[..|ops|-1]).store, ops[|ops|-1].op);
        StepKeeps(single, SysRun(single, front).store, op.op);
        AskedStep(single, SysRun(single, front).store, op.op);
      }
    }
  }

  lemma OrderlyPrefix(single: bool, ops: seq<SysOp>)
    requires OrderlyRun(single, ops) && |ops| > 0
    ensures OrderlyRun(single, ops[..|ops|-1])
  {
    var front := ops[..|ops|-1];
    forall k | 0 <= k < |front| && front[k].OnStore? ensures Orderly(SysRun(single, front[..k]).store, front[k].op) {
      assert front[..k] == ops[..k] && front[k] == ops[k];
    }
  }

  // ---------------------------------------------------------------- the theorem

  /** `a` is the registered action of intent `h`, verb and impact as registered, and no other
      intent has decisions under its id. */
  ghost predicate HomeOf(s: Store, h: string, a: Request) {
    && h in s.byId
    && FindAction(s.byId[h].actions, a.actionId) == Some(Action(a.actionId, a.verb, a.impact))
    && forall i :: i in s.byId && i != h ==> For(s.byId[i].decisions, a.actionId) == []
  }

  /** As many different people as the action's kind asks for approved it, and not its proposer. */
  ghost predicate Backed(s: Store, h: string, a: Request)
    requires h in s.byId
  {
    var approvals := Approvals(s.byId[h].decisions, a.actionId);
    |approvals| >= QuorumFor(ConsentKind(a.verb, a.impact)) && s.byId[h].proposedBy !in approvals
  }

  /** A step of the run proposed intent `h`, as `who`, with no known key. */
  ghost predicate ProposedBy(single: bool, ops: seq<SysOp>, h: string, who: string) {
    exists n :: 0 <= n < |ops| && ProposedAt(single, ops, n, h, who)
  }

  ghost predicate ProposedAt(single: bool, ops: seq<SysOp>, n: nat, h: string, who: string)
    requires n < |ops|
  {
    && ops[n].OnStore? && ops[n].op.Propose? && ops[n].op.freshId == h && ops[n].op.caller.id == who
    && !(ops[n].op.p.idempotencyKey != "" && ops[n].op.p.idempotencyKey in SysRun(single, ops[..n]).store.byIdemKey)
  }

  /** Two people other than `who` approved a deletion with a financial or legal impact, one other
      than `who` anything else. */
  ghost predicate BackedBut(s: Store, h: string, a: Request, who: string)
    requires h in s.byId
  {
    var approvals := Approvals(s.byId[h].decisions, a.actionId);
    && who !in approvals
    && |approvals| >= if a.verb == "delete" && ("financial" in a.impact || "legal" in a.impact) then 2 else 1
  }

  lemma BackedIs(s: Store, h: string, a: Request)
    requires h in s.byId
    ensures Backed(s, h, a) <==> BackedBut(s, h, a, s.byId[h].proposedBy)
  {
    ConsentKindIs(a.verb, a.impact);
    hide ConsentKind, Approvals;
  }

  /** Every intent of a run was proposed by somebody, and is that caller's whoever proposed it. */
  lemma {:induction false} ProposerIs(single: bool, ops: seq<SysOp>, h: string)
    requires OrderlyRun(single, ops)
    ensures h in SysRun(single, ops).store.byId <==> exists who :: ProposedBy(single, ops, h, who)
    ensures forall who :: ProposedBy(single, ops, h, who) ==>
      h in SysRun(single, ops).store.byId && SysRun(single, ops).store.byId[h].proposedBy == who
  {
    if |ops| > 0 {
      var front, last := ops[..|ops|-1], ops[|ops|-1];
      OrderlyPrefix(single, ops);
      ProposerIs(single, front, h);
      LastProposal(single, ops, h);
      hide OrderlyRun;
      if last.OnStore? { StepProposers(single, SysRun(single, front).store, last.op, h); }
      hide Step, ProposedBy;
      if h in SysRun(single, front).store.byId {
        var who :| ProposedBy(single, front, h, who);
        assert ProposedBy(single, ops, h, who);
      } else if h in SysRun(single, ops).store.byId {
        assert ProposedAt(single, ops, |ops| - 1, h, last.op.caller.id);
        assert ProposedBy(single, ops, h, last.op.caller.id);
      }
    }
  }

  /** Proposals of the longer run are those of the shorter one and its last step. */
  lemma LastProposal(single: bool, ops: seq<SysOp>, h: string)
    requires |ops| > 0
    ensures forall who :: ProposedBy(single, ops, h, who) <==>
      ProposedBy(single, ops[..|ops|-1], h, who) || ProposedAt(single, ops, |ops| - 1, h, who)
  {
    var front := ops[..|ops|-1];
    forall who
      ensures ProposedBy(single, ops, h, who) <==>
        ProposedBy(single, front, h, who) || ProposedAt(single, ops, |ops| - 1, h, who)
    {
      if n :| 0 <= n < |ops| && ProposedAt(single, ops, n, h, who) {
        if n < |front| {
          assert front[..n] == ops[..n];
          assert ProposedAt(single, front, n, h, who);
        }
      }
      if n :| 0 <= n < |front| && ProposedAt(single, front, n, h, who) {
        assert front[..n] == ops[..n];
        assert ProposedAt(single, ops, n, h, who);
      }
    }
  }

  lemma StepProposers(single: bool, s: Store, op: Op, h: string)
    requires FreshEnough(s, op)
    ensures h in s.byId ==>
              h in Step(single, s, op).byId
              && Step(single, s, op).byId[h].proposedBy == s.byId[h].proposedBy
    ensures h in Step(single, s, op).byId && h !in s.byId ==>
      && op.Propose? && op.freshId == h
      && Step(single, s, op).byId[h].proposedBy == op.caller.id
      && !(op.p.idempotencyKey != "" && op.p.idempotencyKey in s.byIdemKey)
    ensures op.Propose? && op.freshId == h && !(op.p.idempotencyKey != "" && op.p.idempotencyKey in s.byIdemKey) ==>
      h in Step(single, s, op).byId && h !in s.byId
  {
    hide IsBlank, KindOf, ActionKey;
  }

  /** A call made at any point of an orderly run, whatever fails: if it executes a consequential
      action, then it logged the admission first, held a delta if the port returned one, and the
      action's full quorum of people other than the intent's proposer had approved it. */
  lemma ConsequentialExecutionIsConsented(single: bool, ops: seq<SysOp>, a: Request, from: Maybe<(string, nat)>,
                                          now: int, w: World, h: string, k: nat)
    requires OrderlyRun(single, ops)
    requires var s := SysRun(single, ops).store; HomeOf(s, h, a)
    requires a.actionId != "" && TierOf(a) == Consequential
    requires var es := Authorized(a, DecisionAt(SysRun(single, ops).store, from), now, w).events;
      k < |es| && es[k].Executing?
    ensures var es := Authorized(a, DecisionAt(SysRun(single, ops).store, from), now, w).events;
      es[0] == Logged(Consequential, "admitted") && k > 0
        && (w.apply == ApplyDelta ==> k > 1 && es[k - 1] == Applied(a.actionId))
    ensures Backed(SysRun(single, ops).store, h, a)
    ensures exists who :: ProposedBy(single, ops, h, who)
    ensures forall who :: ProposedBy(single, ops, h, who) ==> BackedBut(SysRun(single, ops).store, h, a, who)
  {
    var s := SysRun(single, ops).store;
    RunIsGood(single, ops);
    ProposerIs(single, ops, h);
    ExecutionIsAdmitted(a, DecisionAt(s, from), now, w, k);
    ExecutionFollowsDelta(a, DecisionAt(s, from), now, w, k);
    hide Authorized, Inv, SysRun, OrderlyRun, ProposedBy, BackedBut;
    VerifiedIsBacked(single, s, a, from, now, h);
    BackedIs(s, h, a);
  }

  lemma VerifiedIsBacked(single: bool, s: Store, a: Request, from: Maybe<(string, nat)>, now: int, h: string)
    requires Inv(single, s) && AllAsked(s) && HomeOf(s, h, a)
    requires a.actionId != "" && TierOf(a) == Consequential
    requires VerifyDecision(DecisionAt(s, from), a.actionId, now) == Ok
    ensures Backed(s, h, a)
  {
    var d := DecisionAt(s, from).value;
    var i, n := from.value.0, from.value.1;
    var j := InFor(s.byId[i].decisions, n, a.actionId);
    assert i == h;
    SettledApprovalIsBacked(single, s, h, a.actionId, j);
    assert QuorumAsked(s.byId[h], a.actionId);
    ConsequentialKind(a);
    hide ConsentKind, Classify, For, Inv;
  }

  lemma ConsequentialKind(a: Request)
    requires TierOf(a) == Consequential
    ensures ConsentKind(a.verb, a.impact) != NoConsent
  {
    NormalizedIs(a.impact);
  }

  // ---------------------------------------------------------------- when the discipline is not kept

  /** In any reachable store, orderly or not: a settled approval is backed by the quorum of the
      action as it is registered now exactly when the quorum recorded in the decision is that
      quorum. The broker does not compare the two. */
  lemma BackedExactlyWhenQuorumMatches(single: bool, s: Store, h: string, a: Request, k: nat)
    requires Inv(single, s) && h in s.byId
    requires k < |s.byId[h].decisions|
    requires var d := s.byId[h].decisions[k]; d.actionId == a.actionId && d.settled && d.verdict == APPROVE
    ensures Backed(s, h, a) <==> s.byId[h].decisions[k].needed >= QuorumFor(ConsentKind(a.verb, a.impact))
  {
    var j := InFor(s.byId[h].decisions, k, a.actionId);
    SettledApprovalIsBacked(single, s, h, a.actionId, j);
  }

  /** A vote before registration asks for one approval. Registering the action afterwards as one
      that needs two people leaves that single approval executable: the broker runs it. */
  lemma LateRegistrationExecutesOnOneApproval(s: Store, v: Vote, impact: seq<string>, now: int)
    requires Inv(false, s) && VoteStatus(false, s, v) == 0 && v.verdict == APPROVE
    requires v.actionId != "" && FindAction(s.byId[v.intentId].actions, v.actionId) == None
    requires forall i :: i in s.byId ==> For(s.byId[i].decisions, v.actionId) == []
    requires DECIDE_SCOPE in v.caller.scopes && now < v.now + DELTA_WINDOW
    requires ConsentKind(DELETE, impact) == TwoPerson
    ensures var a := Request(v.actionId, DELETE, impact, true, false, true);
      var t := AwaitStep(VoteStep(false, s, v), v.intentId, Action(v.actionId, DELETE, impact));
      && HomeOf(t, v.intentId, a) && !Backed(t, v.intentId, a)
      && exists n ::
           Authorized(a, DecisionAt(t, Some((v.intentId, n))), now,
                      World(false, false, false, ApplyDelta, false, false)).result
                     == ExecutedAt(Consequential)
  {
    var h, i := v.intentId, s.byId[v.intentId];
    var t := AwaitStep(VoteStep(false, s, v), h, Action(v.actionId, DELETE, impact));
    var a, d := Request(v.actionId, DELETE, impact, true, false, true), MakeDecision(v, i, true, 1, 1);
    OneApprovalThenRegistered(s, v, impact);
    hide Inv, For, IsBlank, AwaitStep, VoteStep, HomeOf;
    assert |{v.caller.id}| == 1;
    assert DecisionAt(t, Some((h, |i.decisions|))) == Some(d);
    TwoPersonIsConsequential(impact);
    hide ConsentKind, Classify;
    VerifiedVote(v, i, now);
    hide VerifyDecision;
    ExecutesWhenVerified(a, Some(d), now);
  }

  /** The store after the early vote and the late registration. */
  lemma OneApprovalThenRegistered(s: Store, v: Vote, impact: seq<string>)
    requires Inv(false, s) && VoteStatus(false, s, v) == 0 && v.verdict == APPROVE
    requires FindAction(s.byId[v.intentId].actions, v.actionId) == None
    requires forall i :: i in s.byId ==> For(s.byId[i].decisions, v.actionId) == []
    ensures var t := AwaitStep(VoteStep(false, s, v), v.intentId, Action(v.actionId, DELETE, impact));
      && v.intentId in t.byId
      && HomeOf(t, v.intentId, Request(v.actionId, DELETE, impact, true, false, true))
      && t.byId[v.intentId].decisions
        == s.byId[v.intentId].decisions + [MakeDecision(v, s.byId[v.intentId], true, 1, 1)]
      && Approvals(t.byId[v.intentId].decisions, v.actionId) == {v.caller.id}
  {
    hide IsBlank, ConsentKind, MakeDecision;
    var h, x, i := v.intentId, v.actionId, s.byId[v.intentId];
    assert PairOk(false, s, h, x);
    hide Inv;
    assert Deciders([]) == {} && {} + {v.caller.id} == {v.caller.id};
    var d := MakeDecision(v, i, true, 1, 1);
    MadeBy(v, i);
    ForMore(i.decisions, d, x);
    DecidersMore([], d);
    assert [] + [d] == [d];
    hide For, Deciders, PairOk;
    FindActionMore(i.actions, Action(x, DELETE, impact), x);
  }

  lemma MadeBy(v: Vote, i: Intent)
    ensures var d := MakeDecision(v, i, true, 1, 1);
      d.actionId == v.actionId && d.verdict == v.verdict && d.decidedBy == v.caller.id
  {
  }

  lemma VerifiedVote(v: Vote, i: Intent, now: int)
    requires v.verdict == APPROVE && !IsBlank(v.reason) && v.caller.id != i.proposedBy
    requires DECIDE_SCOPE in v.caller.scopes && now < v.now + DELTA_WINDOW
    ensures VerifyDecision(Some(MakeDecision(v, i, true, 1, 1)), v.actionId, now) == Ok
  {
    hide IsBlank;
  }

  lemma ExecutesWhenVerified(a: Request, d: Maybe<Decision>, now: int)
    requires TierOf(a) == Consequential && VerifyDecision(d, a.actionId, now) == Ok && d.Some?
      && (RequiresInverse(a.verb) ==> a.hasInverse) && a.declared && !a.prohibited
    ensures Authorized(a, d, now, World(false, false, false, ApplyDelta, false, false)).result
      == ExecutedAt(Consequential)
  {
    hide VerifyDecision, Classify;
  }

  lemma TwoPersonIsConsequential(impact: seq<string>)
    requires ConsentKind(DELETE, impact) == TwoPerson
    ensures Classify(DELETE, impact, true, false) == Consequential
  {
    NormalizedIs(impact);
  }

  /** A decision is bound by action id alone. Any decision that verifies executes, in a newly proposed
      intent, whatever consequential action is registered there under the same id, with no approval
      of that intent's own. */
  lemma SharedIdExecutesUnbacked(s: Store, from: (string, nat), p: Proposal, caller: Caller, id: string,
                                 a: Request, now: int)
    requires from.0 in s.byId && from.1 < |s.byId[from.0].decisions| && id !in s.byId
    requires p.idempotencyKey == "" || p.idempotencyKey !in s.byIdemKey
    requires VerifyDecision(Some(s.byId[from.0].decisions[from.1]), a.actionId, now) == Ok
    requires TierOf(a) == Consequential && a.declared && !a.prohibited && (RequiresInverse(a.verb) ==> a.hasInverse)
    ensures var t := AwaitStep(ProposeStep(s, p, caller, id).0, id, Action(a.actionId, a.verb, a.impact));
      && id in t.byId && FindAction(t.byId[id].actions, a.actionId) == Some(Action(a.actionId, a.verb, a.impact))
      && !Backed(t, id, a)
      && Authorized(a, DecisionAt(t, Some(from)), now, World(false, false, false, ApplyDelta, false, false)).result
         == ExecutedAt(Consequential)
  {
    var t := AwaitStep(ProposeStep(s, p, caller, id).0, id, Action(a.actionId, a.verb, a.impact));
    var i := t.byId[id];
    assert i.actions == [Action(a.actionId, a.verb, a.impact)] && i.decisions == [];
    assert Approvals(i.decisions, a.actionId) == {};
    assert DecisionAt(t, Some(from)) == Some(s.byId[from.0].decisions[from.1]);
    hide ConsentKind, Classify, VerifyDecision;
    ExecutesWhenVerified(a, DecisionAt(t, Some(from)), now);
  }
}

/** The decision store over every sequence of operations: who approved what, and when it is final. */
module DecisionInvariant {
  import opened Wrappers
  import opened Taxonomy
  import opened IntentRecords

  /** The decisions on one action, in the order they were recorded. */
  function For(ds: seq<Decision>, actionId: string): seq<Decision> {
    if |ds| == 0 then []
    else
      var front, d := For(ds[..|ds|-1], actionId), ds[|ds|-1];
      if d.actionId == actionId then front + [d] else front
  }

  function Deciders(ds: seq<Decision>): set<string> {
    set k | 0 <= k < |ds| && ds[k].verdict == APPROVE :: ds[k].decidedBy
  }

  /** Final exactly when the last decision settled, and nothing before it had. */
  ghost predicate Finality(ds: seq<Decision>, final: bool) {
    && (final <==> |ds| > 0 && ds[|ds|-1].settled)
    && (forall k :: 0 <= k < |ds| - 1 ==> !ds[k].settled)
  }

  /** The `k`-th vote on an action: never the proposer's; a refusal settles at once; an approval
      carries its count, settles at its quorum, and is no half of a pair nobody can complete. */
  ghost predicate VoteOk(single: bool, proposer: string, k: nat, d: Decision) {
    && d.proposedBy == proposer && d.decidedBy != proposer && d.needed >= 1
    && (d.verdict != APPROVE ==> d.settled)
    && (d.verdict == APPROVE ==>
          d.have == k + 1 && (d.settled <==> k + 1 >= d.needed) && !(single && d.needed == 2))
  }

  ghost predicate DistinctApprovals(ds: seq<Decision>) {
    forall j, k :: 0 <= j < k < |ds| && ds[j].verdict == APPROVE && ds[k].verdict == APPROVE ==>
      ds[j].decidedBy != ds[k].decidedBy
  }

  /** Fewer votes than the quorum, which has been the same from the first vote on. */
  ghost predicate ShortOf(quorum: nat, ds: seq<Decision>) {
    |ds| < quorum && forall k :: 0 <= k < |ds| ==> ds[k].needed == quorum
  }

  /** All votes on the action were asked for one quorum. */
  ghost predicate SameQuorum(ds: seq<Decision>) {
    forall k :: 0 <= k < |ds| ==> ds[k].needed == ds[0].needed
  }

  /** Everything the store promises about the decisions `ds` on one action of one intent. */
  ghost predicate Consistent(single: bool, proposer: string, kind: Consent, ds: seq<Decision>, final: bool,
                             approvers: set<string>) {
    && Finality(ds, final)
    && (forall k :: 0 <= k < |ds| ==> VoteOk(single, proposer, k, ds[k]))
    && approvers == Deciders(ds) && DistinctApprovals(ds)
    && SameQuorum(ds)
    && (!final ==> ShortOf(QuorumFor(kind), ds))
  }

  ghost predicate PairOk(single: bool, s: Store, i: string, a: string)
    requires i in s.byId
  {
    var intent := s.byId[i];
    Consistent(single, intent.proposedBy, KindOf(intent, a), For(intent.decisions, a),
               ActionKey(i, a) in s.finalActions, Approvers(s, ActionKey(i, a)))
  }

  ghost predicate OwnKey(s: Store, key: string) {
    exists i, a :: i in s.byId && key == ActionKey(i, a)
  }

  ghost predicate Inv(single: bool, s: Store) {
    && (forall i :: i in s.byId ==> ':' !in i && s.byId[i].id == i)
    && (forall k :: k in s.byIdemKey ==> s.byIdemKey[k] in s.byId)
    && (forall key :: key in s.finalActions || key in s.approversByAction ==> OwnKey(s, key))
    && (forall i, a :: i in s.byId ==> PairOk(single, s, i, a))
  }

  /** What the id generator provides: a new id, and none of its own characters is a colon. */
  predicate FreshEnough(s: Store, op: Op) {
    op.Propose? ==> op.freshId !in s.byId && ':' !in op.freshId
  }

  lemma KeyInjective(i: string, a: string, i': string, a': string)
    requires ':' !in i && ':' !in i' && ActionKey(i, a) == ActionKey(i', a')
    ensures i == i' && a == a'
  {
    var k := ActionKey(i, a);
    assert k[|i|] == ':' && k[|i'|] == ':';
    assert k[..|i|] == i && k[..|i'|] == i';
    assert k[|i| + 1..] == a && k[|i'| + 1..] == a';
  }

  lemma ForMore(ds: seq<Decision>, d: Decision, a: string)
    ensures For(ds + [d], a) == if d.actionId == a then For(ds, a) + [d] else For(ds, a)
  {
    assert (ds + [d])[..|ds|] == ds;
  }

  lemma {:induction false} InFor(ds: seq<Decision>, k: nat, a: string) returns (j: nat)
    requires k < |ds| && ds[k].actionId == a
    ensures j < |For(ds, a)| && For(ds, a)[j] == ds[k]
  {
    var front := ds[..|ds|-1];
    if k == |ds| - 1 {
      j := |For(front, a)|;
    } else {
      j := InFor(front, k, a);
    }
  }

  // ---------------------------------------------------------------- one vote on one action

  lemma DecidersMore(ds: seq<Decision>, d: Decision)
    ensures Deciders(ds + [d]) == Deciders(ds) + if d.verdict == APPROVE then {d.decidedBy} else {}
  {
    var more := ds + [d];
    forall x ensures x in Deciders(more) <==> x in Deciders(ds) + if d.verdict == APPROVE then {d.decidedBy} else {} {
      if x in Deciders(more) {
        var k :| 0 <= k < |more| && more[k].verdict == APPROVE && more[k].decidedBy == x;
        if k < |ds| { assert ds[k] == more[k]; }
      }
      if x in Deciders(ds) {
        var k :| 0 <= k < |ds| && ds[k].verdict == APPROVE && ds[k].decidedBy == x;
        assert more[k] == ds[k];
      }
      if d.verdict == APPROVE && x == d.decidedBy { assert more[|ds|] == d; }
    }
  }

  /** While nothing is final there are as many approvers as decisions. */
  lemma {:induction false} DecidersCount(ds: seq<Decision>)
    requires forall k :: 0 <= k < |ds| ==> ds[k].verdict == APPROVE
    requires forall j, k :: 0 <= j < k < |ds| ==> ds[j].decidedBy != ds[k].decidedBy
    ensures |Deciders(ds)| == |ds|
  {
    if |ds| > 0 {
      var front, d := ds[..|ds|-1], ds[|ds|-1];
      DecidersCount(front);
      DecidersMore(front, d);
      assert ds == front + [d];
      assert forall k :: 0 <= k < |front| ==> front[k] == ds[k];
      assert d.decidedBy !in Deciders(front);
    }
  }

  /** Recording a vote that passed every check keeps the action consistent. */
  lemma VoteKeepsConsistent(single: bool, proposer: string, kind: Consent, ds: seq<Decision>, approvers: set<string>,
                            d: Decision)
    requires Consistent(single, proposer, kind, ds, false, approvers)
    requires d.proposedBy == proposer && d.decidedBy != proposer && d.needed == QuorumFor(kind)
    requires d.verdict != APPROVE ==> d.settled
    requires d.verdict == APPROVE ==>
      && d.decidedBy !in approvers && !(single && kind == TwoPerson)
      && d.have == |approvers + {d.decidedBy}| && (d.settled <==> d.have >= d.needed)
    ensures Consistent(single, proposer, kind, ds + [d], d.settled,
                       if d.verdict == APPROVE then approvers + {d.decidedBy} else approvers)
  {
    OpenSoFar(single, proposer, kind, ds, approvers);
    DecidersMore(ds, d);
    if d.verdict == APPROVE { NewApprover(ds, d); } else { NoNewApprover(ds, d); }
    assert VoteOk(single, proposer, |ds|, d);
    FinalityMore(ds, d);
    VotesMore(single, proposer, ds, d);
    if !d.settled { ShortMore(QuorumFor(kind), ds, d); }
    QuorumMore(QuorumFor(kind), ds, d);
    hide SameQuorum, Deciders, DistinctApprovals, VoteOk, QuorumFor, Finality, ShortOf;
  }

  lemma FinalityMore(ds: seq<Decision>, d: Decision)
    requires forall k :: 0 <= k < |ds| ==> !ds[k].settled
    ensures Finality(ds + [d], d.settled)
  {
  }

  lemma VotesMore(single: bool, proposer: string, ds: seq<Decision>, d: Decision)
    requires (forall k :: 0 <= k < |ds| ==> VoteOk(single, proposer, k, ds[k])) && VoteOk(single, proposer, |ds|, d)
    ensures forall k :: 0 <= k < |ds + [d]| ==> VoteOk(single, proposer, k, (ds + [d])[k])
  {
    hide VoteOk;
  }

  lemma QuorumMore(quorum: nat, ds: seq<Decision>, d: Decision)
    requires ShortOf(quorum, ds) && d.needed == quorum
    ensures SameQuorum(ds + [d])
  {
  }

  lemma ShortMore(quorum: nat, ds: seq<Decision>, d: Decision)
    requires ShortOf(quorum, ds) && d.needed == quorum && |ds| + 1 < quorum
    ensures ShortOf(quorum, ds + [d])
  {
  }

  /** While nothing is final every decision is an approval short of quorum, one approver each. */
  lemma OpenSoFar(single: bool, proposer: string, kind: Consent, ds: seq<Decision>, approvers: set<string>)
    requires Consistent(single, proposer, kind, ds, false, approvers)
    ensures forall k :: 0 <= k < |ds| ==> !ds[k].settled && ds[k].verdict == APPROVE
    ensures |approvers| == |ds|
  {
    assert forall k :: 0 <= k < |ds| ==> VoteOk(single, proposer, k, ds[k]);
    hide Deciders;
    DecidersCount(ds);
  }

  lemma NoNewApprover(ds: seq<Decision>, d: Decision)
    requires DistinctApprovals(ds) && d.verdict != APPROVE
    ensures DistinctApprovals(ds + [d])
  {
  }

  lemma NewApprover(ds: seq<Decision>, d: Decision)
    requires DistinctApprovals(ds) && d.verdict == APPROVE && d.decidedBy !in Deciders(ds)
    ensures DistinctApprovals(ds + [d]) && |Deciders(ds) + {d.decidedBy}| == |Deciders(ds)| + 1
  {
    forall k | 0 <= k < |ds| && ds[k].verdict == APPROVE ensures ds[k].decidedBy != d.decidedBy {
      assert ds[k].decidedBy in Deciders(ds);
    }
  }

  // ---------------------------------------------------------------- the operations keep the invariant

  lemma {:induction false} FindActionMore(actions: seq<Action>, a: Action, id: string)
    ensures FindAction(actions + [a], id) ==
      if FindAction(actions, id).Some? then FindAction(actions, id) else if a.actionId == id then Some(a) else None
  {
    if |actions| > 0 {
      assert (actions + [a])[1..] == actions[1..] + [a];
      FindActionMore(actions[1..], a, id);
    } else {
      assert actions + [a] == [a];
    }
  }

  lemma ProposeKeeps(single: bool, s: Store, p: Proposal, caller: Caller, freshId: string)
    requires Inv(single, s) && freshId !in s.byId && ':' !in freshId
    ensures Inv(single, ProposeStep(s, p, caller, freshId).0)
  {
    var t := ProposeStep(s, p, caller, freshId).0;
    hide Consistent, KindOf, For;
    forall key | key in t.finalActions || key in t.approversByAction ensures OwnKey(t, key) {
      assert OwnKey(s, key);
      var i, a :| i in s.byId && key == ActionKey(i, a);
      assert i in t.byId;
    }
    if t != s {
      forall i, a | i in t.byId ensures PairOk(single, t, i, a) {
        if i == freshId {
          NewIntentOk(single, s, t, p, caller, freshId, a);
        } else {
          assert PairOk(single, s, i, a);
        }
      }
    }
  }

  lemma NewIntentOk(single: bool, s: Store, t: Store, p: Proposal, caller: Caller, id: string, a: string)
    requires Inv(single, s) && id !in s.byId && ':' !in id
    requires id in t.byId && t.byId[id] == NewIntent(id, caller, p)
    requires t.finalActions == s.finalActions && t.approversByAction == s.approversByAction
    ensures PairOk(single, t, id, a)
  {
    var key := ActionKey(id, a);
    if OwnKey(s, key) {
      var i', a' :| i' in s.byId && key == ActionKey(i', a');
      KeyInjective(id, a, i', a');
    }
    assert key !in s.finalActions && key !in s.approversByAction;
    assert Deciders([]) == {};
  }

  /** Changing an intent without touching its decisions, proposer or any action's quorum. */
  lemma EditKeeps(single: bool, s: Store, t: Store, id: string)
    requires Inv(single, s) && id in s.byId && t.byId.Keys == s.byId.Keys
    requires t.byIdemKey == s.byIdemKey && t.finalActions == s.finalActions
      && t.approversByAction == s.approversByAction
    requires forall i :: i in s.byId && i != id ==> t.byId[i] == s.byId[i]
    requires t.byId[id].id == id && t.byId[id].decisions == s.byId[id].decisions
      && t.byId[id].proposedBy == s.byId[id].proposedBy
    requires forall a ::
      KindOf(t.byId[id], a) == KindOf(s.byId[id], a) || For(s.byId[id].decisions, a) == [] || FinalWith(s, id, a)
    ensures Inv(single, t)
  {
    forall key | key in t.finalActions || key in t.approversByAction ensures OwnKey(t, key) {
      assert OwnKey(s, key);
      var i, a :| i in s.byId && key == ActionKey(i, a);
      assert i in t.byId;
    }
    forall i, a | i in t.byId ensures PairOk(single, t, i, a) {
      assert PairOk(single, s, i, a);
      hide KindOf, For, Deciders;
    }
  }

  ghost predicate FinalWith(s: Store, i: string, a: string) {
    ActionKey(i, a) in s.finalActions
  }

  lemma AwaitKeeps(single: bool, s: Store, id: string, action: Action)
    requires Inv(single, s)
    ensures Inv(single, AwaitStep(s, id, action))
  {
    if id in s.byId {
      var t := AwaitStep(s, id, action);
      var i, j := s.byId[id], t.byId[id];
      forall a ensures KindOf(j, a) == KindOf(i, a) || For(i.decisions, a) == [] || FinalWith(s, id, a) {
        FindActionMore(s.byId[id].actions, action, a);
        assert PairOk(single, s, id, a);
      }
      EditKeeps(single, s, t, id);
    }
  }

  lemma UpdateKeeps(single: bool, s: Store, id: string, body: UpdateBody, caller: Caller)
    requires Inv(single, s)
    ensures Inv(single, UpdateStep(s, id, body, caller))
  {
    if UpdateStatus(s, id, body, caller) == 0 {
      EditKeeps(single, s, UpdateStep(s, id, body, caller), id);
    }
  }

  lemma VoteKeeps(single: bool, s: Store, v: Vote)
    requires Inv(single, s)
    ensures Inv(single, VoteStep(single, s, v))
  {
    hide IsBlank, ConsentKind, KindOf, QuorumFor, PairOk, MakeDecision;
    if VoteStatus(single, s, v) == 0 {
      var t := VoteStep(single, s, v);
      VoteOwnsKeys(single, s, v);
      hide OwnKey;
      forall i, a | i in t.byId ensures PairOk(single, t, i, a) {
        if i == v.intentId && a == v.actionId {
          VotedPairOk(single, s, v);
        } else {
          OtherPairOk(single, s, v, i, a);
        }
      }
    }
  }

  lemma VoteOwnsKeys(single: bool, s: Store, v: Vote)
    requires Inv(single, s) && VoteStatus(single, s, v) == 0
    ensures var t := VoteStep(single, s, v);
      forall key :: key in t.finalActions || key in t.approversByAction ==> OwnKey(t, key)
  {
    hide IsBlank, ConsentKind, KindOf, QuorumFor, PairOk, MakeDecision;
    var t := VoteStep(single, s, v);
    forall key | key in t.finalActions || key in t.approversByAction ensures OwnKey(t, key) {
      if key in s.finalActions || key in s.approversByAction {
        assert OwnKey(s, key);
        var i, a :| i in s.byId && key == ActionKey(i, a);
        assert i in t.byId;
      }
    }
  }

  lemma VotedPairOk(single: bool, s: Store, v: Vote)
    requires Inv(single, s) && VoteStatus(single, s, v) == 0
    ensures v.intentId in VoteStep(single, s, v).byId && PairOk(single, VoteStep(single, s, v), v.intentId, v.actionId)
  {
    hide IsBlank, ConsentKind, KindOf, ActionKey, Consistent;
    var t, i := VoteStep(single, s, v), s.byId[v.intentId];
    var key := ActionKey(v.intentId, v.actionId);
    assert PairOk(single, s, v.intentId, v.actionId);
    var ds := t.byId[v.intentId].decisions;
    var d := ds[|ds|-1];
    assert ds == i.decisions + [d];
    ForMore(i.decisions, d, v.actionId);
    var before := For(i.decisions, v.actionId);
    VoteKeepsConsistent(single, i.proposedBy, KindOf(i, v.actionId), before, Approvers(s, key), d);
    SameKind(t.byId[v.intentId], i, v.actionId);
    hide For;
  }

  lemma OtherPairOk(single: bool, s: Store, v: Vote, i: string, a: string)
    requires Inv(single, s) && VoteStatus(single, s, v) == 0 && i in s.byId
    requires i != v.intentId || a != v.actionId
    ensures i in VoteStep(single, s, v).byId && PairOk(single, VoteStep(single, s, v), i, a)
  {
    hide Consistent, For, KindOf, IsBlank, ConsentKind, QuorumFor;
    var t, key := VoteStep(single, s, v), ActionKey(v.intentId, v.actionId);
    assert PairOk(single, s, i, a);
    if ActionKey(i, a) == key { KeyInjective(i, a, v.intentId, v.actionId); }
    hide ActionKey;
    assert Approvers(t, ActionKey(i, a)) == Approvers(s, ActionKey(i, a));
    assert ActionKey(i, a) in t.finalActions <==> ActionKey(i, a) in s.finalActions;
    if i == v.intentId {
      var ds, ds' := s.byId[i].decisions, t.byId[i].decisions;
      assert ds' == ds + [ds'[|ds|]] && ds'[|ds|].actionId == v.actionId;
      ForMore(ds, ds'[|ds|], a);
      SameKind(t.byId[i], s.byId[i], a);
    }
  }

  lemma SameKind(x: Intent, y: Intent, a: string)
    requires x.actions == y.actions
    ensures KindOf(x, a) == KindOf(y, a)
  {
  }

  // ---------------------------------------------------------------- whole runs

  function Run(single: bool, ops: seq<Op>): Store {
    if |ops| == 0 then EMPTY else Step(single, Run(single, ops[..|ops|-1]), ops[|ops|-1])
  }

  ghost predicate FreshRun(single: bool, ops: seq<Op>) {
    forall k :: 0 <= k < |ops| ==> FreshEnough(Run(single, ops[..k]), ops[k])
  }

  lemma StepKeeps(single: bool, s: Store, op: Op)
    requires Inv(single, s) && FreshEnough(s, op)
    ensures Inv(single, Step(single, s, op))
  {
    hide Inv, ProposeStep, AwaitStep, UpdateStep, VoteStep;
    match op
    case Propose(p, caller, freshId) => ProposeKeeps(single, s, p, caller, freshId);
    case Await(i, a) => AwaitKeeps(single, s, i, a);
    case Update(i, body, caller) => UpdateKeeps(single, s, i, body, caller);
    case Decide(v) => VoteKeeps(single, s, v);
  }

  lemma EmptyOk(single: bool)
    ensures Inv(single, EMPTY)
  {
  }

  /** Every sequence of propose, awaitConsent, update and decide keeps the whole invariant. */
  lemma {:induction false} RunKeeps(single: bool, ops: seq<Op>)
    requires FreshRun(single, ops)
    ensures Inv(single, Run(single, ops))
  {
    if |ops| == 0 {
      EmptyOk(single);
    } else {
      var front := ops[..|ops|-1];
      forall k | 0 <= k < |front| ensures FreshEnough(Run(single, front[..k]), front[k]) {
        assert front[..k] == ops[..k] && FreshEnough(Run(single, ops[..k]), ops[k]);
      }
      RunKeeps(single, front);
      assert FreshEnough(Run(single, ops[..|ops|-1]), ops[|ops|-1]);
      StepKeeps(single, Run(single, front), ops[|ops|-1]);
    }
  }

  /** The recorded approvals of an action. */
  function Approvals(ds: seq<Decision>, actionId: string): set<string> {
    Deciders(For(ds, actionId))
  }

  /** What a settled approval rests on, in any reachable store: it is the last decision on its
      action, exactly its quorum of different people approved, none of them the proposer, and a
      single-operator store never gets there for a two-person action. */
  lemma SettledApprovalIsBacked(single: bool, s: Store, i: string, a: string, k: nat)
    requires Inv(single, s) && i in s.byId
    requires var ds := For(s.byId[i].decisions, a); k < |ds| && ds[k].settled && ds[k].verdict == APPROVE
    ensures var ds := For(s.byId[i].decisions, a);
      && k == |ds| - 1 && ActionKey(i, a) in s.finalActions
      && |Approvals(s.byId[i].decisions, a)| == |ds| == ds[k].needed
      && s.byId[i].proposedBy !in Approvals(s.byId[i].decisions, a)
      && Approvers(s, ActionKey(i, a)) == Approvals(s.byId[i].decisions, a)
      && !(single && ds[k].needed == 2)
  {
    var ds, proposer := For(s.byId[i].decisions, a), s.byId[i].proposedBy;
    assert PairOk(single, s, i, a);
    assert forall j :: 0 <= j < |ds| ==> VoteOk(single, proposer, j, ds[j]);
    assert forall j :: 0 <= j < |ds| ==> ds[j].verdict == APPROVE;
    DecidersCount(ds);
    assert k > 0 ==> VoteOk(single, proposer, k - 1, ds[k - 1]) && ds[k - 1].needed == ds[0].needed == ds[k].needed;
  }

  /** An action that is not final has fewer approvals than its quorum, and no decision on it settled. */
  lemma OpenActionIsShort(single: bool, s: Store, i: string, a: string)
    requires Inv(single, s) && i in s.byId && ActionKey(i, a) !in s.finalActions
    ensures |Approvals(s.byId[i].decisions, a)| < QuorumFor(KindOf(s.byId[i], a))
    ensures forall k :: 0 <= k < |For(s.byId[i].decisions, a)| ==> !For(s.byId[i].decisions, a)[k].settled
  {
    var ds := For(s.byId[i].decisions, a);
    assert PairOk(single, s, i, a);
    OpenSoFar(single, s.byId[i].proposedBy, KindOf(s.byId[i], a), ds, Approvers(s, ActionKey(i, a)));
  }
}

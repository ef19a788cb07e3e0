/** What each store operation does, clause by clause, and whose proposal an intent is over a run. */
module IntentClauses {
  import opened Wrappers
  import opened Taxonomy
  import opened IntentRecords
  import opened DecisionInvariant

  // ---------------------------------------------------------------- one operation

  /** A proposal with a new key, or none, makes an intent of the caller's that holds what was
      proposed; a known key makes none. */
  lemma ProposeClauses(s: Store, p: Proposal, caller: Caller, id: string)
    ensures var (t, r, duplicate) := ProposeStep(s, p, caller, id);
      && (duplicate <==> p.idempotencyKey != "" && p.idempotencyKey in s.byIdemKey)
      && (duplicate ==> t == s && r == s.byIdemKey[p.idempotencyKey])
      && (!duplicate ==>
            && r == id && id in t.byId && t.byId[id].proposedBy == caller.id && t.byId[id].state == Proposed
            && t.byId[id].outcome == p.outcome && t.byId[id].confidence == p.confidence
            && t.byId[id].evidence == p.evidence
            && t.byId[id].actions == [] && t.byId[id].decisions == [] && t.byId[id].updates == []
            && (p.idempotencyKey != "" ==> p.idempotencyKey in t.byIdemKey && t.byIdemKey[p.idempotencyKey] == id)
            && (forall i :: i in s.byId && i != id ==> i in t.byId && t.byId[i] == s.byId[i])
            && t.finalActions == s.finalActions && t.approversByAction == s.approversByAction)
  {
  }

  lemma AwaitClauses(s: Store, id: string, action: Action)
    requires id in s.byId
    ensures var t := AwaitStep(s, id, action);
      && id in t.byId && t.byId[id].state == AwaitingConsent && t.byId[id].actions == s.byId[id].actions + [action]
      && t.byId[id].decisions == s.byId[id].decisions && t.byId[id].proposedBy == s.byId[id].proposedBy
  {
  }

  /** The logged change: the outcome and confidence that were sent, and the merged evidence if any was. */
  predicate RecordsChange(p: Patch, sent: Patch, evidence: map<string, int>) {
    p.outcome == sent.outcome && p.confidence == sent.confidence
    && p.evidence == (if sent.evidence == None then None else Some(evidence))
  }

  /** Who may update, what it changes and what it leaves. */
  lemma UpdateClauses(s: Store, id: string, body: UpdateBody, caller: Caller)
    ensures var status := UpdateStatus(s, id, body, caller);
      && (status == 404 <==> id !in s.byId)
      && (status == 403 <==> id in s.byId && caller.id != s.byId[id].proposedBy)
      && (status == 409 <==> id in s.byId && caller.id == s.byId[id].proposedBy
                             && (s.byId[id].state == Executed || s.byId[id].state == Denied
                               || s.byId[id].state == Refused))
      && (status == 0 <==>
            && id in s.byId && caller.id == s.byId[id].proposedBy
            && (s.byId[id].state == Proposed || s.byId[id].state == AwaitingConsent) && !body.carriesDecision
            && (body.patch.outcome.Some? || body.patch.confidence.Some? || body.patch.evidence.Some?))
      && (status != 0 ==> UpdateStep(s, id, body, caller) == s)
      && (status in {0, 403, 404, 409, 422})
    ensures UpdateStatus(s, id, body, caller) == 0 ==>
      var t := UpdateStep(s, id, body, caller);
      && id in t.byId && t.byId[id].proposedBy == caller.id && t.byId[id].decisions == s.byId[id].decisions
      && t.byId[id].outcome == (if body.patch.outcome.Some? then body.patch.outcome else s.byId[id].outcome)
      && t.byId[id].confidence == (if body.patch.confidence.Some? then body.patch.confidence else s.byId[id].confidence)
      && (exists p ::
            t.byId[id].updates == s.byId[id].updates + [p] && RecordsChange(p, body.patch, t.byId[id].evidence))
      && (forall k ::
            k in t.byId[id].evidence <==>
              k in s.byId[id].evidence || (body.patch.evidence.Some? && k in body.patch.evidence.value))
      && (forall k :: k in t.byId[id].evidence ==>
            if body.patch.evidence.Some? && k in body.patch.evidence.value
            then t.byId[id].evidence[k] == body.patch.evidence.value[k]
            else t.byId[id].evidence[k] == s.byId[id].evidence[k])
  {
    if UpdateStatus(s, id, body, caller) == 0 {
      var i := UpdateStep(s, id, body, caller).byId[id];
      var p := i.updates[|s.byId[id].updates|];
      assert i.updates == s.byId[id].updates + [p] && RecordsChange(p, body.patch, i.evidence);
    }
  }

  /** Which votes are recorded, what the record holds, and where it leaves the intent. */
  lemma VoteClauses(single: bool, s: Store, v: Vote)
    ensures var status := VoteStatus(single, s, v);
      && (status == 404 <==> v.intentId !in s.byId)
      && (status == 422 <==> v.intentId in s.byId && IsBlank(v.reason))
      && (status == 403 <==> v.intentId in s.byId && !IsBlank(v.reason) && v.caller.id == s.byId[v.intentId].proposedBy)
      && status in {0, 403, 404, 409, 422}
      && (status == 0 <==>
            && v.intentId in s.byId && !IsBlank(v.reason) && v.caller.id != s.byId[v.intentId].proposedBy
            && ActionKey(v.intentId, v.actionId) !in s.finalActions
            && (v.verdict == "approve" ==>
                  && !(single && KindOf(s.byId[v.intentId], v.actionId) == TwoPerson)
                  && v.caller.id !in Approvers(s, ActionKey(v.intentId, v.actionId))))
      && (status != 0 ==> VoteStep(single, s, v) == s)
    ensures VoteStatus(single, s, v) == 0 ==>
      var t := VoteStep(single, s, v);
      && v.intentId in t.byId && |t.byId[v.intentId].decisions| == |s.byId[v.intentId].decisions| + 1
      && var d := t.byId[v.intentId].decisions[|s.byId[v.intentId].decisions|];
      && t.byId[v.intentId].decisions == s.byId[v.intentId].decisions + [d]
      && d.decisionId == v.decisionId && d.actionId == v.actionId && d.verdict == v.verdict && d.reason == v.reason
      && d.decidedBy == v.caller.id && d.scopes == v.caller.scopes && d.proposedBy == s.byId[v.intentId].proposedBy
      && !d.spent && d.expiresAt == v.now + 120000 && d.needed == QuorumFor(KindOf(s.byId[v.intentId], v.actionId))
      && t.byId[v.intentId].state
        == (if v.verdict != "approve" then Denied else if d.settled then Proposed else AwaitingConsent)
      && (forall i :: i in s.byId && i != v.intentId ==> i in t.byId && t.byId[i] == s.byId[i])
  {
    hide IsBlank, KindOf, ActionKey;
  }

  lemma {:induction false} FindIsFirst(actions: seq<Action>, id: string)
    ensures FindAction(actions, id) == None <==> forall k :: 0 <= k < |actions| ==> actions[k].actionId != id
    ensures FindAction(actions, id).Some? ==>
      exists k :: 0 <= k < |actions| && actions[k] == FindAction(actions, id).value && actions[k].actionId == id
                  && forall j :: 0 <= j < k ==> actions[j].actionId != id
  {
    if |actions| > 0 && actions[0].actionId != id {
      var tail := actions[1..];
      FindIsFirst(tail, id);
      if FindAction(tail, id).Some? {
        var k :| 0 <= k < |tail| && tail[k] == FindAction(tail, id).value && tail[k].actionId == id
                 && forall j :: 0 <= j < k ==> tail[j].actionId != id;
        assert actions[k + 1] == tail[k];
        assert forall j :: 0 < j < k + 1 ==> actions[j] == tail[j - 1];
      }
      assert forall k :: 0 < k < |actions| ==> actions[k] == tail[k - 1];
    }
  }

  /** Two people are asked for exactly when the first registration under that id deletes with a
      financial or legal impact; one otherwise, an unregistered action included. */
  lemma QuorumOfAction(intent: Intent, id: string)
    ensures QuorumFor(KindOf(intent, id)) == 2 <==>
      FindAction(intent.actions, id).Some?
      && var a := FindAction(intent.actions, id).value;
      a.verb == "delete" && ("financial" in a.impact || "legal" in a.impact)
    ensures QuorumFor(KindOf(intent, id)) in {1, 2}
  {
    match FindAction(intent.actions, id)
    case None =>
    case Some(a) => ConsentKindIs(a.verb, a.impact);
  }

  /** A reason with a visible character counts, one of blanks alone does not. */
  lemma ReasonsAre(reason: string)
    ensures (exists i :: 0 <= i < |reason| && '!' <= reason[i] <= '~') ==> !IsBlank(reason)
    ensures (forall i :: 0 <= i < |reason| ==> reason[i] in [' ', '\t', '\n', '\r']) ==> IsBlank(reason)
  {
    if i :| 0 <= i < |reason| && '!' <= reason[i] <= '~' { assert !IsBlankChar(reason[i]); }
  }

  // ---------------------------------------------------------------- the proposer, over a run

  /** Step `n` of the run proposed intent `h`, as `who`, with no known key. */
  ghost predicate ProposedAt(single: bool, ops: seq<Op>, n: nat, h: string, who: string) {
    && n < |ops| && ops[n].Propose? && ops[n].freshId == h && ops[n].caller.id == who
    && !(ops[n].p.idempotencyKey != "" && ops[n].p.idempotencyKey in Run(single, ops[..n]).byIdemKey)
  }

  lemma ProposerStays(single: bool, s: Store, op: Op, h: string)
    requires h in s.byId && FreshEnough(s, op)
    ensures h in Step(single, s, op).byId && Step(single, s, op).byId[h].proposedBy == s.byId[h].proposedBy
  {
    hide IsBlank, KindOf, ActionKey;
  }

  lemma FreshPrefix(single: bool, ops: seq<Op>)
    requires FreshRun(single, ops) && |ops| > 0
    ensures FreshRun(single, ops[..|ops|-1]) && FreshEnough(Run(single, ops[..|ops|-1]), ops[|ops|-1])
  {
    var front := ops[..|ops|-1];
    forall k | 0 <= k < |front| ensures FreshEnough(Run(single, front[..k]), front[k]) {
      assert front[..k] == ops[..k] && FreshEnough(Run(single, ops[..k]), ops[k]);
    }
    assert FreshEnough(Run(single, ops[..|ops|-1]), ops[|ops|-1]);
  }

  /** The intent made by a proposal is that caller's for the rest of the run. */
  lemma {:induction false} ProposerStands(single: bool, ops: seq<Op>, n: nat, h: string, who: string)
    requires FreshRun(single, ops) && ProposedAt(single, ops, n, h, who)
    ensures h in Run(single, ops).byId && Run(single, ops).byId[h].proposedBy == who
  {
    var front := ops[..|ops|-1];
    FreshPrefix(single, ops);
    hide FreshRun;
    if n < |front| {
      assert front[..n] == ops[..n] && front[n] == ops[n];
      ProposerStands(single, front, n, h, who);
      ProposerStays(single, Run(single, front), ops[|ops|-1], h);
    } else {
      ProposeClauses(Run(single, front), ops[n].p, ops[n].caller, h);
    }
  }

  /** Over every run: whoever proposed an intent has decided nothing on it, is refused when trying
      to, and is never refused as a stranger when updating it. */
  lemma ProposerNeverDecides(single: bool, ops: seq<Op>, n: nat, h: string, who: string)
    requires FreshRun(single, ops) && ProposedAt(single, ops, n, h, who)
    ensures var s := Run(single, ops);
      && h in s.byId
      && (forall k :: 0 <= k < |s.byId[h].decisions| ==> s.byId[h].decisions[k].decidedBy != who)
      && (forall v: Vote :: v.intentId == h && v.caller.id == who ==> VoteStatus(single, s, v) in {403, 422})
      && (forall body, caller: Caller :: caller.id == who ==> UpdateStatus(s, h, body, caller) != 403)
  {
    ProposerStands(single, ops, n, h, who);
    RunKeeps(single, ops);
    var s := Run(single, ops);
    hide Run, FreshRun, ProposedAt;
    forall k | 0 <= k < |s.byId[h].decisions| ensures s.byId[h].decisions[k].decidedBy != who {
      DeciderIsNoProposer(single, s, h, k);
    }
    forall v: Vote | v.intentId == h && v.caller.id == who ensures VoteStatus(single, s, v) in {403, 422} {
      VoteClauses(single, s, v);
      hide VoteStatus;
    }
  }

  lemma DeciderIsNoProposer(single: bool, s: Store, h: string, k: nat)
    requires Inv(single, s) && h in s.byId && k < |s.byId[h].decisions|
    ensures s.byId[h].decisions[k].decidedBy != s.byId[h].proposedBy
  {
    var d := s.byId[h].decisions[k];
    assert PairOk(single, s, h, d.actionId);
    hide Inv;
    var j := InFor(s.byId[h].decisions, k, d.actionId);
    var ds := For(s.byId[h].decisions, d.actionId);
    hide For;
    assert VoteOk(single, s.byId[h].proposedBy, j, ds[j]);
  }
}

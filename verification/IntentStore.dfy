/** The intent store as the object the API holds: maps reassigned in place, checks in source order. */
module IntentStore {
  import opened Taxonomy
  import opened IntentRecords
  import opened DecisionInvariant

  datatype Answer =
    | Refusal(status: nat)
    | Recorded(decision: Decision)

  class IntentStore {
    const singleOperator: bool
    var byId: map<string, Intent>
    var byIdemKey: map<string, string>
    var finalActions: set<string>
    var approversByAction: map<string, set<string>>

    ghost function Contents(): Store
      reads this
    {
      Store(byId, byIdemKey, finalActions, approversByAction)
    }

    constructor (singleOperator: bool)
      ensures this.singleOperator == singleOperator && Contents() == EMPTY && Inv(singleOperator, Contents())
    {
      this.singleOperator := singleOperator;
      byId, byIdemKey, finalActions, approversByAction := map[], map[], {}, map[];
    }

    method Propose(p: Proposal, caller: Caller, freshId: string) returns (id: string, duplicate: bool)
      requires freshId !in byId && ':' !in freshId
      requires Inv(singleOperator, Contents())
      modifies this
      ensures (Contents(), id, duplicate) == ProposeStep(old(Contents()), p, caller, freshId)
      ensures Inv(singleOperator, Contents())
      ensures id in byId && (duplicate ==> Contents() == old(Contents()))
    {
      ProposeKeeps(singleOperator, Contents(), p, caller, freshId);
      hide Inv;
      if p.idempotencyKey != "" && p.idempotencyKey in byIdemKey {
        KnownKey(singleOperator, Contents(), p.idempotencyKey);
        return byIdemKey[p.idempotencyKey], true;
      }
      byId := byId[freshId := NewIntent(freshId, caller, p)];
      if p.idempotencyKey != "" { byIdemKey := byIdemKey[p.idempotencyKey := freshId]; }
      return freshId, false;
    }

    method AwaitConsent(intentId: string, action: Action) returns (found: bool)
      requires Inv(singleOperator, Contents())
      modifies this
      ensures Contents() == AwaitStep(old(Contents()), intentId, action)
      ensures Inv(singleOperator, Contents())
      ensures found <==> intentId in old(byId)
    {
      AwaitKeeps(singleOperator, Contents(), intentId, action);
      hide Inv;
      if intentId !in byId { return false; }
      var intent := byId[intentId];
      intent := intent.(state := AwaitingConsent);
      intent := intent.(actions := intent.actions + [action]);
      byId := byId[intentId := intent];
      return true;
    }

    /** Never touches decisions, never reopens a settled intent, only for the proposer. */
    method Update(intentId: string, body: UpdateBody, caller: Caller) returns (status: nat)
      requires Inv(singleOperator, Contents())
      modifies this
      ensures status == UpdateStatus(old(Contents()), intentId, body, caller)
      ensures Contents() == UpdateStep(old(Contents()), intentId, body, caller)
      ensures Inv(singleOperator, Contents())
      ensures intentId in byId ==>
        byId[intentId].decisions == old(byId)[intentId].decisions
        && byId[intentId].state == old(byId)[intentId].state
    {
      UpdateKeeps(singleOperator, Contents(), intentId, body, caller);
      hide Inv;
      if intentId !in byId { return 404; }
      var intent := byId[intentId];
      if caller.id != intent.proposedBy { return 403; }
      if intent.state == Executed || intent.state == Denied || intent.state == Refused { return 409; }
      if body.carriesDecision { return 422; }
      if IsEmptyPatch(body.patch) { return 422; }
      byId := byId[intentId := Patched(intent, body.patch)];
      return 0;
    }

    method Decide(v: Vote) returns (r: Answer)
      requires Inv(singleOperator, Contents())
      modifies this
      ensures Contents() == VoteStep(singleOperator, old(Contents()), v)
      ensures Inv(singleOperator, Contents())
      ensures r == if VoteStatus(singleOperator, old(Contents()), v) != 0
        then Refusal(VoteStatus(singleOperator, old(Contents()), v))
                   else Recorded(byId[v.intentId].decisions[|byId[v.intentId].decisions|-1])
    {
      VoteKeeps(singleOperator, Contents(), v);
      hide Inv, KindOf, IsBlank, ActionKey, QuorumFor, MakeDecision;
      if v.intentId !in byId { return Refusal(404); }
      var intent := byId[v.intentId];
      if IsBlank(v.reason) { return Refusal(422); }
      if v.caller.id == intent.proposedBy { return Refusal(403); }
      var key := ActionKey(v.intentId, v.actionId);
      if key in finalActions { return Refusal(409); }
      var kind := KindOf(intent, v.actionId);
      var needed := QuorumFor(kind);

      if v.verdict != APPROVE {
        r := Deny(v, intent, key, needed);
        return;
      }
      if kind == TwoPerson && singleOperator { return Refusal(409); }
      var approvers := if key in approversByAction then approversByAction[key] else {};
      if v.caller.id in approvers { return Refusal(409); }
      r := Approve(v, intent, key, needed, approvers + {v.caller.id});
    }

    /** A refusal is final at once, whatever the quorum. */
    method Deny(v: Vote, intent: Intent, key: string, needed: nat) returns (r: Answer)
      modifies this
      ensures var d := MakeDecision(v, intent, true, needed, 0);
        && r == Recorded(d)
        && Contents() == old(Contents()).(finalActions := old(finalActions) + {key},
             byId := old(byId)[v.intentId := intent.(decisions := intent.decisions + [d], state := Denied)])
    {
      finalActions := finalActions + {key};
      var decision := MakeDecision(v, intent, true, needed, 0);
      byId := byId[v.intentId := intent.(decisions := intent.decisions + [decision], state := Denied)];
      return Recorded(decision);
    }

    /** An approval settles when it brings the distinct approvers up to the quorum. */
    method Approve(v: Vote, intent: Intent, key: string, needed: nat, approvers: set<string>) returns (r: Answer)
      modifies this
      ensures var settled := |approvers| >= needed;
        var d := MakeDecision(v, intent, settled, needed, |approvers|);
        && r == Recorded(d)
        && Contents() == old(Contents()).(
             approversByAction := old(approversByAction)[key := approvers],
             finalActions := if settled then old(finalActions) + {key} else old(finalActions),
             byId := old(byId)[v.intentId := intent.(decisions := intent.decisions + [d], state := if settled
               then Proposed else AwaitingConsent)])
    {
      hide MakeDecision;
      approversByAction := approversByAction[key := approvers];
      var have := |approvers|;
      var settled := have >= needed;
      var decision := MakeDecision(v, intent, settled, needed, have);
      if settled {
        finalActions := finalActions + {key};
        byId := byId[v.intentId := intent.(decisions := intent.decisions + [decision], state := Proposed)];
      } else {
        byId := byId[v.intentId := intent.(decisions := intent.decisions + [decision], state := AwaitingConsent)];
      }
      return Recorded(decision);
    }
  }

  lemma KnownKey(single: bool, s: Store, key: string)
    requires Inv(single, s) && key in s.byIdemKey
    ensures s.byIdemKey[key] in s.byId
  {
  }
}

/** What the broker refuses, runs and reports, clause by clause. */
module BrokerClauses {
  import opened Wrappers
  import opened Taxonomy
  import opened IntentRecords
  import opened Broker

  /** A decision verifies exactly when it is an approval, bound to the action, neither spent nor
      short of its quorum nor expired, by somebody other than the proposer with the decide scope,
      and with a reason. */
  lemma VerifiedExactly(decision: Maybe<Decision>, actionId: string, now: int)
    ensures VerifyDecision(decision, actionId, now) == Ok <==>
      decision.Some? && var d := decision.value;
      && d.verdict == "approve" && (actionId == "" || d.actionId == actionId)
      && !d.spent && d.settled && now < d.expiresAt
      && (d.decidedBy == "" || d.proposedBy == "" || d.decidedBy != d.proposedBy)
      && "intent:decide" in d.scopes && !IsBlank(d.reason)
  {
    hide IsBlank;
  }

  /** The call gets past every test and would run. */
  predicate MayRun(a: Request, decision: Maybe<Decision>, now: int, w: World) {
    && !a.prohibited && a.declared && !w.admitFails
    && (a.verb == "read"
        || (a.verb in ["create", "update", "delete"] && ((a.verb == "update" || a.verb == "delete") ==> a.hasInverse)
            && (("financial" in a.impact || "legal" in a.impact || "reputational" in a.impact) ==>
                  VerifyDecision(decision, a.actionId, now) == Ok)))
  }

  predicate IsConsequential(a: Request) {
    && !a.prohibited && a.declared && a.verb in ["create", "update", "delete"]
    && ("financial" in a.impact || "legal" in a.impact || "reputational" in a.impact)
  }

  /** The executor runs exactly when every test is passed and, for a consequential action, the delta
      could be applied. */
  lemma ExecutesExactly(a: Request, decision: Maybe<Decision>, now: int, w: World)
    ensures (exists k ::
               0 <= k < |Authorized(a, decision, now, w).events|
               && Authorized(a, decision, now, w).events[k].Executing?)
      <==> MayRun(a, decision, now, w) && (IsConsequential(a) ==> w.apply != ApplyThrows)
  {
    Cases(a, decision, now, w);
    hide Authorized, VerifyDecision;
    var es := Authorized(a, decision, now, w).events;
    if MayRun(a, decision, now, w) {
      if IsConsequential(a) && w.apply != ApplyThrows {
        assert es[if w.apply == ApplyDelta then 2 else 1].Executing?;
      } else if !IsConsequential(a) {
        assert es[1].Executing?;
      }
    }
  }

  /** What the caller is told. */
  lemma ResultIs(a: Request, decision: Maybe<Decision>, now: int, w: World)
    ensures var r := Authorized(a, decision, now, w).result;
      && (r.ExecutedAt? <==>
            && MayRun(a, decision, now, w) && !w.executeThrows
            && (IsConsequential(a) ==> w.apply != ApplyThrows && (w.apply == ApplyDelta ==> !w.revertThrows)))
      && (r == Halted <==> MayRun(a, decision, now, w) && IsConsequential(a) && w.apply == ApplyDelta && w.revertThrows)
      && (r == Escalated <==> IsConsequential(a) && !w.admitFails && decision == None)
      && (r.RefusedAt? <==> !MayRun(a, decision, now, w) && r != Escalated)
  {
    Cases(a, decision, now, w);
    assert VerifyDecision(None, a.actionId, now) == NoDecision;
    hide Authorized, VerifyDecision;
  }

  /** The shape of the trace and the result, case by case. */
  lemma Cases(a: Request, decision: Maybe<Decision>, now: int, w: World)
    ensures var c := Authorized(a, decision, now, w);
      if !MayRun(a, decision, now, w) then
        && (forall k :: 0 <= k < |c.events| ==> c.events[k].Logged?)
        && c.result == (if IsConsequential(a) && !w.admitFails && decision == None
                        then Escalated else RefusedAt(TierOf(a)))
      else if !IsConsequential(a) then
        && |c.events| >= 2 && c.events[0].Logged? && c.events[1] == Executing(a.actionId, TierOf(a))
        && c.result == (if w.executeThrows then Raised else ExecutedAt(TierOf(a)))
      else if w.apply == ApplyThrows then
        c.result == Raised && forall k :: 0 <= k < |c.events| ==> c.events[k].Logged?
      else
        var at := if w.apply == ApplyDelta then 2 else 1;
        && |c.events| > at && c.events[at] == Executing(a.actionId, Consequential)
        && c.result == (if w.apply == ApplyDelta && w.revertThrows then Halted
                        else if w.executeThrows then Raised else ExecutedAt(Consequential))
  {
    ClassifyIs(a.verb, a.impact, a.declared, a.prohibited);
    assert VerifyDecision(None, a.actionId, now) == NoDecision;
    assert RequiresInverse(a.verb) <==> a.verb == "update" || a.verb == "delete";
    hide Classify, VerifyDecision, RequiresInverse;
  }

  /** Every refusal and every execution is put on record when the ledger takes it; a consequential
      execution under its own tier, a failed revert as an incident. */
  lemma EveryOutcomeIsLogged(a: Request, decision: Maybe<Decision>, now: int, w: World)
    requires !w.recordFails && !w.haltRecordFails && !w.admitFails
    ensures var c := Authorized(a, decision, now, w);
      && (a.prohibited || !a.declared || a.verb !in ["read", "create", "update", "delete"] ==>
            c.events == [Logged(TierOf(a), "refused")])
      && (IsConsequential(a) && decision.Some? && VerifyDecision(decision, a.actionId, now) != Ok ==>
            c.events == [Logged(Consequential, "admitted"), Logged(Consequential, "refused")])
      && (c.result.ExecutedAt? ==>
            Logged(TierOf(a), "admitted") in c.events && Logged(TierOf(a), "executed") in c.events)
      && (c.result == Halted ==> Logged(Consequential, "revert-failed") in c.events)
  {
    ClassifyIs(a.verb, a.impact, a.declared, a.prohibited);
    hide Classify, VerifyDecision;
  }
}

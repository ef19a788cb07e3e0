/** One call of the broker under every combination of failures: what precedes an execution, and
    what follows a delta. */
module ConsentSafety {
  import opened Wrappers
  import opened Taxonomy
  import opened IntentRecords
  import opened Broker

  // ---------------------------------------------------------------- one call, under every failure

  /** The executor runs at most once, only after the admission was logged, never for a prohibited
      or undeclared action, and for a consequential one only after a decision that verifies. */
  lemma ExecutionIsAdmitted(a: Request, decision: Maybe<Decision>, now: int, w: World, k: nat)
    requires var es := Authorized(a, decision, now, w).events; k < |es| && es[k].Executing?
    ensures var es := Authorized(a, decision, now, w).events;
      && !a.prohibited && a.declared && es[k] == Executing(a.actionId, TierOf(a))
        && TierOf(a) in {Safe, Contained, Consequential}
      && es[0] == Logged(TierOf(a), "admitted") && k > 0
      && (forall j :: 0 <= j < |es| && es[j].Executing? ==> j == k)
      && (RequiresInverse(a.verb) ==> TierOf(a) == Safe || a.hasInverse)
      && (TierOf(a) == Consequential ==> VerifyDecision(decision, a.actionId, now) == Ok)
  {
    hide VerifyDecision, IsVerb, RequiresConsent, RequiresInverse;
  }

  /** A consequential execution stands after the delta that permits it, whenever the port returned one. */
  lemma ExecutionFollowsDelta(a: Request, decision: Maybe<Decision>, now: int, w: World, k: nat)
    requires TierOf(a) == Consequential
    requires var es := Authorized(a, decision, now, w).events; k < |es| && es[k].Executing?
    ensures w.apply != ApplyThrows
    ensures w.apply == ApplyDelta ==> k > 1 && Authorized(a, decision, now, w).events[k - 1] == Applied(a.actionId)
  {
    hide VerifyDecision, IsVerb, RequiresConsent, RequiresInverse;
  }

  /** Every delta applied in `es` is followed by exactly one attempt to revert it, and nothing is
      reverted that was not applied before. */
  ghost predicate Reverted(es: seq<Event>, id: string, done: bool) {
    && (forall k :: 0 <= k < |es| && es[k].Applied? ==> es[k] == Applied(id) && RevertAfter(es, k, id, done))
    && (forall j :: 0 <= j < |es| && es[j].Reverting? ==> AppliedBefore(es, j, id))
    && (forall j, k :: 0 <= j < k < |es| ==>
      !(es[j].Reverting? && es[k].Reverting?) && !(es[j].Applied? && es[k].Applied?))
  }

  ghost predicate RevertAfter(es: seq<Event>, k: int, id: string, done: bool) {
    exists j :: 0 <= k < j < |es| && es[j] == Reverting(id, done)
  }

  ghost predicate AppliedBefore(es: seq<Event>, j: int, id: string) {
    exists k :: 0 <= k < j < |es| && es[k] == Applied(id)
  }

  lemma QuietIsReverted(es: seq<Event>, id: string, done: bool)
    requires forall k :: 0 <= k < |es| ==> !es[k].Applied? && !es[k].Reverting?
    ensures Reverted(es, id, done)
  {
  }

  lemma ShiftOne(e: Event, es: seq<Event>, k: nat, id: string, done: bool)
    requires k < |es|
    ensures RevertAfter(es, k, id, done) ==> RevertAfter([e] + es, k + 1, id, done)
    ensures AppliedBefore(es, k, id) ==> AppliedBefore([e] + es, k + 1, id)
  {
    if RevertAfter(es, k, id, done) {
      var j :| 0 <= k < j < |es| && es[j] == Reverting(id, done);
      assert ([e] + es)[j + 1] == es[j];
    }
    if AppliedBefore(es, k, id) {
      var j :| 0 <= j < k < |es| && es[j] == Applied(id);
      assert ([e] + es)[j + 1] == es[j];
    }
  }

  lemma PrefixKeepsReverted(e: Event, es: seq<Event>, id: string, done: bool)
    requires e.Logged? && Reverted(es, id, done)
    ensures Reverted([e] + es, id, done)
  {
    hide RevertAfter, AppliedBefore;
    var more := [e] + es;
    assert forall j :: 0 < j < |more| ==> more[j] == es[j - 1];
    forall k | 0 <= k < |more| && more[k].Applied? ensures more[k] == Applied(id) && RevertAfter(more, k, id, done) {
      ShiftOne(e, es, k - 1, id, done);
    }
    forall k | 0 <= k < |more| && more[k].Reverting? ensures AppliedBefore(more, k, id) {
      ShiftOne(e, es, k - 1, id, done);
    }
  }

  /** The try block and its finally, in each of its outcomes. */
  lemma ConsentedIsReverted(a: Request, w: World)
    ensures Reverted(Consented(a, w).events, a.actionId, !w.revertThrows)
    ensures forall e :: e in Consented(a, w).events && e.Reverting? && !e.done ==> Consented(a, w).result == Halted
  {
    var c := Consented(a, w);
    if w.apply == ApplyDelta {
      var j := if c.events[2].Reverting? then 2 else 3;
      assert c.events[0] == Applied(a.actionId) && c.events[j] == Reverting(a.actionId, !w.revertThrows);
      assert RevertAfter(c.events, 0, a.actionId, !w.revertThrows) && AppliedBefore(c.events, j, a.actionId);
    } else {
      QuietIsReverted(c.events, a.actionId, !w.revertThrows);
    }
  }

  /** Whatever fails, the executor and the ledger included: each delta returned is reverted once,
      and a revert that fails is what the caller is told. */
  lemma EveryDeltaIsReverted(a: Request, decision: Maybe<Decision>, now: int, w: World)
    ensures Reverted(Authorized(a, decision, now, w).events, a.actionId, !w.revertThrows)
    ensures forall e :: e in Authorized(a, decision, now, w).events && e.Reverting? && !e.done ==>
      Authorized(a, decision, now, w).result == Halted
  {
    hide VerifyDecision, Classify, RequiresInverse, Consented, Reverted;
    var c := Authorized(a, decision, now, w);
    ConsentedIsReverted(a, w);
    var e := Logged(TierOf(a), "admitted");
    PrefixKeepsReverted(e, Consented(a, w).events, a.actionId, !w.revertThrows);
    if c.events != [e] + Consented(a, w).events {
      QuietIsReverted(c.events, a.actionId, !w.revertThrows);
    }
  }
}

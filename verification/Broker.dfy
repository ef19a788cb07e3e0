/** The choke point: decision checks, and the one function every dangerous action passes through,
    with each outside call free to fail. */
module Broker {
  import opened Wrappers
  import opened Taxonomy
  import opened IntentRecords

  const DECIDE_SCOPE := "intent:decide"

  // ---------------------------------------------------------------- verifying a decision

  datatype Check =
    | Ok | NoDecision | NotApproved | OtherAction | Spent
    | AwaitsSecond | Expired | SelfApproval | LacksScope | NoReason

  function VerifyDecision(decision: Maybe<Decision>, actionId: string, now: int): Check {
    match decision
    case None => NoDecision
    case Some(d) =>
      if d.verdict != APPROVE then NotApproved
      else if actionId != "" && d.actionId != actionId then OtherAction
      else if d.spent then Spent
      else if !d.settled then AwaitsSecond
      else if d.expiresAt <= now then Expired
      else if d.decidedBy != "" && d.proposedBy != "" && d.decidedBy == d.proposedBy then SelfApproval
      else if DECIDE_SCOPE !in d.scopes then LacksScope
      else if IsBlank(d.reason) then NoReason
      else Ok
  }

  // ---------------------------------------------------------------- one call, with its outside world

  /** The action as the broker sees it; whether a prohibition applies is decided elsewhere. */
  datatype Request = Request(
    actionId: string, verb: string, impact: seq<string>, declared: bool, prohibited: bool, hasInverse: bool)

  /** What applyDelta does: raise, return nothing truthy, or return a delta. */
  datatype Apply = ApplyThrows | ApplyNothing | ApplyDelta

  /** How each outside call behaves this time: the required append, the first and the second
      best-effort record, the policy port, the executor. */
  datatype World = World(
    admitFails: bool, recordFails: bool, haltRecordFails: bool, apply: Apply, executeThrows: bool, revertThrows: bool)

  datatype Event =
    | Logged(tier: Tier, outcome: string)
    | Applied(actionId: string)
    | Executing(actionId: string, etier: Tier)
    | Reverting(actionId: string, done: bool)

  datatype Result =
    | RefusedAt(tier: Tier)
    | Escalated
    | ExecutedAt(tier: Tier)
    | Raised
    | Halted

  datatype Call = Call(events: seq<Event>, result: Result)

  function Record(fails: bool, tier: Tier, outcome: string): seq<Event> {
    if fails then [] else [Logged(tier, outcome)]
  }

  function TierOf(a: Request): Tier {
    Classify(a.verb, a.impact, a.declared, a.prohibited)
  }

  /** Calling the executor and recording that it ran. */
  function Plain(a: Request, tier: Tier, w: World): Call {
    if w.executeThrows then Call([Executing(a.actionId, tier)], Raised)
    else Call([Executing(a.actionId, tier)] + Record(w.recordFails, tier, "executed"), ExecutedAt(tier))
  }

  /** The finally block: a revert for a delta that was returned; a failed one overrides everything. */
  function Finally(a: Request, w: World, body: Call): Call {
    if w.apply != ApplyDelta then body
    else if w.revertThrows then
      var halted := Record(w.haltRecordFails, Consequential, "revert-failed");
      Call(body.events + [Reverting(a.actionId, false)] + halted, Halted)
    else Call(body.events + [Reverting(a.actionId, true)], body.result)
  }

  function Consented(a: Request, w: World): Call {
    match w.apply
    case ApplyThrows => Call([], Raised)
    case ApplyNothing => Finally(a, w, Plain(a, Consequential, w))
    case ApplyDelta =>
      var body := Plain(a, Consequential, w);
      Finally(a, w, Call([Applied(a.actionId)] + body.events, body.result))
  }

  function After(prefix: seq<Event>, c: Call): Call {
    Call(prefix + c.events, c.result)
  }

  /** The whole of `authorize` as a function of the world's behaviour. */
  function Authorized(a: Request, decision: Maybe<Decision>, now: int, w: World): Call {
    if a.prohibited then Call(Record(w.recordFails, Prohibited, "refused"), RefusedAt(Prohibited))
    else if !a.declared || TierOf(a) == Undeclared
      then Call(Record(w.recordFails, Undeclared, "refused"), RefusedAt(Undeclared))
    else
      var tier := TierOf(a);
      if w.admitFails then Call([], RefusedAt(tier))
      else
        var admitted := [Logged(tier, "admitted")];
        if tier == Safe then After(admitted, Plain(a, tier, w))
        else if tier == Contained then
          if RequiresInverse(a.verb) && !a.hasInverse then Call(admitted, RefusedAt(tier))
          else After(admitted, Plain(a, tier, w))
        else if decision == None then Call(admitted, Escalated)
        else if VerifyDecision(decision, a.actionId, now) != Ok then
          Call(admitted + Record(w.recordFails, tier, "refused"), RefusedAt(tier))
        else if RequiresInverse(a.verb) && !a.hasInverse then Call(admitted, RefusedAt(tier))
        else After(admitted, Consented(a, w))
  }

  class Broker {
    ghost var trace: seq<Event>

    constructor ()
      ensures trace == []
    {
      trace := [];
    }

    ghost method Note(e: seq<Event>)
      modifies this
      ensures trace == old(trace) + e
    {
      trace := trace + e;
    }

    /** Prohibited first, undeclared next, the ledger before any effect, then by tier. */
    method Authorize(a: Request, decision: Maybe<Decision>, now: int, w: World) returns (r: Result)
      modifies this
      ensures trace == old(trace) + Authorized(a, decision, now, w).events
        && r == Authorized(a, decision, now, w).result
    {
      hide VerifyDecision, Classify, Plain, Consented, Record, RequiresInverse;
      if a.prohibited {
        Note(Record(w.recordFails, Prohibited, "refused"));
        return RefusedAt(Prohibited);
      }
      if !a.declared {
        Note(Record(w.recordFails, Undeclared, "refused"));
        return RefusedAt(Undeclared);
      }
      var tier := Classify(a.verb, a.impact, true, false);
      if tier == Undeclared {
        Note(Record(w.recordFails, tier, "refused"));
        return RefusedAt(Undeclared);
      }
      if w.admitFails { return RefusedAt(tier); }
      Note([Logged(tier, "admitted")]);

      if tier == Safe {
        r := RunPlain(a, tier, w);
        return;
      }
      if tier == Contained {
        if RequiresInverse(a.verb) && !a.hasInverse { return RefusedAt(tier); }
        r := RunPlain(a, tier, w);
        return;
      }
      if decision == None { return Escalated; }
      if VerifyDecision(decision, a.actionId, now) != Ok {
        Note(Record(w.recordFails, tier, "refused"));
        return RefusedAt(tier);
      }
      if RequiresInverse(a.verb) && !a.hasInverse { return RefusedAt(tier); }
      r := RunConsented(a, w);
    }

    method RunPlain(a: Request, tier: Tier, w: World) returns (r: Result)
      modifies this
      ensures trace == old(trace) + Plain(a, tier, w).events && r == Plain(a, tier, w).result
    {
      Note([Executing(a.actionId, tier)]);
      if w.executeThrows { return Raised; }
      Note(Record(w.recordFails, tier, "executed"));
      return ExecutedAt(tier);
    }

    /** try { apply; execute; record } finally { revert what was applied }. */
    method RunConsented(a: Request, w: World) returns (r: Result)
      modifies this
      ensures trace == old(trace) + Consented(a, w).events && r == Consented(a, w).result
    {
      var delta := false;
      r := Raised;
      if w.apply != ApplyThrows {
        delta := w.apply == ApplyDelta;
        if delta { Note([Applied(a.actionId)]); }
        Note([Executing(a.actionId, Consequential)]);
        if !w.executeThrows {
          Note(Record(w.recordFails, Consequential, "executed"));
          r := ExecutedAt(Consequential);
        }
      }
      if delta {
        Note([Reverting(a.actionId, !w.revertThrows)]);
        if w.revertThrows {
          Note(Record(w.haltRecordFails, Consequential, "revert-failed"));
          r := Halted;
        }
      }
    }
  }
}

/** Intents and recorded decisions as values, and what each store operation does to them. */
module IntentRecords {
  import opened Wrappers
  import opened Taxonomy

  datatype IntentState = Proposed | AwaitingConsent | Executed | Refused | Denied

  datatype Action = Action(actionId: string, verb: string, impact: seq<string>)

  datatype Caller = Caller(id: string, scopes: seq<string>)

  datatype Decision = Decision(
    decisionId: string, actionId: string, verdict: string, reason: string,
    decidedBy: string, proposedBy: string, scopes: seq<string>,
    spent: bool, settled: bool, needed: nat, have: nat, expiresAt: int)

  /** The fields an update may patch; evidence values are opaque. */
  datatype Patch = Patch(outcome: Maybe<string>, confidence: Maybe<int>, evidence: Maybe<map<string, int>>)

  datatype Intent = Intent(
    id: string, state: IntentState, proposedBy: string,
    outcome: Maybe<string>, confidence: Maybe<int>, evidence: map<string, int>,
    actions: seq<Action>, decisions: seq<Decision>, updates: seq<Patch>)

  datatype Store = Store(
    byId: map<string, Intent>,
    byIdemKey: map<string, string>,
    finalActions: set<string>,
    approversByAction: map<string, set<string>>)

  const APPROVE := "approve"
  const DELTA_WINDOW: int := 120000

  function ActionKey(intentId: string, actionId: string): string {
    intentId + ":" + actionId
  }

  /** White space as String.prototype.trim removes it. */
  predicate IsBlankChar(c: char) {
    var u := c as int;
    9 <= u <= 13 || u == 32 || u == 160 || u == 0x1680 || 0x2000 <= u <= 0x200A
    || u == 0x2028 || u == 0x2029 || u == 0x202F || u == 0x205F || u == 0x3000 || u == 0xFEFF
  }

  /** No reason at all, or white space only. */
  predicate IsBlank(reason: string) {
    forall i :: 0 <= i < |reason| ==> IsBlankChar(reason[i])
  }

  /** The first registered action of that id: `find` returns the earliest. */
  function FindAction(actions: seq<Action>, actionId: string): Maybe<Action> {
    if |actions| == 0 then None
    else if actions[0].actionId == actionId then Some(actions[0])
    else FindAction(actions[1..], actionId)
  }

  /** How much consent an action needs, from its first registration; an unregistered one needs a
      single approval. */
  function KindOf(intent: Intent, actionId: string): Consent {
    match FindAction(intent.actions, actionId)
    case None => Approval
    case Some(a) => if ConsentKind(a.verb, a.impact) == NoConsent then Approval else ConsentKind(a.verb, a.impact)
  }

  // ---------------------------------------------------------------- the operations on values

  datatype Proposal = Proposal(idempotencyKey: string, outcome: Maybe<string>, confidence: Maybe<int>,
    evidence: map<string, int>)

  function NewIntent(id: string, caller: Caller, p: Proposal): Intent {
    Intent(id, Proposed, caller.id, p.outcome, p.confidence, p.evidence, [], [], [])
  }

  /** An idempotency key that was seen before returns the intent it made; a new one makes `freshId`. */
  function ProposeStep(s: Store, p: Proposal, caller: Caller, freshId: string): (Store, string, bool) {
    if p.idempotencyKey != "" && p.idempotencyKey in s.byIdemKey then (s, s.byIdemKey[p.idempotencyKey], true)
    else
      (s.(byId := s.byId[freshId := NewIntent(freshId, caller, p)],
          byIdemKey := if p.idempotencyKey != "" then s.byIdemKey[p.idempotencyKey := freshId] else s.byIdemKey),
       freshId, false)
  }

  function AwaitStep(s: Store, intentId: string, action: Action): Store {
    if intentId !in s.byId then s
    else
      var i := s.byId[intentId];
      s.(byId := s.byId[intentId := i.(state := AwaitingConsent, actions := i.actions + [action])])
  }

  datatype UpdateBody = UpdateBody(patch: Patch, carriesDecision: bool)

  function IsEmptyPatch(p: Patch): bool {
    p.outcome == None && p.confidence == None && p.evidence == None
  }

  /** 0 for success, else the status of the refusal. */
  function UpdateStatus(s: Store, intentId: string, body: UpdateBody, caller: Caller): nat {
    if intentId !in s.byId then 404
    else if caller.id != s.byId[intentId].proposedBy then 403
    else if s.byId[intentId].state in {Executed, Denied, Refused} then 409
    else if body.carriesDecision then 422
    else if IsEmptyPatch(body.patch) then 422
    else 0
  }

  function Patched(i: Intent, p: Patch): Intent {
    var merged := if p.evidence.Some? then i.evidence + p.evidence.value else i.evidence;
    i.(outcome := if p.outcome.Some? then p.outcome else i.outcome,
       confidence := if p.confidence.Some? then p.confidence else i.confidence,
       evidence := merged,
       updates := i.updates + [Patch(p.outcome, p.confidence, if p.evidence.Some? then Some(merged) else None)])
  }

  function UpdateStep(s: Store, intentId: string, body: UpdateBody, caller: Caller): Store {
    if UpdateStatus(s, intentId, body, caller) != 0 then s
    else s.(byId := s.byId[intentId := Patched(s.byId[intentId], body.patch)])
  }

  datatype Vote = Vote(intentId: string, actionId: string, verdict: string, reason: string, caller: Caller,
    decisionId: string, now: int)

  function MakeDecision(v: Vote, i: Intent, settled: bool, needed: nat, have: nat): Decision {
    Decision(v.decisionId, v.actionId, v.verdict, v.reason, v.caller.id, i.proposedBy, v.caller.scopes,
             false, settled, needed, have, v.now + DELTA_WINDOW)
  }

  function Approvers(s: Store, key: string): set<string> {
    if key in s.approversByAction then s.approversByAction[key] else {}
  }

  /** 0 when the vote is recorded, else the status of the refusal. */
  function VoteStatus(single: bool, s: Store, v: Vote): nat {
    if v.intentId !in s.byId then 404
    else
      var i := s.byId[v.intentId];
      if IsBlank(v.reason) then 422
      else if v.caller.id == i.proposedBy then 403
      else if ActionKey(v.intentId, v.actionId) in s.finalActions then 409
      else if v.verdict == APPROVE && KindOf(i, v.actionId) == TwoPerson && single then 409
      else if v.verdict == APPROVE && v.caller.id in Approvers(s, ActionKey(v.intentId, v.actionId)) then 409
      else 0
  }

  function VoteStep(single: bool, s: Store, v: Vote): Store {
    if VoteStatus(single, s, v) != 0 then s
    else
      var i := s.byId[v.intentId];
      var key := ActionKey(v.intentId, v.actionId);
      var needed := QuorumFor(KindOf(i, v.actionId));
      if v.verdict != APPROVE then
        var d := MakeDecision(v, i, true, needed, 0);
        s.(finalActions := s.finalActions + {key},
           byId := s.byId[v.intentId := i.(decisions := i.decisions + [d], state := Denied)])
      else
        var approvers := Approvers(s, key) + {v.caller.id};
        var settled := |approvers| >= needed;
        var d := MakeDecision(v, i, settled, needed, |approvers|);
        s.(approversByAction := s.approversByAction[key := approvers],
           finalActions := if settled then s.finalActions + {key} else s.finalActions,
           byId := s.byId[v.intentId := i.(decisions := i.decisions + [d],
                                           state := if settled then Proposed else AwaitingConsent)])
  }

  datatype Op =
    | Propose(p: Proposal, caller: Caller, freshId: string)
    | Await(intentId: string, action: Action)
    | Update(uIntentId: string, body: UpdateBody, uCaller: Caller)
    | Decide(v: Vote)

  function Step(single: bool, s: Store, op: Op): Store {
    match op
    case Propose(p, caller, freshId) => ProposeStep(s, p, caller, freshId).0
    case Await(i, a) => AwaitStep(s, i, a)
    case Update(i, body, caller) => UpdateStep(s, i, body, caller)
    case Decide(v) => VoteStep(single, s, v)
  }

  const EMPTY: Store := Store(map[], map[], {}, map[])
}

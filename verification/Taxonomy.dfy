/** The danger taxonomy: the verb decides the mechanism, the declared impact decides who consents. */
module Taxonomy {

  const READ := "read"
  const CREATE := "create"
  const UPDATE := "update"
  const DELETE := "delete"
  const FINANCIAL := "financial"
  const LEGAL := "legal"
  const REPUTATIONAL := "reputational"

  datatype Tier = Safe | Contained | Consequential | Undeclared | Prohibited
  datatype Consent = NoConsent | Review | Approval | TwoPerson

  predicate IsVerb(verb: string) {
    verb == READ || verb == CREATE || verb == UPDATE || verb == DELETE
  }

  predicate IsImpact(i: string) {
    i == FINANCIAL || i == LEGAL || i == REPUTATIONAL
  }

  predicate IsWrite(verb: string) {
    verb != READ
  }

  predicate RequiresInverse(verb: string) {
    verb == UPDATE || verb == DELETE
  }

  /** The known impacts in order of first mention, each once. */
  function Normalized(impact: seq<string>): seq<string> {
    if |impact| == 0 then []
    else
      var seen, i := Normalized(impact[..|impact|-1]), impact[|impact|-1];
      if IsImpact(i) && i !in seen then seen + [i] else seen
  }

  method NormalizeImpact(impact: seq<string>) returns (seen: seq<string>)
    ensures seen == Normalized(impact)
  {
    seen := [];
    for k := 0 to |impact|
      invariant seen == Normalized(impact[..k])
    {
      assert impact[..k + 1][..k] == impact[..k];
      if IsImpact(impact[k]) && impact[k] !in seen {
        seen := seen + [impact[k]];
      }
    }
    assert impact[..|impact|] == impact;
  }

  predicate RequiresConsent(verb: string, impact: seq<string>) {
    IsWrite(verb) && |Normalized(impact)| > 0
  }

  function ConsentKind(verb: string, impact: seq<string>): Consent {
    var imp := Normalized(impact);
    if !RequiresConsent(verb, imp) then NoConsent
    else if FINANCIAL !in imp && LEGAL !in imp then Review
    else if verb == DELETE then TwoPerson else Approval
  }

  function Classify(verb: string, impact: seq<string>, declared: bool, prohibited: bool): Tier {
    if prohibited then Prohibited
    else if !declared then Undeclared
    else if !IsVerb(verb) then Undeclared
    else if !IsWrite(verb) then Safe
    else if RequiresConsent(verb, impact) then Consequential else Contained
  }

  function MethodsFor(verb: string, impact: seq<string>): seq<string> {
    if !IsWrite(verb) then ["GET"]
    else if RequiresConsent(verb, impact) then ["GET"]
    else if verb == CREATE then ["POST"]
    else if verb == UPDATE then ["POST", "PUT", "PATCH"]
    else ["DELETE"]
  }

  function QuorumFor(kind: Consent): nat {
    if kind == TwoPerson then 2 else 1
  }

  // ---------------------------------------------------------------- what they mean

  /** Normalising drops unknown impacts and repeats, and nothing else; doing it twice adds nothing. */
  lemma {:induction false} NormalizedIs(impact: seq<string>)
    ensures forall i :: i in Normalized(impact) <==> i in impact && IsImpact(i)
    ensures forall j, k :: 0 <= j < k < |Normalized(impact)| ==> Normalized(impact)[j] != Normalized(impact)[k]
    ensures Normalized(Normalized(impact)) == Normalized(impact)
  {
    if |impact| > 0 {
      var front, last := impact[..|impact|-1], impact[|impact|-1];
      NormalizedIs(front);
      assert forall i :: i in impact <==> i in front || i == last;
      var n := Normalized(front);
      assert (n + [last])[..|n|] == n;
    }
  }

  /** Who must consent, in terms of the declaration as written. */
  lemma ConsentKindIs(verb: string, impact: seq<string>)
    ensures ConsentKind(verb, impact) == NoConsent <==> verb == READ || forall i :: i in impact ==> !IsImpact(i)
    ensures ConsentKind(verb, impact) == TwoPerson <==> verb == DELETE && (FINANCIAL in impact || LEGAL in impact)
    ensures ConsentKind(verb, impact) == Review <==>
      verb != READ && REPUTATIONAL in impact && FINANCIAL !in impact && LEGAL !in impact
  {
    NormalizedIs(impact);
    var imp := Normalized(impact);
    if |imp| > 0 { assert imp[0] in imp; }
    assert forall i :: i in impact && IsImpact(i) ==> i in imp;
  }

  /** The tier of a call, in terms of the call and its declaration as written. */
  lemma ClassifyIs(verb: string, impact: seq<string>, declared: bool, prohibited: bool)
    ensures var tier := Classify(verb, impact, declared, prohibited);
      && (tier == Prohibited <==> prohibited)
      && (tier == Undeclared <==> !prohibited && (!declared || verb !in ["read", "create", "update", "delete"]))
      && (tier == Safe <==> !prohibited && declared && verb == "read")
      && (tier == Consequential <==>
            && !prohibited && declared && verb in ["create", "update", "delete"]
            && ("financial" in impact || "legal" in impact || "reputational" in impact))
      && (tier == Contained <==>
            && !prohibited && declared && verb in ["create", "update", "delete"]
            && "financial" !in impact && "legal" !in impact && "reputational" !in impact)
  {
    SomeImpact(impact);
    hide Normalized;
  }

  lemma SomeImpact(impact: seq<string>)
    ensures |Normalized(impact)| > 0 <==> "financial" in impact || "legal" in impact || "reputational" in impact
  {
    NormalizedIs(impact);
    var n := Normalized(impact);
    if |n| > 0 { assert n[0] in n; }
    assert "financial" in impact ==> IsImpact("financial");
    assert "legal" in impact ==> IsImpact("legal");
    assert "reputational" in impact ==> IsImpact("reputational");
  }

  /** The methods of each verb, in terms of the declaration as written. */
  lemma MethodsAre(verb: string, impact: seq<string>)
    ensures verb == "read" || "financial" in impact || "legal" in impact || "reputational" in impact ==>
      MethodsFor(verb, impact) == ["GET"]
    ensures "financial" !in impact && "legal" !in impact && "reputational" !in impact ==>
      && (verb == "create" ==> MethodsFor(verb, impact) == ["POST"])
      && (verb == "update" ==> MethodsFor(verb, impact) == ["POST", "PUT", "PATCH"])
      && (verb !in ["read", "create", "update"] ==> MethodsFor(verb, impact) == ["DELETE"])
    ensures RequiresInverse(verb) <==> verb == "update" || verb == "delete"
  {
    SomeImpact(impact);
    hide Normalized;
  }

  /** A declared call needs consent exactly when it is consequential, and then compiles to GET alone:
      no capability both needs a decision and already holds a write method. */
  lemma ConsentMeansNoWriteMethod(verb: string, impact: seq<string>)
    requires IsVerb(verb)
    ensures Classify(verb, impact, true, false) == Consequential <==> ConsentKind(verb, impact) != NoConsent
    ensures ConsentKind(verb, impact) != NoConsent ==> MethodsFor(verb, impact) == ["GET"]
    ensures (exists m :: m in MethodsFor(verb, impact) && m != "GET") <==>
      Classify(verb, impact, true, false) == Contained
  {
    NormalizedIs(impact);
    var methods := MethodsFor(verb, impact);
    assert methods[0] in methods;
  }
}

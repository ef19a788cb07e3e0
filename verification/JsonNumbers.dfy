/** The number grammar of section 6 of RFC 8259, against the test the reader makes. */
module JsonNumbers {
  import opened JsonText

  predicate AllDigits(t: Text) {
    forall i :: 0 <= i < |t| ==> '0' as int <= t[i] <= '9' as int
  }

  /** int: digits, without a leading zero unless it is the only one. */
  predicate IsInt(t: Text) {
    |t| > 0 && AllDigits(t) && (t[0] == '0' as int ==> |t| == 1)
  }

  /** frac, which may be missing: a point and digits. */
  predicate IsFrac(t: Text) {
    t == [] || (t[0] == '.' as int && |t| > 1 && AllDigits(t[1..]))
  }

  /** exp, which may be missing: e or E, a sign that may be missing, and digits. */
  predicate IsExp(t: Text) {
    t == [] ||
    ((t[0] == 'e' as int || t[0] == 'E' as int) &&
     var r := if |t| > 1 && (t[1] == '+' as int || t[1] == '-' as int) then t[2..] else t[1..];
     |r| > 0 && AllDigits(r))
  }

  ghost predicate Spells(t: Text, i: Text, f: Text, e: Text) {
    IsInt(i) && IsFrac(f) && IsExp(e) && (t == i + (f + e) || t == ['-' as int] + (i + (f + e)))
  }

  /** The test accepts exactly the grammar: an optional minus sign, int, frac and exp. */
  lemma NumberIs(t: Text)
    ensures IsNumber(t) <==> exists i, f, e :: Spells(t, i, f, e)
  {
    if IsNumber(t) { NumberParts(t); }
    if i, f, e :| Spells(t, i, f, e) { PartsAreNumber(i, f, e); SpelledIs(t, i, f, e); }
  }

  function Unsigned(t: Text): Text {
    if |t| > 0 && t[0] == 45 then t[1..] else t
  }

  function IntLength(s: Text): nat
    requires |s| > 0
  {
    if s[0] == 48 then 1 else Digits(s)
  }

  lemma IntIs(s: Text)
    requires |s| > 0 && IsDigit(s[0])
    ensures IsInt(s[..IntLength(s)])
  {
    DigitsAre(s);
  }

  lemma NumberSplits(t: Text)
    requires IsNumber(t)
    ensures var s := Unsigned(t); |s| > 0 && IsDigit(s[0]) && IsFraction(s[IntLength(s)..])
  {
    hide Digits, IsFraction, IsNumberUnit;
  }

  lemma NumberParts(t: Text)
    requires IsNumber(t)
    ensures exists i, f, e :: Spells(t, i, f, e)
  {
    hide IsFrac, IsExp, IsInt, IsNumber, IsFraction, Unsigned, Spells, IsDigit;
    var s := Unsigned(t);
    NumberSplits(t);
    IntIs(s);
    FractionIs(s[IntLength(s)..]);
    var f, e :| IsFrac(f) && IsExp(e) && s[IntLength(s)..] == f + e;
    assert s == s[..IntLength(s)] + s[IntLength(s)..];
    Spelled(t, s[..IntLength(s)], f, e);
  }

  lemma Spelled(t: Text, i: Text, f: Text, e: Text)
    requires IsInt(i) && IsFrac(f) && IsExp(e) && Unsigned(t) == i + (f + e)
    ensures Spells(t, i, f, e)
  {
    hide IsFrac, IsExp, IsInt;
    assert t == Unsigned(t) || t == ['-' as int] + Unsigned(t);
  }

  lemma SpelledIs(t: Text, i: Text, f: Text, e: Text)
    requires Spells(t, i, f, e)
    requires var s := i + (f + e);
      && (forall k :: 0 <= k < |s| ==> IsNumberUnit(s[k])) && |s| > 0 && IsDigit(s[0])
      && if s[0] == 48 then IsFraction(s[1..]) else IsFraction(s[Digits(s)..])
    ensures IsNumber(t)
  {
    hide IsFraction, Digits, IsFrac, IsExp, IsInt;
    var s := i + (f + e);
    if t == s {
      assert t[0] == s[0];
    } else {
      assert t[1..] == s;
    }
  }

  lemma PartsAreNumber(i: Text, f: Text, e: Text)
    requires IsInt(i) && IsFrac(f) && IsExp(e)
    ensures var s := i + (f + e);
      && (forall k :: 0 <= k < |s| ==> IsNumberUnit(s[k])) && |s| > 0 && IsDigit(s[0])
      && if s[0] == 48 then IsFraction(s[1..]) else IsFraction(s[Digits(s)..])
  {
    var s := i + (f + e);
    FractionIs(f + e);
    TailUnits(f, e);
    assert |f + e| > 0 ==> !IsDigit((f + e)[0]);
    DigitsOf(i, f + e);
    assert s[|i|..] == f + e;
    hide IsFraction, IsFrac, IsExp;
  }

  lemma TailUnits(f: Text, e: Text)
    requires IsFrac(f) && IsExp(e)
    ensures forall k :: 0 <= k < |f + e| ==> IsNumberUnit((f + e)[k])
    ensures |f + e| > 0 ==> !IsDigit((f + e)[0])
  {
    forall k | 0 <= k < |f| ensures IsNumberUnit(f[k]) { if k > 0 { assert f[k] == f[1..][k - 1]; } }
    ExpUnits(e);
  }

  lemma ExpUnits(e: Text)
    requires IsExp(e)
    ensures forall k :: 0 <= k < |e| ==> IsNumberUnit(e[k])
  {
    if e != [] {
      var signed := |e| > 1 && (e[1] == '+' as int || e[1] == '-' as int);
      var r := if signed then e[2..] else e[1..];
      forall k | 0 <= k < |e| ensures IsNumberUnit(e[k]) {
        if signed && k > 1 { assert e[k] == r[k - 2]; }
        if !signed && k > 0 { assert e[k] == r[k - 1]; }
      }
    }
  }

  lemma {:induction false} DigitsAre(t: Text)
    ensures AllDigits(t[..Digits(t)]) && (Digits(t) < |t| ==> !IsDigit(t[Digits(t)]))
    ensures Digits(t) == |t| <==> AllDigits(t)
  {
    if |t| > 0 && IsDigit(t[0]) {
      DigitsAre(t[1..]);
      var n := Digits(t[1..]);
      assert t[..n + 1] == [t[0]] + t[1..][..n];
      assert AllDigits(t) <==> AllDigits(t[1..]) by {
        if AllDigits(t[1..]) { assert t == [t[0]] + t[1..]; }
      }
    }
  }

  lemma {:induction false} DigitsOf(d: Text, rest: Text)
    requires AllDigits(d) && (|rest| > 0 ==> !IsDigit(rest[0]))
    ensures Digits(d + rest) == |d|
  {
    if |d| == 0 {
      assert d + rest == rest;
    } else {
      DigitsOf(d[1..], rest);
      assert (d + rest)[1..] == d[1..] + rest;
    }
  }

  lemma ExponentIs(t: Text)
    ensures IsExponent(t) <==> IsExp(t)
  {
    if |t| > 0 {
      var r := if |t| > 1 && (t[1] == 43 || t[1] == 45) then t[2..] else t[1..];
      DigitsAre(r);
    }
  }

  lemma FractionIs(t: Text)
    ensures IsFraction(t) <==> exists f, e :: IsFrac(f) && IsExp(e) && t == f + e
  {
    if IsFraction(t) { FractionParts(t); }
    if f, e :| IsFrac(f) && IsExp(e) && t == f + e { PartsAreFraction(f, e); }
  }

  lemma FractionParts(t: Text)
    requires IsFraction(t)
    ensures exists f, e :: IsFrac(f) && IsExp(e) && t == f + e
  {
    hide IsExp;
    if |t| > 0 && t[0] == 46 {
      var n := Digits(t[1..]);
      DigitsAre(t[1..]);
      var f, e := t[..n + 1], t[1..][n..];
      ExponentIs(e);
      assert f[1..] == t[1..][..n] && t == f + e;
      assert IsFrac(f) && IsExp(e);
    } else {
      ExponentIs(t);
      assert [] + t == t;
      assert IsFrac([]) && IsExp(t);
    }
  }

  lemma PartsAreFraction(f: Text, e: Text)
    requires IsFrac(f) && IsExp(e)
    ensures IsFraction(f + e)
  {
    ExponentIs(e);
    ExpHead(e);
    hide IsExp, IsExponent;
    if f == [] {
      assert f + e == e;
    } else {
      DigitsOf(f[1..], e);
      assert (f + e)[1..] == f[1..] + e;
      assert (f + e)[1..][|f| - 1..] == e;
    }
  }

  lemma ExpHead(e: Text)
    requires IsExp(e)
    ensures |e| > 0 ==> e[0] == 'e' as int || e[0] == 'E' as int
  {
  }
}

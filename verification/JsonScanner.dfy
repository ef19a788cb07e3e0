/** The brace-matching walk that cuts the first JSON object out of a model's answer. */
module JsonScanner {
  import opened Wrappers
  import opened JsonText
  import opened JsonSpelling
  import opened JsonReading

  /** The walk as a function of what is left to read: the text after the brace that brings the
      depth back to zero, if there is one. */
  function Walk(t: Text, depth: int, inStr: bool, esc: bool): Maybe<Text> {
    if |t| == 0 then None
    else if esc then Walk(t[1..], depth, inStr, false)
    else if t[0] == BACKSLASH then Walk(t[1..], depth, inStr, true)
    else if t[0] == QUOTE then Walk(t[1..], depth, !inStr, false)
    else if inStr then Walk(t[1..], depth, true, false)
    else if t[0] == OPEN then Walk(t[1..], depth + 1, false, false)
    else if t[0] == CLOSE then if depth - 1 == 0 then Some(t[1..]) else Walk(t[1..], depth - 1, false, false)
    else Walk(t[1..], depth, false, false)
  }

  /** Where `u` first occurs, or the length. */
  function IndexOf(t: Text, u: Unit): (n: nat)
    ensures n <= |t|
    ensures n < |t| ==> t[n] == u
    ensures forall i :: 0 <= i < n ==> t[i] != u
  {
    if |t| == 0 || t[0] == u then 0
    else
      var n := IndexOf(t[1..], u);
      assert forall i :: 0 < i < n + 1 ==> t[i] == t[1..][i - 1];
      n + 1
  }

  /** The slice handed to JSON.parse: from the first opening brace to the brace that closes it. */
  function FirstObject(clean: Text): Maybe<Text> {
    var start := IndexOf(clean, OPEN);
    if start == |clean| then None
    else
      match Walk(clean[start..], 0, false, false)
      case None => None
      case Some(rest) => if |rest| <= |clean[start..]| then Some(clean[start..|clean| - |rest|]) else None
  }

  /** `extractJson` on text already stripped of reasoning blocks and fences. */
  function Extract(clean: Text): Maybe<Json> {
    match FirstObject(clean)
    case None => None
    case Some(slice) => Parse(slice)
  }

  lemma {:induction false} WalkShrinks(t: Text, depth: int, inStr: bool, esc: bool)
    ensures var r := Walk(t, depth, inStr, esc);
      r.Some? ==> |r.value| < |t| && t[|t| - |r.value|..] == r.value
  {
    if |t| > 0 && !(!esc && !inStr && t[0] == CLOSE && depth == 1) {
      var d := if !esc && !inStr && t[0] == OPEN then depth + 1
               else if !esc && !inStr && t[0] == CLOSE then depth - 1 else depth;
      var s := if !esc && t[0] == QUOTE then !inStr else inStr;
      var e := !esc && t[0] == BACKSLASH;
      WalkShrinks(t[1..], d, s, e);
      assert Walk(t, depth, inStr, esc) == Walk(t[1..], d, s, e);
    }
  }

  /** The loop of the source, index by index. */
  method ExtractJson(clean: Text) returns (r: Maybe<Json>)
    ensures r == Extract(clean)
  {
    hide Walk, Parse;
    var start := IndexOf(clean, OPEN);
    if start == |clean| { return None; }
    var depth, inStr, esc := 0, false, false;
    ghost var whole := Walk(clean[start..], 0, false, false);
    WalkShrinks(clean[start..], 0, false, false);
    for i := start to |clean|
      invariant Walk(clean[i..], depth, inStr, esc) == whole
    {
      var ch := clean[i];
      WalkStep(clean, i, depth, inStr, esc);
      if esc { esc := false; continue; }
      if ch == BACKSLASH { esc := true; continue; }
      if ch == QUOTE { inStr := !inStr; continue; }
      if inStr { continue; }
      if ch == OPEN {
        depth := depth + 1;
      } else if ch == CLOSE {
        depth := depth - 1;
        if depth == 0 {
          assert |clean| - |clean[i + 1..]| == i + 1;
          return Parse(clean[start..i + 1]);
        }
      }
    }
    WalkEnd(depth, inStr, esc);
    assert clean[|clean|..] == [];
    return None;
  }

  lemma WalkEnd(depth: int, inStr: bool, esc: bool)
    ensures Walk([], depth, inStr, esc) == None
  {
  }

  /** One iteration of the loop against the walk. */
  lemma WalkStep(clean: Text, i: nat, depth: int, inStr: bool, esc: bool)
    requires i < |clean|
    ensures var ch, rest := clean[i], clean[i + 1..];
      Walk(clean[i..], depth, inStr, esc) ==
        if esc then Walk(rest, depth, inStr, false)
        else if ch == BACKSLASH then Walk(rest, depth, inStr, true)
        else if ch == QUOTE then Walk(rest, depth, !inStr, false)
        else if inStr then Walk(rest, depth, inStr, esc)
        else if ch == OPEN then Walk(rest, depth + 1, inStr, esc)
        else if ch == CLOSE then if depth - 1 == 0 then Some(rest) else Walk(rest, depth - 1, inStr, esc)
        else Walk(rest, depth, inStr, esc)
  {
    assert clean[i..][0] == clean[i] && clean[i..][1..] == clean[i + 1..];
  }

  // ---------------------------------------------------------------- the walk over JSON text

  predicate IsPlain(u: Unit) {
    u != QUOTE && u != BACKSLASH && u != OPEN && u != CLOSE
  }

  lemma {:induction false} WalkPlain(p: Text, rest: Text, depth: int)
    requires forall i :: 0 <= i < |p| ==> IsPlain(p[i])
    ensures Walk(p + rest, depth, false, false) == Walk(rest, depth, false, false)
  {
    if |p| == 0 {
      assert p + rest == rest;
    } else {
      WalkPlain(p[1..], rest, depth);
      assert (p + rest)[1..] == p[1..] + rest;
    }
  }

  lemma WalkPad(pad: Text, rest: Text, depth: int)
    requires IsPad(pad)
    ensures Walk(pad + rest, depth, false, false) == Walk(rest, depth, false, false)
  {
    WalkPlain(pad, rest, depth);
  }

  lemma WalkOne(u: Unit, rest: Text, depth: int)
    requires IsPlain(u)
    ensures Walk([u] + rest, depth, false, false) == Walk(rest, depth, false, false)
  {
    assert ([u] + rest)[1..] == rest;
  }

  /** Inside a string no brace counts and no escaped quote ends it. */
  lemma WalkPiece(p: Piece, rest: Text, depth: int)
    requires OkPiece(p)
    ensures Walk(PieceText(p) + rest, depth, true, false) == Walk(rest, depth, true, false)
  {
    var t := PieceText(p) + rest;
    match p
    case Raw(u) => assert t[1..] == rest;
    case Short(c) => assert t[1..][1..] == rest;
    case Hex(a, b, c, d) =>
      var t2 := t[1..][1..];
      assert t2[0] == a && t2[1] == b && t2[2] == c && t2[3] == d && t2[1..][1..][1..][1..] == rest;
      WalkHexDigit(a, t2[1..], depth, t2);
      WalkHexDigit(b, t2[1..][1..], depth, t2[1..]);
      WalkHexDigit(c, t2[1..][1..][1..], depth, t2[1..][1..]);
      WalkHexDigit(d, rest, depth, t2[1..][1..][1..]);
  }

  lemma WalkHexDigit(u: Unit, rest: Text, depth: int, t: Text)
    requires HexValue(u) < 16 && |t| > 0 && t[0] == u && t[1..] == rest
    ensures Walk(t, depth, true, false) == Walk(rest, depth, true, false)
  {
  }

  lemma {:induction false} WalkBody(ps: seq<Piece>, rest: Text, depth: int)
    requires OkBody(ps)
    ensures Walk([QUOTE] + BodyTo(ps, [QUOTE] + rest), depth, false, false) == Walk(rest, depth, false, false)
  {
    assert ([QUOTE] + BodyTo(ps, [QUOTE] + rest))[1..] == BodyTo(ps, [QUOTE] + rest);
    WalkInside(ps, [QUOTE] + rest, depth);
    assert ([QUOTE] + rest)[1..] == rest;
  }

  lemma {:induction false} WalkInside(ps: seq<Piece>, rest: Text, depth: int)
    requires OkBody(ps)
    ensures Walk(BodyTo(ps, rest), depth, true, false) == Walk(rest, depth, true, false)
  {
    if |ps| > 0 {
      WalkPiece(ps[0], BodyTo(ps[1..], rest), depth);
      WalkInside(ps[1..], rest, depth);
    }
  }

  /** A nested value leaves the walk where it found it: same depth, outside any string. */
  lemma {:induction false} WalkValue(x: Tree, rest: Text, depth: int)
    requires Ok(x) && depth >= 1
    ensures Walk(RenderTo(x, rest), depth, false, false) == Walk(rest, depth, false, false)
    decreases x, 1
  {
    match x
    case TNull => WalkPlain(NULL, rest, depth);
    case TBool(b) => WalkPlain(if b then TRUE else FALSE, rest, depth);
    case TNum(l) =>
      assert forall i :: 0 <= i < |l| ==> IsNumberUnit(l[i]);
      WalkPlain(l, rest, depth);
    case TStr(body) => WalkBody(body, rest, depth);
    case TArr(pad, items) =>
      var after := [CLOSE_LIST] + rest;
      if |items| == 0 {
        WalkOne(OPEN_LIST, pad + after, depth);
        WalkPad(pad, after, depth);
      } else {
        WalkOne(OPEN_LIST, ItemsTo(items, after), depth);
        WalkItems(items, after, depth);
      }
      WalkOne(CLOSE_LIST, rest, depth);
    case TObj(_, _) =>
      WalkObject(x, rest, depth);
      assert ([CLOSE] + rest)[1..] == rest;
  }

  /** From its opening brace, an object's text leads to its own closing brace and no other. */
  lemma {:induction false} WalkObject(x: Tree, rest: Text, depth: int)
    requires Ok(x) && x.TObj? && depth >= 0
    ensures Walk(RenderTo(x, rest), depth, false, false) == Walk([CLOSE] + rest, depth + 1, false, false)
    decreases x, 0
  {
    var t, after := RenderTo(x, rest), [CLOSE] + rest;
    if |x.entries| == 0 {
      assert t[1..] == x.pad + after;
      WalkPad(x.pad, after, depth + 1);
    } else {
      assert t[1..] == EntriesTo(x.entries, after);
      WalkEntries(x.entries, after, depth + 1);
    }
  }

  lemma {:induction false} WalkItems(items: seq<Item>, rest: Text, depth: int)
    requires OkItems(items) && |items| > 0 && depth >= 1
    ensures Walk(ItemsTo(items, rest), depth, false, false) == Walk(rest, depth, false, false)
    decreases items, 0
  {
    var i := items[0];
    var after := if |items| == 1 then rest else [COMMA] + ItemsTo(items[1..], rest);
    WalkPad(i.pre, RenderTo(i.tree, i.post + after), depth);
    WalkValue(i.tree, i.post + after, depth);
    WalkPad(i.post, after, depth);
    if |items| > 1 {
      WalkOne(COMMA, ItemsTo(items[1..], rest), depth);
      WalkItems(items[1..], rest, depth);
    }
  }

  lemma {:induction false} WalkEntries(es: seq<Entry>, rest: Text, depth: int)
    requires OkEntries(es) && |es| > 0 && depth >= 1
    ensures Walk(EntriesTo(es, rest), depth, false, false) == Walk(rest, depth, false, false)
    decreases es, 0
  {
    var e := es[0];
    var after := if |es| == 1 then rest else [COMMA] + EntriesTo(es[1..], rest);
    var value := RenderTo(e.tree, e.post + after);
    var colon := [COLON] + (e.gap + value);
    WalkPad(e.pre, [QUOTE] + BodyTo(e.key, [QUOTE] + (e.mid + colon)), depth);
    WalkBody(e.key, e.mid + colon, depth);
    WalkPad(e.mid, colon, depth);
    WalkOne(COLON, e.gap + value, depth);
    WalkPad(e.gap, value, depth);
    WalkValue(e.tree, e.post + after, depth);
    WalkPad(e.post, after, depth);
    if |es| > 1 {
      WalkOne(COMMA, EntriesTo(es[1..], rest), depth);
      WalkEntries(es[1..], rest, depth);
    }
  }

  /** The slice is exactly the object, whatever its strings hold and whatever surrounds it, as
      long as no opening brace stands before it; and it parses to the object's value. */
  lemma ExtractIsExact(prefix: Text, x: Tree, suffix: Text)
    requires Ok(x) && x.TObj? && forall i :: 0 <= i < |prefix| ==> prefix[i] != OPEN
    ensures FirstObject(prefix + RenderTo(x, suffix)) == Some(Render(x))
    ensures Extract(prefix + RenderTo(x, suffix)) == Some(Value(x))
  {
    var body := RenderTo(x, suffix);
    var clean := prefix + body;
    ObjectWalk(x, suffix);
    hide Walk, Parse, Ok, Value, RenderTo, IndexOf, Extract, FirstObject;
    RenderAppend(x, [], suffix);
    assert [] + suffix == suffix;
    assert body == Render(x) + suffix;
    FirstObjectIs(prefix, Render(x), suffix);
    ParseAnySpelling([], x, []);
    assert [] + RenderTo(x, []) == Render(x);
    ExtractOf(clean);
  }

  /** For every text the parser reads as an object, the slice is that text. */
  lemma ExtractIsExactlyTheText(prefix: Text, text: Text, suffix: Text)
    requires ReadValue(text).Done? && ReadValue(text).value.Obj? && ReadValue(text).rest == []
    requires forall i :: 0 <= i < |prefix| ==> prefix[i] != OPEN
    ensures FirstObject(prefix + (text + suffix)) == Some(text)
    ensures Extract(prefix + (text + suffix)) == Some(ReadValue(text).value)
  {
    var x := TreeAt(text);
    assert x.TObj?;
    hide ReadValue, RenderTo, Ok, Value, Extract, FirstObject;
    RenderAppend(x, [], suffix);
    assert [] + suffix == suffix;
    ExtractIsExact(prefix, x, suffix);
  }

  lemma FirstObjectIs(prefix: Text, text: Text, suffix: Text)
    requires |text| > 0 && text[0] == OPEN && forall i :: 0 <= i < |prefix| ==> prefix[i] != OPEN
    requires Walk(text + suffix, 0, false, false) == Some(suffix)
    ensures FirstObject(prefix + (text + suffix)) == Some(text)
  {
    hide Walk, IndexOf;
    var clean := prefix + (text + suffix);
    assert clean[|prefix|] == text[0];
    assert IndexOf(clean, OPEN) == |prefix|;
    assert clean[|prefix|..] == text + suffix;
    assert clean[|prefix|..|clean| - |suffix|] == text;
  }

  lemma ExtractOf(clean: Text)
    ensures FirstObject(clean).Some? ==> Extract(clean) == Parse(FirstObject(clean).value)
  {
  }

  lemma ObjectWalk(x: Tree, suffix: Text)
    requires Ok(x) && x.TObj?
    ensures |RenderTo(x, suffix)| > 0 && RenderTo(x, suffix)[0] == OPEN
    ensures Walk(RenderTo(x, suffix), 0, false, false) == Some(suffix)
  {
    WalkObject(x, suffix, 0);
    hide Ok;
    assert ([CLOSE] + suffix)[1..] == suffix;
  }

  /** In particular for what JSON.stringify prints: the very value comes back. */
  lemma ExtractPrinted(prefix: Text, v: Json, suffix: Text)
    requires IsJson(v) && v.Obj? && forall i :: 0 <= i < |prefix| ==> prefix[i] != OPEN
    ensures Extract(prefix + PrintTo(v, suffix)) == Some(v)
  {
    PrintIsASpelling(v, suffix);
    ExtractIsExact(prefix, Compact(v), suffix);
  }

  lemma {:induction false} BodyAppend(ps: seq<Piece>, a: Text, b: Text)
    ensures BodyTo(ps, a + b) == BodyTo(ps, a) + b
  {
    if |ps| > 0 {
      BodyAppend(ps[1..], a, b);
      Assoc(PieceText(ps[0]), BodyTo(ps[1..], a), b);
    }
  }

  lemma Assoc(a: Text, b: Text, c: Text)
    ensures a + (b + c) == (a + b) + c
  {
  }

  /** The text of a value does not depend on what follows it. */
  lemma {:induction false} RenderAppend(x: Tree, a: Text, b: Text)
    ensures RenderTo(x, a + b) == RenderTo(x, a) + b
    decreases x, 1
  {
    match x
    case TNull => Assoc(NULL, a, b);
    case TBool(v) => Assoc(if v then TRUE else FALSE, a, b);
    case TNum(l) => Assoc(l, a, b);
    case TStr(body) =>
      Assoc([QUOTE], a, b);
      BodyAppend(body, [QUOTE] + a, b);
      Assoc([QUOTE], BodyTo(body, [QUOTE] + a), b);
    case TArr(pad, items) =>
      Assoc([CLOSE_LIST], a, b);
      if |items| == 0 {
        Assoc(pad, [CLOSE_LIST] + a, b);
        Assoc([OPEN_LIST], pad + ([CLOSE_LIST] + a), b);
      } else {
        ItemsAppend(items, [CLOSE_LIST] + a, b);
        Assoc([OPEN_LIST], ItemsTo(items, [CLOSE_LIST] + a), b);
      }
    case TObj(pad, es) =>
      Assoc([CLOSE], a, b);
      if |es| == 0 {
        Assoc(pad, [CLOSE] + a, b);
        Assoc([OPEN], pad + ([CLOSE] + a), b);
      } else {
        EntriesAppend(es, [CLOSE] + a, b);
        Assoc([OPEN], EntriesTo(es, [CLOSE] + a), b);
      }
  }

  lemma {:induction false} ItemsAppend(items: seq<Item>, a: Text, b: Text)
    requires |items| > 0
    ensures ItemsTo(items, a + b) == ItemsTo(items, a) + b
    decreases items, 0
  {
    var i := items[0];
    var after := if |items| == 1 then a else [COMMA] + ItemsTo(items[1..], a);
    if |items| > 1 {
      ItemsAppend(items[1..], a, b);
      Assoc([COMMA], ItemsTo(items[1..], a), b);
    }
    Assoc(i.post, after, b);
    RenderAppend(i.tree, i.post + after, b);
    Assoc(i.pre, RenderTo(i.tree, i.post + after), b);
  }

  lemma {:induction false} EntriesAppend(es: seq<Entry>, a: Text, b: Text)
    requires |es| > 0
    ensures EntriesTo(es, a + b) == EntriesTo(es, a) + b
    decreases es, 0
  {
    var e := es[0];
    var after := if |es| == 1 then a else [COMMA] + EntriesTo(es[1..], a);
    if |es| > 1 {
      EntriesAppend(es[1..], a, b);
      Assoc([COMMA], EntriesTo(es[1..], a), b);
    }
    Assoc(e.post, after, b);
    RenderAppend(e.tree, e.post + after, b);
    var value := RenderTo(e.tree, e.post + after);
    Assoc(e.gap, value, b);
    Assoc([COLON], e.gap + value, b);
    Assoc(e.mid, [COLON] + (e.gap + value), b);
    Assoc([QUOTE], e.mid + ([COLON] + (e.gap + value)), b);
    BodyAppend(e.key, [QUOTE] + (e.mid + ([COLON] + (e.gap + value))), b);
    var key := BodyTo(e.key, [QUOTE] + (e.mid + ([COLON] + (e.gap + value))));
    Assoc([QUOTE], key, b);
    Assoc(e.pre, [QUOTE] + key, b);
  }
}

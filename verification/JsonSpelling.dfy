/** Every JSON text as a tree that keeps its spelling: white space, and how each unit of each
    string was written. Reading any spelling gives the value back; JSON.stringify's output is
    the spelling without spaces. */
module JsonSpelling {
  import opened Wrappers
  import opened JsonText

  datatype Piece = Raw(u: Unit) | Short(c: Unit) | Hex(a: Unit, b: Unit, c: Unit, d: Unit)

  datatype Tree =
    | TNull
    | TBool(b: bool)
    | TNum(lexeme: Text)
    | TStr(body: seq<Piece>)
    | TArr(pad: Text, items: seq<Item>)
    | TObj(pad: Text, entries: seq<Entry>)

  datatype Item = Item(pre: Text, tree: Tree, post: Text)
  datatype Entry = Entry(pre: Text, key: seq<Piece>, mid: Text, gap: Text, tree: Tree, post: Text)

  // ---------------------------------------------------------------- well-formed spellings

  predicate IsPad(t: Text) {
    forall i :: 0 <= i < |t| ==> IsSpace(t[i])
  }

  predicate OkPiece(p: Piece) {
    match p
    case Raw(u) => u >= 32 && u != QUOTE && u != BACKSLASH
    case Short(c) => ShortMeaning(c) >= 0
    case Hex(a, b, c, d) => IsHex4([a, b, c, d])
  }

  predicate OkBody(ps: seq<Piece>) {
    forall i :: 0 <= i < |ps| ==> OkPiece(ps[i])
  }

  predicate Ok(x: Tree)
    decreases x, 1
  {
    match x
    case TNull => true
    case TBool(_) => true
    case TNum(l) => IsNumber(l)
    case TStr(body) => OkBody(body)
    case TArr(pad, items) => IsPad(pad) && OkItems(items)
    case TObj(pad, es) => IsPad(pad) && OkEntries(es)
  }

  predicate OkItems(items: seq<Item>)
    decreases items, 0
  {
    |items| > 0 ==> IsPad(items[0].pre) && Ok(items[0].tree) && IsPad(items[0].post) && OkItems(items[1..])
  }

  predicate OkEntries(es: seq<Entry>)
    decreases es, 0
  {
    |es| > 0 ==>
      IsPad(es[0].pre) && OkBody(es[0].key) && IsPad(es[0].mid) && IsPad(es[0].gap) && Ok(es[0].tree)
      && IsPad(es[0].post) && OkEntries(es[1..])
  }

  // ---------------------------------------------------------------- text and value

  function PieceText(p: Piece): Text {
    match p
    case Raw(u) => [u]
    case Short(c) => [BACKSLASH, c]
    case Hex(a, b, c, d) => [BACKSLASH, 117, a, b, c, d]
  }

  function PieceValue(p: Piece): Unit
    requires OkPiece(p)
  {
    match p
    case Raw(u) => u
    case Short(c) => ShortMeaning(c)
    case Hex(a, b, c, d) => Hex4([a, b, c, d])
  }

  function BodyTo(ps: seq<Piece>, rest: Text): Text {
    if |ps| == 0 then rest else PieceText(ps[0]) + BodyTo(ps[1..], rest)
  }

  function BodyValue(ps: seq<Piece>): Text
    requires OkBody(ps)
  {
    if |ps| == 0 then [] else [PieceValue(ps[0])] + BodyValue(ps[1..])
  }

  /** The text of `x` in front of `rest`. */
  function RenderTo(x: Tree, rest: Text): Text
    decreases x, 1
  {
    match x
    case TNull => NULL + rest
    case TBool(b) => (if b then TRUE else FALSE) + rest
    case TNum(l) => l + rest
    case TStr(body) => [QUOTE] + BodyTo(body, [QUOTE] + rest)
    case TArr(pad, items) =>
      [OPEN_LIST] + if |items| == 0 then pad + ([CLOSE_LIST] + rest) else ItemsTo(items, [CLOSE_LIST] + rest)
    case TObj(pad, es) =>
      [OPEN] + if |es| == 0 then pad + ([CLOSE] + rest) else EntriesTo(es, [CLOSE] + rest)
  }

  function ItemsTo(items: seq<Item>, rest: Text): Text
    requires |items| > 0
    decreases items, 0
  {
    items[0].pre + RenderTo(items[0].tree,
      items[0].post + if |items| == 1 then rest else [COMMA] + ItemsTo(items[1..], rest))
  }

  function EntriesTo(es: seq<Entry>, rest: Text): Text
    requires |es| > 0
    decreases es, 0
  {
    es[0].pre + ([QUOTE] + BodyTo(es[0].key, [QUOTE] + (es[0].mid + ([COLON] + (es[0].gap + RenderTo(es[0].tree,
      es[0].post + if |es| == 1 then rest else [COMMA] + EntriesTo(es[1..], rest)))))))
  }

  function Render(x: Tree): Text {
    RenderTo(x, [])
  }

  function Value(x: Tree): Json
    requires Ok(x)
    decreases x, 1
  {
    match x
    case TNull => Null
    case TBool(b) => Bool(b)
    case TNum(l) => Num(l)
    case TStr(body) => Str(BodyValue(body))
    case TArr(_, items) => Arr(ItemValues(items))
    case TObj(_, es) => Obj(EntryValues(es))
  }

  function ItemValues(items: seq<Item>): seq<Json>
    requires OkItems(items)
    decreases items, 0
  {
    if |items| == 0 then [] else [Value(items[0].tree)] + ItemValues(items[1..])
  }

  function EntryValues(es: seq<Entry>): seq<Member>
    requires OkEntries(es)
    decreases es, 0
  {
    if |es| == 0 then [] else [Member(BodyValue(es[0].key), Value(es[0].tree))] + EntryValues(es[1..])
  }

  // ---------------------------------------------------------------- small steps of the reader

  lemma {:induction false} SkipPad(pad: Text, t: Text)
    requires IsPad(pad) && (|t| > 0 ==> !IsSpace(t[0]))
    ensures SkipSpace(pad + t) == t
  {
    if |pad| == 0 {
      assert pad + t == t;
    } else {
      SkipPad(pad[1..], t);
      assert (pad + t)[1..] == pad[1..] + t;
    }
  }

  lemma ReadPiece(p: Piece, t: Text)
    requires OkPiece(p)
    ensures ReadUnit(PieceText(p) + t) == Done(PieceValue(p), t)
  {
    var s := PieceText(p) + t;
    match p
    case Raw(u) => assert s[1..] == t;
    case Short(c) => assert s[2..] == t;
    case Hex(a, b, c, d) =>
      assert s[2..][0] == a && s[2..][1] == b && s[2..][2] == c && s[2..][3] == d;
      assert s[6..] == t;
  }

  lemma {:induction false} ReadBody(ps: seq<Piece>, rest: Text)
    requires OkBody(ps)
    ensures ReadString(BodyTo(ps, [QUOTE] + rest)) == Done(BodyValue(ps), rest)
  {
    var t := BodyTo(ps, [QUOTE] + rest);
    if |ps| == 0 {
      assert t[1..] == rest;
    } else {
      ReadPiece(ps[0], BodyTo(ps[1..], [QUOTE] + rest));
      ReadBody(ps[1..], rest);
      assert t[0] == PieceText(ps[0])[0];
      assert t[0] != QUOTE;
    }
  }

  /** Where a number may end. */
  predicate Delimited(rest: Text) {
    |rest| > 0 ==> !IsNumberUnit(rest[0])
  }

  lemma {:induction false} RunOfNumber(l: Text, rest: Text)
    requires (forall i :: 0 <= i < |l| ==> IsNumberUnit(l[i])) && Delimited(rest)
    ensures NumberRun(l + rest) == |l|
  {
    if |l| == 0 {
      assert l + rest == rest;
    } else {
      RunOfNumber(l[1..], rest);
      assert (l + rest)[1..] == l[1..] + rest;
    }
  }

  lemma ReadNumber(l: Text, rest: Text)
    requires IsNumber(l) && Delimited(rest)
    ensures ReadValue(l + rest) == Done(Num(l), rest)
  {
    var t := l + rest;
    RunOfNumber(l, rest);
    assert IsNumberUnit(l[0]) && t[0] == l[0];
    assert t[..|l|] == l && t[|l|..] == rest;
    assert NULL[0] == 110 && TRUE[0] == 116 && FALSE[0] == 102;
    assert !StartsWith(t, NULL) && !StartsWith(t, TRUE) && !StartsWith(t, FALSE);
  }

  lemma ReadWord(rest: Text)
    ensures ReadValue(NULL + rest) == Done(Null, rest)
    ensures ReadValue(TRUE + rest) == Done(Bool(true), rest)
    ensures ReadValue(FALSE + rest) == Done(Bool(false), rest)
  {
    assert (NULL + rest)[..4] == NULL && (NULL + rest)[4..] == rest;
    assert (TRUE + rest)[..4] == TRUE && (TRUE + rest)[4..] == rest;
    assert (FALSE + rest)[..5] == FALSE && (FALSE + rest)[5..] == rest;
    assert (TRUE + rest)[..4][0] == 116 && (FALSE + rest)[..4][0] == 102;
  }

  /** A rendered value starts with its own first unit: never space, never a closing bracket. */
  lemma RenderHead(x: Tree, rest: Text)
    requires Ok(x)
    ensures var t := RenderTo(x, rest);
      |t| > 0 && !IsSpace(t[0]) && t[0] != CLOSE_LIST && t[0] != CLOSE
  {
    match x
    case TNum(l) => assert IsNumberUnit(l[0]);
    case _ =>
  }

  /** What follows a rendered element: its trailing pad, then a comma or the closing bracket. */
  lemma PadThen(pad: Text, t: Text)
    requires IsPad(pad) && |t| > 0 && !IsNumberUnit(t[0]) && !IsSpace(t[0])
    ensures Delimited(pad + t) && SkipSpace(pad + t) == t
  {
    SkipPad(pad, t);
    if |pad| > 0 { assert IsSpace(pad[0]); }
  }

  // ---------------------------------------------------------------- reading any spelling

  /** The parser reads back the value of any spelling, and stops exactly at its end. */
  lemma {:induction false} ReadRender(x: Tree, rest: Text)
    requires Ok(x) && (x.TNum? ==> Delimited(rest))
    ensures ReadValue(RenderTo(x, rest)) == Done(Value(x), rest)
    decreases x, 1
  {
    var t := RenderTo(x, rest);
    match x
    case TNull => ReadWord(rest);
    case TBool(_) => ReadWord(rest);
    case TNum(l) => ReadNumber(l, rest);
    case TStr(body) =>
      ReadBody(body, rest);
      assert t[1..] == BodyTo(body, [QUOTE] + rest);
    case TArr(pad, items) =>
      if |items| == 0 {
        SkipPad(pad, [CLOSE_LIST] + rest);
        assert t[1..] == pad + ([CLOSE_LIST] + rest);
        assert ([CLOSE_LIST] + rest)[1..] == rest;
      } else {
        assert t[1..] == ItemsTo(items, [CLOSE_LIST] + rest);
        ReadItemsRender(items, rest);
      }
    case TObj(pad, es) =>
      if |es| == 0 {
        SkipPad(pad, [CLOSE] + rest);
        assert t[1..] == pad + ([CLOSE] + rest);
        assert ([CLOSE] + rest)[1..] == rest;
      } else {
        assert t[1..] == EntriesTo(es, [CLOSE] + rest);
        ReadEntriesRender(es, rest);
      }
  }

  /** What stands between two items, or after the last one. */
  function AfterItem(items: seq<Item>, rest: Text): Text
    requires |items| > 0
  {
    if |items| == 1 then rest else [COMMA] + ItemsTo(items[1..], rest)
  }

  lemma {:induction false} ReadItemsRender(items: seq<Item>, rest: Text)
    requires OkItems(items) && |items| > 0
    ensures var s := SkipSpace(ItemsTo(items, [CLOSE_LIST] + rest));
      |s| > 0 && s[0] != CLOSE_LIST && ReadItems(s) == Done(ItemValues(items), rest)
    decreases items, 0
  {
    var i, after := items[0], AfterItem(items, [CLOSE_LIST] + rest);
    var s := RenderTo(i.tree, i.post + after);
    RenderHead(i.tree, i.post + after);
    SkipPad(i.pre, s);
    PadThen(i.post, after);
    ReadRender(i.tree, i.post + after);
    if |items| == 1 {
      assert after[1..] == rest;
      assert ItemValues(items) == [Value(i.tree)];
    } else {
      assert after[1..] == ItemsTo(items[1..], [CLOSE_LIST] + rest);
      ReadItemsRender(items[1..], rest);
    }
  }

  function AfterEntry(es: seq<Entry>, rest: Text): Text
    requires |es| > 0
  {
    if |es| == 1 then rest else [COMMA] + EntriesTo(es[1..], rest)
  }

  lemma {:induction false} ReadEntryRender(e: Entry, after: Text)
    requires OkBody(e.key) && IsPad(e.mid) && IsPad(e.gap) && Ok(e.tree) && IsPad(e.post)
    requires |after| > 0 && !IsNumberUnit(after[0]) && !IsSpace(after[0])
    ensures ReadMember([QUOTE] + BodyTo(e.key,
      [QUOTE] + (e.mid + ([COLON] + (e.gap + RenderTo(e.tree, e.post + after))))))
            == Done(Member(BodyValue(e.key), Value(e.tree)), after)
    decreases e.tree, 2
  {
    var value := RenderTo(e.tree, e.post + after);
    var colon := [COLON] + (e.gap + value);
    var t := [QUOTE] + BodyTo(e.key, [QUOTE] + (e.mid + colon));
    assert t[1..] == BodyTo(e.key, [QUOTE] + (e.mid + colon));
    ReadBody(e.key, e.mid + colon);
    SkipPad(e.mid, colon);
    assert colon[1..] == e.gap + value;
    RenderHead(e.tree, e.post + after);
    SkipPad(e.gap, value);
    PadThen(e.post, after);
    ReadRender(e.tree, e.post + after);
  }

  lemma {:induction false} ReadEntriesRender(es: seq<Entry>, rest: Text)
    requires OkEntries(es) && |es| > 0
    ensures var s := SkipSpace(EntriesTo(es, [CLOSE] + rest));
      |s| > 0 && s[0] != CLOSE && ReadMembers(s) == Done(EntryValues(es), rest)
    decreases es, 0
  {
    var e, after := es[0], AfterEntry(es, [CLOSE] + rest);
    var s := [QUOTE] + BodyTo(e.key, [QUOTE] + (e.mid + ([COLON] + (e.gap + RenderTo(e.tree, e.post + after)))));
    SkipPad(e.pre, s);
    ReadEntryRender(e, after);
    if |es| == 1 {
      assert after[1..] == rest;
      assert EntryValues(es) == [Member(BodyValue(e.key), Value(e.tree))];
    } else {
      assert after[1..] == EntriesTo(es[1..], [CLOSE] + rest);
      ReadEntriesRender(es[1..], rest);
    }
  }

  /** JSON.parse accepts every spelling, padded or not, and returns its value. */
  lemma ParseAnySpelling(before: Text, x: Tree, after: Text)
    requires Ok(x) && IsPad(before) && IsPad(after)
    ensures Parse(before + RenderTo(x, after)) == Some(Value(x))
  {
    RenderHead(x, after);
    SkipPad(before, RenderTo(x, after));
    if |after| > 0 { assert IsSpace(after[0]); }
    ReadRender(x, after);
    assert after + [] == after;
    SkipPad(after, []);
  }

  // ---------------------------------------------------------------- the printer's own spelling

  /** A value JSON can carry: every number has a number's text. */
  predicate IsJson(v: Json)
    decreases v
  {
    match v
    case Num(l) => IsNumber(l)
    case Arr(items) => forall i :: 0 <= i < |items| ==> IsJson(items[i])
    case Obj(ms) => forall i :: 0 <= i < |ms| ==> IsJson(ms[i].value)
    case _ => true
  }

  function PieceOf(u: Unit, prev: Unit, next: Unit): Piece {
    if ShortLetter(u) != 0 then Short(ShortLetter(u))
    else if u < 32 || (IsLead(u) && !IsTrail(next)) || (IsTrail(u) && !IsLead(prev)) then
      Hex(HexDigit(u / 4096), HexDigit(u / 256 % 16), HexDigit(u / 16 % 16), HexDigit(u % 16))
    else Raw(u)
  }

  function PiecesOf(s: Text, prev: Unit): seq<Piece> {
    if |s| == 0 then [] else [PieceOf(s[0], prev, if |s| > 1 then s[1] else 0)] + PiecesOf(s[1..], s[0])
  }

  /** The spelling JSON.stringify chooses: no pads, escapes only where it must. */
  function Compact(v: Json): Tree
    decreases v, 1
  {
    match v
    case Null => TNull
    case Bool(b) => TBool(b)
    case Num(l) => TNum(l)
    case Str(s) => TStr(PiecesOf(s, 0))
    case Arr(items) => TArr([], CompactItems(items))
    case Obj(ms) => TObj([], CompactMembers(ms))
  }

  function CompactItems(items: seq<Json>): (r: seq<Item>)
    ensures |r| == |items|
    decreases items, 0
  {
    if |items| == 0 then [] else [Item([], Compact(items[0]), [])] + CompactItems(items[1..])
  }

  function CompactMembers(ms: seq<Member>): (r: seq<Entry>)
    ensures |r| == |ms|
    decreases ms, 0
  {
    if |ms| == 0 then []
    else [Entry([], PiecesOf(ms[0].key, 0), [], [], Compact(ms[0].value), [])] + CompactMembers(ms[1..])
  }

  lemma HexDigitValue(n: nat)
    requires n < 16
    ensures HexValue(HexDigit(n)) == n
  {
  }

  lemma HexPositions(u: Unit)
    ensures u == (u / 4096) * 4096 + (u / 256 % 16) * 256 + (u / 16 % 16) * 16 + u % 16
  {
    var q := u / 16;
    var r := q / 16;
    assert u / 256 == r && u / 4096 == r / 16;
    assert u == q * 16 + u % 16 && q == r * 16 + q % 16 && r == r / 16 * 16 + r % 16;
  }

  lemma HexRoundTrip(u: Unit)
    ensures IsHex4(HexEscape(u)[2..]) && Hex4(HexEscape(u)[2..]) == u
  {
    HexPositions(u);
    var a: nat, b: nat, c: nat, d: nat := u / 4096, u / 256 % 16, u / 16 % 16, u % 16;
    HexDigitValue(a);
    HexDigitValue(b);
    HexDigitValue(c);
    HexDigitValue(d);
    hide HexDigit, HexValue;
    assert HexEscape(u)[2..] == [HexDigit(a), HexDigit(b), HexDigit(c), HexDigit(d)];
  }

  lemma PieceOfIs(u: Unit, prev: Unit, next: Unit)
    ensures var p := PieceOf(u, prev, next);
      OkPiece(p) && PieceValue(p) == u && PieceText(p) == EscapeUnit(u, prev, next)
  {
    HexRoundTrip(u);
    var p := PieceOf(u, prev, next);
    if p.Hex? { assert HexEscape(u)[2..] == [p.a, p.b, p.c, p.d]; }
  }

  lemma {:induction false} PiecesAre(s: Text, prev: Unit)
    ensures OkBody(PiecesOf(s, prev)) && BodyValue(PiecesOf(s, prev)) == s
    ensures forall rest :: BodyTo(PiecesOf(s, prev), rest) == EscapeTo(s, prev, rest)
  {
    if |s| > 0 {
      PieceOfIs(s[0], prev, if |s| > 1 then s[1] else 0);
      PiecesAre(s[1..], s[0]);
    }
  }

  lemma EmptyLeft(t: Text)
    ensures [] + t == t
  {
  }

  /** JSON.stringify prints one of the spellings, a well-formed one, of the value itself. */
  lemma {:induction false} PrintIsASpelling(v: Json, rest: Text)
    requires IsJson(v)
    ensures Ok(Compact(v)) && Value(Compact(v)) == v && RenderTo(Compact(v), rest) == PrintTo(v, rest)
    decreases v, 1
  {
    match v
    case Str(s) => PiecesAre(s, 0);
    case Arr(items) => CompactItemsAre(items, [CLOSE_LIST] + rest); EmptyLeft([CLOSE_LIST] + rest);
    case Obj(ms) => CompactMembersAre(ms, [CLOSE] + rest); EmptyLeft([CLOSE] + rest);
    case _ =>
  }

  lemma {:induction false} CompactItemsAre(items: seq<Json>, rest: Text)
    requires forall i :: 0 <= i < |items| ==> IsJson(items[i])
    ensures OkItems(CompactItems(items)) && ItemValues(CompactItems(items)) == items
    ensures |items| > 0 ==> ItemsTo(CompactItems(items), rest) == PrintItemsTo(items, rest)
    decreases items, 0
  {
    if |items| > 0 {
      var r, tail := CompactItems(items), CompactItems(items[1..]);
      assert r[1..] == tail;
      CompactItemsAre(items[1..], rest);
      var after := if |items| == 1 then rest else [COMMA] + PrintItemsTo(items[1..], rest);
      PrintIsASpelling(items[0], after);
      EmptyLeft(after);
      EmptyLeft(PrintTo(items[0], after));
    }
  }

  lemma {:induction false} CompactMembersAre(ms: seq<Member>, rest: Text)
    requires forall i :: 0 <= i < |ms| ==> IsJson(ms[i].value)
    ensures OkEntries(CompactMembers(ms)) && EntryValues(CompactMembers(ms)) == ms
    ensures |ms| > 0 ==> EntriesTo(CompactMembers(ms), rest) == PrintMembersTo(ms, rest)
    decreases ms, 0
  {
    if |ms| > 0 {
      var r, tail := CompactMembers(ms), CompactMembers(ms[1..]);
      assert r[1..] == tail;
      CompactMembersAre(ms[1..], rest);
      var after := if |ms| == 1 then rest else [COMMA] + PrintMembersTo(ms[1..], rest);
      PrintIsASpelling(ms[0].value, after);
      PiecesAre(ms[0].key, 0);
      MemberText(ms[0], after);
    }
  }

  lemma MemberText(m: Member, after: Text)
    requires RenderTo(Compact(m.value), after) == PrintTo(m.value, after)
    ensures [] + ([QUOTE] + BodyTo(PiecesOf(m.key, 0),
      [QUOTE] + ([] + ([COLON] + ([] + RenderTo(Compact(m.value), [] + after))))))
            == QuoteTo(m.key, [COLON] + PrintTo(m.value, after))
  {
    hide RenderTo, PrintTo, Compact, PiecesOf, BodyTo, EscapeTo;
    var value := PrintTo(m.value, after);
    var colon := [COLON] + value;
    EmptyLeft(after);
    assert RenderTo(Compact(m.value), [] + after) == value;
    EmptyLeft(value);
    EmptyLeft(colon);
    assert [QUOTE] + ([] + ([COLON] + ([] + RenderTo(Compact(m.value), [] + after)))) == [QUOTE] + colon;
    PiecesAre(m.key, 0);
    EmptyLeft([QUOTE] + BodyTo(PiecesOf(m.key, 0), [QUOTE] + colon));
  }

  /** JSON.parse after JSON.stringify is the identity, with anything delimiter-led behind it. */
  lemma ReadPrint(v: Json, rest: Text)
    requires IsJson(v) && (v.Num? ==> Delimited(rest))
    ensures ReadValue(PrintTo(v, rest)) == Done(v, rest)
  {
    PrintIsASpelling(v, rest);
    ReadRender(Compact(v), rest);
  }

  lemma ParsePrint(v: Json)
    requires IsJson(v)
    ensures Parse(Print(v)) == Some(v)
  {
    PrintIsASpelling(v, []);
    ParseAnySpelling([], Compact(v), []);
    EmptyLeft(Print(v));
  }
}

/** JSON values and JSON text over UTF-16 code units: what JSON.stringify prints, what
    JSON.parse reads (RFC 8259), and every spelling of a value in between. */
module JsonText {
  import opened Wrappers

  /** A UTF-16 code unit. */
  type Unit = u: int | 0 <= u < 0x1_0000
  type Text = seq<Unit>

  const QUOTE: Unit := 34
  const COMMA: Unit := 44
  const COLON: Unit := 58
  const OPEN_LIST: Unit := 91
  const BACKSLASH: Unit := 92
  const CLOSE_LIST: Unit := 93
  const OPEN: Unit := 123
  const CLOSE: Unit := 125
  const NULL: Text := [110, 117, 108, 108]
  const TRUE: Text := [116, 114, 117, 101]
  const FALSE: Text := [102, 97, 108, 115, 101]

  /** Numbers are carried by the text JSON.stringify gives them. Members are in insertion order. */
  datatype Json =
    | Null
    | Bool(b: bool)
    | Num(lexeme: Text)
    | Str(s: Text)
    | Arr(items: seq<Json>)
    | Obj(members: seq<Member>)

  datatype Member = Member(key: Text, value: Json)

  // ---------------------------------------------------------------- numbers

  predicate IsDigit(u: Unit) { 48 <= u <= 57 }

  /** Any unit that can occur in a number: digits, sign, point, exponent mark. */
  predicate IsNumberUnit(u: Unit) {
    IsDigit(u) || u == 43 || u == 45 || u == 46 || u == 69 || u == 101
  }

  function Digits(t: Text): (n: nat)
    ensures n <= |t|
  {
    if |t| > 0 && IsDigit(t[0]) then 1 + Digits(t[1..]) else 0
  }

  predicate IsExponent(t: Text) {
    |t| == 0 ||
    ((t[0] == 69 || t[0] == 101) &&
     var s := if |t| > 1 && (t[1] == 43 || t[1] == 45) then t[2..] else t[1..];
     |s| > 0 && Digits(s) == |s|)
  }

  predicate IsFraction(t: Text) {
    if |t| > 0 && t[0] == 46 then
      var n := Digits(t[1..]);
      n > 0 && IsExponent(t[1..][n..])
    else IsExponent(t)
  }

  /** The number grammar of section 6 of RFC 8259. */
  predicate IsNumber(t: Text) {
    (forall i :: 0 <= i < |t| ==> IsNumberUnit(t[i])) &&
    var s := if |t| > 0 && t[0] == 45 then t[1..] else t;
    |s| > 0 && IsDigit(s[0]) &&
    if s[0] == 48 then IsFraction(s[1..]) else IsFraction(s[Digits(s)..])
  }

  // ---------------------------------------------------------------- string escapes

  predicate IsLead(u: Unit) { 0xD800 <= u < 0xDC00 }
  predicate IsTrail(u: Unit) { 0xDC00 <= u < 0xE000 }

  function HexDigit(n: nat): (u: Unit)
    requires n < 16
  {
    if n < 10 then 48 + n else 87 + n
  }

  /** Value of a hexadecimal digit in either case, or 16. */
  function HexValue(u: Unit): (n: nat)
    ensures n <= 16
  {
    if 48 <= u <= 57 then u - 48
    else if 97 <= u <= 102 then u - 87
    else if 65 <= u <= 70 then u - 55
    else 16
  }

  function HexEscape(u: Unit): Text {
    [BACKSLASH, 117, HexDigit(u / 4096), HexDigit(u / 256 % 16), HexDigit(u / 16 % 16), HexDigit(u % 16)]
  }

  /** The letter after the backslash for the units that have a two-unit escape, else 0. */
  function ShortLetter(u: Unit): Unit {
    if u == 8 then 98 else if u == 9 then 116 else if u == 10 then 110 else if u == 12 then 102
    else if u == 13 then 114 else if u == QUOTE then QUOTE else if u == BACKSLASH then BACKSLASH else 0
  }

  /** One unit as JSON.stringify spells it, given its neighbours: a surrogate is written out
      in hexadecimal when it is not half of a pair. */
  function EscapeUnit(u: Unit, prev: Unit, next: Unit): Text {
    if ShortLetter(u) != 0 then [BACKSLASH, ShortLetter(u)]
    else if u < 32 || (IsLead(u) && !IsTrail(next)) || (IsTrail(u) && !IsLead(prev)) then HexEscape(u)
    else [u]
  }

  /** The escaped body of `s`, in front of `rest`. */
  function EscapeTo(s: Text, prev: Unit, rest: Text): Text {
    if |s| == 0 then rest
    else EscapeUnit(s[0], prev, if |s| > 1 then s[1] else 0) + EscapeTo(s[1..], s[0], rest)
  }

  function QuoteTo(s: Text, rest: Text): Text {
    [QUOTE] + EscapeTo(s, 0, [QUOTE] + rest)
  }

  // ---------------------------------------------------------------- printing

  /** JSON.stringify without spaces, in front of `rest`. */
  function PrintTo(v: Json, rest: Text): Text
    decreases v, 1
  {
    match v
    case Null => NULL + rest
    case Bool(b) => (if b then TRUE else FALSE) + rest
    case Num(l) => l + rest
    case Str(s) => QuoteTo(s, rest)
    case Arr(items) => [OPEN_LIST] + PrintItemsTo(items, [CLOSE_LIST] + rest)
    case Obj(ms) => [OPEN] + PrintMembersTo(ms, [CLOSE] + rest)
  }

  function PrintItemsTo(items: seq<Json>, rest: Text): Text
    decreases items, 0
  {
    if |items| == 0 then rest
    else PrintTo(items[0], if |items| == 1 then rest else [COMMA] + PrintItemsTo(items[1..], rest))
  }

  function PrintMembersTo(ms: seq<Member>, rest: Text): Text
    decreases ms, 0
  {
    if |ms| == 0 then rest
    else
      QuoteTo(ms[0].key,
        [COLON] + PrintTo(ms[0].value, if |ms| == 1 then rest else [COMMA] + PrintMembersTo(ms[1..], rest)))
  }

  function Print(v: Json): Text {
    PrintTo(v, [])
  }

  // ---------------------------------------------------------------- reading

  datatype Read<+T> = Fail | Done(value: T, rest: Text)

  predicate IsSpace(u: Unit) { u == 32 || u == 9 || u == 10 || u == 13 }

  function SkipSpace(t: Text): (r: Text)
    ensures |r| <= |t|
  {
    if |t| > 0 && IsSpace(t[0]) then SkipSpace(t[1..]) else t
  }

  /** The unit a two-unit escape stands for, or -1. */
  function ShortMeaning(c: Unit): int {
    if c == 98 then 8 else if c == 116 then 9 else if c == 110 then 10 else if c == 102 then 12
    else if c == 114 then 13 else if c == QUOTE then QUOTE else if c == BACKSLASH then BACKSLASH
    else if c == 47 then 47 else -1
  }

  predicate IsHex4(t: Text) {
    |t| >= 4 && HexValue(t[0]) < 16 && HexValue(t[1]) < 16 && HexValue(t[2]) < 16 && HexValue(t[3]) < 16
  }

  function Hex4(t: Text): Unit
    requires IsHex4(t)
  {
    HexValue(t[0]) * 4096 + HexValue(t[1]) * 256 + HexValue(t[2]) * 16 + HexValue(t[3])
  }

  /** The next unit of a string body and what follows it; Fail at anything RFC 8259 forbids. */
  function ReadUnit(t: Text): (r: Read<Unit>)
    requires |t| > 0
    ensures r.Done? ==> |r.rest| < |t|
  {
    if t[0] != BACKSLASH then
      if t[0] < 32 || t[0] == QUOTE then Fail else Done(t[0], t[1..])
    else if |t| < 2 then Fail
    else if t[1] == 117 then
      if IsHex4(t[2..]) then Done(Hex4(t[2..]), t[6..]) else Fail
    else if ShortMeaning(t[1]) >= 0 then Done(ShortMeaning(t[1]), t[2..])
    else Fail
  }

  /** The string whose opening quote has just been read. */
  function ReadString(t: Text): (r: Read<Text>)
    ensures r.Done? ==> |r.rest| < |t|
    decreases |t|
  {
    if |t| == 0 then Fail
    else if t[0] == QUOTE then Done([], t[1..])
    else
      match ReadUnit(t)
      case Fail => Fail
      case Done(u, rest) =>
        match ReadString(rest)
        case Fail => Fail
        case Done(s, rest') => Done([u] + s, rest')
  }

  function NumberRun(t: Text): (n: nat)
    ensures n <= |t|
  {
    if |t| > 0 && IsNumberUnit(t[0]) then 1 + NumberRun(t[1..]) else 0
  }

  predicate StartsWith(t: Text, p: Text) {
    |p| <= |t| && t[..|p|] == p
  }

  /** Recursive descent over one value; no space in front. */
  function ReadValue(t: Text): (r: Read<Json>)
    ensures r.Done? ==> |r.rest| < |t|
    decreases |t|, 0
  {
    if |t| == 0 then Fail
    else if t[0] == QUOTE then
      match ReadString(t[1..]) case Fail => Fail case Done(s, rest) => Done(Str(s), rest)
    else if t[0] == OPEN_LIST then
      var s := SkipSpace(t[1..]);
      if |s| > 0 && s[0] == CLOSE_LIST then Done(Arr([]), s[1..])
      else match ReadItems(s) case Fail => Fail case Done(items, rest) => Done(Arr(items), rest)
    else if t[0] == OPEN then
      var s := SkipSpace(t[1..]);
      if |s| > 0 && s[0] == CLOSE then Done(Obj([]), s[1..])
      else match ReadMembers(s) case Fail => Fail case Done(ms, rest) => Done(Obj(ms), rest)
    else if StartsWith(t, NULL) then Done(Null, t[|NULL|..])
    else if StartsWith(t, TRUE) then Done(Bool(true), t[|TRUE|..])
    else if StartsWith(t, FALSE) then Done(Bool(false), t[|FALSE|..])
    else
      var n := NumberRun(t);
      if n > 0 && IsNumber(t[..n]) then Done(Num(t[..n]), t[n..]) else Fail
  }

  function ReadItems(t: Text): (r: Read<seq<Json>>)
    ensures r.Done? ==> |r.rest| < |t|
    decreases |t|, 1
  {
    match ReadValue(t)
    case Fail => Fail
    case Done(v, rest) =>
      var s := SkipSpace(rest);
      if |s| > 0 && s[0] == CLOSE_LIST then Done([v], s[1..])
      else if |s| > 0 && s[0] == COMMA then
        match ReadItems(SkipSpace(s[1..]))
        case Fail => Fail
        case Done(vs, rest') => Done([v] + vs, rest')
      else Fail
  }

  /** One `key : value` with the space after it skipped. */
  function ReadMember(t: Text): (r: Read<Member>)
    ensures r.Done? ==> |r.rest| < |t|
    decreases |t|, 1
  {
    if |t| == 0 || t[0] != QUOTE then Fail
    else
      match ReadString(t[1..])
      case Fail => Fail
      case Done(k, rest) =>
        var s := SkipSpace(rest);
        if |s| == 0 || s[0] != COLON then Fail
        else
          match ReadValue(SkipSpace(s[1..]))
          case Fail => Fail
          case Done(v, rest') => Done(Member(k, v), SkipSpace(rest'))
  }

  function ReadMembers(t: Text): (r: Read<seq<Member>>)
    ensures r.Done? ==> |r.rest| < |t|
    decreases |t|, 2
  {
    match ReadMember(t)
    case Fail => Fail
    case Done(m, s) =>
      if |s| > 0 && s[0] == CLOSE then Done([m], s[1..])
      else if |s| > 0 && s[0] == COMMA then
        match ReadMembers(SkipSpace(s[1..]))
        case Fail => Fail
        case Done(ms, rest') => Done([m] + ms, rest')
      else Fail
  }

  /** JSON.parse: one value, space around it allowed, nothing else. */
  function Parse(t: Text): Maybe<Json> {
    match ReadValue(SkipSpace(t))
    case Fail => None
    case Done(v, rest) => if SkipSpace(rest) == [] then Some(v) else None
  }

  // ---------------------------------------------------------------- the characters behind the units

  /** The marks and words of the grammar. */
  lemma MarksAre()
    ensures QUOTE == '"' as int && BACKSLASH == '\\' as int && COMMA == ',' as int && COLON == ':' as int
    ensures OPEN == '{' as int && CLOSE == '}' as int && OPEN_LIST == '[' as int && CLOSE_LIST == ']' as int
    ensures NULL == ['n' as int, 'u' as int, 'l' as int, 'l' as int]
    ensures TRUE == ['t' as int, 'r' as int, 'u' as int, 'e' as int]
    ensures FALSE == ['f' as int, 'a' as int, 'l' as int, 's' as int, 'e' as int]
    ensures forall u: Unit :: IsDigit(u) <==> '0' as int <= u <= '9' as int
    ensures forall u: Unit :: IsSpace(u) <==>
      u == ' ' as int || u == '\t' as int || u == '\n' as int || u == '\r' as int
  {
  }

  /** The escapes of section 7 of RFC 8259, reading and writing. */
  lemma EscapesAre(u: Unit, prev: Unit, next: Unit)
    ensures ShortMeaning('b' as int) == 8 && ShortMeaning('t' as int) == 9 && ShortMeaning('n' as int) == 10
    ensures ShortMeaning('f' as int) == 12 && ShortMeaning('r' as int) == 13 && ShortMeaning('/' as int) == '/' as int
    ensures ShortMeaning('"' as int) == '"' as int && ShortMeaning('\\' as int) == '\\' as int
    ensures '0' as int <= u <= '9' as int ==> HexValue(u) == u - '0' as int
    ensures 'a' as int <= u <= 'f' as int ==> HexValue(u) == u - 'a' as int + 10
    ensures 'A' as int <= u <= 'F' as int ==> HexValue(u) == u - 'A' as int + 10
    ensures u == '"' as int || u == '\\' as int ==> EscapeUnit(u, prev, next) == ['\\' as int, u]
    ensures u == 8 ==> EscapeUnit(u, prev, next) == ['\\' as int, 'b' as int]
    ensures u == 9 ==> EscapeUnit(u, prev, next) == ['\\' as int, 't' as int]
    ensures u == 10 ==> EscapeUnit(u, prev, next) == ['\\' as int, 'n' as int]
    ensures u == 12 ==> EscapeUnit(u, prev, next) == ['\\' as int, 'f' as int]
    ensures u == 13 ==> EscapeUnit(u, prev, next) == ['\\' as int, 'r' as int]
    ensures u < 32 && u !in [8, 9, 10, 12, 13] ==>
      EscapeUnit(u, prev, next) == ['\\' as int, 'u' as int, '0' as int, '0' as int, '0' as int + u / 16,
                                    if u % 16 < 10 then '0' as int + u % 16 else 'a' as int + u % 16 - 10]
    ensures u >= 32 && u != '"' as int && u != '\\' as int && !(0xD800 <= u < 0xE000) ==>
      EscapeUnit(u, prev, next) == [u]
  {
  }
}

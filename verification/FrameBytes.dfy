/** Little-endian fields and where they sit in a buffer. */
module FrameBytes {

  type Byte = b: int | 0 <= b < 256
  type Word = w: int | 0 <= w < 0x1_0000_0000
  type Half = h: int | 0 <= h < 0x1_0000
  type Short = s: int | -0x8000 <= s < 0x8000
  type Buffer = seq<Byte>

  function PutWord(w: Word): (b: Buffer)
    ensures |b| == 4
  {
    [w % 256, w / 256 % 256, w / 65536 % 256, w / 16777216]
  }

  function PutHalf(h: Half): (b: Buffer)
    ensures |b| == 2
  {
    [h % 256, h / 256]
  }

  /** Two's complement. */
  function PutShort(s: Short): (b: Buffer)
    ensures |b| == 2
  {
    PutHalf(if s < 0 then s + 0x1_0000 else s)
  }

  function WordAt(b: Buffer, o: nat): Word
    requires o + 4 <= |b|
  {
    var b0: int, b1: int, b2: int, b3: int := b[o], b[o + 1], b[o + 2], b[o + 3];
    b0 + b1 * 256 + b2 * 65536 + b3 * 16777216
  }

  function HalfAt(b: Buffer, o: nat): Half
    requires o + 2 <= |b|
  {
    var b0: int, b1: int := b[o], b[o + 1];
    b0 + b1 * 256
  }

  function ShortAt(b: Buffer, o: nat): Short
    requires o + 2 <= |b|
  {
    var h := HalfAt(b, o);
    if h >= 0x8000 then h - 0x1_0000 else h
  }

  function Words(ws: seq<Word>): (b: Buffer)
    ensures |b| == 4 * |ws|
  {
    if |ws| == 0 then [] else PutWord(ws[0]) + Words(ws[1..])
  }

  function Shorts(ss: seq<Short>): (b: Buffer)
    ensures |b| == 2 * |ss|
  {
    if |ss| == 0 then [] else PutShort(ss[0]) + Shorts(ss[1..])
  }

  // ---------------------------------------------------------------- reading what was put

  /** `part` stands in `b` from `o` on. */
  ghost predicate Stands(b: Buffer, o: nat, part: Buffer) {
    o + |part| <= |b| && b[o..o + |part|] == part
  }

  lemma StandsByte(b: Buffer, o: nat, part: Buffer, k: nat)
    requires Stands(b, o, part) && k < |part|
    ensures b[o + k] == part[k]
  {
    assert b[o..o + |part|][k] == part[k];
  }

  lemma StandsSplit(b: Buffer, o: nat, p: Buffer, q: Buffer)
    requires Stands(b, o, p + q)
    ensures Stands(b, o, p) && Stands(b, o + |p|, q)
  {
    var s := b[o..o + |p + q|];
    assert s[..|p|] == p && s[|p|..] == q;
    assert b[o..o + |p|] == s[..|p|] && b[o + |p|..o + |p| + |q|] == s[|p|..];
  }

  lemma WordSplit(w: Word)
    ensures w % 256 + w / 256 % 256 * 256 + w / 65536 % 256 * 65536 + w / 16777216 * 16777216 == w
  {
    var q := w / 256;
    var r := q / 256;
    assert w / 65536 == r && w / 16777216 == r / 256;
    assert w == q * 256 + w % 256 && q == r * 256 + q % 256 && r == r / 256 * 256 + r % 256;
  }

  lemma ReadWord(b: Buffer, o: nat, w: Word)
    requires Stands(b, o, PutWord(w))
    ensures WordAt(b, o) == w
  {
    WordSplit(w);
    var p := PutWord(w);
    StandsByte(b, o, p, 0);
    StandsByte(b, o, p, 1);
    StandsByte(b, o, p, 2);
    StandsByte(b, o, p, 3);
  }

  lemma ReadHalf(b: Buffer, o: nat, h: Half)
    requires Stands(b, o, PutHalf(h))
    ensures HalfAt(b, o) == h
  {
    StandsByte(b, o, PutHalf(h), 0);
    StandsByte(b, o, PutHalf(h), 1);
  }

  lemma ReadShort(b: Buffer, o: nat, s: Short)
    requires Stands(b, o, PutShort(s))
    ensures ShortAt(b, o) == s
  {
    ReadHalf(b, o, if s < 0 then s + 0x1_0000 else s);
  }

  lemma {:induction false} ReadWords(b: Buffer, o: nat, ws: seq<Word>, k: nat)
    requires Stands(b, o, Words(ws)) && k < |ws|
    ensures o + 4 * k + 4 <= |b| && WordAt(b, o + 4 * k) == ws[k]
    decreases k
  {
    StandsSplit(b, o, PutWord(ws[0]), Words(ws[1..]));
    if k == 0 {
      ReadWord(b, o, ws[0]);
    } else {
      ReadWords(b, o + 4, ws[1..], k - 1);
    }
  }

  lemma {:induction false} ReadShorts(b: Buffer, o: nat, ss: seq<Short>, k: nat)
    requires Stands(b, o, Shorts(ss)) && k < |ss|
    ensures o + 2 * k + 2 <= |b| && ShortAt(b, o + 2 * k) == ss[k]
    decreases k
  {
    StandsSplit(b, o, PutShort(ss[0]), Shorts(ss[1..]));
    if k == 0 {
      ReadShort(b, o, ss[0]);
    } else {
      ReadShorts(b, o + 2, ss[1..], k - 1);
    }
  }
}

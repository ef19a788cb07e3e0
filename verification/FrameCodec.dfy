/** One frame on the wire: packed by the Python backend, decoded by the browser. A float32 is
    carried as its 32-bit pattern. */
module FrameCodec {
  import opened Wrappers
  import opened FrameBytes

  const HEADER_BYTES: nat := 40
  const BLOB_BYTES: nat := 44
  const QUANT_SCALE: real := 32000.0

  /** What the producer holds. Points are quantised; colours and labels are one byte each. */
  datatype Blob = Blob(
    id: int, kind: int, coasting: bool, age: int,
    x: Word, z: Word, vx: Word, vz: Word, hx: Word, hz: Word, length: Word, width: Word, height: Word)

  datatype Frame = Frame(
    index: int, gpuMs: Word, radius: Word, camera: (Word, Word, Word), pointScale: Word, at: Word,
    points: seq<Short>, colours: seq<Byte>, labels: seq<Byte>, blobs: seq<Blob>)

  /** What the viewer gets. */
  datatype LiveBlob = LiveBlob(
    id: Word, kind: Byte, coasting: bool, age: Half,
    x: Word, z: Word, vx: Word, vz: Word, hx: Word, hz: Word, length: Word, width: Word, height: Word)

  datatype LiveFrame = LiveFrame(
    index: Word, gpuMs: Word, radius: Word, numPoints: Word, camera: (Word, Word, Word), pointScale: Word, at: Word,
    positions: seq<real>, colors: seq<real>, labels: seq<Byte>, blobs: seq<LiveBlob>)

  /** Three coordinates and three colours a point, one label. */
  predicate WellShaped(f: Frame) {
    |f.points| == 3 * |f.labels| && |f.colours| == 3 * |f.labels|
  }

  /** Sign flip of a float32: its top bit. */
  function Negated(w: Word): Word {
    if w >= 0x8000_0000 then w - 0x8000_0000 else w + 0x8000_0000
  }

  // ---------------------------------------------------------------- packing

  function Capped(age: int): int {
    if age < 65535 then age else 65535
  }

  /** Whether struct.pack accepts the integer fields. */
  predicate FitsBlob(b: Blob) {
    0 <= b.id < 0x1_0000_0000 && 0 <= b.kind < 256 && 0 <= b.age
  }

  predicate Fits(f: Frame) {
    && 0 <= f.index < 0x1_0000_0000 && |f.labels| < 0x1_0000_0000 && |f.blobs| < 0x1_0000_0000
    && forall k :: 0 <= k < |f.blobs| ==> FitsBlob(f.blobs[k])
  }

  function BlobWords(b: Blob): seq<Word> {
    [b.x, b.z, b.vx, b.vz, b.hx, b.hz, b.length, b.width, b.height]
  }

  function PackBlob(b: Blob): (r: Buffer)
    requires FitsBlob(b)
    ensures |r| == BLOB_BYTES
  {
    PutWord(b.id) + ([b.kind, if b.coasting then 2 else 0] + (PutHalf(Capped(b.age)) + Words(BlobWords(b))))
  }

  function PackBlobs(bs: seq<Blob>): (r: Buffer)
    requires forall k :: 0 <= k < |bs| ==> FitsBlob(bs[k])
    ensures |r| == BLOB_BYTES * |bs|
  {
    if |bs| == 0 then [] else PackBlob(bs[0]) + PackBlobs(bs[1..])
  }

  function HeaderWords(f: Frame): (ws: seq<Word>)
    requires Fits(f)
    ensures |ws| == 10
  {
    [f.index, f.gpuMs, f.radius, |f.labels|, f.camera.0, f.camera.1, f.camera.2, f.pointScale, f.at, |f.blobs|]
  }

  /** The frame's bytes, or nothing when a field does not fit and packing raises. */
  function PackFrame(f: Frame): Maybe<Buffer> {
    if !Fits(f) then None
    else Some(Words(HeaderWords(f)) + (Shorts(f.points) + (f.colours + (f.labels + PackBlobs(f.blobs)))))
  }

  // ---------------------------------------------------------------- decoding, as a function of the buffer

  function BlobAt(b: Buffer, o: nat): LiveBlob
    requires o + BLOB_BYTES <= |b|
  {
    LiveBlob(
      WordAt(b, o), b[o + 4], b[o + 5] / 2 % 2 == 1, HalfAt(b, o + 6),
      WordAt(b, o + 8), Negated(WordAt(b, o + 12)), WordAt(b, o + 16), Negated(WordAt(b, o + 20)),
      WordAt(b, o + 24), Negated(WordAt(b, o + 28)), WordAt(b, o + 32), WordAt(b, o + 36), WordAt(b, o + 40))
  }

  /** Bytes before the blobs when the header announces `n` points. */
  function BodyBytes(n: nat): nat {
    HEADER_BYTES + n * 3 * 2 + n * 3 + n
  }

  predicate LengthMatches(b: Buffer) {
    |b| >= HEADER_BYTES && |b| == BodyBytes(WordAt(b, 12)) + WordAt(b, 36) * BLOB_BYTES
  }

  /** The `i`-th coordinate in the viewer's axes: x as it is, y and z negated. */
  function Placed(i: nat, q: int): real {
    if i % 3 == 0 then q as real / QUANT_SCALE else (-q) as real / QUANT_SCALE
  }

  function PositionAt(b: Buffer, i: nat): real
    requires HEADER_BYTES + 2 * i + 2 <= |b|
  {
    Placed(i, ShortAt(b, HEADER_BYTES + 2 * i))
  }

  function ColorAt(b: Buffer, n: nat, i: nat): real
    requires HEADER_BYTES + n * 6 + i < |b|
  {
    b[HEADER_BYTES + n * 6 + i] as real / 255.0
  }

  function PositionsOf(b: Buffer, n: nat): seq<real>
    requires |b| >= BodyBytes(n)
  {
    seq(3 * n, i requires 0 <= i < 3 * n => PositionAt(b, i))
  }

  function ColoursOf(b: Buffer, n: nat): seq<real>
    requires |b| >= BodyBytes(n)
  {
    seq(3 * n, i requires 0 <= i < 3 * n => ColorAt(b, n, i))
  }

  function BlobsOf(b: Buffer, o: nat, count: nat): seq<LiveBlob>
    requires |b| == o + count * BLOB_BYTES
  {
    seq(count, k requires 0 <= k < count => BlobAt(b, o + k * BLOB_BYTES))
  }

  function Decoded(b: Buffer): Maybe<LiveFrame> {
    if !LengthMatches(b) then None
    else
      var n := WordAt(b, 12);
      Some(LiveFrame(
        WordAt(b, 0), WordAt(b, 4), WordAt(b, 8), n,
        (WordAt(b, 16), Negated(WordAt(b, 20)), Negated(WordAt(b, 24))), WordAt(b, 28), WordAt(b, 32),
        PositionsOf(b, n), ColoursOf(b, n), b[HEADER_BYTES + n * 9..HEADER_BYTES + n * 10],
        BlobsOf(b, BodyBytes(n), WordAt(b, 36))))
  }

  // ---------------------------------------------------------------- decoding, with the loops

  method DecodeBlobs(b: Buffer, body: nat, count: nat) returns (blobs: seq<LiveBlob>)
    requires |b| == body + count * BLOB_BYTES
    ensures |blobs| == count && forall k :: 0 <= k < count ==> blobs[k] == BlobAt(b, body + k * BLOB_BYTES)
  {
    blobs := [];
    for k := 0 to count
      invariant |blobs| == k && forall j :: 0 <= j < k ==> blobs[j] == BlobAt(b, body + j * BLOB_BYTES)
    {
      var o := body + k * BLOB_BYTES;
      blobs := blobs + [LiveBlob(
        WordAt(b, o), b[o + 4], b[o + 5] / 2 % 2 == 1, HalfAt(b, o + 6),
        WordAt(b, o + 8), Negated(WordAt(b, o + 12)), WordAt(b, o + 16), Negated(WordAt(b, o + 20)),
        WordAt(b, o + 24), Negated(WordAt(b, o + 28)), WordAt(b, o + 32), WordAt(b, o + 36), WordAt(b, o + 40))];
    }
  }

  /** The point loop: three coordinates and three colours a turn. */
  method DecodePoints(b: Buffer, n: nat) returns (positions: array<real>, colors: array<real>)
    requires |b| >= BodyBytes(n)
    ensures fresh(positions) && fresh(colors) && positions.Length == 3 * n && colors.Length == 3 * n
    ensures forall i :: 0 <= i < 3 * n ==> positions[i] == PositionAt(b, i) && colors[i] == ColorAt(b, n, i)
  {
    hide ShortAt;
    positions := new real[3 * n](_ => 0.0);
    colors := new real[3 * n](_ => 0.0);
    var rgb := HEADER_BYTES + n * 6;
    for p := 0 to n
      invariant forall i :: 0 <= i < 3 * p ==> positions[i] == PositionAt(b, i) && colors[i] == ColorAt(b, n, i)
    {
      var i := 3 * p;
      assert i % 3 == 0 && (i + 1) % 3 == 1 && (i + 2) % 3 == 2;
      positions[i] := ShortAt(b, HEADER_BYTES + 2 * i) as real / QUANT_SCALE;
      var y: int, z: int := ShortAt(b, HEADER_BYTES + 2 * (i + 1)), ShortAt(b, HEADER_BYTES + 2 * (i + 2));
      positions[i + 1] := (-y) as real / QUANT_SCALE;
      positions[i + 2] := (-z) as real / QUANT_SCALE;
      colors[i] := b[rgb + i] as real / 255.0;
      colors[i + 1] := b[rgb + i + 1] as real / 255.0;
      colors[i + 2] := b[rgb + i + 2] as real / 255.0;
    }
  }

  method DecodeFrame(b: Buffer) returns (r: Maybe<LiveFrame>)
    ensures r == Decoded(b)
  {
    hide WordAt, BlobAt, PositionAt, ColorAt;
    if |b| < HEADER_BYTES { return None; }
    var numPoints: nat := WordAt(b, 12);
    var numBlobs: nat := WordAt(b, 36);
    var body := HEADER_BYTES + numPoints * 3 * 2 + numPoints * 3 + numPoints;
    if |b| != body + numBlobs * BLOB_BYTES { return None; }
    var blobs := DecodeBlobs(b, body, numBlobs);
    var positions, colors := DecodePoints(b, numPoints);
    r := Some(LiveFrame(
      WordAt(b, 0), WordAt(b, 4), WordAt(b, 8), numPoints,
      (WordAt(b, 16), Negated(WordAt(b, 20)), Negated(WordAt(b, 24))), WordAt(b, 28), WordAt(b, 32),
      positions[..], colors[..], b[HEADER_BYTES + numPoints * 9..HEADER_BYTES + numPoints * 10], blobs));
    var d := Decoded(b);
    assert d.value.positions == positions[..];
    assert d.value.colors == colors[..];
    assert d.value.blobs == blobs;
  }

  // ---------------------------------------------------------------- the round trip

  /** A blob as the viewer sees it: z, vz and hz negated, age capped. */
  function Seen(b: Blob): LiveBlob
    requires FitsBlob(b)
  {
    LiveBlob(b.id, b.kind, b.coasting, Capped(b.age), b.x, Negated(b.z), b.vx, Negated(b.vz), b.hx, Negated(b.hz),
      b.length, b.width, b.height)
  }

  /** The frame as the viewer sees it: y and z of every point and of the camera negated. */
  function View(f: Frame): LiveFrame
    requires WellShaped(f) && Fits(f)
  {
    LiveFrame(
      f.index, f.gpuMs, f.radius, |f.labels|, (f.camera.0, Negated(f.camera.1), Negated(f.camera.2)),
      f.pointScale, f.at,
      ViewedPoints(f), ViewedColours(f), f.labels, ViewedBlobs(f))
  }

  function ViewedPoints(f: Frame): seq<real> {
    seq(|f.points|, i requires 0 <= i < |f.points| => Placed(i, f.points[i]))
  }

  function ViewedColours(f: Frame): seq<real> {
    seq(|f.colours|, i requires 0 <= i < |f.colours| => f.colours[i] as real / 255.0)
  }

  function ViewedBlobs(f: Frame): seq<LiveBlob>
    requires Fits(f)
  {
    seq(|f.blobs|, k requires 0 <= k < |f.blobs| => Seen(f.blobs[k]))
  }

  lemma ReadBlob(b: Buffer, o: nat, x: Blob)
    requires FitsBlob(x) && Stands(b, o, PackBlob(x))
    ensures o + BLOB_BYTES <= |b| && BlobAt(b, o) == Seen(x)
  {
    var flags: Buffer := [x.kind, if x.coasting then 2 else 0];
    var ws := BlobWords(x);
    StandsSplit(b, o, PutWord(x.id), flags + (PutHalf(Capped(x.age)) + Words(ws)));
    StandsSplit(b, o + 4, flags, PutHalf(Capped(x.age)) + Words(ws));
    StandsSplit(b, o + 6, PutHalf(Capped(x.age)), Words(ws));
    ReadWord(b, o, x.id);
    StandsByte(b, o + 4, flags, 0);
    StandsByte(b, o + 4, flags, 1);
    ReadHalf(b, o + 6, Capped(x.age));
    ReadWords(b, o + 8, ws, 0);
    ReadWords(b, o + 8, ws, 1);
    ReadWords(b, o + 8, ws, 2);
    ReadWords(b, o + 8, ws, 3);
    ReadWords(b, o + 8, ws, 4);
    ReadWords(b, o + 8, ws, 5);
    ReadWords(b, o + 8, ws, 6);
    ReadWords(b, o + 8, ws, 7);
    ReadWords(b, o + 8, ws, 8);
    hide WordAt, HalfAt, Words, Stands, PutWord, PutHalf;
  }

  lemma {:induction false} ReadBlobs(b: Buffer, o: nat, bs: seq<Blob>, k: nat)
    requires (forall j :: 0 <= j < |bs| ==> FitsBlob(bs[j])) && Stands(b, o, PackBlobs(bs)) && k < |bs|
    ensures o + k * BLOB_BYTES + BLOB_BYTES <= |b| && BlobAt(b, o + k * BLOB_BYTES) == Seen(bs[k])
    decreases k
  {
    hide PackBlob, BlobAt;
    StandsSplit(b, o, PackBlob(bs[0]), PackBlobs(bs[1..]));
    if k == 0 {
      ReadBlob(b, o, bs[0]);
    } else {
      ReadBlobs(b, o + BLOB_BYTES, bs[1..], k - 1);
    }
  }

  /** Where each section of a packed frame stands. */
  lemma Sections(f: Frame)
    requires WellShaped(f) && Fits(f)
    ensures var b, n := PackFrame(f).value, |f.labels|;
      && |b| == BodyBytes(n) + |f.blobs| * BLOB_BYTES
      && Stands(b, 0, Words(HeaderWords(f))) && Stands(b, HEADER_BYTES, Shorts(f.points))
      && Stands(b, HEADER_BYTES + n * 6, f.colours) && Stands(b, HEADER_BYTES + n * 9, f.labels)
      && Stands(b, BodyBytes(n), PackBlobs(f.blobs))
  {
    hide Words, Shorts, PackBlobs, Stands, HeaderWords;
    FiveParts(Words(HeaderWords(f)), Shorts(f.points), f.colours, f.labels, PackBlobs(f.blobs));
  }

  lemma FiveParts(p: Buffer, q: Buffer, r: Buffer, s: Buffer, t: Buffer)
    ensures var b := p + (q + (r + (s + t)));
      && |b| == |p| + |q| + |r| + |s| + |t|
      && Stands(b, 0, p) && Stands(b, |p|, q) && Stands(b, |p| + |q|, r)
      && Stands(b, |p| + |q| + |r|, s) && Stands(b, |p| + |q| + |r| + |s|, t)
  {
    hide Stands;
    var b := p + (q + (r + (s + t)));
    StandsWhole(b);
    StandsSplit(b, 0, p, q + (r + (s + t)));
    StandsSplit(b, |p|, q, r + (s + t));
    StandsSplit(b, |p| + |q|, r, s + t);
    StandsSplit(b, |p| + |q| + |r|, s, t);
  }

  lemma StandsWhole(b: Buffer)
    ensures Stands(b, 0, b)
  {
  }

  lemma HeaderReads(f: Frame, b: Buffer)
    requires Fits(f) && Stands(b, 0, Words(HeaderWords(f)))
    ensures |b| >= HEADER_BYTES
    ensures forall k :: 0 <= k < 10 ==> WordAt(b, 4 * k) == HeaderWords(f)[k]
  {
    forall k | 0 <= k < 10 ensures WordAt(b, 4 * k) == HeaderWords(f)[k] {
      ReadWords(b, 0, HeaderWords(f), k);
    }
  }

  lemma PointsRead(f: Frame, b: Buffer)
    requires WellShaped(f) && Stands(b, HEADER_BYTES, Shorts(f.points))
    ensures |b| >= HEADER_BYTES + 2 * |f.points|
    ensures forall i :: 0 <= i < |f.points| ==> PositionAt(b, i) == Placed(i, f.points[i])
  {
    hide ShortAt, Shorts, Stands;
    assert HEADER_BYTES + 2 * |f.points| <= |b| by { StandsFits(b, HEADER_BYTES, Shorts(f.points)); }
    forall i | 0 <= i < |f.points| ensures PositionAt(b, i) == Placed(i, f.points[i]) {
      ReadShorts(b, HEADER_BYTES, f.points, i);
    }
  }

  lemma StandsFits(b: Buffer, o: nat, part: Buffer)
    requires Stands(b, o, part)
    ensures o + |part| <= |b|
  {
  }

  lemma ColoursRead(f: Frame, b: Buffer)
    requires WellShaped(f) && Stands(b, HEADER_BYTES + |f.labels| * 6, f.colours)
    ensures |b| >= HEADER_BYTES + |f.labels| * 6 + |f.colours|
    ensures forall i :: 0 <= i < |f.colours| ==> ColorAt(b, |f.labels|, i) == f.colours[i] as real / 255.0
  {
    var o := HEADER_BYTES + |f.labels| * 6;
    StandsFits(b, o, f.colours);
    forall i | 0 <= i < |f.colours| ensures ColorAt(b, |f.labels|, i) == f.colours[i] as real / 255.0 {
      StandsByte(b, o, f.colours, i);
    }
  }

  lemma BlobsRead(f: Frame, b: Buffer, o: nat)
    requires Fits(f) && Stands(b, o, PackBlobs(f.blobs)) && |b| == o + |f.blobs| * BLOB_BYTES
    ensures forall k :: 0 <= k < |f.blobs| ==> BlobAt(b, o + k * BLOB_BYTES) == Seen(f.blobs[k])
  {
    hide BlobAt, PackBlobs, Stands, Seen;
    forall k | 0 <= k < |f.blobs| ensures BlobAt(b, o + k * BLOB_BYTES) == Seen(f.blobs[k]) {
      ReadBlobs(b, o, f.blobs, k);
    }
  }

  lemma ScalarsRead(f: Frame, b: Buffer)
    requires Fits(f) && Stands(b, 0, Words(HeaderWords(f)))
    ensures |b| >= HEADER_BYTES
    ensures WordAt(b, 0) == f.index && WordAt(b, 4) == f.gpuMs && WordAt(b, 8) == f.radius
      && WordAt(b, 12) == |f.labels|
    ensures WordAt(b, 16) == f.camera.0 && WordAt(b, 20) == f.camera.1 && WordAt(b, 24) == f.camera.2
    ensures WordAt(b, 28) == f.pointScale && WordAt(b, 32) == f.at && WordAt(b, 36) == |f.blobs|
  {
    HeaderReads(f, b);
    hide WordAt, Words, Stands;
    var ws := HeaderWords(f);
    assert WordAt(b, 4 * 0) == ws[0] && WordAt(b, 4 * 1) == ws[1] && WordAt(b, 4 * 2) == ws[2]
      && WordAt(b, 4 * 3) == ws[3];
    assert WordAt(b, 4 * 4) == ws[4] && WordAt(b, 4 * 5) == ws[5] && WordAt(b, 4 * 6) == ws[6]
      && WordAt(b, 4 * 7) == ws[7];
    assert WordAt(b, 4 * 8) == ws[8] && WordAt(b, 4 * 9) == ws[9];
  }

  /** Decoding a packed frame gives every field back, flipped and capped as the viewer wants it. */
  lemma RoundTrip(f: Frame)
    requires WellShaped(f) && Fits(f)
    ensures PackFrame(f).Some? && Decoded(PackFrame(f).value) == Some(View(f))
  {
    hide Fits, HeaderWords, Words, Shorts, PackBlobs, Stands, View, Decoded;
    Sections(f);
    SectionsDecode(f, PackFrame(f).value);
  }

  lemma SectionsDecode(f: Frame, b: Buffer)
    requires WellShaped(f) && Fits(f) && |b| == BodyBytes(|f.labels|) + |f.blobs| * BLOB_BYTES
    requires Stands(b, 0, Words(HeaderWords(f))) && Stands(b, HEADER_BYTES, Shorts(f.points))
    requires Stands(b, HEADER_BYTES + |f.labels| * 6, f.colours) && Stands(b, HEADER_BYTES + |f.labels| * 9, f.labels)
    requires Stands(b, BodyBytes(|f.labels|), PackBlobs(f.blobs))
    ensures Decoded(b) == Some(View(f))
  {
    var n := |f.labels|;
    assert b[HEADER_BYTES + n * 9..HEADER_BYTES + n * 10] == f.labels;
    hide WordAt, Words, Shorts, PackBlobs, Stands, Negated, Fits, HeaderWords;
    hide PositionsOf, ColoursOf, BlobsOf, ViewedPoints, ViewedColours, ViewedBlobs;
    ScalarsRead(f, b);
    PointsDecode(f, b);
    ColoursDecode(f, b);
    BlobsDecode(f, b, BodyBytes(n));
  }

  lemma PointsDecode(f: Frame, b: Buffer)
    requires WellShaped(f) && |b| >= BodyBytes(|f.labels|) && Stands(b, HEADER_BYTES, Shorts(f.points))
    ensures PositionsOf(b, |f.labels|) == ViewedPoints(f)
  {
    PointsRead(f, b);
    hide PositionAt, Placed, Stands, Shorts;
  }

  lemma ColoursDecode(f: Frame, b: Buffer)
    requires WellShaped(f) && |b| >= BodyBytes(|f.labels|) && Stands(b, HEADER_BYTES + |f.labels| * 6, f.colours)
    ensures ColoursOf(b, |f.labels|) == ViewedColours(f)
  {
    ColoursRead(f, b);
    hide ColorAt, Stands;
  }

  lemma BlobsDecode(f: Frame, b: Buffer, o: nat)
    requires Fits(f) && Stands(b, o, PackBlobs(f.blobs)) && |b| == o + |f.blobs| * BLOB_BYTES
    ensures BlobsOf(b, o, |f.blobs|) == ViewedBlobs(f)
  {
    BlobsRead(f, b, o);
    hide BlobAt, Seen, Stands, PackBlobs;
  }

  /** No proper prefix and no proper extension of a packed frame is taken for a frame. */
  lemma OnlyTheWholeFrame(f: Frame, other: Buffer)
    requires WellShaped(f) && Fits(f)
    requires var b := PackFrame(f).value; other != b && (other <= b || b <= other)
    ensures Decoded(other) == None
  {
    var b := PackFrame(f).value;
    Sections(f);
    ScalarsRead(f, b);
    assert |other| != |b|;
    if |other| >= HEADER_BYTES {
      assert other[..HEADER_BYTES] == b[..HEADER_BYTES];
      SameHeader(b, other);
    }
  }

  lemma SameHeader(b: Buffer, other: Buffer)
    requires |b| >= HEADER_BYTES && |other| >= HEADER_BYTES && other[..HEADER_BYTES] == b[..HEADER_BYTES]
    ensures WordAt(other, 12) == WordAt(b, 12) && WordAt(other, 36) == WordAt(b, 36)
  {
    assert forall i :: 0 <= i < HEADER_BYTES ==> other[i] == other[..HEADER_BYTES][i] && b[i] == b[..HEADER_BYTES][i];
  }
}

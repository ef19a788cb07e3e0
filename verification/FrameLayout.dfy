/** The wire layout byte by byte, and the decoded frame field by field. */
module FrameLayout {
  import opened FrameBytes
  import opened FrameCodec

  /** The float of the other sign: the top bit differs and the other 31 agree. */
  predicate Flipped(x: Word, w: Word) {
    x != w && x % 0x8000_0000 == w % 0x8000_0000
  }

  lemma NegatedIsFlipped(w: Word)
    ensures Flipped(Negated(w), w)
  {
  }

  /** One blob, as it was and as the viewer gets it. */
  ghost predicate SameBlob(d: LiveBlob, b: Blob) {
    && d.id == b.id && d.kind == b.kind && d.coasting == b.coasting
    && (b.age <= 65535 ==> d.age == b.age) && (b.age > 65535 ==> d.age == 65535)
    && d.x == b.x && d.vx == b.vx && d.hx == b.hx && d.length == b.length && d.width == b.width && d.height == b.height
    && Flipped(d.z, b.z) && Flipped(d.vz, b.vz) && Flipped(d.hz, b.hz)
  }

  /** A frame as it was packed and as it is decoded, field by field. */
  ghost predicate SameFrame(d: LiveFrame, f: Frame) {
    && d.index == f.index && d.gpuMs == f.gpuMs && d.radius == f.radius && d.numPoints == |f.labels|
    && d.camera.0 == f.camera.0 && Flipped(d.camera.1, f.camera.1) && Flipped(d.camera.2, f.camera.2)
    && d.pointScale == f.pointScale && d.at == f.at && d.labels == f.labels
    && |d.positions| == |f.points| && |d.colors| == |f.colours| && |d.blobs| == |f.blobs|
    && (forall i :: 0 <= i < |f.points| && i % 3 == 0 ==> d.positions[i] * 32000.0 == f.points[i] as real)
    && (forall i :: 0 <= i < |f.points| && i % 3 != 0 ==> d.positions[i] * 32000.0 == -(f.points[i] as real))
    && (forall i :: 0 <= i < |f.colours| ==> d.colors[i] * 255.0 == f.colours[i] as real)
    && (forall k :: 0 <= k < |f.blobs| ==> SameBlob(d.blobs[k], f.blobs[k]))
  }

  /** What the decoder returns for a packed frame, without reference to how it reads. */
  lemma DecodedFrameIs(f: Frame)
    requires WellShaped(f) && Fits(f)
    ensures PackFrame(f).Some? && Decoded(PackFrame(f).value).Some?
    ensures SameFrame(Decoded(PackFrame(f).value).value, f)
  {
    RoundTrip(f);
    hide Decoded, PackFrame, Fits;
    ViewIs(f);
  }

  lemma ViewIs(f: Frame)
    requires WellShaped(f) && Fits(f)
    ensures SameFrame(View(f), f)
  {
    NegatedIsFlipped(f.camera.1);
    NegatedIsFlipped(f.camera.2);
    forall k | 0 <= k < |f.blobs| ensures SameBlob(View(f).blobs[k], f.blobs[k]) { SeenIs(f.blobs[k]); }
    forall i | 0 <= i < |f.points|
      ensures i % 3 == 0 ==> View(f).positions[i] * 32000.0 == f.points[i] as real
      ensures i % 3 != 0 ==> View(f).positions[i] * 32000.0 == -(f.points[i] as real)
    {
      assert View(f).positions[i] == Placed(i, f.points[i]);
    }
    hide Negated, Flipped, SameBlob, Placed;
  }

  lemma SeenIs(b: Blob)
    requires FitsBlob(b)
    ensures SameBlob(Seen(b), b)
  {
    NegatedIsFlipped(b.z);
    NegatedIsFlipped(b.vz);
    NegatedIsFlipped(b.hz);
    hide Negated, Flipped;
  }

  // ---------------------------------------------------------------- the bytes

  /** Little-endian: the byte at `o` counts ones, the next 256s, and so on. */
  predicate SpellsWord(b: Buffer, o: nat, w: Word) {
    o + 4 <= |b| &&
    var b0: int, b1: int, b2: int, b3: int := b[o], b[o + 1], b[o + 2], b[o + 3];
    w == b0 + 256 * b1 + 65536 * b2 + 16777216 * b3
  }

  predicate SpellsHalf(b: Buffer, o: nat, h: Half) {
    o + 2 <= |b| &&
    var b0: int, b1: int := b[o], b[o + 1];
    h == b0 + 256 * b1
  }

  /** Two's complement. */
  predicate SpellsShort(b: Buffer, o: nat, s: Short) {
    o + 2 <= |b| &&
    var b0: int, b1: int := b[o], b[o + 1];
    b0 + 256 * b1 == if s >= 0 then s else 65536 + (s as int)
  }

  lemma WordBytes(b: Buffer, o: nat)
    requires o + 4 <= |b|
    ensures SpellsWord(b, o, WordAt(b, o))
  {
  }

  lemma HalfBytes(b: Buffer, o: nat)
    requires o + 2 <= |b|
    ensures SpellsHalf(b, o, HalfAt(b, o))
  {
  }

  lemma ShortBytes(b: Buffer, o: nat)
    requires o + 2 <= |b|
    ensures SpellsShort(b, o, ShortAt(b, o))
  {
  }

  /** The header, field by field. */
  ghost predicate HeaderLaidOut(b: Buffer, f: Frame)
    requires Fits(f)
  {
    && SpellsWord(b, 0, f.index) && SpellsWord(b, 4, f.gpuMs) && SpellsWord(b, 8, f.radius)
      && SpellsWord(b, 12, |f.labels|)
    && SpellsWord(b, 16, f.camera.0) && SpellsWord(b, 20, f.camera.1) && SpellsWord(b, 24, f.camera.2)
    && SpellsWord(b, 28, f.pointScale) && SpellsWord(b, 32, f.at) && SpellsWord(b, 36, |f.blobs|)
  }

  /** One blob of 44 bytes from `o` on. */
  ghost predicate BlobLaidOut(b: Buffer, o: nat, x: Blob)
    requires FitsBlob(x)
  {
    && o + 44 <= |b| && SpellsWord(b, o, x.id) && b[o + 4] == x.kind && (b[o + 5] / 2 % 2 == 1 <==> x.coasting)
    && SpellsHalf(b, o + 6, if x.age < 65535 then x.age else 65535)
    && SpellsWord(b, o + 8, x.x) && SpellsWord(b, o + 12, x.z) && SpellsWord(b, o + 16, x.vx)
      && SpellsWord(b, o + 20, x.vz)
    && SpellsWord(b, o + 24, x.hx) && SpellsWord(b, o + 28, x.hz) && SpellsWord(b, o + 32, x.length)
    && SpellsWord(b, o + 36, x.width) && SpellsWord(b, o + 40, x.height)
  }

  ghost predicate LaidOut(b: Buffer, f: Frame)
    requires WellShaped(f) && Fits(f)
  {
    var n := |f.labels|;
    && |b| == 40 + 10 * n + 44 * |f.blobs| && HeaderLaidOut(b, f) && PointsLaidOut(b, f)
    && StandsAt(b, 40 + 6 * n, f.colours) && StandsAt(b, 40 + 9 * n, f.labels)
    && BlobsLaidOut(b, 40 + 10 * n, f)
  }

  ghost predicate PointsLaidOut(b: Buffer, f: Frame) {
    forall i :: 0 <= i < |f.points| ==> SpellsShort(b, 40 + 2 * i, f.points[i])
  }

  ghost predicate BlobsLaidOut(b: Buffer, o: nat, f: Frame)
    requires Fits(f)
  {
    forall k :: 0 <= k < |f.blobs| ==> BlobLaidOut(b, o + 44 * k, f.blobs[k])
  }

  /** The bytes, one after the other. */
  ghost predicate StandsAt(b: Buffer, o: nat, bytes: Buffer) {
    o + |bytes| <= |b| && forall i :: 0 <= i < |bytes| ==> bytes[i] == b[o + i]
  }

  /** Every packed frame has that layout. */
  lemma PackedIsLaidOut(f: Frame)
    requires WellShaped(f) && Fits(f)
    ensures LaidOut(PackFrame(f).value, f)
  {
    assert PackFrame(f).Some?;
    hide PackFrame, Stands, Words, Shorts, PackBlobs, HeaderWords, LaidOut, Fits, WellShaped, BodyBytes;
    Sections(f);
    PartsAreLaidOut(f, PackFrame(f).value);
  }

  lemma PartsAreLaidOut(f: Frame, b: Buffer)
    requires WellShaped(f) && Fits(f) && |b| == BodyBytes(|f.labels|) + |f.blobs| * BLOB_BYTES
    requires Stands(b, 0, Words(HeaderWords(f))) && Stands(b, HEADER_BYTES, Shorts(f.points))
    requires Stands(b, HEADER_BYTES + |f.labels| * 6, f.colours) && Stands(b, HEADER_BYTES + |f.labels| * 9, f.labels)
    requires Stands(b, BodyBytes(|f.labels|), PackBlobs(f.blobs))
    ensures LaidOut(b, f)
  {
    hide Stands, Words, Shorts, PackBlobs, HeaderLaidOut, HeaderWords, StandsAt, PointsLaidOut, BlobsLaidOut, Fits,
      WellShaped;
    HeaderIsLaidOut(f, b);
    BytesAt(b, HEADER_BYTES + |f.labels| * 6, f.colours);
    BytesAt(b, HEADER_BYTES + |f.labels| * 9, f.labels);
    PointsAreLaidOut(f, b);
    BlobsAreLaidOut(f, b, BodyBytes(|f.labels|));
  }

  lemma PointsAreLaidOut(f: Frame, b: Buffer)
    requires WellShaped(f) && Stands(b, HEADER_BYTES, Shorts(f.points))
    ensures PointsLaidOut(b, f)
  {
    hide SpellsShort, Stands, Shorts;
    forall i | 0 <= i < |f.points| ensures SpellsShort(b, 40 + 2 * i, f.points[i]) { PointIsLaidOut(f, b, i); }
  }

  lemma BlobsAreLaidOut(f: Frame, b: Buffer, o: nat)
    requires Fits(f) && Stands(b, o, PackBlobs(f.blobs)) && |b| == o + |f.blobs| * BLOB_BYTES
    ensures BlobsLaidOut(b, o, f)
  {
    hide BlobLaidOut, Stands, PackBlobs;
    forall k | 0 <= k < |f.blobs| ensures BlobLaidOut(b, o + 44 * k, f.blobs[k]) { BlobIsLaidOut(f, b, o, k); }
  }

  lemma BytesAt(b: Buffer, o: nat, bytes: Buffer)
    requires Stands(b, o, bytes)
    ensures StandsAt(b, o, bytes)
  {
    forall i | 0 <= i < |bytes| ensures bytes[i] == b[o + i] { StandsByte(b, o, bytes, i); }
  }

  lemma HeaderIsLaidOut(f: Frame, b: Buffer)
    requires Fits(f) && Stands(b, 0, Words(HeaderWords(f)))
    ensures HeaderLaidOut(b, f)
  {
    hide WordAt, SpellsWord, Stands, Words, HeaderWords;
    ScalarsRead(f, b);
    WordBytes(b, 0);
    WordBytes(b, 4);
    WordBytes(b, 8);
    WordBytes(b, 12);
    WordBytes(b, 16);
    WordBytes(b, 20);
    WordBytes(b, 24);
    WordBytes(b, 28);
    WordBytes(b, 32);
    WordBytes(b, 36);
  }

  lemma PointIsLaidOut(f: Frame, b: Buffer, i: nat)
    requires WellShaped(f) && Stands(b, HEADER_BYTES, Shorts(f.points)) && i < |f.points|
    ensures SpellsShort(b, 40 + 2 * i, f.points[i])
  {
    hide ShortAt, SpellsShort, Stands, Shorts;
    StandsFits(b, HEADER_BYTES, Shorts(f.points));
    ReadShorts(b, HEADER_BYTES, f.points, i);
    ShortBytes(b, 40 + 2 * i);
  }

  lemma BlobIsLaidOut(f: Frame, b: Buffer, o: nat, k: nat)
    requires Fits(f) && Stands(b, o, PackBlobs(f.blobs)) && |b| == o + |f.blobs| * BLOB_BYTES && k < |f.blobs|
    ensures BlobLaidOut(b, o + 44 * k, f.blobs[k])
  {
    hide Stands, PackBlobs, BlobAt, Seen, BlobLaidOut;
    BlobsRead(f, b, o);
    BlobBytes(b, o + 44 * k, f.blobs[k]);
  }

  lemma BlobBytes(b: Buffer, o: nat, x: Blob)
    requires FitsBlob(x) && o + BLOB_BYTES <= |b| && BlobAt(b, o) == Seen(x)
    ensures BlobLaidOut(b, o, x)
  {
    NegatedInjective(WordAt(b, o + 12), x.z);
    NegatedInjective(WordAt(b, o + 20), x.vz);
    NegatedInjective(WordAt(b, o + 28), x.hz);
    hide WordAt, HalfAt, SpellsWord, SpellsHalf, Negated;
    WordBytes(b, o);
    HalfBytes(b, o + 6);
    WordBytes(b, o + 8);
    WordBytes(b, o + 12);
    WordBytes(b, o + 16);
    WordBytes(b, o + 20);
    WordBytes(b, o + 24);
    WordBytes(b, o + 28);
    WordBytes(b, o + 32);
    WordBytes(b, o + 36);
    WordBytes(b, o + 40);
  }

  lemma NegatedInjective(v: Word, w: Word)
    ensures Negated(v) == Negated(w) ==> v == w
  {
  }

  /** Packing raises exactly when an integer field is out of its range. */
  lemma PacksExactly(f: Frame)
    ensures PackFrame(f).Some? <==>
      && 0 <= f.index <= 4294967295 && |f.labels| <= 4294967295 && |f.blobs| <= 4294967295
      && forall k :: 0 <= k < |f.blobs| ==>
           0 <= f.blobs[k].id <= 4294967295 && 0 <= f.blobs[k].kind <= 255 && 0 <= f.blobs[k].age
  {
  }
}

/** The fixed region of the LAS public header block, in file order, as the
    ASPRS LAS 1.1 to 1.4 specifications lay it out: the fields every version
    has (227 bytes), the start of the waveform data packet record from 1.3 on
    (8 more bytes), and the extended VLR pointers, 64-bit point count and 15
    64-bit return counts from 1.4 on (140 more bytes). */
module Layout {

  import opened Wrappers
  import opened Bytes
  import opened Versions
  import opened Formats

  /** The file signature "LASF". */
  const SIGNATURE: seq<byte> := [76, 65, 83, 70]

  /** `LAS_HEADERS_SIZE`: the header size written for each known version. */
  const LAS_HEADERS_SIZE: map<string, nat> := map["1.1" := 227, "1.2" := 227, "1.3" := 235, "1.4" := 375]

  /** Bytes of the fixed region that a file of the given minor version has. */
  function FixedLen(minor: nat): nat {
    227 + (if minor >= 3 then 8 else 0) + (if minor >= 4 then 140 else 0)
  }

  /** The fixed region as stored: integers as read by `int.from_bytes`,
      identifiers as their 32 stored bytes, doubles as their 8 stored bytes.
      Fields that the file's version does not have are 0. */
  datatype Fixed = Fixed(
    fileSourceId: nat,
    globalEncoding: nat,
    uuid: seq<byte>,
    major: nat,
    minor: nat,
    systemIdentifier: seq<byte>,
    generatingSoftware: seq<byte>,
    creationDayOfYear: nat,
    creationYear: nat,
    headerSize: nat,
    offsetToPointData: nat,
    numberOfVlrs: nat,
    pointFormatId: nat,
    pointSize: nat,
    legacyPointCount: nat,
    legacyPointsByReturn: seq<nat>,
    scales: seq<Double>,
    offsets: seq<Double>,
    maxs: seq<Double>,
    mins: seq<Double>,
    startOfWaveformDataPacketRecord: nat,
    startOfFirstEvlr: nat,
    numberOfEvlrs: nat,
    pointCount: nat,
    pointsByReturn: seq<nat>)

  predicate AllFit(xs: seq<nat>, n: nat) {
    forall i :: 0 <= i < |xs| ==> Fits(xs[i], n)
  }

  /** A field of n doubles. */
  predicate AllDoubles(ds: seq<Double>, n: nat) {
    |ds| == n
  }

  /** Every field fits its width, and the fields absent from the version are 0. */
  predicate WellFormed(f: Fixed) {
    PreambleFits(f) && IdentityFits(f) && PointersFit(f) && LegacyFits(f) && ExtentsFit(f) && TailFits(f)
  }

  predicate PreambleFits(f: Fixed) {
    Fits(f.fileSourceId, 2) && Fits(f.globalEncoding, 2) && |f.uuid| == 16
      && Fits(f.major, 1) && Fits(f.minor, 1)
  }

  predicate IdentityFits(f: Fixed) {
    && |f.systemIdentifier| == 32 && |f.generatingSoftware| == 32
    && Fits(f.creationDayOfYear, 2) && Fits(f.creationYear, 2)
  }

  predicate PointersFit(f: Fixed) {
    && Fits(f.headerSize, 2) && Fits(f.offsetToPointData, 4) && Fits(f.numberOfVlrs, 4)
    && Fits(f.pointFormatId, 1) && Fits(f.pointSize, 2)
  }

  predicate LegacyFits(f: Fixed) {
    Fits(f.legacyPointCount, 4) && |f.legacyPointsByReturn| == 5 && AllFit(f.legacyPointsByReturn, 4)
  }

  predicate ExtentsFit(f: Fixed) {
    AllDoubles(f.scales, 3) && AllDoubles(f.offsets, 3) && AllDoubles(f.maxs, 3) && AllDoubles(f.mins, 3)
  }

  predicate TailFits(f: Fixed) {
    && Fits(f.startOfWaveformDataPacketRecord, 8)
    && Fits(f.startOfFirstEvlr, 8) && Fits(f.numberOfEvlrs, 4) && Fits(f.pointCount, 8)
    && |f.pointsByReturn| == 15 && AllFit(f.pointsByReturn, 8)
    && (f.minor < 3 ==> f.startOfWaveformDataPacketRecord == 0)
    && (f.minor < 4 ==> f.startOfFirstEvlr == 0 && f.numberOfEvlrs == 0 && f.pointCount == 0
                        && f.pointsByReturn == seq(15, _ => 0))
  }

  /** The values written one after the other, each in w bytes, as the
      `for i in range(...)` write loops emit them. */
  function LeAll(xs: seq<nat>, w: nat): (r: seq<byte>)
    requires AllFit(xs, w)
    ensures |r| == w * |xs|
  {
    if xs == [] then []
    else LeAll(xs[..|xs| - 1], w) + Le(xs[|xs| - 1], w)
  }

  /** n values of w bytes each, read one after the other. */
  function LeValues(b: seq<byte>, w: nat, n: nat): (r: seq<nat>)
    requires |b| == w * n
    ensures |r| == n && AllFit(r, w)
  {
    if n == 0 then []
    else LeValues(b[..|b| - w], w, n - 1) + [LeValue(b[|b| - w..])]
  }

  /** Doubles written one after the other. */
  function Flat(ds: seq<Double>): seq<byte> {
    if ds == [] then [] else Flat(ds[..|ds| - 1]) + ds[|ds| - 1]
  }

  /** n doubles of 8 bytes, read one after the other. */
  function Doubles(b: seq<byte>, n: nat): (r: seq<Double>)
    requires |b| == 8 * n
    ensures AllDoubles(r, n)
  {
    if n == 0 then [] else Doubles(b[..|b| - 8], n - 1) + [b[|b| - 8..]]
  }

  /** The per-axis maximum and minimum written in pairs, as the extents loop
      writes them. */
  function Interleave(maxs: seq<Double>, mins: seq<Double>): (r: seq<byte>)
    requires |maxs| == |mins|
  {
    if maxs == [] then []
    else Interleave(maxs[..|maxs| - 1], mins[..|mins| - 1]) + maxs[|maxs| - 1] + mins[|mins| - 1]
  }

  /** n (maximum, minimum) pairs of doubles, read as the extents loop reads them. */
  function Deinterleave(b: seq<byte>, n: nat): (r: (seq<Double>, seq<Double>))
    requires |b| == 16 * n
    ensures AllDoubles(r.0, n) && AllDoubles(r.1, n)
  {
    if n == 0 then ([], [])
    else
      var p := Deinterleave(b[..|b| - 16], n - 1);
      (p.0 + [b[|b| - 16..|b| - 8]], p.1 + [b[|b| - 8..]])
  }

  lemma {:induction false} LeValuesLeAll(xs: seq<nat>, w: nat)
    requires AllFit(xs, w)
    ensures LeValues(LeAll(xs, w), w, |xs|) == xs
  {
    if xs != [] {
      var n := |xs|;
      var init := xs[..n - 1];
      var b := LeAll(xs, w);
      assert b == LeAll(init, w) + Le(xs[n - 1], w);
      assert |LeAll(init, w)| == w * (n - 1) == |b| - w;
      Parts2(LeAll(init, w), Le(xs[n - 1], w));
      LeValuesLeAll(init, w);
      assert init + [xs[n - 1]] == xs;
    }
  }

  lemma {:induction false} DoublesFlat(ds: seq<Double>, n: nat)
    requires AllDoubles(ds, n)
    ensures |Flat(ds)| == 8 * n && Doubles(Flat(ds), n) == ds
  {
    if n > 0 {
      var init := ds[..n - 1];
      DoublesFlat(init, n - 1);
      var b := Flat(ds);
      assert b == Flat(init) + ds[n - 1];
      Parts2(Flat(init), ds[n - 1]);
      assert init + [ds[n - 1]] == ds;
    }
  }

  lemma {:induction false} DeinterleaveInterleave(maxs: seq<Double>, mins: seq<Double>, n: nat)
    requires AllDoubles(maxs, n) && AllDoubles(mins, n)
    ensures |Interleave(maxs, mins)| == 16 * n && Deinterleave(Interleave(maxs, mins), n) == (maxs, mins)
  {
    if n > 0 {
      var a, c := maxs[..n - 1], mins[..n - 1];
      DeinterleaveInterleave(a, c, n - 1);
      var b := Interleave(maxs, mins);
      assert b == Interleave(a, c) + maxs[n - 1] + mins[n - 1];
      Parts3(Interleave(a, c), maxs[n - 1], mins[n - 1]);
      assert a + [maxs[n - 1]] == maxs && c + [mins[n - 1]] == mins;
    }
  }

  /** Signature, file source id, global encoding, project id and version. */
  function Preamble(f: Fixed): (r: seq<byte>)
    requires WellFormed(f)
    ensures |r| == 26
  {
    SIGNATURE + Le(f.fileSourceId, 2) + Le(f.globalEncoding, 2) + f.uuid
      + Le(f.major, 1) + Le(f.minor, 1)
  }

  /** System identifier, generating software and creation date. */
  function Identity(f: Fixed): (r: seq<byte>)
    requires WellFormed(f)
    ensures |r| == 68
  {
    f.systemIdentifier + f.generatingSoftware + Le(f.creationDayOfYear, 2) + Le(f.creationYear, 2)
  }

  /** Header size, offset to point data, VLR count, point format id and point size. */
  function Pointers(f: Fixed): (r: seq<byte>)
    requires WellFormed(f)
    ensures |r| == 13
  {
    Le(f.headerSize, 2) + Le(f.offsetToPointData, 4) + Le(f.numberOfVlrs, 4)
      + Le(f.pointFormatId, 1) + Le(f.pointSize, 2)
  }

  /** The 32-bit point count and the five 32-bit return counts. */
  function Legacy(f: Fixed): (r: seq<byte>)
    requires WellFormed(f)
    ensures |r| == 24
  {
    Le(f.legacyPointCount, 4) + LeAll(f.legacyPointsByReturn, 4)
  }

  /** Scales, offsets, then maximum and minimum per axis. */
  function Extents(f: Fixed): (r: seq<byte>)
    requires WellFormed(f)
    ensures |r| == 96
  {
    DoublesFlat(f.scales, 3);
    DoublesFlat(f.offsets, 3);
    DeinterleaveInterleave(f.maxs, f.mins, 3);
    Flat(f.scales) + Flat(f.offsets) + Interleave(f.maxs, f.mins)
  }

  /** LAS 1.3: the start of the waveform data packet record. */
  function Waveform(f: Fixed): (r: seq<byte>)
    requires WellFormed(f)
    ensures |r| == (if f.minor >= 3 then 8 else 0)
  {
    if f.minor >= 3 then Le(f.startOfWaveformDataPacketRecord, 8) else []
  }

  /** LAS 1.4: first EVLR, EVLR count, 64-bit point count, 15 64-bit return counts. */
  function Extended(f: Fixed): (r: seq<byte>)
    requires WellFormed(f)
    ensures |r| == (if f.minor >= 4 then 140 else 0)
  {
    if f.minor >= 4 then
      Le(f.startOfFirstEvlr, 8) + Le(f.numberOfEvlrs, 4) + Le(f.pointCount, 8)
        + LeAll(f.pointsByReturn, 8)
    else []
  }

  /** The bytes `write_to` emits before the VLRs. */
  function Encode(f: Fixed): (r: seq<byte>)
    requires WellFormed(f)
    ensures |r| == FixedLen(f.minor)
    ensures r[..4] == SIGNATURE && r[25] == f.minor
  {
    Preamble(f) + Identity(f) + Pointers(f) + Legacy(f) + Extents(f) + Waveform(f) + Extended(f)
  }

  /** The fields at their offsets in a fixed region of the right length,
      group by group. */
  function FixedAt(b: seq<byte>): (f: Fixed)
    requires |b| >= 26 && |b| == FixedLen(b[25])
    ensures f.minor == b[25]
  {
    var minor := LeValue(b[25..26]);
    var w := if minor >= 3 then 8 else 0;
    var p, id, pt, lg, ex := b[..26], b[26..94], b[94..107], b[107..131], b[131..227];
    var wf, x := b[227..227 + w], b[227 + w..];
    var extrema := Deinterleave(ex[48..], 3);
    Fixed(
      LeValue(p[4..6]), LeValue(p[6..8]), p[8..24], LeValue(p[24..25]), minor,
      id[..32], id[32..64], LeValue(id[64..66]), LeValue(id[66..68]),
      LeValue(pt[..2]), LeValue(pt[2..6]), LeValue(pt[6..10]), LeValue(pt[10..11]), LeValue(pt[11..13]),
      LeValue(lg[..4]), LeValues(lg[4..], 4, 5),
      Doubles(ex[..24], 3), Doubles(ex[24..48], 3), extrema.0, extrema.1,
      if minor >= 3 then LeValue(wf) else 0,
      if minor >= 4 then LeValue(x[..8]) else 0,
      if minor >= 4 then LeValue(x[8..12]) else 0,
      if minor >= 4 then LeValue(x[12..20]) else 0,
      if minor >= 4 then LeValues(x[20..], 8, 15) else seq(15, _ => 0))
  }

  /** `read_from` up to the end of the fixed region: a signature other than
      "LASF" (also a stream shorter than 4 bytes) is refused, the minor
      version decides how many bytes follow, and the rest of the stream is
      returned. */
  function Decode(s: seq<byte>): (r: Result<(Fixed, seq<byte>)>)
    ensures r.Ok? ==> WellFormed(r.value.0)
    ensures r == Err(BadSignature) <==> |s| < 4 || s[..4] != SIGNATURE
  {
    if |s| < 4 || s[..4] != SIGNATURE then Err(BadSignature)
    else if |s| < 26 || |s| < FixedLen(s[25]) then Err(Truncated)
    else
      var n := FixedLen(s[25]);
      var b := s[..n];
      assert b[..4] == s[..4] && b[25] == s[25];
      EncodeFixedAt(b);
      Ok((FixedAt(b), s[n..]))
  }

  /** What decodes is the encoding of the fields read, followed by the rest
      of the stream: nothing is skipped or invented. */
  lemma DecodeSplits(s: seq<byte>)
    requires Decode(s).Ok?
    ensures s == Encode(Decode(s).value.0) + Decode(s).value.1
  {
    var n := FixedLen(s[25]);
    var b := s[..n];
    assert b[..4] == s[..4] && b[25] == s[25] && s == b + s[n..];
    EncodeFixedAt(b);
  }

  lemma {:induction false} LeAllLeValues(b: seq<byte>, w: nat, n: nat)
    requires |b| == w * n
    ensures LeAll(LeValues(b, w, n), w) == b
  {
    if n > 0 {
      var xs := LeValues(b, w, n);
      assert |b| >= w by {
        assert w * n == w * (n - 1) + w;
      }
      assert |b[..|b| - w]| == w * (n - 1);
      LeAllLeValues(b[..|b| - w], w, n - 1);
      assert xs[..n - 1] == LeValues(b[..|b| - w], w, n - 1);
      LeOfValue(b[|b| - w..]);
      Joins2(b, |b| - w);
    }
  }

  lemma {:induction false} FlatDoubles(b: seq<byte>, n: nat)
    requires |b| == 8 * n
    ensures Flat(Doubles(b, n)) == b
  {
    if n > 0 {
      var ds := Doubles(b, n);
      FlatDoubles(b[..|b| - 8], n - 1);
      assert ds[..n - 1] == Doubles(b[..|b| - 8], n - 1);
      Joins2(b, |b| - 8);
    }
  }

  lemma {:induction false} InterleaveDeinterleave(b: seq<byte>, n: nat)
    requires |b| == 16 * n
    ensures Interleave(Deinterleave(b, n).0, Deinterleave(b, n).1) == b
  {
    if n > 0 {
      var p := Deinterleave(b, n);
      var q := Deinterleave(b[..|b| - 16], n - 1);
      InterleaveDeinterleave(b[..|b| - 16], n - 1);
      assert p.0[..n - 1] == q.0 && p.1[..n - 1] == q.1;
      assert p.0[n - 1] == b[|b| - 16..|b| - 8] && p.1[n - 1] == b[|b| - 8..];
      assert Interleave(p.0, p.1) == b[..|b| - 16] + b[|b| - 16..|b| - 8] + b[|b| - 8..];
      Joins3(b, |b| - 16, |b| - 8);
    }
  }

  lemma PreambleAt(f: Fixed)
    requires WellFormed(f)
    ensures var b := Preamble(f);
      && b[..4] == SIGNATURE && b[4..6] == Le(f.fileSourceId, 2) && b[6..8] == Le(f.globalEncoding, 2)
      && b[8..24] == f.uuid && b[24..25] == Le(f.major, 1) && b[25..26] == Le(f.minor, 1)
  {
    Parts6(SIGNATURE, Le(f.fileSourceId, 2), Le(f.globalEncoding, 2), f.uuid, Le(f.major, 1), Le(f.minor, 1));
  }

  lemma IdentityAt(f: Fixed)
    requires WellFormed(f)
    ensures var b := Identity(f);
      && b[..32] == f.systemIdentifier && b[32..64] == f.generatingSoftware
      && b[64..66] == Le(f.creationDayOfYear, 2) && b[66..68] == Le(f.creationYear, 2)
  {
    Parts4(f.systemIdentifier, f.generatingSoftware, Le(f.creationDayOfYear, 2), Le(f.creationYear, 2));
  }

  lemma PointersAt(f: Fixed)
    requires WellFormed(f)
    ensures var b := Pointers(f);
      && b[..2] == Le(f.headerSize, 2) && b[2..6] == Le(f.offsetToPointData, 4)
      && b[6..10] == Le(f.numberOfVlrs, 4) && b[10..11] == Le(f.pointFormatId, 1)
      && b[11..13] == Le(f.pointSize, 2)
  {
    Parts5(Le(f.headerSize, 2), Le(f.offsetToPointData, 4), Le(f.numberOfVlrs, 4),
      Le(f.pointFormatId, 1), Le(f.pointSize, 2));
  }

  lemma LegacyAt(f: Fixed)
    requires WellFormed(f)
    ensures var b := Legacy(f);
      b[..4] == Le(f.legacyPointCount, 4) && b[4..] == LeAll(f.legacyPointsByReturn, 4)
  {
    Parts2(Le(f.legacyPointCount, 4), LeAll(f.legacyPointsByReturn, 4));
  }

  lemma ExtentsAt(f: Fixed)
    requires WellFormed(f)
    ensures var b := Extents(f);
      && b[..24] == Flat(f.scales) && b[24..48] == Flat(f.offsets)
      && b[48..] == Interleave(f.maxs, f.mins)
  {
    DoublesFlat(f.scales, 3);
    DoublesFlat(f.offsets, 3);
    DeinterleaveInterleave(f.maxs, f.mins, 3);
    Parts3(Flat(f.scales), Flat(f.offsets), Interleave(f.maxs, f.mins));
  }

  lemma ExtendedAt(f: Fixed)
    requires WellFormed(f) && f.minor >= 4
    ensures var b := Extended(f);
      && b[..8] == Le(f.startOfFirstEvlr, 8) && b[8..12] == Le(f.numberOfEvlrs, 4)
      && b[12..20] == Le(f.pointCount, 8) && b[20..] == LeAll(f.pointsByReturn, 8)
  {
    Parts4(Le(f.startOfFirstEvlr, 8), Le(f.numberOfEvlrs, 4), Le(f.pointCount, 8), LeAll(f.pointsByReturn, 8));
  }

  /** The groups of an encoded region sit at their fixed offsets. */
  lemma GroupsAt(f: Fixed)
    requires WellFormed(f)
    ensures var b := Encode(f);
      && b[..26] == Preamble(f) && b[26..94] == Identity(f) && b[94..107] == Pointers(f)
      && b[107..131] == Legacy(f) && b[131..227] == Extents(f)
      && b[227..227 + |Waveform(f)|] == Waveform(f)
      && b[227 + |Waveform(f)|..] == Extended(f)
  {
    Parts7(Preamble(f), Identity(f), Pointers(f), Legacy(f), Extents(f), Waveform(f), Extended(f));
  }

  /** Reading an encoded region gives back every field. */
  lemma FixedAtEncode(f: Fixed)
    requires WellFormed(f)
    ensures FixedAt(Encode(f)) == f
  {
    GroupsAt(f);
    PreambleAt(f);
    IdentityAt(f);
    PointersAt(f);
    LegacyAt(f);
    ExtentsAt(f);
    LeValuesLeAll(f.legacyPointsByReturn, 4);
    DoublesFlat(f.scales, 3);
    DoublesFlat(f.offsets, 3);
    DeinterleaveInterleave(f.maxs, f.mins, 3);
    if f.minor >= 4 {
      ExtendedAt(f);
      LeValuesLeAll(f.pointsByReturn, 8);
    }
  }

  /** What is read from a region of the right length fits the widths it was
      read from. */
  lemma FixedAtWellFormed(b: seq<byte>)
    requires |b| >= 26 && |b| == FixedLen(b[25])
    ensures WellFormed(FixedAt(b))
  {
    var f := FixedAt(b);
    assert PreambleFits(f);
    assert IdentityFits(f);
    assert PointersFit(f);
    assert LegacyFits(f);
    assert ExtentsFit(f);
    assert TailFits(f);
  }

  lemma PreambleOfFixedAt(b: seq<byte>)
    requires |b| >= 26 && |b| == FixedLen(b[25]) && b[..4] == SIGNATURE
    ensures WellFormed(FixedAt(b)) && Preamble(FixedAt(b)) == b[..26]
  {
    FixedAtWellFormed(b);
    var p := b[..26];
    LeOfValue(p[4..6]);
    LeOfValue(p[6..8]);
    LeOfValue(p[24..25]);
    LeOfValue(p[25..26]);
    Joins6(p, 4, 6, 8, 24, 25);
  }

  lemma IdentityOfFixedAt(b: seq<byte>)
    requires |b| >= 26 && |b| == FixedLen(b[25])
    ensures WellFormed(FixedAt(b)) && Identity(FixedAt(b)) == b[26..94]
  {
    FixedAtWellFormed(b);
    var id := b[26..94];
    LeOfValue(id[64..66]);
    LeOfValue(id[66..68]);
    Joins4(id, 32, 64, 66);
  }

  lemma PointersOfFixedAt(b: seq<byte>)
    requires |b| >= 26 && |b| == FixedLen(b[25])
    ensures WellFormed(FixedAt(b)) && Pointers(FixedAt(b)) == b[94..107]
  {
    FixedAtWellFormed(b);
    var pt := b[94..107];
    LeOfValue(pt[..2]);
    LeOfValue(pt[2..6]);
    LeOfValue(pt[6..10]);
    LeOfValue(pt[10..11]);
    LeOfValue(pt[11..13]);
    Joins5(pt, 2, 6, 10, 11);
  }

  lemma LegacyOfFixedAt(b: seq<byte>)
    requires |b| >= 26 && |b| == FixedLen(b[25])
    ensures WellFormed(FixedAt(b)) && Legacy(FixedAt(b)) == b[107..131]
  {
    FixedAtWellFormed(b);
    var lg := b[107..131];
    LeOfValue(lg[..4]);
    LeAllLeValues(lg[4..], 4, 5);
    Joins2(lg, 4);
  }

  lemma ExtentsOfFixedAt(b: seq<byte>)
    requires |b| >= 26 && |b| == FixedLen(b[25])
    ensures WellFormed(FixedAt(b)) && Extents(FixedAt(b)) == b[131..227]
  {
    FixedAtWellFormed(b);
    var ex := b[131..227];
    FlatDoubles(ex[..24], 3);
    FlatDoubles(ex[24..48], 3);
    InterleaveDeinterleave(ex[48..], 3);
    Joins3(ex, 24, 48);
  }

  lemma WaveformOfFixedAt(b: seq<byte>)
    requires |b| >= 26 && |b| == FixedLen(b[25])
    ensures var w := if b[25] >= 3 then 8 else 0;
      WellFormed(FixedAt(b)) && Waveform(FixedAt(b)) == b[227..227 + w]
  {
    FixedAtWellFormed(b);
    if b[25] >= 3 {
      LeOfValue(b[227..235]);
    }
  }

  lemma ExtendedOfFixedAt(b: seq<byte>)
    requires |b| >= 26 && |b| == FixedLen(b[25])
    ensures var w := if b[25] >= 3 then 8 else 0;
      WellFormed(FixedAt(b)) && Extended(FixedAt(b)) == b[227 + w..]
  {
    FixedAtWellFormed(b);
    if b[25] >= 4 {
      ExtendedOf(FixedAt(b), b[235..]);
    }
  }

  /** The LAS 1.4 fields read from x are written back as x. */
  lemma ExtendedOf(f: Fixed, x: seq<byte>)
    requires WellFormed(f) && f.minor >= 4 && |x| == 140
    requires f.startOfFirstEvlr == LeValue(x[..8]) && f.numberOfEvlrs == LeValue(x[8..12])
    requires f.pointCount == LeValue(x[12..20]) && f.pointsByReturn == LeValues(x[20..], 8, 15)
    ensures Extended(f) == x
  {
    LeOfValue(x[..8]);
    LeOfValue(x[8..12]);
    LeOfValue(x[12..20]);
    LeAllLeValues(x[20..], 8, 15);
    Joins4(x, 8, 12, 20);
  }

  /** Every fixed region with the right signature is the encoding of what is
      read from it. */
  lemma EncodeFixedAt(b: seq<byte>)
    requires |b| >= 26 && |b| == FixedLen(b[25]) && b[..4] == SIGNATURE
    ensures WellFormed(FixedAt(b)) && Encode(FixedAt(b)) == b
  {
    var w := if b[25] >= 3 then 8 else 0;
    PreambleOfFixedAt(b);
    IdentityOfFixedAt(b);
    PointersOfFixedAt(b);
    LegacyOfFixedAt(b);
    ExtentsOfFixedAt(b);
    WaveformOfFixedAt(b);
    ExtendedOfFixedAt(b);
    Joins7(b, 26, 94, 107, 131, 227, 227 + w);
  }

  /** Reading back what was written gives the fields and leaves what follows. */
  lemma DecodeEncode(f: Fixed, rest: seq<byte>)
    requires WellFormed(f)
    ensures Decode(Encode(f) + rest) == Ok((f, rest))
  {
    var s := Encode(f) + rest;
    var n := |Encode(f)|;
    assert s[..4] == SIGNATURE && s[25] == f.minor;
    assert s[..n] == Encode(f) && s[n..] == rest;
    FixedAtEncode(f);
  }

  /** `LAS_HEADERS_SIZE[str(version)]`; a version missing from the table is
      the KeyError path. */
  function HeadersSize(v: Version): Result<nat> {
    var key := ToStr(v);
    if key in LAS_HEADERS_SIZE then Ok(LAS_HEADERS_SIZE[key]) else Err(UnknownVersion)
  }

  /** The table knows exactly the versions 1.1 to 1.4, and for each gives the
      length of the fixed region that version writes. */
  lemma HeadersSizeMatchesLayout(v: Version)
    ensures HeadersSize(v).Ok? <==> v.major == 1 && 1 <= v.minor <= 4
    ensures HeadersSize(v).Ok? ==> HeadersSize(v).value == FixedLen(v.minor)
  {
    assert ToStr(Version(1, 1)) == "1.1";
    assert ToStr(Version(1, 2)) == "1.2";
    assert ToStr(Version(1, 3)) == "1.3";
    assert ToStr(Version(1, 4)) == "1.4";
    var key := ToStr(v);
    if key == "1.1" {
      ToStrInjective(v, Version(1, 1));
    } else if key == "1.2" {
      ToStrInjective(v, Version(1, 2));
    } else if key == "1.3" {
      ToStrInjective(v, Version(1, 3));
    } else if key == "1.4" {
      ToStrInjective(v, Version(1, 4));
    }
  }

  /** `str.encode("ascii")`; a character outside ASCII is the
      UnicodeEncodeError path. */
  function AsciiBytes(s: string): (r: Result<seq<byte>>)
    ensures r.Ok? <==> forall i :: 0 <= i < |s| ==> s[i] as int < 128
    ensures r.Ok? ==> |r.value| == |s| && forall i :: 0 <= i < |s| ==> r.value[i] == s[i] as int
  {
    if forall i :: 0 <= i < |s| ==> s[i] as int < 128 then Ok(seq(|s|, i requires 0 <= i < |s| => s[i] as int))
    else Err(NotAscii)
  }

  /** The 32 bytes written for the system identifier or the generating
      software: the ASCII bytes cut to 32, or NUL-padded to 32. */
  function Identifier(s: string): (r: Result<seq<byte>>)
    ensures r.Ok? <==> AsciiBytes(s).Ok?
    ensures r.Ok? ==> |r.value| == 32
    ensures r.Ok? && |s| > 32 ==> r.value == AsciiBytes(s).value[..32]
    ensures r.Ok? && |s| <= 32 ==>
      r.value[..|s|] == AsciiBytes(s).value && forall i :: |s| <= i < 32 ==> r.value[i] == 0
  {
    var b :- AsciiBytes(s);
    if |b| > 32 then Ok(b[..32]) else Ok(b + Zeros(32 - |b|))
  }

  /** `bytes.rstrip(b"\0")`: the trailing NUL bytes removed. */
  function RStripNul(b: seq<byte>): (r: seq<byte>)
    ensures |r| <= |b| && r == b[..|r|]
    ensures r == [] || r[|r| - 1] != 0
    ensures forall i :: |r| <= i < |b| ==> b[i] == 0
  {
    if b != [] && b[|b| - 1] == 0 then RStripNul(b[..|b| - 1]) else b
  }

  /** `bytes.decode()` restricted to ASCII: any byte above 127 is refused. */
  function DecodeAscii(b: seq<byte>): (r: Result<string>)
    ensures r.Ok? <==> forall i :: 0 <= i < |b| ==> b[i] < 128
    ensures r.Ok? ==> |r.value| == |b| && forall i :: 0 <= i < |b| ==> r.value[i] as int == b[i]
  {
    if forall i :: 0 <= i < |b| ==> b[i] < 128 then Ok(seq(|b|, i requires 0 <= i < |b| => b[i] as char))
    else Err(NotDecodable)
  }

  /** The identifier read back from its 32 stored bytes. */
  function ReadIdentifier(b: seq<byte>): Result<string> {
    DecodeAscii(RStripNul(b))
  }

  /** An ASCII identifier of at most 32 characters that does not end in NUL
      is read back unchanged. */
  lemma IdentifierRoundTrip(s: string)
    requires AsciiBytes(s).Ok? && |s| <= 32 && (s == [] || s[|s| - 1] != 0 as char)
    ensures ReadIdentifier(Identifier(s).value) == Ok(s)
  {
    var b := Identifier(s).value;
    var r := RStripNul(b);
    assert r == AsciiBytes(s).value;
    assert DecodeAscii(r).value == s;
  }

  /** A longer identifier is cut: what is read back is a prefix of its first
      32 characters, and all of them when the 32nd is not NUL. */
  lemma IdentifierTruncates(s: string)
    requires AsciiBytes(s).Ok? && |s| > 32
    ensures var r := ReadIdentifier(Identifier(s).value);
      && r.Ok? && |r.value| <= 32 && r.value == s[..|r.value|]
      && (s[31] != 0 as char ==> r.value == s[..32])
  {
    var b := Identifier(s).value;
    var r := RStripNul(b);
    assert DecodeAscii(r).Ok?;
    var t := DecodeAscii(r).value;
    assert forall i :: 0 <= i < |t| ==> t[i] == s[i];
    if s[31] != 0 as char {
      assert b[31] != 0;
    }
  }

  /** `write_to` up to the VLRs: every field written in file order, the
      return counts, scales, offsets and extrema by their `for` loops. */
  method Emit(f: Fixed) returns (out: seq<byte>)
    requires WellFormed(f)
    ensures out == Encode(f)
  {
    out := EmitPreamble(f);
    out := EmitIdentity(out, f);
    out := EmitPointers(out, f);
    out := EmitLegacy(out, f);
    out := EmitExtents(out, f);
    out := EmitTail(out, f);
  }

  method EmitPreamble(f: Fixed) returns (out: seq<byte>)
    requires WellFormed(f)
    ensures out == Preamble(f)
  {
    out := SIGNATURE;
    out := out + Le(f.fileSourceId, 2);
    out := out + Le(f.globalEncoding, 2);
    out := out + f.uuid;
    out := out + Le(f.major, 1);
    out := out + Le(f.minor, 1);
  }

  method EmitIdentity(prefix: seq<byte>, f: Fixed) returns (out: seq<byte>)
    requires WellFormed(f)
    ensures out == prefix + Identity(f)
  {
    out := prefix + f.systemIdentifier;
    out := out + f.generatingSoftware;
    out := out + Le(f.creationDayOfYear, 2);
    out := out + Le(f.creationYear, 2);
  }

  method EmitPointers(prefix: seq<byte>, f: Fixed) returns (out: seq<byte>)
    requires WellFormed(f)
    ensures out == prefix + Pointers(f)
  {
    out := prefix + Le(f.headerSize, 2);
    out := out + Le(f.offsetToPointData, 4);
    out := out + Le(f.numberOfVlrs, 4);
    out := out + Le(f.pointFormatId, 1);
    out := out + Le(f.pointSize, 2);
  }

  method EmitLegacy(prefix: seq<byte>, f: Fixed) returns (out: seq<byte>)
    requires WellFormed(f)
    ensures out == prefix + Legacy(f)
  {
    out := prefix + Le(f.legacyPointCount, 4);
    out := EmitCounts(out, f.legacyPointsByReturn, 4);
  }

  method EmitTail(prefix: seq<byte>, f: Fixed) returns (out: seq<byte>)
    requires WellFormed(f)
    ensures out == prefix + Waveform(f) + Extended(f)
  {
    out := prefix;
    if f.minor >= 3 {
      out := out + Le(f.startOfWaveformDataPacketRecord, 8);
    }
    if f.minor >= 4 {
      out := out + Le(f.startOfFirstEvlr, 8);
      out := out + Le(f.numberOfEvlrs, 4);
      out := out + Le(f.pointCount, 8);
      out := EmitCounts(out, f.pointsByReturn, 8);
    }
  }

  method EmitExtents(prefix: seq<byte>, f: Fixed) returns (out: seq<byte>)
    requires WellFormed(f)
    ensures out == prefix + Extents(f)
  {
    out := EmitDoubles(prefix, f.scales);
    out := EmitDoubles(out, f.offsets);
    ghost var before := out;
    for i := 0 to 3
      invariant out == before + Interleave(f.maxs[..i], f.mins[..i])
    {
      assert f.maxs[..i + 1][..i] == f.maxs[..i] && f.mins[..i + 1][..i] == f.mins[..i];
      out := out + f.maxs[i];
      out := out + f.mins[i];
    }
    assert f.maxs[..3] == f.maxs && f.mins[..3] == f.mins;
  }

  /** One `for` loop writing counts of w bytes each. */
  method EmitCounts(prefix: seq<byte>, xs: seq<nat>, w: nat) returns (out: seq<byte>)
    requires AllFit(xs, w)
    ensures out == prefix + LeAll(xs, w)
  {
    out := prefix;
    for i := 0 to |xs|
      invariant out == prefix + LeAll(xs[..i], w)
    {
      assert xs[..i + 1][..i] == xs[..i];
      out := out + Le(xs[i], w);
    }
    assert xs[..|xs|] == xs;
  }

  /** One `for` loop writing doubles with `struct.pack("<d", ...)`. */
  method EmitDoubles(prefix: seq<byte>, ds: seq<Double>) returns (out: seq<byte>)
    ensures out == prefix + Flat(ds)
  {
    out := prefix;
    for i := 0 to |ds|
      invariant out == prefix + Flat(ds[..i])
    {
      assert ds[..i + 1][..i] == ds[..i];
      out := out + ds[i];
    }
    assert ds[..|ds|] == ds;
  }
}

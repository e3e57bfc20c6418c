/** `LasHeader`, the object whose methods update the header in place. Each
    method is proved against the function of module HeaderState that says
    what it does to the header's value, `Snapshot()`. */
module Header {

  import opened Wrappers
  import opened Bytes
  import opened Versions
  import opened GlobalEncodings
  import opened Formats
  import opened Layout
  import opened Histogram
  import opened Calendar
  import opened HeaderState

  class LasHeader {
    var fileSourceId: nat
    var globalEncoding: GlobalEncoding
    var uuid: seq<byte>
    var version: Version
    var systemIdentifier: string
    var generatingSoftware: string
    var creationDate: Option<Date>
    var pointFormat: PointFormat
    var pointCount: nat
    var scales: array<Double>
    var offsets: array<Double>
    var maxs: array<Double>
    var mins: array<Double>
    var numberOfPointsByReturn: array<u32>
    var vlrs: seq<Vlr>
    var extraHeaderBytes: seq<byte>
    var extraVlrBytes: seq<byte>
    var startOfWaveformDataPacketRecord: nat
    var startOfFirstEvlr: nat
    var numberOfEvlrs: nat
    var offsetToPointData: nat
    var arePointsCompressed: bool

    /** The header and the objects it owns. */
    ghost function Repr(): set<object>
      reads this
    {
      {this, globalEncoding, scales, offsets, maxs, mins, numberOfPointsByReturn}
    }

    /** The arrays have their sizes and are not shared with each other. */
    ghost predicate Valid()
      reads this`scales, this`offsets, this`maxs, this`mins, this`numberOfPointsByReturn
      reads this`uuid, this`creationDate
    {
      && scales.Length == 3 && offsets.Length == 3 && maxs.Length == 3 && mins.Length == 3
      && numberOfPointsByReturn.Length == SLOTS
      && scales != offsets && scales != maxs && scales != mins
      && offsets != maxs && offsets != mins && maxs != mins
      && |uuid| == 16
      && (creationDate.Some? ==> Calendar.Valid(creationDate.value))
    }

    /** The header's value: every field, the arrays by their contents. */
    function Snapshot(): State
      reads this, Repr()
    {
      State(
        fileSourceId, globalEncoding.value, uuid, version, systemIdentifier, generatingSoftware,
        creationDate, pointFormat, pointCount, scales[..], offsets[..], maxs[..], mins[..],
        numberOfPointsByReturn[..], vlrs, extraHeaderBytes, extraVlrBytes,
        startOfWaveformDataPacketRecord, startOfFirstEvlr, numberOfEvlrs, offsetToPointData,
        arePointsCompressed)
    }

    /** `__init__` once the version and point format are settled and checked:
        every field set to its default, before the Extra-Bytes VLR is
        synchronised. */
    constructor Init(v: Version, pf: PointFormat, today: Date)
      requires Calendar.Valid(today)
      ensures Valid()
      ensures fresh(Repr())
      ensures Snapshot() == Defaults(v, pf, today)
    {
      fileSourceId := 0;
      globalEncoding := new GlobalEncoding(0);
      uuid := Zeros(16);
      version := v;
      systemIdentifier := "OTHER";
      generatingSoftware := "laspy";
      pointFormat := pf;
      creationDate := Some(today);
      pointCount := 0;
      scales := new Double[3](_ => DEFAULT_SCALE);
      offsets := new Double[3](_ => ZERO_DOUBLE);
      maxs := new Double[3](_ => ZERO_DOUBLE);
      mins := new Double[3](_ => ZERO_DOUBLE);
      numberOfPointsByReturn := new u32[SLOTS](_ => 0);
      vlrs := [];
      extraHeaderBytes := [];
      extraVlrBytes := [];
      startOfWaveformDataPacketRecord := 0;
      startOfFirstEvlr := 0;
      numberOfEvlrs := 0;
      offsetToPointData := 0;
      arePointsCompressed := false;
      new;
      assert scales[..] == seq(3, _ => DEFAULT_SCALE);
      assert offsets[..] == seq(3, _ => ZERO_DOUBLE) && maxs[..] == seq(3, _ => ZERO_DOUBLE);
      assert mins[..] == seq(3, _ => ZERO_DOUBLE);
      assert numberOfPointsByReturn[..] == seq(SLOTS, _ => 0);
      assert Snapshot() == Defaults(v, pf, today);
    }

    /** `LasHeader(version=..., point_format=...)`: the arguments settled and
        checked, then a header with the defaults built and its Extra-Bytes
        VLR synchronised; the exception of either step is raised instead. */
    static method Create(e: Env, version: Option<Other>, pointFormat: Option<FormatArg>, today: Date)
      returns (r: Result<LasHeader>)
      requires Calendar.Valid(today)
      ensures r.Err? <==> Constructed(e, version, pointFormat, today).Err?
      ensures r.Err? ==> r.error == Constructed(e, version, pointFormat, today).error
      ensures r.Ok? ==>
        fresh(r.value.Repr()) && r.value.Valid() && r.value.Snapshot() == Constructed(e, version, pointFormat, today).value
    {
      var pair := Resolve(e, version, pointFormat);
      if pair.Err? {
        return Err(pair.error);
      }
      var header := new LasHeader.Init(pair.value.0, pair.value.1, today);
      var synced := header.SyncExtraBytesVlr(e);
      if synced.Fail? {
        return Err(synced.error);
      }
      return Ok(header);
    }

    /** `_sync_extra_bytes_vlr`: the Extra-Bytes VLRs removed, and a new one
        with a sub-record per extra dimension appended when there are any;
        or the IndexError of a dimension that does not fit its slots, raised
        after the removal. */
    method SyncExtraBytesVlr(e: Env) returns (r: Outcome)
      requires Valid()
      modifies this
      ensures Valid() && Repr() == old(Repr())
      ensures r == Sync(e, old(Snapshot())).outcome && Snapshot() == Sync(e, old(Snapshot())).state
    {
      vlrs := RemoveExtraBytes(vlrs);
      var dims := pointFormat.extraDims;
      if dims == [] {
        return Pass;
      }
      var structs := BuildEbStructs(e, dims);
      if structs.Err? {
        return Fail(structs.error);
      }
      vlrs := vlrs + [ExtraBytesVlr(structs.value)];
      return Pass;
    }

    /** The `point_format` setter. */
    method SetPointFormat(e: Env, pf: PointFormat) returns (r: Outcome)
      requires Valid()
      modifies this
      ensures Valid() && Repr() == old(Repr())
      ensures r == WithPointFormat(e, old(Snapshot()), pf).outcome
      ensures Snapshot() == WithPointFormat(e, old(Snapshot()), pf).state
    {
      if !e.compatible(pf.id, ToStr(version)) {
        return Fail(Incompatible(pf.id, ToStr(version)));
      }
      pointFormat := pf;
      r := SyncExtraBytesVlr(e);
    }

    /** The `version` setter. */
    method SetVersion(e: Env, v: Version) returns (r: Outcome)
      requires Valid()
      modifies this
      ensures Valid() && Repr() == old(Repr())
      ensures r.Fail? <==> WithVersion(e, old(Snapshot()), v).Err?
      ensures r.Fail? ==> r.error == WithVersion(e, old(Snapshot()), v).error && Snapshot() == old(Snapshot())
      ensures r.Pass? ==> Snapshot() == WithVersion(e, old(Snapshot()), v).value
    {
      if !e.compatible(pointFormat.id, ToStr(v)) {
        return Fail(Incompatible(pointFormat.id, ToStr(v)));
      }
      version := v;
      return Pass;
    }

    /** `set_version_and_point_format`. */
    method SetVersionAndPointFormat(e: Env, v: Version, pf: PointFormat) returns (r: Outcome)
      requires Valid()
      modifies this
      ensures Valid() && Repr() == old(Repr())
      ensures r == WithVersionAndPointFormat(e, old(Snapshot()), v, pf).outcome
      ensures Snapshot() == WithVersionAndPointFormat(e, old(Snapshot()), v, pf).state
    {
      if !e.compatible(pf.id, ToStr(v)) {
        return Fail(Incompatible(pf.id, ToStr(v)));
      }
      version := v;
      r := SetPointFormat(e, pf);
    }

    /** `add_extra_dims`: each dimension appended to the point format, then
        the Extra-Bytes VLR synchronised. The format is extended as a value
        and stored once, which no caller can tell from extending it in
        place. */
    method AddExtraDims(e: Env, dims: seq<ExtraDim>) returns (r: Outcome)
      requires Valid()
      modifies this
      ensures Valid() && Repr() == old(Repr())
      ensures r == WithExtraDims(e, old(Snapshot()), dims).outcome
      ensures Snapshot() == WithExtraDims(e, old(Snapshot()), dims).state
    {
      var pf := pointFormat;
      for i := 0 to |dims|
        invariant pf == old(pointFormat).(extraDims := old(pointFormat).extraDims + dims[..i])
      {
        assert dims[..i + 1] == dims[..i] + [dims[i]];
        pf := AddExtraDimension(pf, dims[i]);
      }
      assert dims[..|dims|] == dims;
      pointFormat := pf;
      r := SyncExtraBytesVlr(e);
    }

    /** `add_extra_dim`. */
    method AddExtraDim(e: Env, dim: ExtraDim) returns (r: Outcome)
      requires Valid()
      modifies this
      ensures Valid() && Repr() == old(Repr())
      ensures r == WithExtraDims(e, old(Snapshot()), [dim]).outcome
      ensures Snapshot() == WithExtraDims(e, old(Snapshot()), [dim]).state
    {
      r := AddExtraDims(e, [dim]);
    }

    /** `partial_reset`: fresh zeroed arrays for the extrema and the return
        counts, a new creation date, and no points or EVLRs. */
    method PartialReset(today: Date)
      requires Valid() && Calendar.Valid(today)
      modifies this
      ensures Valid() && fresh(maxs) && fresh(mins) && fresh(numberOfPointsByReturn)
      ensures Snapshot() == Reset(old(Snapshot()), today)
    {
      creationDate := Some(today);
      pointCount := 0;
      ResetArrays();
      startOfFirstEvlr := 0;
      numberOfEvlrs := 0;
    }

    /** The array part of `partial_reset`: new zeroed extrema and return
        counts. */
    method ResetArrays()
      requires Valid()
      modifies this
      ensures Valid() && fresh(maxs) && fresh(mins) && fresh(numberOfPointsByReturn)
      ensures Snapshot() == old(Snapshot()).(maxs := seq(3, _ => ZERO_DOUBLE), mins := seq(3, _ => ZERO_DOUBLE),
        numberOfPointsByReturn := seq(SLOTS, _ => 0))
    {
      var newMaxs := Zeroed(3);
      var newMins := Zeroed(3);
      var counts := ZeroCounts();
      maxs := newMaxs;
      mins := newMins;
      numberOfPointsByReturn := counts;
    }

    /** `update`: the extrema stretched to the batch through the axis
        setters, the return counts tallied, the point count grown. */
    method Update(e: Env, points: seq<Point>) returns (r: Outcome)
      requires Valid()
      modifies this, maxs, mins, numberOfPointsByReturn
      ensures Valid() && Repr() == old(Repr())
      ensures r.Fail? <==> Updated(e, old(Snapshot()), points).Err?
      ensures r.Fail? ==> r.error == EmptyBatch && Snapshot() == old(Snapshot())
      ensures r.Pass? ==> Snapshot() == Updated(e, old(Snapshot()), points).value
    {
      if points == [] {
        return Fail(EmptyBatch);
      }
      ghost var before := Snapshot();
      var xs, ys, zs := Xs(points), Ys(points), Zs(points);
      StretchExtrema(e, [SeqMax(xs), SeqMax(ys), SeqMax(zs)], [SeqMin(xs), SeqMin(ys), SeqMin(zs)]);
      TallyReturns(ReturnNumbers(points));
      assert Snapshot() == before.(
        maxs := Stretched(e, before.maxs, before.scales, before.offsets, [SeqMax(xs), SeqMax(ys), SeqMax(zs)], true),
        mins := Stretched(e, before.mins, before.scales, before.offsets, [SeqMin(xs), SeqMin(ys), SeqMin(zs)], false),
        numberOfPointsByReturn := Tallied(before.numberOfPointsByReturn, ReturnNumbers(points)));
      GrowPointCount(|points|);
      assert Snapshot() == Updated(e, before, points).value;
      return Pass;
    }

    /** The point-count increment of `update`. */
    method GrowPointCount(n: nat)
      requires Valid()
      modifies this
      ensures Valid() && Repr() == old(Repr())
      ensures Snapshot() == old(Snapshot()).(pointCount := old(pointCount) + n)
    {
      pointCount := pointCount + n;
    }

    /** The axis setters of `update`: each maximum and minimum replaced by
        the scaled extreme coordinate when that compares further out. */
    method StretchExtrema(e: Env, highest: seq<int>, lowest: seq<int>)
      requires |highest| == 3 && |lowest| == 3
      requires scales.Length == 3 && offsets.Length == 3 && maxs.Length == 3 && mins.Length == 3
      requires maxs != mins && maxs != scales && maxs != offsets && mins != scales && mins != offsets
      modifies maxs, mins
      ensures maxs[..] == Stretched(e, old(maxs[..]), scales[..], offsets[..], highest, true)
      ensures mins[..] == Stretched(e, old(mins[..]), scales[..], offsets[..], lowest, false)
    {
      maxs[0] := PyMax(e, maxs[0], e.scaled(highest[0], scales[0], offsets[0]));
      maxs[1] := PyMax(e, maxs[1], e.scaled(highest[1], scales[1], offsets[1]));
      maxs[2] := PyMax(e, maxs[2], e.scaled(highest[2], scales[2], offsets[2]));
      mins[0] := PyMin(e, mins[0], e.scaled(lowest[0], scales[0], offsets[0]));
      mins[1] := PyMin(e, mins[1], e.scaled(lowest[1], scales[1], offsets[1]));
      mins[2] := PyMin(e, mins[2], e.scaled(lowest[2], scales[2], offsets[2]));
    }

    /** The return-count loop of `update` over `np.unique(return_number,
        return_counts=True)`: return number 0 is skipped, and the loop stops
        at the first return number past the last slot, the values coming in
        ascending order. */
    method TallyReturns(rs: seq<nat>)
      requires numberOfPointsByReturn.Length == SLOTS
      modifies numberOfPointsByReturn
      ensures numberOfPointsByReturn[..] == Tallied(old(numberOfPointsByReturn[..]), rs)
    {
      ghost var h := numberOfPointsByReturn[..];
      var counts := Unique(rs);
      TalliedPairsNone(h);
      for i := 0 to |counts|
        invariant numberOfPointsByReturn[..] == TalliedPairs(h, counts[..i])
      {
        var (returnNumber, count) := counts[i];
        assert counts[..i + 1] == counts[..i] + [counts[i]];
        if returnNumber == 0 {
          TalliedPairsSkip(h, counts[..i], counts[i]);
          continue;
        }
        if returnNumber > SLOTS {
          TalliedPairsStop(h, counts, i);
          break;
        }
        TalliedPairsSnoc(h, counts[..i], counts[i]);
        numberOfPointsByReturn[returnNumber - 1] := ((numberOfPointsByReturn[returnNumber - 1] + count) % U32) as u32;
      }
      assert counts[..|counts|] == counts;
      TalliedPairsUnique(h, rs);
    }

    /** `write_to`: the fixed region written field by field, then the VLRs
        when `writeVlrs`. On the way the creation date is filled in when
        missing and, with `writeVlrs`, the offset to point data set; both
        stay even when a later field does not fit. */
    method WriteTo(e: Env, writeVlrs: bool, today: Date) returns (r: Result<seq<byte>>)
      requires Valid() && Calendar.Valid(today)
      modifies this
      ensures Valid() && Repr() == old(Repr())
      ensures r == Written(e, old(Snapshot()), writeVlrs, today)
      ensures Snapshot() == AfterWrite(e, old(Snapshot()), writeVlrs, today)
    {
      ghost var st := Snapshot();
      WrittenStages(e, st, writeVlrs, today);
      var vlrBytes := if writeVlrs then e.vlrBytes(vlrs) else [];
      if !(Fits(fileSourceId, 2) && Fits(version.major, 1) && Fits(version.minor, 1)) {
        return Err(FieldOverflow);
      }
      var sid := Identifier(systemIdentifier);
      if sid.Err? {
        return Err(sid.error);
      }
      var gs := Identifier(generatingSoftware);
      if gs.Err? {
        return Err(gs.error);
      }
      r := WriteDated(e, writeVlrs, today, sid.value, gs.value, vlrBytes);
    }

    /** `write_to` once the identifiers are encoded: the creation date filled
        in, the header size looked up, the offset set with `writeVlrs`, and
        the rest written. */
    method WriteDated(e: Env, writeVlrs: bool, today: Date, sid: seq<byte>, gs: seq<byte>, vlrBytes: seq<byte>)
      returns (r: Result<seq<byte>>)
      requires Valid() && Calendar.Valid(today) && PassesIdentity(Snapshot())
      requires sid == Identifier(systemIdentifier).value && gs == Identifier(generatingSoftware).value
      requires vlrBytes == VlrBytesOnWrite(e, Snapshot(), writeVlrs)
      modifies this
      ensures Valid() && Repr() == old(Repr())
      ensures r == Written(e, old(Snapshot()), writeVlrs, today)
      ensures Snapshot() == AfterWrite(e, old(Snapshot()), writeVlrs, today)
    {
      ghost var st := Snapshot();
      WrittenStages(e, st, writeVlrs, today);
      FillCreationDate(today);
      var headerSize := HeadersSize(version);
      if headerSize.Err? {
        return Err(headerSize.error);
      }
      if writeVlrs {
        SetOffsetToPointData(headerSize.value + |vlrBytes|);
      }
      ghost var settled := Snapshot();
      AfterWriteSettles(e, st, writeVlrs, today);
      assert settled == st.(creationDate := Some(DateOnWrite(st, today)),
        offsetToPointData := OffsetOnWrite(e, st, writeVlrs, headerSize.value));
      WrittenFromSettled(e, st, sid, gs, DateOnWrite(st, today), headerSize.value,
        OffsetOnWrite(e, st, writeVlrs, headerSize.value), vlrBytes, settled.creationDate, settled.offsetToPointData);
      r := WriteFixed(e, settled, sid, gs, headerSize.value, vlrBytes);
    }

    /** The offset to point data `write_to` sets when it writes the VLRs. */
    method SetOffsetToPointData(offset: nat)
      requires Valid()
      modifies this
      ensures Valid() && Repr() == old(Repr())
      ensures Snapshot() == old(Snapshot()).(offsetToPointData := offset)
    {
      offsetToPointData := offset;
    }

    /** The creation date `write_to` fills in when there is none. */
    method FillCreationDate(today: Date)
      requires Valid() && Calendar.Valid(today)
      modifies this
      ensures Valid() && Repr() == old(Repr())
      ensures Snapshot() == old(Snapshot()).(creationDate := Some(DateOnWrite(old(Snapshot()), today)))
    {
      if creationDate.None? {
        creationDate := Some(today);
      }
    }

    /** The rest of `write_to`: the count and tail fields checked in the order
        they are written, then the fixed region and the VLR bytes. */
    method WriteFixed(e: Env, ghost st: State, sid: seq<byte>, gs: seq<byte>, headerSize: nat, vlrBytes: seq<byte>)
      returns (r: Result<seq<byte>>)
      requires Valid() && st == Snapshot() && st.creationDate.Some?
      requires Fits(st.fileSourceId, 2) && Fits(st.version.major, 1) && Fits(st.version.minor, 1)
      requires |sid| == 32 && |gs| == 32 && headerSize <= 375
      ensures r == WrittenFrom(e, st, sid, gs, st.creationDate.value, headerSize, st.offsetToPointData, vlrBytes)
    {
      var date := creationDate.value;
      var offset := offsetToPointData;
      var formatId := pointFormat.id;
      if arePointsCompressed {
        formatId := e.uncompressedToCompressed(formatId);
      }
      if !(Fits(offset, 4) && Fits(|vlrs|, 4) && Fits(formatId, 1) && Fits(Size(e, pointFormat), 2)) {
        return Err(FieldOverflow);
      }
      var minor := version.minor;
      if minor < 4 && pointCount > U32_MAX {
        return Err(PointCountOverflow);
      }
      if (minor >= 3 && !Fits(startOfWaveformDataPacketRecord, 8))
        || (minor >= 4 && !(Fits(startOfFirstEvlr, 8) && Fits(numberOfEvlrs, 4) && Fits(pointCount, 8)))
      {
        return Err(FieldOverflow);
      }
      var f := Fixed(
        fileSourceId, globalEncoding.value, uuid, version.major, minor,
        sid, gs, date.dayOfYear, date.year,
        headerSize, offset, |vlrs|, formatId, Size(e, pointFormat),
        if minor >= 4 then 0 else pointCount,
        if minor >= 4 then seq(5, _ => 0) else numberOfPointsByReturn[..5],
        scales[..], offsets[..], maxs[..], mins[..],
        if minor >= 3 then startOfWaveformDataPacketRecord else 0,
        if minor >= 4 then startOfFirstEvlr else 0,
        if minor >= 4 then numberOfEvlrs else 0,
        if minor >= 4 then pointCount else 0,
        if minor >= 4 then numberOfPointsByReturn[..] else seq(15, _ => 0));
      assert f == FixedOf(e, st, sid, gs, date, headerSize, offset);
      FixedOfWellFormed(e, st, sid, gs, date, headerSize, offset);
      var fixedBytes := Emit(f);
      return Ok(fixedBytes + vlrBytes);
    }

    /** `read_from`: a default header, whose construction must pass the
        compatibility check, filled in from the fixed region and then from
        what follows it, or the exception raised on the way. The stream is
        `s`, positioned at the header. */
    static method ReadFrom(e: Env, s: seq<byte>, seekable: bool, today: Date) returns (r: Result<LasHeader>)
      requires Calendar.Valid(today)
      ensures r.Err? <==> Parsed(e, s, seekable).Err?
      ensures r.Err? ==> r.error == Parsed(e, s, seekable).error
      ensures r.Ok? ==> fresh(r.value) && fresh(r.value.globalEncoding)
      ensures r.Ok? ==> fresh(r.value.scales) && fresh(r.value.offsets) && fresh(r.value.maxs) && fresh(r.value.mins)
      ensures r.Ok? ==> fresh(r.value.numberOfPointsByReturn)
      ensures r.Ok? ==> r.value.Valid() && r.value.Snapshot() == Parsed(e, s, seekable).value
    {
      ParsedLoads(e, s, seekable);
      var created := Create(e, None, None, today);
      if created.Err? {
        return Err(created.error);
      }
      var header := created.value;
      DefaultIsBlank(e, today);
      LoadedFails(e, s, seekable);
      var decoded := Layout.Decode(s);
      if decoded.Err? {
        return Err(decoded.error);
      }
      var loaded := header.ReadInto(e, s, decoded.value.0, decoded.value.1, seekable);
      if loaded.Fail? {
        return Err(loaded.error);
      }
      return Ok(header);
    }

    /** `read_from` once its default header exists and the fixed region `f`
        is decoded, `rest` being what follows it in s: the fields of `f`
        read into the header, then the bytes after it. */
    method ReadInto(e: Env, s: seq<byte>, f: Fixed, rest: seq<byte>, seekable: bool) returns (r: Outcome)
      requires Valid() && WellFormed(f)
      requires vlrs == [] && extraHeaderBytes == [] && extraVlrBytes == []
      requires numberOfPointsByReturn[..] == seq(SLOTS, _ => 0)
      requires startOfWaveformDataPacketRecord == 0 && startOfFirstEvlr == 0 && numberOfEvlrs == 0
      modifies this`fileSourceId, this`globalEncoding, this`uuid, this`version
      modifies this`systemIdentifier, this`generatingSoftware, this`creationDate
      modifies this`offsetToPointData, this`pointCount, this`startOfWaveformDataPacketRecord
      modifies this`startOfFirstEvlr, this`numberOfEvlrs, this`arePointsCompressed, this`pointFormat
      modifies this`extraHeaderBytes, this`vlrs, this`extraVlrBytes
      modifies scales, offsets, maxs, mins, numberOfPointsByReturn
      ensures Valid() && (r.Pass? ==> fresh(globalEncoding))
      ensures scales == old(scales) && offsets == old(offsets) && maxs == old(maxs) && mins == old(mins)
      ensures numberOfPointsByReturn == old(numberOfPointsByReturn)
      ensures r.Fail? <==> FromRegion(e, s, f, rest, seekable).Err?
      ensures r.Fail? ==> r.error == FromRegion(e, s, f, rest, seekable).error
      ensures r.Pass? ==> Snapshot() == FromRegion(e, s, f, rest, seekable).value
    {
      r := ReadFixed(e, f);
      if r.Fail? {
        return;
      }
      r := ReadPlaced(e, s, f, rest, seekable, Snapshot());
    }

    /** The part of `read_from` that reads the fixed region into a default
        header: each field in the order it is stored, the global encoding as
        a new register object, the return counts into the uint32 array, and
        the point format id with its compression bit removed. */
    method ReadFixed(e: Env, f: Fixed) returns (r: Outcome)
      requires Valid() && WellFormed(f)
      requires vlrs == [] && extraHeaderBytes == [] && extraVlrBytes == []
      requires numberOfPointsByReturn[..] == seq(SLOTS, _ => 0)
      requires startOfWaveformDataPacketRecord == 0 && startOfFirstEvlr == 0 && numberOfEvlrs == 0
      modifies this`fileSourceId, this`globalEncoding, this`uuid, this`version
      modifies this`systemIdentifier, this`generatingSoftware, this`creationDate
      modifies this`offsetToPointData, this`pointCount, this`startOfWaveformDataPacketRecord
      modifies this`startOfFirstEvlr, this`numberOfEvlrs, this`arePointsCompressed, this`pointFormat
      modifies scales, offsets, maxs, mins, numberOfPointsByReturn
      ensures Valid() && (r.Pass? ==> fresh(globalEncoding))
      ensures r.Fail? <==> FieldsRead(e, f).Err?
      ensures r.Fail? ==> r.error == FieldsRead(e, f).error
      ensures r.Pass? ==> Snapshot() == FieldsRead(e, f).value && offsetToPointData == f.offsetToPointData
    {
      var systemIdentifier := ReadIdentifier(f.systemIdentifier);
      if systemIdentifier.Err? {
        return Fail(systemIdentifier.error);
      }
      var generatingSoftware := ReadIdentifier(f.generatingSoftware);
      if generatingSoftware.Err? {
        return Fail(generatingSoftware.error);
      }
      var date := FromStored(f.creationDayOfYear, f.creationYear);
      if date.Err? {
        return Fail(date.error);
      }
      SetIdentity(f, systemIdentifier.value, generatingSoftware.value, date.value);
      r := ReadCounts(e, f);
    }

    /** The fields of the fixed region up to the creation date, once the
        identifiers and the date are decoded. */
    method SetIdentity(f: Fixed, systemIdentifier: string, generatingSoftware: string, creationDate: Option<Date>)
      requires PreambleFits(f) && (creationDate.Some? ==> Calendar.Valid(creationDate.value))
      modifies this`fileSourceId, this`globalEncoding, this`uuid, this`version
      modifies this`systemIdentifier, this`generatingSoftware, this`creationDate
      ensures fresh(globalEncoding) && globalEncoding.value == f.globalEncoding
      ensures fileSourceId == f.fileSourceId && uuid == f.uuid && version == Version(f.major, f.minor)
      ensures this.systemIdentifier == systemIdentifier && this.generatingSoftware == generatingSoftware
      ensures this.creationDate == creationDate
    {
      assert Pow256(2) == 0x1_0000;
      fileSourceId := f.fileSourceId;
      globalEncoding := new GlobalEncoding(f.globalEncoding);
      uuid := f.uuid;
      version := Version(f.major, f.minor);
      this.systemIdentifier := systemIdentifier;
      this.generatingSoftware := generatingSoftware;
      this.creationDate := creationDate;
    }

    /** The fields of the fixed region after the creation date: the offset
        to point data, the point count and return counts, the scales,
        offsets and extrema, the fields of LAS 1.3 and 1.4, and the point
        format id. Only a 1.4 return count that does not fit the uint32 array
        fails. */
    method ReadCounts(e: Env, f: Fixed) returns (r: Outcome)
      requires Valid() && WellFormed(f)
      requires numberOfPointsByReturn[..] == seq(SLOTS, _ => 0)
      requires startOfWaveformDataPacketRecord == 0 && startOfFirstEvlr == 0 && numberOfEvlrs == 0
      modifies this`offsetToPointData, this`pointCount, this`startOfWaveformDataPacketRecord
      modifies this`startOfFirstEvlr, this`numberOfEvlrs, this`arePointsCompressed, this`pointFormat
      modifies scales, offsets, maxs, mins, numberOfPointsByReturn
      ensures Valid()
      ensures r.Fail? <==> ReturnsRead(f).Err?
      ensures r.Fail? ==> r.error == ReturnsRead(f).error
      ensures r.Pass? ==> (
        && offsetToPointData == f.offsetToPointData
        && pointCount == (if f.minor >= 4 then f.pointCount else f.legacyPointCount)
        && numberOfPointsByReturn[..] == ReturnsRead(f).value
        && scales[..] == f.scales && offsets[..] == f.offsets && maxs[..] == f.maxs && mins[..] == f.mins
        && startOfWaveformDataPacketRecord == f.startOfWaveformDataPacketRecord
        && startOfFirstEvlr == f.startOfFirstEvlr && numberOfEvlrs == f.numberOfEvlrs
        && arePointsCompressed == e.isCompressed(f.pointFormatId)
        && pointFormat == NewPointFormat(e.compressedToUncompressed(f.pointFormatId)))
    {
      offsetToPointData := f.offsetToPointData;
      pointCount := f.legacyPointCount;
      ReadLegacyReturns(f);
      ReadExtents(f);
      if f.minor >= 3 {
        startOfWaveformDataPacketRecord := f.startOfWaveformDataPacketRecord;
      }
      if f.minor >= 4 {
        startOfFirstEvlr := f.startOfFirstEvlr;
        numberOfEvlrs := f.numberOfEvlrs;
        pointCount := f.pointCount;
        r := ReadExtendedReturns(f);
        if r.Fail? {
          return;
        }
      }
      arePointsCompressed := e.isCompressed(f.pointFormatId);
      pointFormat := NewPointFormat(e.compressedToUncompressed(f.pointFormatId));
      return Pass;
    }

    /** The five legacy return counts, stored into the first slots of the
        zeroed array. */
    method ReadLegacyReturns(f: Fixed)
      requires numberOfPointsByReturn.Length == SLOTS && LegacyFits(f)
      requires numberOfPointsByReturn[..] == seq(SLOTS, _ => 0)
      modifies numberOfPointsByReturn
      ensures numberOfPointsByReturn[..] == LegacyReturns(f)
    {
      assert Pow256(4) == U32;
      for i := 0 to 5
        invariant forall j :: 0 <= j < SLOTS ==> numberOfPointsByReturn[j] == if j < i then f.legacyPointsByReturn[j] else 0
      {
        numberOfPointsByReturn[i] := f.legacyPointsByReturn[i] as u32;
      }
      assert numberOfPointsByReturn[..] == LegacyReturns(f);
    }

    /** The scales, the offsets, then each maximum followed by its minimum. */
    method ReadExtents(f: Fixed)
      requires Valid() && ExtentsFit(f)
      modifies scales, offsets, maxs, mins
      ensures Valid()
      ensures scales[..] == f.scales && offsets[..] == f.offsets && maxs[..] == f.maxs && mins[..] == f.mins
    {
      for i := 0 to 3
        modifies scales
        invariant forall j :: 0 <= j < i ==> scales[j] == f.scales[j]
      {
        scales[i] := f.scales[i];
      }
      for i := 0 to 3
        modifies offsets
        invariant forall j :: 0 <= j < i ==> offsets[j] == f.offsets[j]
      {
        offsets[i] := f.offsets[i];
      }
      for i := 0 to 3
        modifies maxs, mins
        invariant forall j :: 0 <= j < i ==> maxs[j] == f.maxs[j] && mins[j] == f.mins[j]
      {
        maxs[i] := f.maxs[i];
        mins[i] := f.mins[i];
      }
      assert scales[..] == f.scales && offsets[..] == f.offsets;
      assert maxs[..] == f.maxs && mins[..] == f.mins;
    }

    /** The fifteen 8-byte return counts of LAS 1.4, stored one by one into
        the uint32 array; a count of 2^32 or more does not fit and raises. */
    method ReadExtendedReturns(f: Fixed) returns (r: Outcome)
      requires numberOfPointsByReturn.Length == SLOTS && WellFormed(f) && f.minor >= 4
      modifies numberOfPointsByReturn
      ensures r.Fail? <==> ReturnsRead(f).Err?
      ensures r.Fail? ==> r.error == ReturnsRead(f).error
      ensures r.Pass? ==> numberOfPointsByReturn[..] == ReturnsRead(f).value
    {
      for i := 0 to SLOTS
        invariant forall j :: 0 <= j < i ==> f.pointsByReturn[j] < U32 && numberOfPointsByReturn[j] == f.pointsByReturn[j]
      {
        if f.pointsByReturn[i] >= U32 {
          return Fail(FieldOverflow);
        }
        numberOfPointsByReturn[i] := f.pointsByReturn[i] as u32;
      }
      assert numberOfPointsByReturn[..] == ReturnsRead(f).value;
      return Pass;
    }

    /** The part of `read_from` after the fixed region `f`, whose end is at
        offset |s| - |rest| of the stream s: the bytes up to the stored header
        size, then the VLRs. */
    method ReadPlaced(e: Env, s: seq<byte>, f: Fixed, rest: seq<byte>, seekable: bool, ghost fields: State)
      returns (r: Outcome)
      requires Valid() && Snapshot() == fields && offsetToPointData == f.offsetToPointData
      requires extraHeaderBytes == [] && extraVlrBytes == []
      modifies this`extraHeaderBytes, this`vlrs, this`extraVlrBytes, this`pointFormat
      ensures Valid()
      ensures r.Fail? <==> Placed(e, s, f, rest, fields, seekable).Err?
      ensures r.Fail? ==> r.error == Placed(e, s, f, rest, fields, seekable).error
      ensures r.Pass? ==> Snapshot() == Placed(e, s, f, rest, fields, seekable).value
    {
      var pos: nat;
      if seekable {
        pos := FixedLen(version.minor);
      } else {
        var size := HeadersSize(version);
        if size.Err? {
          return Fail(size.error);
        }
        pos := size.value;
      }
      if pos > f.headerSize {
        return Fail(IncoherentHeaderSize);
      }
      var headerGap := Min(f.headerSize - pos, |rest|);
      if pos < f.headerSize {
        extraHeaderBytes := rest[..headerGap];
      }
      var afterHeader := rest[headerGap..];
      var read := e.readVlrs(afterHeader, f.numberOfVlrs);
      if read.None? {
        return Fail(VlrError);
      }
      vlrs := read.value.0;
      var afterVlrs := afterHeader[Min(read.value.1, |afterHeader|)..];
      r := ReadAfterVlrs(e, s, f, afterVlrs, seekable, Snapshot());
    }

    /** The end of `read_from`, `afterVlrs` being what follows the VLRs in
        s: the bytes up to the offset to point data when the stream can tell
        its position, and the point format, whose size must be the stored
        one. */
    method ReadAfterVlrs(e: Env, s: seq<byte>, f: Fixed, afterVlrs: seq<byte>, seekable: bool, ghost fields: State)
      returns (r: Outcome)
      requires Valid() && Snapshot() == fields && offsetToPointData == f.offsetToPointData
      requires extraVlrBytes == []
      modifies this`vlrs, this`extraVlrBytes, this`pointFormat
      ensures Valid()
      ensures r.Fail? <==> AfterVlrs(e, s, f, afterVlrs, fields, seekable).Err?
      ensures r.Fail? ==> r.error == AfterVlrs(e, s, f, afterVlrs, fields, seekable).error
      ensures r.Pass? ==> Snapshot() == AfterVlrs(e, s, f, afterVlrs, fields, seekable).value
    {
      if seekable {
        var vlrEnd := |s| - |afterVlrs|;
        if vlrEnd > offsetToPointData {
          return Fail(IncoherentOffset);
        }
        if vlrEnd < offsetToPointData {
          extraVlrBytes := afterVlrs[..Min(offsetToPointData - vlrEnd, |afterVlrs|)];
        }
      }
      var pf := ReadPointFormat(e, f.pointFormatId, f.pointSize);
      if f.pointSize != Size(e, pf) {
        return Fail(IncoherentPointSize);
      }
      return Pass;
    }

    /** The point format of the uncompressed id, given the extra dimensions
        of the first Extra-Bytes VLR one by one, unless the stored point size
        shows the file has none, in which case the Extra-Bytes VLRs are
        extracted from the list. The format is stored without the setter's
        check. */
    method ReadPointFormat(e: Env, storedId: nat, pointSize: nat) returns (pf: PointFormat)
      modifies this`vlrs, this`pointFormat
      ensures (pf, vlrs) == FormatRead(e, storedId, pointSize, old(vlrs)) && pointFormat == pf
    {
      pf := NewPointFormat(e.compressedToUncompressed(storedId));
      var eb := FirstExtraBytes(vlrs);
      if eb.Some? {
        if pointSize == Size(e, pf) {
          vlrs := RemoveExtraBytes(vlrs);
        } else {
          var dims := e.extraDimsOfVlr(eb.value.structs);
          for i := 0 to |dims|
            invariant pf == PointFormat(e.compressedToUncompressed(storedId), dims[..i])
          {
            assert dims[..i + 1] == dims[..i] + [dims[i]];
            pf := AddExtraDimension(pf, dims[i]);
          }
          assert dims[..|dims|] == dims;
        }
      }
      pointFormat := pf;
    }

    /** `set_compressed`. */
    method SetCompressed(state: bool)
      requires Valid()
      modifies this
      ensures Valid() && Repr() == old(Repr())
      ensures Snapshot() == old(Snapshot()).(arePointsCompressed := state)
    {
      arePointsCompressed := state;
    }
  }

  /** `np.zeros(n, dtype=np.float64)`. */
  method Zeroed(n: nat) returns (a: array<Double>)
    ensures fresh(a) && a[..] == seq(n, _ => ZERO_DOUBLE)
  {
    a := new Double[n](_ => ZERO_DOUBLE);
  }

  /** `np.zeros(15, dtype=np.uint32)`. */
  method ZeroCounts() returns (a: array<u32>)
    ensures fresh(a) && a[..] == seq(SLOTS, _ => 0)
  {
    a := new u32[SLOTS](_ => 0);
  }

  /** The sub-records `_sync_extra_bytes_vlr` builds, one per dimension in
      order, or the IndexError of the first dimension that does not fit. */
  method BuildEbStructs(e: Env, dims: seq<ExtraDim>) returns (r: Result<seq<EbStruct>>)
    ensures r == EbStructs(e, dims)
  {
    var structs := [];
    for i := 0 to |dims|
      invariant EbStructs(e, dims[..i]) == Ok(structs)
    {
      var s := BuildEbStruct(e, dims[i]);
      if s.Err? {
        return Err(s.error);
      }
      assert dims[..i + 1][..i] == dims[..i];
      structs := structs + [s.value];
    }
    assert dims[..|dims|] == dims;
    return Ok(structs);
  }

  /** The sub-record `_sync_extra_bytes_vlr` builds for one dimension, its
      scale and offset slots filled by their `for` loops, which raise an
      IndexError on the first index past the 3 slots or past the given
      values. */
  method BuildEbStruct(e: Env, dim: ExtraDim) returns (r: Result<EbStruct>)
    ensures r == EbStructOf(e, dim)
  {
    var dataType, options := 0, 0;
    if dim.numElements > 3 && EndsWithU1(dim.typeStr) {
      options := dim.numElements;
    } else {
      dataType := e.typeIdOf(dim.typeStr);
    }
    var scale := new Double[3](_ => ZERO_DOUBLE);
    if dim.scales.Some? {
      for i := 0 to dim.numElements
        invariant i <= 3 && i <= |dim.scales.value|
        invariant forall k :: 0 <= k < 3 ==> scale[k] == if k < i then dim.scales.value[k] else ZERO_DOUBLE
      {
        if i >= 3 || i >= |dim.scales.value| {
          return Err(SlotIndex);
        }
        scale[i] := dim.scales.value[i];
      }
    }
    var scales := scale[..];
    var offset := new Double[3](_ => ZERO_DOUBLE);
    if dim.offsets.Some? {
      for i := 0 to dim.numElements
        invariant i <= 3 && i <= |dim.offsets.value|
        invariant forall k :: 0 <= k < 3 ==> offset[k] == if k < i then dim.offsets.value[k] else ZERO_DOUBLE
      {
        if i >= 3 || i >= |dim.offsets.value| {
          return Err(SlotIndex);
        }
        offset[i] := dim.offsets.value[i];
      }
    }
    assert scales == Slots(dim.scales, dim.numElements);
    assert offset[..] == Slots(dim.offsets, dim.numElements);
    return Ok(EbStruct(dim.name, dim.description, dataType, options,
      dim.scales.Some?, dim.offsets.Some?, scales, offset[..]));
  }
}

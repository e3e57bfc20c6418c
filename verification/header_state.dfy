/** The LAS header as a value: every field `LasHeader` holds, the defaults
    the constructor resolves, and what `write_to` and `read_from` do, stated
    as functions of that value. The class in module `Header` is proved
    against these. */
module HeaderState {

  import opened Wrappers
  import opened Bytes
  import opened Versions
  import opened GlobalEncodings
  import opened Formats
  import opened Layout
  import opened Histogram
  import opened Calendar

  /** `LasHeader.DEFAULT_VERSION` and the id of `DEFAULT_POINT_FORMAT`. */
  const DEFAULT_VERSION: Version := Version(1, 2)
  const DEFAULT_POINT_FORMAT_ID: nat := 3

  /** 0.01, the default scale, as a little-endian IEEE double. */
  const DEFAULT_SCALE: Double := [0x7B, 0x14, 0xAE, 0x47, 0xE1, 0x7A, 0x84, 0x3F]

  const U32_MAX: nat := 0xFFFF_FFFF

  /** A point format given to the constructor as an object or as an id. */
  datatype FormatArg = AsFormat(format: PointFormat) | AsId(id: nat)

  /** Every field of a `LasHeader`. The four 3-element arrays and the
      15-slot histogram appear as their contents. */
  datatype State = State(
    fileSourceId: nat,
    globalEncoding: u16,
    uuid: seq<byte>,
    version: Version,
    systemIdentifier: string,
    generatingSoftware: string,
    creationDate: Option<Date>,
    pointFormat: PointFormat,
    pointCount: nat,
    scales: seq<Double>,
    offsets: seq<Double>,
    maxs: seq<Double>,
    mins: seq<Double>,
    numberOfPointsByReturn: seq<u32>,
    vlrs: seq<Vlr>,
    extraHeaderBytes: seq<byte>,
    extraVlrBytes: seq<byte>,
    startOfWaveformDataPacketRecord: nat,
    startOfFirstEvlr: nat,
    numberOfEvlrs: nat,
    offsetToPointData: nat,
    arePointsCompressed: bool)

  /** The header's value after an operation that may raise part way
      through, and what it raised. */
  datatype Step = Step(state: State, outcome: Outcome)

  /** The array lengths a header always has, and a creation date that is a
      real date when there is one. */
  predicate Shaped(st: State) {
    && |st.uuid| == 16
    && AllDoubles(st.scales, 3) && AllDoubles(st.offsets, 3)
    && AllDoubles(st.maxs, 3) && AllDoubles(st.mins, 3)
    && |st.numberOfPointsByReturn| == SLOTS
    && (st.creationDate.Some? ==> Calendar.Valid(st.creationDate.value))
  }

  /** How `__init__` settles its arguments: an id becomes `PointFormat(id)`, a
      string is parsed as a version, a missing one is looked up from the
      other (both missing: 1.2 and format 3), and then the pair must pass the
      compatibility check. */
  function Resolve(e: Env, version: Option<Other>, pointFormat: Option<FormatArg>): (r: Result<(Version, PointFormat)>)
    ensures r.Ok? ==> e.compatible(r.value.1.id, ToStr(r.value.0))
    ensures version.None? && pointFormat.None? ==>
      r == (if e.compatible(DEFAULT_POINT_FORMAT_ID, ToStr(DEFAULT_VERSION))
            then Ok((DEFAULT_VERSION, NewPointFormat(DEFAULT_POINT_FORMAT_ID)))
            else Err(Incompatible(DEFAULT_POINT_FORMAT_ID, ToStr(DEFAULT_VERSION))))
    ensures r.Ok? && version.Some? && version.value.AsVersion? ==> r.value.0 == version.value.version
    ensures version.Some? && version.value.AsVersion? && pointFormat.Some? && pointFormat.value.AsFormat? ==>
      var v, p := version.value.version, pointFormat.value.format;
      r == (if e.compatible(p.id, ToStr(v)) then Ok((v, p)) else Err(Incompatible(p.id, ToStr(v))))
    ensures (version.Some? && version.value.AsString? && FromStr(version.value.text).Err?) ==> r == Err(VersionFormat)
    ensures r.Ok? && version.Some? && version.value.AsString? ==> Ok(r.value.0) == FromStr(version.value.text)
    ensures r.Ok? && pointFormat.Some? && pointFormat.value.AsFormat? ==> r.value.1 == pointFormat.value.format
    ensures r.Ok? && pointFormat.Some? && pointFormat.value.AsId? ==> r.value.1 == NewPointFormat(pointFormat.value.id)
    ensures r.Ok? && version.Some? && pointFormat.None? ==>
      r.value.1 == NewPointFormat(e.minPointFormatForVersion(ToStr(r.value.0)))
    ensures r.Ok? && version.None? && pointFormat.Some? ==>
      Ok(r.value.0) == FromStr(e.preferredVersionForPointFormat(r.value.1.id))
  {
    var pf := match pointFormat
      case None => None
      case Some(AsFormat(p)) => Some(p)
      case Some(AsId(id)) => Some(NewPointFormat(id));
    var given :- match version
      case None => Ok(None)
      case Some(AsVersion(v)) => Ok(Some(v))
      case Some(AsString(t)) => (var v :- FromStr(t); Ok(Some(v)));
    var pair :-
      if given.None? && pf.None? then Ok((DEFAULT_VERSION, NewPointFormat(DEFAULT_POINT_FORMAT_ID)))
      else if pf.None? then Ok((given.value, NewPointFormat(e.minPointFormatForVersion(ToStr(given.value)))))
      else if given.None? then (var v :- FromStr(e.preferredVersionForPointFormat(pf.value.id)); Ok((v, pf.value)))
      else Ok((given.value, pf.value));
    if e.compatible(pair.1.id, ToStr(pair.0)) then Ok(pair)
    else Err(Incompatible(pair.1.id, ToStr(pair.0)))
  }

  /** The fields `__init__` sets once its arguments are settled: zero ids
      and counts, the null UUID, "OTHER" and "laspy", today's date, scales of
      0.01, zero offsets and extents, and no VLRs yet. */
  function Defaults(v: Version, pf: PointFormat, today: Date): (st: State)
    ensures st.version == v && st.pointFormat == pf && st.vlrs == []
    ensures Calendar.Valid(today) ==> Shaped(st)
  {
    State(0, 0, Zeros(16), v, "OTHER", "laspy", Some(today), pf, 0,
      seq(3, _ => DEFAULT_SCALE), seq(3, _ => ZERO_DOUBLE), seq(3, _ => ZERO_DOUBLE), seq(3, _ => ZERO_DOUBLE),
      seq(SLOTS, _ => 0), [], [], [], 0, 0, 0, 0, false)
  }

  /** `_sync_extra_bytes_vlr` on the header's value. The old Extra-Bytes VLRs
      are extracted before the copy loops run, so when an extra dimension
      does not fit its slots the header is left without any. */
  function Sync(e: Env, st: State): (r: Step)
    ensures r.outcome.Fail? <==> !DimsFit(st.pointFormat)
    ensures r.outcome.Fail? ==> r.outcome.error == SlotIndex && r.state == st.(vlrs := RemoveExtraBytes(st.vlrs))
    ensures r.outcome.Pass? ==> r.state == st.(vlrs := r.state.vlrs) && Ok(r.state.vlrs) == Synced(e, st.vlrs, st.pointFormat)
  {
    SyncedShape(e, st.vlrs, st.pointFormat);
    match Synced(e, st.vlrs, st.pointFormat)
    case Ok(vlrs) => Step(st.(vlrs := vlrs), Pass)
    case Err(err) => Step(st.(vlrs := RemoveExtraBytes(st.vlrs)), Fail(err))
  }

  /** The header `__init__` builds once its arguments are settled: the
      defaults and the Extra-Bytes VLR the point format calls for, or the
      IndexError of an extra dimension that does not fit its slots. */
  function Initial(e: Env, v: Version, pf: PointFormat, today: Date): (r: Result<State>)
    ensures r.Ok? <==> DimsFit(pf)
    ensures r.Err? ==> r.error == SlotIndex
    ensures r.Ok? ==> r.value.version == v && r.value.pointFormat == pf
    ensures r.Ok? ==> CountExtraBytes(r.value.vlrs) == (if pf.extraDims == [] then 0 else 1)
    ensures r.Ok? && Calendar.Valid(today) ==> Shaped(r.value)
  {
    SyncedShape(e, [], pf);
    var step := Sync(e, Defaults(v, pf, today));
    if step.outcome.Fail? then Err(step.outcome.error) else Ok(step.state)
  }

  /** `LasHeader(version, point_format)`: the arguments settled, then the
      header built; either step may raise. */
  function Constructed(e: Env, version: Option<Other>, pointFormat: Option<FormatArg>, today: Date): (r: Result<State>)
    ensures r.Ok? ==> e.compatible(r.value.pointFormat.id, ToStr(r.value.version))
    ensures Resolve(e, version, pointFormat).Err? ==> r == Err(Resolve(e, version, pointFormat).error)
    ensures Resolve(e, version, pointFormat).Ok? ==> (r.Ok? <==> DimsFit(Resolve(e, version, pointFormat).value.1))
  {
    var pair :- Resolve(e, version, pointFormat);
    Initial(e, pair.0, pair.1, today)
  }

  /** The date `write_to` writes: today's when the header has none. */
  function DateOnWrite(st: State, today: Date): Date {
    if st.creationDate.None? then today else st.creationDate.value
  }

  /** The point format id `write_to` writes: the compressed id for LAZ. */
  function FormatIdOnWrite(e: Env, st: State): nat {
    if st.arePointsCompressed then e.uncompressedToCompressed(st.pointFormat.id) else st.pointFormat.id
  }

  /** The VLR bytes `write_to` appends, when it writes VLRs. */
  function VlrBytesOnWrite(e: Env, st: State, writeVlrs: bool): seq<byte> {
    if writeVlrs then e.vlrBytes(st.vlrs) else []
  }

  /** The offset to point data `write_to` writes: the header size plus the
      VLR bytes when it writes VLRs, the stored one otherwise. */
  function OffsetOnWrite(e: Env, st: State, writeVlrs: bool, headerSize: nat): nat {
    if writeVlrs then headerSize + |e.vlrBytes(st.vlrs)| else st.offsetToPointData
  }

  /** Whether `write_to` gets past the version and identifier fields, the
      point at which it fills in a missing creation date. */
  predicate PassesIdentity(st: State) {
    && Fits(st.fileSourceId, 2) && Fits(st.version.major, 1) && Fits(st.version.minor, 1)
    && Identifier(st.systemIdentifier).Ok? && Identifier(st.generatingSoftware).Ok?
  }

  /** Whether every remaining field `write_to` writes fits its width. */
  predicate CountsFit(e: Env, st: State, offset: nat) {
    && Fits(offset, 4) && Fits(|st.vlrs|, 4)
    && Fits(FormatIdOnWrite(e, st), 1) && Fits(Size(e, st.pointFormat), 2)
  }

  predicate TailFitsOnWrite(st: State) {
    && (st.version.minor >= 3 ==> Fits(st.startOfWaveformDataPacketRecord, 8))
    && (st.version.minor >= 4 ==>
          Fits(st.startOfFirstEvlr, 8) && Fits(st.numberOfEvlrs, 4) && Fits(st.pointCount, 8))
  }

  /** The fixed region `write_to` writes for a header, given the padded
      identifiers, the date, the header size and the offset it settled on.
      LAS 1.4 writes zeros into the legacy point count and return counts. */
  function FixedOf(e: Env, st: State, sid: seq<byte>, gs: seq<byte>, date: Date, headerSize: nat, offset: nat): Fixed
    requires Shaped(st)
  {
    var minor := st.version.minor;
    Fixed(
      st.fileSourceId, st.globalEncoding, st.uuid, st.version.major, minor,
      sid, gs, date.dayOfYear, date.year,
      headerSize, offset, |st.vlrs|, FormatIdOnWrite(e, st), Size(e, st.pointFormat),
      if minor >= 4 then 0 else st.pointCount,
      if minor >= 4 then seq(5, _ => 0) else st.numberOfPointsByReturn[..5],
      st.scales, st.offsets, st.maxs, st.mins,
      if minor >= 3 then st.startOfWaveformDataPacketRecord else 0,
      if minor >= 4 then st.startOfFirstEvlr else 0,
      if minor >= 4 then st.numberOfEvlrs else 0,
      if minor >= 4 then st.pointCount else 0,
      if minor >= 4 then st.numberOfPointsByReturn else seq(15, _ => 0))
  }

  /** What `write_to` writes, or the error it raises: OverflowError
      (FieldOverflow) for a field wider than its slot, UnicodeEncodeError
      (NotAscii) for an identifier, KeyError (UnknownVersion) for a version
      missing from the size table, and the uint32 point-count error of LAS
      1.1 to 1.3, each in the order the fields are written. */
  function Written(e: Env, st: State, writeVlrs: bool, today: Date): (r: Result<seq<byte>>)
    requires Shaped(st) && Calendar.Valid(today)
    ensures r.Ok? ==> HeadersSize(st.version).Ok?
    ensures r.Ok? ==> |r.value| == FixedLen(st.version.minor) + |VlrBytesOnWrite(e, st, writeVlrs)|
    ensures r.Ok? ==> r.value[..4] == SIGNATURE && r.value[FixedLen(st.version.minor)..] == VlrBytesOnWrite(e, st, writeVlrs)
    ensures r.Ok? && writeVlrs ==> |r.value| == AfterWrite(e, st, writeVlrs, today).offsetToPointData
    ensures AsciiBytes(st.systemIdentifier).Err? || AsciiBytes(st.generatingSoftware).Err? ==> r.Err?
    ensures HeadersSize(st.version).Err? ==> r.Err?
    ensures st.version.minor < 4 && st.pointCount > U32_MAX ==> r.Err?
  {
    if !(Fits(st.fileSourceId, 2) && Fits(st.version.major, 1) && Fits(st.version.minor, 1)) then
      Err(FieldOverflow)
    else
      var sid :- Identifier(st.systemIdentifier);
      var gs :- Identifier(st.generatingSoftware);
      var headerSize :- HeadersSize(st.version);
      HeadersSizeMatchesLayout(st.version);
      WrittenFrom(e, st, sid, gs, DateOnWrite(st, today), headerSize,
        OffsetOnWrite(e, st, writeVlrs, headerSize), VlrBytesOnWrite(e, st, writeVlrs))
  }

  /** `write_to` stage by stage: the error of the first stage that fails,
      otherwise its tail. */
  lemma WrittenStages(e: Env, st: State, writeVlrs: bool, today: Date)
    requires Shaped(st) && Calendar.Valid(today)
    ensures !(Fits(st.fileSourceId, 2) && Fits(st.version.major, 1) && Fits(st.version.minor, 1)) ==>
      Written(e, st, writeVlrs, today) == Err(FieldOverflow)
    ensures Fits(st.fileSourceId, 2) && Fits(st.version.major, 1) && Fits(st.version.minor, 1) ==>
      && (Identifier(st.systemIdentifier).Err? ==>
            Written(e, st, writeVlrs, today) == Err(Identifier(st.systemIdentifier).error))
      && (Identifier(st.systemIdentifier).Ok? && Identifier(st.generatingSoftware).Err? ==>
            Written(e, st, writeVlrs, today) == Err(Identifier(st.generatingSoftware).error))
    ensures PassesIdentity(st) && HeadersSize(st.version).Err? ==>
      Written(e, st, writeVlrs, today) == Err(HeadersSize(st.version).error)
    ensures PassesIdentity(st) && HeadersSize(st.version).Ok? ==>
      var headerSize := HeadersSize(st.version).value;
      && headerSize <= 375
      && Written(e, st, writeVlrs, today) ==
           WrittenFrom(e, st, Identifier(st.systemIdentifier).value, Identifier(st.generatingSoftware).value,
             DateOnWrite(st, today), headerSize, OffsetOnWrite(e, st, writeVlrs, headerSize),
             VlrBytesOnWrite(e, st, writeVlrs))
  {
    HeadersSizeMatchesLayout(st.version);
  }

  /** The rest of `write_to` once the identifiers are encoded, the date
      settled and the header size and offset known: the count and tail fields
      checked in the order they are written, then the fixed region and the
      VLR bytes. */
  function WrittenFrom(e: Env, st: State, sid: seq<byte>, gs: seq<byte>, date: Date, headerSize: nat,
                       offset: nat, vlrBytes: seq<byte>): (r: Result<seq<byte>>)
    requires Shaped(st) && Fits(st.fileSourceId, 2) && Fits(st.version.major, 1) && Fits(st.version.minor, 1)
    requires |sid| == 32 && |gs| == 32 && headerSize <= 375 && Calendar.Valid(date)
  {
    if !CountsFit(e, st, offset) then Err(FieldOverflow)
    else if st.version.minor < 4 && st.pointCount > U32_MAX then Err(PointCountOverflow)
    else if !TailFitsOnWrite(st) then Err(FieldOverflow)
    else
      FixedOfWellFormed(e, st, sid, gs, date, headerSize, offset);
      Ok(Layout.Encode(FixedOf(e, st, sid, gs, date, headerSize, offset)) + vlrBytes)
  }

  /** The tail of `write_to` does not depend on the stored creation date or
      offset, which it is handed settled. */
  lemma WrittenFromSettled(e: Env, st: State, sid: seq<byte>, gs: seq<byte>, date: Date, headerSize: nat,
                           offset: nat, vlrBytes: seq<byte>, stored: Option<Date>, storedOffset: nat)
    requires Shaped(st) && Fits(st.fileSourceId, 2) && Fits(st.version.major, 1) && Fits(st.version.minor, 1)
    requires |sid| == 32 && |gs| == 32 && headerSize <= 375 && Calendar.Valid(date)
    requires stored.Some? ==> Calendar.Valid(stored.value)
    ensures var settled := st.(creationDate := stored, offsetToPointData := storedOffset);
      Shaped(settled) && WrittenFrom(e, settled, sid, gs, date, headerSize, offset, vlrBytes)
        == WrittenFrom(e, st, sid, gs, date, headerSize, offset, vlrBytes)
  {
    var settled := st.(creationDate := stored, offsetToPointData := storedOffset);
    assert FixedOf(e, settled, sid, gs, date, headerSize, offset) == FixedOf(e, st, sid, gs, date, headerSize, offset);
  }

  lemma FixedOfWellFormed(e: Env, st: State, sid: seq<byte>, gs: seq<byte>, date: Date, headerSize: nat, offset: nat)
    requires Shaped(st) && Fits(st.fileSourceId, 2) && Fits(st.version.major, 1) && Fits(st.version.minor, 1)
    requires |sid| == 32 && |gs| == 32 && headerSize <= 375 && Calendar.Valid(date)
    requires CountsFit(e, st, offset) && TailFitsOnWrite(st)
    requires st.version.minor < 4 ==> st.pointCount <= U32_MAX
    ensures WellFormed(FixedOf(e, st, sid, gs, date, headerSize, offset))
  {
    var f := FixedOf(e, st, sid, gs, date, headerSize, offset);
    assert Pow256(2) == 0x1_0000 && Pow256(4) == 0x1_0000_0000;
    assert PreambleFits(f);
    assert IdentityFits(f);
    assert PointersFit(f);
    assert LegacyFits(f);
    assert ExtentsFit(f);
    assert TailFits(f);
  }

  /** The header after `write_to`: the creation date filled in once the
      identifiers are written, and with `write_vlrs` the offset to point data
      set once the header size is known, whether or not a later field then
      fails to fit. */
  function AfterWrite(e: Env, st: State, writeVlrs: bool, today: Date): State {
    if !PassesIdentity(st) then st
    else
      var dated := st.(creationDate := Some(DateOnWrite(st, today)));
      if HeadersSize(st.version).Err? || !writeVlrs then dated
      else dated.(offsetToPointData := HeadersSize(st.version).value + |e.vlrBytes(st.vlrs)|)
  }

  /** Once `write_to` is past the header size, the header holds the settled
      date and offset. */
  lemma AfterWriteSettles(e: Env, st: State, writeVlrs: bool, today: Date)
    requires PassesIdentity(st) && HeadersSize(st.version).Ok?
    ensures AfterWrite(e, st, writeVlrs, today) == st.(creationDate := Some(DateOnWrite(st, today)),
      offsetToPointData := OffsetOnWrite(e, st, writeVlrs, HeadersSize(st.version).value))
  {
  }

  /** The 15 return counts `read_from` leaves in the uint32 array: the five
      legacy counts before LAS 1.4, the fifteen 8-byte counts from 1.4 on,
      where a count of 2^32 or more does not fit the array and raises. */
  function ReturnsRead(f: Fixed): (r: Result<seq<u32>>)
    requires WellFormed(f)
    ensures r.Ok? ==> |r.value| == SLOTS
    ensures f.minor >= 4 ==> (r.Ok? <==> forall i :: 0 <= i < SLOTS ==> f.pointsByReturn[i] < U32)
    ensures f.minor >= 4 && r.Ok? ==> forall i :: 0 <= i < SLOTS ==> r.value[i] == f.pointsByReturn[i]
    ensures f.minor < 4 ==> r.Ok? && forall i :: 0 <= i < SLOTS ==>
      r.value[i] == if i < 5 then f.legacyPointsByReturn[i] else 0
  {
    assert Pow256(4) == U32;
    if f.minor >= 4 then
      if forall i :: 0 <= i < SLOTS ==> f.pointsByReturn[i] < U32 then
        Ok(seq(SLOTS, i requires 0 <= i < SLOTS => f.pointsByReturn[i] as u32))
      else Err(FieldOverflow)
    else
      Ok(LegacyReturns(f))
  }

  /** The return counts after the five legacy fields are stored into the
      zeroed uint32 array. */
  function LegacyReturns(f: Fixed): (r: seq<u32>)
    requires LegacyFits(f)
    ensures |r| == SLOTS && forall i :: 0 <= i < SLOTS ==> r[i] == if i < 5 then f.legacyPointsByReturn[i] else 0
  {
    assert Pow256(4) == U32;
    seq(SLOTS, i requires 0 <= i < SLOTS => if i < 5 then f.legacyPointsByReturn[i] as u32 else 0)
  }

  function Min(a: nat, b: nat): nat {
    if a <= b then a else b
  }

  /** Either there is no Extra-Bytes VLR, or the first one describes the
      format's extra dimensions. */
  predicate ExtraBytesAgree(e: Env, pf: PointFormat, vlrs: seq<Vlr>) {
    match FirstExtraBytes(vlrs)
    case None => true
    case Some(eb) => pf.extraDims == e.extraDimsOfVlr(eb.structs)
  }

  /** The point format `read_from` settles on, and the VLR list it keeps: the
      stored id made uncompressed, with the extra dimensions of the first
      Extra-Bytes VLR, unless the stored point size shows that the file has
      none, in which case the Extra-Bytes VLRs are dropped. */
  function FormatRead(e: Env, storedId: nat, pointSize: nat, vlrs: seq<Vlr>): (r: (PointFormat, seq<Vlr>))
    ensures r.0.id == e.compressedToUncompressed(storedId)
    ensures FirstExtraBytes(vlrs).None? ==> r == (NewPointFormat(r.0.id), vlrs)
    ensures FirstExtraBytes(vlrs).Some? && pointSize == e.baseSize(r.0.id) ==>
      r.0.extraDims == [] && CountExtraBytes(r.1) == 0
    ensures FirstExtraBytes(vlrs).Some? && pointSize != e.baseSize(r.0.id) ==>
      r.0.extraDims == e.extraDimsOfVlr(FirstExtraBytes(vlrs).value.structs) && r.1 == vlrs
    ensures ExtraBytesAgree(e, r.0, r.1)
  {
    var base := NewPointFormat(e.compressedToUncompressed(storedId));
    match FirstExtraBytes(vlrs)
    case None => (base, vlrs)
    case Some(eb) =>
      if pointSize == Size(e, base) then (base, RemoveExtraBytes(vlrs))
      else (PointFormat(base.id, e.extraDimsOfVlr(eb.structs)), vlrs)
  }

  /** The header fields `read_from` takes from the fixed region: the
      identifiers decoded, the creation date rebuilt, the return counts stored
      into the uint32 array, the point count from the field the version has,
      and the point format id with its compression bit removed. The VLRs and
      the bytes around them come later. */
  function FieldsRead(e: Env, f: Fixed): (r: Result<State>)
    requires WellFormed(f)
    ensures r.Err? ==> r.error != BadSignature
    ensures r.Ok? ==> Shaped(r.value) && r.value.version == Version(f.major, f.minor)
    ensures r.Ok? ==> r.value.pointCount == if f.minor >= 4 then f.pointCount else f.legacyPointCount
    ensures r.Ok? ==> r.value.version.minor >= 4 || r.value.pointCount <= U32_MAX
    ensures r.Ok? ==> (r.value.arePointsCompressed == e.isCompressed(f.pointFormatId)
      && r.value.pointFormat == NewPointFormat(e.compressedToUncompressed(f.pointFormatId)))
  {
    var systemIdentifier :- ReadIdentifier(f.systemIdentifier);
    var generatingSoftware :- ReadIdentifier(f.generatingSoftware);
    var creationDate :- FromStored(f.creationDayOfYear, f.creationYear);
    var byReturn :- ReturnsRead(f);
    assert Pow256(2) == 0x1_0000 && Pow256(4) == U32;
    Ok(State(
      f.fileSourceId, f.globalEncoding, f.uuid, Version(f.major, f.minor),
      systemIdentifier, generatingSoftware, creationDate,
      NewPointFormat(e.compressedToUncompressed(f.pointFormatId)),
      if f.minor >= 4 then f.pointCount else f.legacyPointCount,
      f.scales, f.offsets, f.maxs, f.mins, byReturn, [], [], [],
      f.startOfWaveformDataPacketRecord, f.startOfFirstEvlr, f.numberOfEvlrs,
      f.offsetToPointData, e.isCompressed(f.pointFormatId)))
  }

  /** The rest of `read_from`, from the end of the fixed region `f` (at
      offset |s| - |rest| of the stream s): the bytes up to the stored header
      size, the VLRs, the bytes up to the stored offset to point data (only
      when the stream can tell its position), and the point format. */
  function Placed(e: Env, s: seq<byte>, f: Fixed, rest: seq<byte>, fields: State, seekable: bool): (r: Result<State>)
    requires Shaped(fields)
    ensures r.Err? ==> r.error != BadSignature
    ensures r.Ok? ==> Shaped(r.value) && Size(e, r.value.pointFormat) == f.pointSize
    ensures r.Ok? ==> ExtraBytesAgree(e, r.value.pointFormat, r.value.vlrs)
    ensures r.Ok? ==> r == Ok(fields.(pointFormat := r.value.pointFormat, vlrs := r.value.vlrs,
      extraHeaderBytes := r.value.extraHeaderBytes, extraVlrBytes := r.value.extraVlrBytes))
    ensures r.Ok? && seekable ==> FixedLen(fields.version.minor) <= f.headerSize
  {
    var pos :- if seekable then Ok(FixedLen(fields.version.minor)) else HeadersSize(fields.version);
    if pos > f.headerSize then Err(IncoherentHeaderSize)
    else
      var extraHeader := rest[..Min(f.headerSize - pos, |rest|)];
      var afterHeader := rest[|extraHeader|..];
      var read :- match e.readVlrs(afterHeader, f.numberOfVlrs)
        case None => Err(VlrError)
        case Some(x) => Ok(x);
      AfterVlrs(e, s, f, afterHeader[Min(read.1, |afterHeader|)..],
        fields.(vlrs := read.0, extraHeaderBytes := extraHeader), seekable)
  }

  /** The end of `read_from` once the VLRs are read, `afterVlrs` being what
      follows them in s: the bytes up to the offset to point data (only when
      the stream can tell its position), then the point format, whose size
      must be the stored point size. */
  function AfterVlrs(e: Env, s: seq<byte>, f: Fixed, afterVlrs: seq<byte>, fields: State, seekable: bool): (r: Result<State>)
    requires Shaped(fields)
    ensures r.Ok? ==> Shaped(r.value) && Size(e, r.value.pointFormat) == f.pointSize
    ensures r.Ok? ==> ExtraBytesAgree(e, r.value.pointFormat, r.value.vlrs)
    ensures r.Ok? ==> r == Ok(fields.(pointFormat := r.value.pointFormat, vlrs := r.value.vlrs,
      extraVlrBytes := r.value.extraVlrBytes))
    ensures r.Err? ==> r.error != BadSignature
  {
    var vlrEnd := |s| - |afterVlrs|;
    if seekable && vlrEnd > f.offsetToPointData then Err(IncoherentOffset)
    else
      var extraVlr := if seekable then afterVlrs[..Min(f.offsetToPointData - vlrEnd, |afterVlrs|)] else [];
      var (pointFormat, vlrs) := FormatRead(e, f.pointFormatId, f.pointSize, fields.vlrs);
      if f.pointSize != Size(e, pointFormat) then Err(IncoherentPointSize)
      else Ok(fields.(pointFormat := pointFormat, vlrs := vlrs, extraVlrBytes := extraVlr))
  }

  /** What `read_from` makes of a stream that starts at the header: the
      header, or the exception it raises. The `LasHeader()` it starts from
      must pass the compatibility check; the stream positions are offsets into
      `s`; a non-seekable stream takes the header size from the table and
      reads no bytes between the VLRs and the points. */
  function Parsed(e: Env, s: seq<byte>, seekable: bool): (r: Result<State>)
    ensures r.Ok? ==> Shaped(r.value) && e.compatible(DEFAULT_POINT_FORMAT_ID, ToStr(DEFAULT_VERSION))
    ensures r.Ok? ==> Layout.Decode(s).Ok? && Size(e, r.value.pointFormat) == Layout.Decode(s).value.0.pointSize
    ensures r.Ok? ==> r.value.version.minor >= 4 || r.value.pointCount <= U32_MAX
    ensures r.Ok? ==> ExtraBytesAgree(e, r.value.pointFormat, r.value.vlrs)
    ensures r.Ok? && seekable ==> FixedLen(r.value.version.minor) <= Layout.Decode(s).value.0.headerSize
  {
    var _ :- Resolve(e, None, None);
    Loaded(e, s, seekable)
  }

  /** `read_from` once its default header exists: the fixed region decoded
      and read into it, then what follows the fixed region. */
  function Loaded(e: Env, s: seq<byte>, seekable: bool): (r: Result<State>)
    ensures r.Ok? ==> Shaped(r.value)
    ensures r.Ok? ==> Layout.Decode(s).Ok? && Size(e, r.value.pointFormat) == Layout.Decode(s).value.0.pointSize
    ensures r.Ok? ==> r.value.version.minor >= 4 || r.value.pointCount <= U32_MAX
    ensures r.Ok? ==> ExtraBytesAgree(e, r.value.pointFormat, r.value.vlrs)
    ensures r.Ok? && seekable ==> FixedLen(r.value.version.minor) <= Layout.Decode(s).value.0.headerSize
  {
    var decoded :- Layout.Decode(s);
    FromRegion(e, s, decoded.0, decoded.1, seekable)
  }

  /** `read_from` once the fixed region f is decoded, rest being what
      follows it in s. */
  function FromRegion(e: Env, s: seq<byte>, f: Fixed, rest: seq<byte>, seekable: bool): Result<State>
    requires WellFormed(f)
  {
    var fields :- FieldsRead(e, f);
    Placed(e, s, f, rest, fields, seekable)
  }

  /** With the default version and point format compatible, `read_from`
      rejects a stream for its signature exactly when it does not start with
      "LASF". */
  lemma ParsedSignature(e: Env, s: seq<byte>, seekable: bool)
    requires e.compatible(DEFAULT_POINT_FORMAT_ID, ToStr(DEFAULT_VERSION))
    ensures Parsed(e, s, seekable) == Err(BadSignature) <==> |s| < 4 || s[..4] != SIGNATURE
  {
  }

  /** A header whose every field survives the trip through the file: each
      identifier ASCII, at most 32 characters and not ending in NUL, and the
      fields its version does not store left at 0. */
  predicate Storable(st: State) {
    && Identifier(st.systemIdentifier).Ok? && |st.systemIdentifier| <= 32
    && (st.systemIdentifier == [] || st.systemIdentifier[|st.systemIdentifier| - 1] != 0 as char)
    && Identifier(st.generatingSoftware).Ok? && |st.generatingSoftware| <= 32
    && (st.generatingSoftware == [] || st.generatingSoftware[|st.generatingSoftware| - 1] != 0 as char)
    && (st.version.minor < 3 ==> st.startOfWaveformDataPacketRecord == 0)
    && (st.version.minor < 4 ==> st.startOfFirstEvlr == 0 && st.numberOfEvlrs == 0)
    && (st.version.minor < 4 && |st.numberOfPointsByReturn| == SLOTS ==>
          forall i :: 5 <= i < SLOTS ==> st.numberOfPointsByReturn[i] == 0)
  }

  /** The VLR list reads back from its bytes, followed by `tail`, and the
      reader consumes exactly those bytes. */
  predicate VlrsReadBack(e: Env, vlrs: seq<Vlr>, tail: seq<byte>) {
    e.readVlrs(e.vlrBytes(vlrs) + tail, |vlrs|) == Some((vlrs, |e.vlrBytes(vlrs)|))
  }

  /** The point format id written for this header maps back to the header's
      id and compression flag. */
  predicate CompressionInverts(e: Env, st: State) {
    && e.isCompressed(FormatIdOnWrite(e, st)) == st.arePointsCompressed
    && e.compressedToUncompressed(FormatIdOnWrite(e, st)) == st.pointFormat.id
  }

  /** The Extra-Bytes VLR is in step with the point format: absent when the
      format has no extra dimensions, and otherwise first of its kind,
      describing exactly those dimensions, which take some bytes. */
  predicate ExtraBytesDescribe(e: Env, st: State) {
    if st.pointFormat.extraDims == [] then CountExtraBytes(st.vlrs) == 0
    else
      && FirstExtraBytes(st.vlrs).Some?
      && e.extraDimsOfVlr(FirstExtraBytes(st.vlrs).value.structs) == st.pointFormat.extraDims
      && ExtraSize(st.pointFormat.extraDims) > 0
  }

  /** The fixed region `write_to` writes, VLRs included. */
  function WrittenFixed(e: Env, st: State, today: Date): (f: Fixed)
    requires Shaped(st) && Calendar.Valid(today) && Written(e, st, true, today).Ok?
    ensures WellFormed(f) && f.major == st.version.major && f.minor == st.version.minor
  {
    HeadersSizeMatchesLayout(st.version);
    var hs := FixedLen(st.version.minor);
    var sid, gs := Identifier(st.systemIdentifier).value, Identifier(st.generatingSoftware).value;
    FixedOfWellFormed(e, st, sid, gs, DateOnWrite(st, today), hs, hs + |e.vlrBytes(st.vlrs)|);
    FixedOf(e, st, sid, gs, DateOnWrite(st, today), hs, hs + |e.vlrBytes(st.vlrs)|)
  }

  lemma WrittenEncodes(e: Env, st: State, today: Date)
    requires Shaped(st) && Calendar.Valid(today) && Written(e, st, true, today).Ok?
    ensures Written(e, st, true, today).value == Layout.Encode(WrittenFixed(e, st, today)) + e.vlrBytes(st.vlrs)
  {
    HeadersSizeMatchesLayout(st.version);
  }

  lemma FieldsReadBack(e: Env, st: State, today: Date)
    requires Shaped(st) && Calendar.Valid(today) && Written(e, st, true, today).Ok?
    requires Storable(st) && CompressionInverts(e, st)
    ensures FieldsRead(e, WrittenFixed(e, st, today)) ==
      Ok(AfterWrite(e, st, true, today).(pointFormat := NewPointFormat(st.pointFormat.id),
        vlrs := [], extraHeaderBytes := [], extraVlrBytes := []))
  {
    WrittenPasses(e, st, today);
    var hs := FixedLen(st.version.minor);
    var sid, gs := Identifier(st.systemIdentifier).value, Identifier(st.generatingSoftware).value;
    var date := DateOnWrite(st, today);
    var offset := hs + |e.vlrBytes(st.vlrs)|;
    assert WrittenFixed(e, st, today) == FixedOf(e, st, sid, gs, date, hs, offset);
    StorableReadBack(e, st, date, hs, offset);
  }

  /** A storable header's fields come back from the fixed region written
      for it. */
  lemma StorableReadBack(e: Env, st: State, date: Date, hs: nat, offset: nat)
    requires Shaped(st) && Calendar.Valid(date) && Storable(st) && CompressionInverts(e, st)
    requires PassesIdentity(st)
    requires WellFormed(FixedOf(e, st, Identifier(st.systemIdentifier).value,
      Identifier(st.generatingSoftware).value, date, hs, offset))
    ensures FieldsRead(e, FixedOf(e, st, Identifier(st.systemIdentifier).value,
      Identifier(st.generatingSoftware).value, date, hs, offset)) ==
      Ok(st.(creationDate := Some(date), offsetToPointData := offset,
        pointFormat := NewPointFormat(st.pointFormat.id), vlrs := [], extraHeaderBytes := [], extraVlrBytes := []))
  {
    IdentifierRoundTrip(st.systemIdentifier);
    IdentifierRoundTrip(st.generatingSoftware);
    FixedOfReadBack(e, st, Identifier(st.systemIdentifier).value, Identifier(st.generatingSoftware).value,
      date, hs, offset);
  }

  /** A write with VLRs that succeeds got past every check, and leaves the
      header dated and pointing just past its VLRs. */
  lemma WrittenPasses(e: Env, st: State, today: Date)
    requires Shaped(st) && Calendar.Valid(today) && Written(e, st, true, today).Ok?
    ensures PassesIdentity(st) && HeadersSize(st.version) == Ok(FixedLen(st.version.minor))
    ensures AfterWrite(e, st, true, today) == st.(creationDate := Some(DateOnWrite(st, today)),
      offsetToPointData := FixedLen(st.version.minor) + |e.vlrBytes(st.vlrs)|)
  {
    HeadersSizeMatchesLayout(st.version);
  }

  /** The fields read back from the fixed region `FixedOf` builds. */
  lemma FixedOfReadBack(e: Env, st: State, sid: seq<byte>, gs: seq<byte>, date: Date, hs: nat, offset: nat)
    requires Shaped(st) && Calendar.Valid(date) && WellFormed(FixedOf(e, st, sid, gs, date, hs, offset))
    requires ReadIdentifier(sid) == Ok(st.systemIdentifier) && ReadIdentifier(gs) == Ok(st.generatingSoftware)
    requires e.isCompressed(FormatIdOnWrite(e, st)) == st.arePointsCompressed
    requires e.compressedToUncompressed(FormatIdOnWrite(e, st)) == st.pointFormat.id
    requires st.version.minor < 3 ==> st.startOfWaveformDataPacketRecord == 0
    requires st.version.minor < 4 ==> st.startOfFirstEvlr == 0 && st.numberOfEvlrs == 0
    requires st.version.minor < 4 ==> forall i :: 5 <= i < SLOTS ==> st.numberOfPointsByReturn[i] == 0
    ensures FieldsRead(e, FixedOf(e, st, sid, gs, date, hs, offset)) ==
      Ok(st.(creationDate := Some(date), offsetToPointData := offset,
        pointFormat := NewPointFormat(st.pointFormat.id), vlrs := [], extraHeaderBytes := [], extraVlrBytes := []))
  {
    var f := FixedOf(e, st, sid, gs, date, hs, offset);
    FromStoredValid(date);
    ReturnsReadBack(e, st, sid, gs, date, hs, offset);
  }

  lemma ReturnsReadBack(e: Env, st: State, sid: seq<byte>, gs: seq<byte>, date: Date, hs: nat, offset: nat)
    requires Shaped(st) && WellFormed(FixedOf(e, st, sid, gs, date, hs, offset))
    requires st.version.minor < 4 ==> forall i :: 5 <= i < SLOTS ==> st.numberOfPointsByReturn[i] == 0
    ensures ReturnsRead(FixedOf(e, st, sid, gs, date, hs, offset)) == Ok(st.numberOfPointsByReturn)
  {
    var f := FixedOf(e, st, sid, gs, date, hs, offset);
    assert ReturnsRead(f).Ok?;
    var h := ReturnsRead(f).value;
    forall i | 0 <= i < SLOTS
      ensures h[i] == st.numberOfPointsByReturn[i]
    {
    }
    assert h == st.numberOfPointsByReturn;
  }

  /** The point format and VLRs come back from the stored id, point size and
      VLR list when the Extra-Bytes VLR describes the extra dimensions. */
  lemma FormatReadBack(e: Env, st: State)
    requires CompressionInverts(e, st) && ExtraBytesDescribe(e, st)
    ensures FormatRead(e, FormatIdOnWrite(e, st), Size(e, st.pointFormat), st.vlrs) == (st.pointFormat, st.vlrs)
  {
    if st.pointFormat.extraDims != [] {
      assert Size(e, st.pointFormat) != e.baseSize(st.pointFormat.id);
    }
  }

  /** Writing a header with its VLRs and reading the bytes back, with any
      point data after them, gives the header as the write left it, with no
      stray bytes around the VLRs: on a seekable stream and on one that is
      not. */
  lemma {:induction false} WriteThenRead(e: Env, st: State, today: Date, pointData: seq<byte>, seekable: bool)
    requires Shaped(st) && Calendar.Valid(today) && Written(e, st, true, today).Ok?
    requires Storable(st) && CompressionInverts(e, st) && ExtraBytesDescribe(e, st)
    requires VlrsReadBack(e, st.vlrs, pointData)
    requires e.compatible(DEFAULT_POINT_FORMAT_ID, ToStr(DEFAULT_VERSION))
    ensures Parsed(e, Written(e, st, true, today).value + pointData, seekable) ==
      Ok(AfterWrite(e, st, true, today).(extraHeaderBytes := [], extraVlrBytes := []))
  {
    var f := WrittenFixed(e, st, today);
    var vb := e.vlrBytes(st.vlrs);
    var s := Written(e, st, true, today).value + pointData;
    WrittenDecodes(e, st, today, pointData);
    WrittenPasses(e, st, today);
    FieldsReadBack(e, st, today);
    var fields := AfterWrite(e, st, true, today).(pointFormat := NewPointFormat(st.pointFormat.id),
      vlrs := [], extraHeaderBytes := [], extraVlrBytes := []);
    FormatReadBack(e, st);
    PlacedReadBack(e, s, f, vb + pointData, fields, seekable, st.vlrs, pointData);
    LoadedSteps(e, s, seekable, f, vb + pointData, fields);
  }

  lemma WrittenDecodes(e: Env, st: State, today: Date, pointData: seq<byte>)
    requires Shaped(st) && Calendar.Valid(today) && Written(e, st, true, today).Ok?
    ensures Layout.Decode(Written(e, st, true, today).value + pointData) ==
      Ok((WrittenFixed(e, st, today), e.vlrBytes(st.vlrs) + pointData))
  {
    var f := WrittenFixed(e, st, today);
    WrittenEncodes(e, st, today);
    assert Written(e, st, true, today).value + pointData == Layout.Encode(f) + (e.vlrBytes(st.vlrs) + pointData);
    Layout.DecodeEncode(f, e.vlrBytes(st.vlrs) + pointData);
  }

  /** Once the default header is built, `read_from` is the loading of the
      stream into it; if it cannot be built, its construction raises. */
  lemma ParsedLoads(e: Env, s: seq<byte>, seekable: bool)
    ensures Resolve(e, None, None).Err? ==> Parsed(e, s, seekable) == Err(Resolve(e, None, None).error)
    ensures Resolve(e, None, None).Ok? ==> Parsed(e, s, seekable) == Loaded(e, s, seekable)
  {
  }

  /** The default header `read_from` starts from has no VLRs, no stray
      bytes, zeroed return counts and no waveform or EVLR fields. */
  lemma DefaultIsBlank(e: Env, today: Date)
    ensures Initial(e, DEFAULT_VERSION, NewPointFormat(DEFAULT_POINT_FORMAT_ID), today).Ok?
    ensures var st := Initial(e, DEFAULT_VERSION, NewPointFormat(DEFAULT_POINT_FORMAT_ID), today).value;
      && st.vlrs == [] && st.extraHeaderBytes == [] && st.extraVlrBytes == []
      && st.numberOfPointsByReturn == seq(SLOTS, _ => 0)
      && st.startOfWaveformDataPacketRecord == 0 && st.startOfFirstEvlr == 0 && st.numberOfEvlrs == 0
  {
  }

  lemma LoadedSteps(e: Env, s: seq<byte>, seekable: bool, f: Fixed, rest: seq<byte>, fields: State)
    requires Layout.Decode(s) == Ok((f, rest)) && FieldsRead(e, f) == Ok(fields)
    ensures Loaded(e, s, seekable) == Placed(e, s, f, rest, fields, seekable)
  {
  }

  /** `read_from` raises the error of the first stage that fails. */
  lemma LoadedFails(e: Env, s: seq<byte>, seekable: bool)
    ensures Layout.Decode(s).Err? ==> Loaded(e, s, seekable) == Err(Layout.Decode(s).error)
    ensures Layout.Decode(s).Ok? && FieldsRead(e, Layout.Decode(s).value.0).Err? ==>
      Loaded(e, s, seekable) == Err(FieldsRead(e, Layout.Decode(s).value.0).error)
  {
  }

  /** The VLRs and point format come back from the bytes after a fixed
      region whose header size and offset to point data describe them. */
  lemma PlacedReadBack(e: Env, s: seq<byte>, f: Fixed, rest: seq<byte>, fields: State, seekable: bool,
                       vlrs: seq<Vlr>, pointData: seq<byte>)
    requires Shaped(fields) && fields.extraHeaderBytes == [] && fields.extraVlrBytes == []
    requires HeadersSize(fields.version) == Ok(FixedLen(fields.version.minor))
    requires f.headerSize == FixedLen(fields.version.minor) && |s| == f.headerSize + |rest|
    requires rest == e.vlrBytes(vlrs) + pointData && VlrsReadBack(e, vlrs, pointData)
    requires f.numberOfVlrs == |vlrs| && f.offsetToPointData == f.headerSize + |e.vlrBytes(vlrs)|
    requires FormatRead(e, f.pointFormatId, f.pointSize, vlrs).1 == vlrs
    requires f.pointSize == Size(e, FormatRead(e, f.pointFormatId, f.pointSize, vlrs).0)
    ensures Placed(e, s, f, rest, fields, seekable) ==
      Ok(fields.(pointFormat := FormatRead(e, f.pointFormatId, f.pointSize, vlrs).0, vlrs := vlrs))
  {
    assert rest[..0] == [] && rest[0..] == rest;
    assert rest[|e.vlrBytes(vlrs)|..] == pointData;
  }

  /** The `point_format` setter: refused, with nothing changed, unless the
      format goes with the header's version; otherwise the format is
      replaced and the Extra-Bytes VLR brought in step with it. The setter
      stores the format and extracts the old Extra-Bytes VLRs before the
      copy loops can raise, so on that error both changes stay. */
  function WithPointFormat(e: Env, st: State, pf: PointFormat): (r: Step)
    ensures r.outcome.Fail? <==> !e.compatible(pf.id, ToStr(st.version)) || !DimsFit(pf)
    ensures !e.compatible(pf.id, ToStr(st.version)) ==> r == Step(st, Fail(Incompatible(pf.id, ToStr(st.version))))
    ensures e.compatible(pf.id, ToStr(st.version)) ==> r.state == st.(pointFormat := pf, vlrs := r.state.vlrs)
    ensures e.compatible(pf.id, ToStr(st.version)) && !DimsFit(pf) ==>
      r.outcome == Fail(SlotIndex) && r.state.vlrs == RemoveExtraBytes(st.vlrs)
    ensures r.outcome.Pass? ==> Ok(r.state.vlrs) == Synced(e, st.vlrs, pf)
  {
    if !e.compatible(pf.id, ToStr(st.version)) then Step(st, Fail(Incompatible(pf.id, ToStr(st.version))))
    else Sync(e, st.(pointFormat := pf))
  }

  /** The `version` setter: refused unless the header's point format goes
      with the new version. */
  function WithVersion(e: Env, st: State, v: Version): (r: Result<State>)
    ensures r.Err? <==> !e.compatible(st.pointFormat.id, ToStr(v))
    ensures r.Err? ==> r.error == Incompatible(st.pointFormat.id, ToStr(v))
  {
    if !e.compatible(st.pointFormat.id, ToStr(v)) then Err(Incompatible(st.pointFormat.id, ToStr(v)))
    else Ok(st.(version := v))
  }

  /** `set_version_and_point_format`: the pair is checked once, with nothing
      changed when it is refused, then the version is stored and the format
      set through its setter; the version stays stored when that raises. */
  function WithVersionAndPointFormat(e: Env, st: State, v: Version, pf: PointFormat): (r: Step)
    ensures r.outcome.Fail? <==> !e.compatible(pf.id, ToStr(v)) || !DimsFit(pf)
    ensures !e.compatible(pf.id, ToStr(v)) ==> r == Step(st, Fail(Incompatible(pf.id, ToStr(v))))
    ensures e.compatible(pf.id, ToStr(v)) ==> r.state.version == v && r.state.pointFormat == pf
  {
    if !e.compatible(pf.id, ToStr(v)) then Step(st, Fail(Incompatible(pf.id, ToStr(v))))
    else WithPointFormat(e, st.(version := v), pf)
  }

  /** `add_extra_dims`: the dimensions appended to the point format in turn,
      then the Extra-Bytes VLR brought in step. The dimensions stay appended
      when that raises. */
  function WithExtraDims(e: Env, st: State, dims: seq<ExtraDim>): (r: Step)
    ensures r.state.pointFormat == st.pointFormat.(extraDims := st.pointFormat.extraDims + dims)
    ensures r.outcome.Fail? <==> !DimsFit(r.state.pointFormat)
    ensures r.outcome.Fail? ==> r.outcome.error == SlotIndex
  {
    Sync(e, st.(pointFormat := st.pointFormat.(extraDims := st.pointFormat.extraDims + dims)))
  }

  /** `partial_reset`: a new creation date, no points, zero extrema and
      return counts, and no EVLRs. */
  function Reset(st: State, today: Date): (r: State)
    ensures Shaped(st) && Calendar.Valid(today) ==> Shaped(r)
  {
    st.(creationDate := Some(today), pointCount := 0,
      maxs := seq(3, _ => ZERO_DOUBLE), mins := seq(3, _ => ZERO_DOUBLE),
      numberOfPointsByReturn := seq(SLOTS, _ => 0), startOfFirstEvlr := 0, numberOfEvlrs := 0)
  }

  /** One point of a batch: its raw integer coordinates and return number. */
  datatype Point = Point(x: int, y: int, z: int, returnNumber: nat)

  function Xs(points: seq<Point>): (r: seq<int>)
    ensures |r| == |points| && forall i :: 0 <= i < |points| ==> r[i] == points[i].x
  {
    seq(|points|, i requires 0 <= i < |points| => points[i].x)
  }

  function Ys(points: seq<Point>): (r: seq<int>)
    ensures |r| == |points| && forall i :: 0 <= i < |points| ==> r[i] == points[i].y
  {
    seq(|points|, i requires 0 <= i < |points| => points[i].y)
  }

  function Zs(points: seq<Point>): (r: seq<int>)
    ensures |r| == |points| && forall i :: 0 <= i < |points| ==> r[i] == points[i].z
  {
    seq(|points|, i requires 0 <= i < |points| => points[i].z)
  }

  function ReturnNumbers(points: seq<Point>): (r: seq<nat>)
    ensures |r| == |points| && forall i :: 0 <= i < |points| ==> r[i] == points[i].returnNumber
  {
    seq(|points|, i requires 0 <= i < |points| => points[i].returnNumber)
  }

  /** Python's `max(a, b)`: `a` unless `b` compares greater. */
  function PyMax(e: Env, a: Double, b: Double): Double {
    if e.greater(b, a) then b else a
  }

  /** Python's `min(a, b)`: `a` unless `b` compares less. */
  function PyMin(e: Env, a: Double, b: Double): Double {
    if e.greater(a, b) then b else a
  }

  /** The extrema after `update`: each one is the old one or the scaled
      extreme raw coordinate of the batch, whichever compares further out. */
  function Stretched(e: Env, current: seq<Double>, scales: seq<Double>, offsets: seq<Double>,
                     extremes: seq<int>, outward: bool): (r: seq<Double>)
    requires |current| == 3 && |scales| == 3 && |offsets| == 3 && |extremes| == 3
    ensures |r| == 3
  {
    [StretchedAxis(e, current, scales, offsets, extremes, outward, 0),
     StretchedAxis(e, current, scales, offsets, extremes, outward, 1),
     StretchedAxis(e, current, scales, offsets, extremes, outward, 2)]
  }

  /** Axis i of `Stretched`: the current extreme or the scaled candidate. */
  function StretchedAxis(e: Env, current: seq<Double>, scales: seq<Double>, offsets: seq<Double>,
                         extremes: seq<int>, outward: bool, i: nat): Double
    requires |current| == 3 && |scales| == 3 && |offsets| == 3 && |extremes| == 3 && i < 3
  {
    var candidate := e.scaled(extremes[i], scales[i], offsets[i]);
    if outward then PyMax(e, current[i], candidate) else PyMin(e, current[i], candidate)
  }

  /** `update`: the maximum of an empty batch raises before anything
      changes; otherwise the extrema are stretched to the batch, the return
      counts tallied and the point count grown by the batch size. */
  function Updated(e: Env, st: State, points: seq<Point>): (r: Result<State>)
    requires Shaped(st)
    ensures r.Err? <==> points == []
    ensures r.Err? ==> r.error == EmptyBatch
    ensures r.Ok? ==> Shaped(r.value)
    ensures r.Ok? ==> r.value.pointCount == st.pointCount + |points|
  {
    if points == [] then Err(EmptyBatch)
    else
      var xs, ys, zs := Xs(points), Ys(points), Zs(points);
      Ok(st.(
        maxs := Stretched(e, st.maxs, st.scales, st.offsets, [SeqMax(xs), SeqMax(ys), SeqMax(zs)], true),
        mins := Stretched(e, st.mins, st.scales, st.offsets, [SeqMin(xs), SeqMin(ys), SeqMin(zs)], false),
        numberOfPointsByReturn := Tallied(st.numberOfPointsByReturn, ReturnNumbers(points)),
        pointCount := st.pointCount + |points|))
  }

  /** The Extra-Bytes VLR codec reads these dimensions back from the
      sub-records built for them, and they take some bytes. */
  predicate RoundTripsDims(e: Env, dims: seq<ExtraDim>) {
    dims == [] || (EbStructs(e, dims).Ok? && e.extraDimsOfVlr(EbStructs(e, dims).value) == dims && ExtraSize(dims) > 0)
  }

  /** Setting a point format leaves the Extra-Bytes VLR in step with it, as
      reading the header back requires. */
  lemma SetFormatDescribes(e: Env, st: State, pf: PointFormat)
    requires WithPointFormat(e, st, pf).outcome.Pass? && RoundTripsDims(e, pf.extraDims)
    ensures ExtraBytesDescribe(e, WithPointFormat(e, st, pf).state)
  {
    SyncedShape(e, st.vlrs, pf);
    if pf.extraDims != [] {
      SyncedFirstExtraBytes(e, st.vlrs, pf);
    }
  }

  /** Adding extra dimensions grows the point size by their bytes, whether
      or not the synchronisation then raises. When it does not, the VLR list
      holds one Extra-Bytes VLR with a sub-record for every extra dimension,
      old and new, in order; when it does, it holds none. */
  lemma ExtraDimsGrow(e: Env, st: State, dims: seq<ExtraDim>)
    ensures var r := WithExtraDims(e, st, dims);
      && Size(e, r.state.pointFormat) == Size(e, st.pointFormat) + ExtraSize(dims)
      && r.state.pointFormat.id == st.pointFormat.id
      && (r.outcome.Fail? ==> CountExtraBytes(r.state.vlrs) == 0)
      && (r.outcome.Pass? && r.state.pointFormat.extraDims != [] ==>
            && CountExtraBytes(r.state.vlrs) == 1
            && EbStructs(e, st.pointFormat.extraDims + dims).Ok?
            && FirstExtraBytes(r.state.vlrs) == Some(ExtraBytesVlr(EbStructs(e, st.pointFormat.extraDims + dims).value)))
  {
    var r := WithExtraDims(e, st, dims);
    ExtraSizeAppend(st.pointFormat.extraDims, dims);
    SyncedShape(e, st.vlrs, r.state.pointFormat);
    if r.outcome.Pass? && r.state.pointFormat.extraDims != [] {
      SyncedFirstExtraBytes(e, st.vlrs, r.state.pointFormat);
    }
  }

  /** Setting the version and the format together raises what setting the
      version and then the format raises, whenever that first step is
      allowed, and leaves the same header when the new pair goes together;
      when it does not, the combined call leaves the version as it was where
      the two steps leave it set. The combined call also succeeds when the
      old format does not go with the new version. */
  lemma VersionThenFormat(e: Env, st: State, v: Version, pf: PointFormat)
    requires WithVersion(e, st, v).Ok?
    ensures WithVersionAndPointFormat(e, st, v, pf).outcome == WithPointFormat(e, WithVersion(e, st, v).value, pf).outcome
    ensures e.compatible(pf.id, ToStr(v)) ==>
      WithVersionAndPointFormat(e, st, v, pf) == WithPointFormat(e, WithVersion(e, st, v).value, pf)
    ensures !e.compatible(pf.id, ToStr(v)) ==>
      && WithVersionAndPointFormat(e, st, v, pf).state == st
      && WithPointFormat(e, WithVersion(e, st, v).value, pf).state.version == v
  {
  }

  /** The new extrema: each one is the old value or the scaled extreme of
      the batch, and the latter whenever it compares further out. */
  lemma UpdatedExtrema(e: Env, st: State, points: seq<Point>, i: nat)
    requires Shaped(st) && points != [] && i < 3
    ensures var r := Updated(e, st, points).value;
      var hi := e.scaled([SeqMax(Xs(points)), SeqMax(Ys(points)), SeqMax(Zs(points))][i], st.scales[i], st.offsets[i]);
      var lo := e.scaled([SeqMin(Xs(points)), SeqMin(Ys(points)), SeqMin(Zs(points))][i], st.scales[i], st.offsets[i]);
      && (e.greater(hi, st.maxs[i]) ==> r.maxs[i] == hi) && (!e.greater(hi, st.maxs[i]) ==> r.maxs[i] == st.maxs[i])
      && (e.greater(st.mins[i], lo) ==> r.mins[i] == lo) && (!e.greater(st.mins[i], lo) ==> r.mins[i] == st.mins[i])
  {
  }

  /** When the comparison is asymmetric, as an order is, a batch never pulls
      a maximum down or a minimum up. */
  lemma ExtremaMonotone(e: Env, st: State, points: seq<Point>, i: nat)
    requires Shaped(st) && points != [] && i < 3
    requires forall a, b :: e.greater(a, b) ==> !e.greater(b, a)
    ensures var r := Updated(e, st, points).value;
      !e.greater(st.maxs[i], r.maxs[i]) && !e.greater(r.mins[i], st.mins[i])
  {
    UpdatedExtrema(e, st, points, i);
  }

  /** Two batches counted one after the other count as their concatenation
      does, in the return counts and in the point count. */
  lemma UpdatedTwice(e: Env, st: State, a: seq<Point>, b: seq<Point>)
    requires Shaped(st) && a != [] && b != []
    ensures var once := Updated(e, st, a).value;
      var both := Updated(e, st, a + b).value;
      && Updated(e, once, b).value.numberOfPointsByReturn == both.numberOfPointsByReturn
      && Updated(e, once, b).value.pointCount == both.pointCount
  {
    assert ReturnNumbers(a + b) == ReturnNumbers(a) + ReturnNumbers(b);
    TalliedTwice(st.numberOfPointsByReturn, ReturnNumbers(a), ReturnNumbers(b));
  }

  /** After `partial_reset`, one batch leaves in each return-count slot the
      number of its points with that return number (modulo 2^32), and its size
      as the point count. */
  lemma ResetThenUpdate(e: Env, st: State, today: Date, points: seq<Point>)
    requires Shaped(st) && Calendar.Valid(today) && points != []
    ensures var r := Updated(e, Reset(st, today), points).value;
      && r.pointCount == |points|
      && forall j :: 0 <= j < SLOTS ==> r.numberOfPointsByReturn[j] == CountOf(ReturnNumbers(points), j + 1) % U32
  {
    var zero := Reset(st, today);
    assert zero.numberOfPointsByReturn == seq(SLOTS, _ => 0);
    var h := Tallied(zero.numberOfPointsByReturn, ReturnNumbers(points));
    assert forall j :: 0 <= j < SLOTS ==> h[j] == CountOf(ReturnNumbers(points), j + 1) % U32;
  }
}

/** The collaborators the header leans on: point formats with their extra
    dimensions, the VLR list, the Extra-Bytes VLR and its sub-records, and the
    functions of other modules the header calls, passed in as values. */
module Formats {

  import opened Wrappers
  import opened Bytes

  /** An IEEE-754 double as its 8 stored bytes; never interpreted here. */
  type Double = d: seq<byte> | |d| == 8 witness [0, 0, 0, 0, 0, 0, 0, 0]

  /** `0.0` as 8 bytes: the fill of `np.zeros` and of a fresh Extra-Bytes
      sub-record's scale and offset slots. */
  const ZERO_DOUBLE: Double := [0, 0, 0, 0, 0, 0, 0, 0]

  /** One extra dimension of a point format (laspy's dimension info): its
      type string (such as "u1" or "3f8"), element count and element byte
      size, and optional per-element scales and offsets. */
  datatype ExtraDim = ExtraDim(
    name: string,
    description: string,
    typeStr: string,
    numElements: nat,
    elementSize: nat,
    scales: Option<seq<Double>>,
    offsets: Option<seq<Double>>)

  /** A point format: its id and the extra dimensions appended to it. */
  datatype PointFormat = PointFormat(id: nat, extraDims: seq<ExtraDim>)

  /** One sub-record of the Extra-Bytes VLR (`ExtraBytesStruct`). */
  datatype EbStruct = EbStruct(
    name: string,
    description: string,
    dataType: nat,
    options: nat,
    scaleIsRelevant: bool,
    offsetIsRelevant: bool,
    scale: seq<Double>,
    offset: seq<Double>)

  /** A VLR: the Extra-Bytes VLR (record id 4), or any other record, whose
      contents this model carries along unread. */
  datatype Vlr =
    | ExtraBytesVlr(structs: seq<EbStruct>)
    | OtherVlr(userId: string, recordId: nat, description: string, payload: seq<byte>)

  /** Functions of other modules that the header calls, as values:
      - `compatible`: `dims.raise_if_version_not_compatible_with_fmt` does not raise;
      - `minPointFormatForVersion`, `preferredVersionForPointFormat`: the `dims` tables;
      - `baseSize`: `PointFormat(id).size` without extra dimensions;
      - `typeIdOf`: `extradims.get_id_for_extra_dim_type`;
      - `isCompressed`, `compressedToUncompressed`, `uncompressedToCompressed`:
        the LAZ point-format id maps;
      - `extraDimsOfVlr`: `ExtraBytesVlr.type_of_extra_dims`;
      - `vlrBytes`: `VLRList.write_to` into a buffer;
      - `readVlrs`: `VLRList.read_from` with a record count, giving the records
        and the number of bytes consumed, or nothing when it raises;
      - `greater`: `>` on two doubles; `scaled`: `raw * scale + offset`. */
  datatype Env = Env(
    compatible: (nat, string) -> bool,
    minPointFormatForVersion: string -> nat,
    preferredVersionForPointFormat: nat -> string,
    baseSize: nat -> nat,
    typeIdOf: string -> nat,
    isCompressed: nat -> bool,
    compressedToUncompressed: nat -> nat,
    uncompressedToCompressed: nat -> nat,
    extraDimsOfVlr: seq<EbStruct> -> seq<ExtraDim>,
    vlrBytes: seq<Vlr> -> seq<byte>,
    readVlrs: (seq<byte>, nat) -> Option<(seq<Vlr>, nat)>,
    greater: (Double, Double) -> bool,
    scaled: (int, Double, Double) -> Double)

  /** Bytes taken by the extra dimensions of one point record. */
  function ExtraSize(dims: seq<ExtraDim>): nat {
    if dims == [] then 0 else dims[0].numElements * dims[0].elementSize + ExtraSize(dims[1..])
  }

  /** `point_format.size`: the base record plus every extra dimension. */
  function Size(e: Env, pf: PointFormat): nat {
    e.baseSize(pf.id) + ExtraSize(pf.extraDims)
  }

  /** `PointFormat(id)`: a format with no extra dimensions. */
  function NewPointFormat(id: nat): (pf: PointFormat)
    ensures pf.id == id && pf.extraDims == []
  {
    PointFormat(id, [])
  }

  /** `PointFormat.add_extra_dimension`: the dimension goes last. */
  function AddExtraDimension(pf: PointFormat, dim: ExtraDim): (r: PointFormat)
    ensures r.id == pf.id && r.extraDims == pf.extraDims + [dim]
  {
    pf.(extraDims := pf.extraDims + [dim])
  }

  lemma {:induction false} ExtraSizeAppend(a: seq<ExtraDim>, b: seq<ExtraDim>)
    ensures ExtraSize(a + b) == ExtraSize(a) + ExtraSize(b)
  {
    if a == [] {
      assert a + b == b;
    } else {
      assert (a + b)[1..] == a[1..] + b;
      ExtraSizeAppend(a[1..], b);
    }
  }

  /** Adding a dimension grows the point size by that dimension's bytes. */
  lemma AddExtraDimensionSize(e: Env, pf: PointFormat, dim: ExtraDim)
    ensures Size(e, AddExtraDimension(pf, dim)) == Size(e, pf) + dim.numElements * dim.elementSize
  {
    ExtraSizeAppend(pf.extraDims, [dim]);
  }

  /** The scale/offset copy loops index a 3-slot array with the element
      count and read that many given values; a dimension that breaks this
      makes them raise an IndexError. */
  predicate DimFits(dim: ExtraDim) {
    && (dim.scales.Some? ==> dim.numElements <= 3 && dim.numElements <= |dim.scales.value|)
    && (dim.offsets.Some? ==> dim.numElements <= 3 && dim.numElements <= |dim.offsets.value|)
  }

  predicate DimsFit(pf: PointFormat) {
    forall i :: 0 <= i < |pf.extraDims| ==> DimFits(pf.extraDims[i])
  }

  /** `type_str[-2:] == "u1"`. */
  predicate EndsWithU1(t: string) {
    |t| >= 2 && t[|t| - 2..] == "u1"
  }

  /** The sub-record that `_sync_extra_bytes_vlr` builds for one dimension:
      an undocumented byte array (type 0, count in `options`) for more than
      three single unsigned bytes, the looked-up type id otherwise; the scale
      and offset flags set exactly when those values are given, and the first
      `numElements` slots copied from them, the other slots left at 0. A
      dimension whose copy loop runs past the 3 slots or past the values it
      gives raises instead. */
  function EbStructOf(e: Env, dim: ExtraDim): (r: Result<EbStruct>)
    ensures r.Ok? <==> DimFits(dim)
    ensures r.Err? ==> r.error == SlotIndex
    ensures r.Ok? ==> r.value.name == dim.name && r.value.description == dim.description
    ensures r.Ok? && dim.numElements > 3 && EndsWithU1(dim.typeStr) ==> r.value.dataType == 0 && r.value.options == dim.numElements
    ensures r.Ok? && !(dim.numElements > 3 && EndsWithU1(dim.typeStr)) ==> r.value.dataType == e.typeIdOf(dim.typeStr) && r.value.options == 0
    ensures r.Ok? ==> (r.value.scaleIsRelevant <==> dim.scales.Some?)
    ensures r.Ok? ==> (r.value.offsetIsRelevant <==> dim.offsets.Some?)
    ensures r.Ok? ==> |r.value.scale| == 3 && |r.value.offset| == 3
    ensures r.Ok? ==> forall i :: 0 <= i < 3 ==> r.value.scale[i] == (if dim.scales.Some? && i < dim.numElements then dim.scales.value[i] else ZERO_DOUBLE)
    ensures r.Ok? ==> forall i :: 0 <= i < 3 ==> r.value.offset[i] == (if dim.offsets.Some? && i < dim.numElements then dim.offsets.value[i] else ZERO_DOUBLE)
  {
    if !DimFits(dim) then Err(SlotIndex)
    else
    var undocumented := dim.numElements > 3 && EndsWithU1(dim.typeStr);
    Ok(EbStruct(
      dim.name,
      dim.description,
      if undocumented then 0 else e.typeIdOf(dim.typeStr),
      if undocumented then dim.numElements else 0,
      dim.scales.Some?,
      dim.offsets.Some?,
      Slots(dim.scales, dim.numElements),
      Slots(dim.offsets, dim.numElements)))
  }

  /** A 3-slot array of doubles: the first n given values, zero elsewhere. */
  function Slots(values: Option<seq<Double>>, n: nat): (r: seq<Double>)
    requires values.Some? ==> n <= 3 && n <= |values.value|
  {
    seq(3, i requires 0 <= i < 3 => if values.Some? && i < n then values.value[i] else ZERO_DOUBLE)
  }

  /** The sub-records of a list of dimensions, in order; the first dimension
      that does not fit its slots raises. */
  function EbStructs(e: Env, dims: seq<ExtraDim>): (r: Result<seq<EbStruct>>)
    ensures r.Ok? <==> forall i :: 0 <= i < |dims| ==> DimFits(dims[i])
    ensures r.Err? ==> r.error == SlotIndex
    ensures r.Ok? ==> |r.value| == |dims| && forall i :: 0 <= i < |dims| ==> EbStructOf(e, dims[i]) == Ok(r.value[i])
  {
    if dims == [] then Ok([])
    else
      var init :- EbStructs(e, dims[..|dims| - 1]);
      var last :- EbStructOf(e, dims[|dims| - 1]);
      Ok(init + [last])
  }

  /** `VLRList.extract("ExtraBytesVlr")`: every Extra-Bytes VLR removed, the
      others kept in order. */
  function RemoveExtraBytes(vlrs: seq<Vlr>): (r: seq<Vlr>)
    ensures CountExtraBytes(r) == 0
    ensures |r| <= |vlrs|
    ensures forall v :: v in r <==> v in vlrs && !v.ExtraBytesVlr?
  {
    if vlrs == [] then []
    else if vlrs[0].ExtraBytesVlr? then RemoveExtraBytes(vlrs[1..])
    else [vlrs[0]] + RemoveExtraBytes(vlrs[1..])
  }

  function CountExtraBytes(vlrs: seq<Vlr>): nat {
    if vlrs == [] then 0 else (if vlrs[0].ExtraBytesVlr? then 1 else 0) + CountExtraBytes(vlrs[1..])
  }

  /** `vlrs.get("ExtraBytesVlr")[0]`, or nothing (the IndexError path). */
  function FirstExtraBytes(vlrs: seq<Vlr>): (r: Option<Vlr>)
    ensures r.Some? ==> r.value in vlrs && r.value.ExtraBytesVlr?
    ensures r.None? <==> CountExtraBytes(vlrs) == 0
  {
    if vlrs == [] then None
    else if vlrs[0].ExtraBytesVlr? then Some(vlrs[0])
    else FirstExtraBytes(vlrs[1..])
  }

  /** The VLR list after `_sync_extra_bytes_vlr`: the old Extra-Bytes VLRs
      removed, and one describing the format's extra dimensions appended when
      there are any; or the IndexError of a dimension that does not fit. */
  function Synced(e: Env, vlrs: seq<Vlr>, pf: PointFormat): Result<seq<Vlr>> {
    var kept := RemoveExtraBytes(vlrs);
    if pf.extraDims == [] then Ok(kept)
    else
      var structs :- EbStructs(e, pf.extraDims);
      Ok(kept + [ExtraBytesVlr(structs)])
  }

  lemma {:induction false} CountAppend(a: seq<Vlr>, b: seq<Vlr>)
    ensures CountExtraBytes(a + b) == CountExtraBytes(a) + CountExtraBytes(b)
  {
    if a == [] {
      assert a + b == b;
    } else {
      assert (a + b)[1..] == a[1..] + b;
      CountAppend(a[1..], b);
    }
  }

  lemma {:induction false} RemoveAppend(a: seq<Vlr>, b: seq<Vlr>)
    ensures RemoveExtraBytes(a + b) == RemoveExtraBytes(a) + RemoveExtraBytes(b)
  {
    if a == [] {
      assert a + b == b;
    } else {
      assert (a + b)[1..] == a[1..] + b;
      RemoveAppend(a[1..], b);
    }
  }

  /** Removing from a list that holds no Extra-Bytes VLR changes nothing. */
  lemma {:induction false} RemoveNone(vlrs: seq<Vlr>)
    requires CountExtraBytes(vlrs) == 0
    ensures RemoveExtraBytes(vlrs) == vlrs
  {
    if vlrs != [] {
      RemoveNone(vlrs[1..]);
    }
  }

  /** Synchronisation raises exactly when some extra dimension does not fit
      its slots. Otherwise the list holds no Extra-Bytes VLR when the format
      has no extra dimensions, and exactly one, at the end, with one
      sub-record per dimension in order, when it has some; the other VLRs are
      untouched. */
  lemma SyncedShape(e: Env, vlrs: seq<Vlr>, pf: PointFormat)
    ensures var r := Synced(e, vlrs, pf);
      && (r.Ok? <==> DimsFit(pf))
      && (r.Err? ==> r.error == SlotIndex)
      && (r.Ok? ==>
            && CountExtraBytes(r.value) == (if pf.extraDims == [] then 0 else 1)
            && RemoveExtraBytes(r.value) == RemoveExtraBytes(vlrs)
            && (pf.extraDims != [] ==>
                  && r.value[|r.value| - 1].ExtraBytesVlr?
                  && |r.value[|r.value| - 1].structs| == |pf.extraDims|
                  && forall i :: 0 <= i < |pf.extraDims| ==> EbStructOf(e, pf.extraDims[i]) == Ok(r.value[|r.value| - 1].structs[i])))
  {
    var kept := RemoveExtraBytes(vlrs);
    RemoveNone(kept);
    if pf.extraDims != [] && DimsFit(pf) {
      var tail := [ExtraBytesVlr(EbStructs(e, pf.extraDims).value)];
      CountAppend(kept, tail);
      RemoveAppend(kept, tail);
      assert tail[1..] == [];
    }
  }

  /** Synchronising twice gives what synchronising once gave. */
  lemma SyncedIdempotent(e: Env, vlrs: seq<Vlr>, pf: PointFormat)
    ensures Synced(e, vlrs, pf).Ok? ==> Synced(e, Synced(e, vlrs, pf).value, pf) == Synced(e, vlrs, pf)
  {
    SyncedShape(e, vlrs, pf);
  }

  /** The Extra-Bytes VLR that a synchronised list holds describes the format. */
  lemma SyncedFirstExtraBytes(e: Env, vlrs: seq<Vlr>, pf: PointFormat)
    requires DimsFit(pf) && pf.extraDims != []
    ensures Synced(e, vlrs, pf).Ok?
    ensures FirstExtraBytes(Synced(e, vlrs, pf).value) == Some(ExtraBytesVlr(EbStructs(e, pf.extraDims).value))
  {
    var rest := RemoveExtraBytes(vlrs);
    var eb := ExtraBytesVlr(EbStructs(e, pf.extraDims).value);
    FirstAfterNone(rest, eb);
  }

  lemma {:induction false} FirstAfterNone(a: seq<Vlr>, v: Vlr)
    requires CountExtraBytes(a) == 0 && v.ExtraBytesVlr?
    ensures FirstExtraBytes(a + [v]) == Some(v)
  {
    if a == [] {
      assert a + [v] == [v];
    } else {
      assert (a + [v])[1..] == a[1..] + [v];
      FirstAfterNone(a[1..], v);
    }
  }
}

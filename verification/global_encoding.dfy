/** The bit-level view of the 16-bit global-encoding register: named masks,
    getters and the setters' bit arithmetic. */
module Flags {

  /** The named views of the register, each backed by one fixed bit. */
  datatype Flag = GpsTime | WaveformInternal | WaveformExternal | SyntheticReturnNumbers | Wkt

  function Mask(f: Flag): bv16 {
    match f
    case GpsTime => 0x0001
    case WaveformInternal => 0x0002
    case WaveformExternal => 0x0004
    case SyntheticReturnNumbers => 0x0008
    case Wkt => 0x0010
  }

  datatype GpsTimeType = WeekTime | Standard

  /** The getters: `bool(value & MASK)`. */
  predicate Has(v: bv16, mask: bv16) {
    v & mask != 0
  }

  /** The bits of v outside mask, those under it cleared. Two values agree
      outside the mask exactly when their `Others` are equal. */
  function Others(v: bv16, mask: bv16): bv16 {
    v & (0xFFFF ^ mask)
  }

  /** `_set_if_true`: OR the mask in (`_set_bit`) for true, XOR it
      (`_unset_bit`) for false. */
  function SetIfTrue(v: bv16, mask: bv16, b: bool): bv16 {
    if b then v | mask else v ^ mask
  }

  /** Setting a flag to true makes its getter true. */
  lemma SetTrueSets(v: bv16, f: Flag)
    ensures Has(SetIfTrue(v, Mask(f), true), Mask(f))
  {
  }

  /** Setting a flag to false flips it: it is cleared only if it was set, and
      a flag that was already clear ends up set. */
  lemma SetFalseFlips(v: bv16, f: Flag)
    ensures Has(SetIfTrue(v, Mask(f), false), Mask(f)) <==> !Has(v, Mask(f))
  {
  }

  /** Setting one flag leaves every other bit of the register as it was. */
  lemma SetIfTrueKeepsOthers(v: bv16, f: Flag, b: bool)
    ensures Others(SetIfTrue(v, Mask(f), b), Mask(f)) == Others(v, Mask(f))
  {
  }

  /** ... and so every other named getter answers as before. */
  lemma SetterIsolation(v: bv16, f: Flag, b: bool, g: Flag)
    requires f != g
    ensures Has(SetIfTrue(v, Mask(f), b), Mask(g)) <==> Has(v, Mask(g))
  {
  }

  /** The `gps_time_type` setter: XOR the mask, then OR in the new bit. */
  function SetGps(v: bv16, t: GpsTimeType): bv16 {
    (v ^ 0x0001) | (if t == Standard then 0x0001 else 0)
  }

  /** STANDARD always reads back; WEEK_TIME flips the bit instead of
      clearing it. */
  lemma SetGpsEffect(v: bv16, t: GpsTimeType)
    ensures Has(SetGps(v, t), Mask(GpsTime)) <==> t == Standard || !Has(v, Mask(GpsTime))
  {
  }

  lemma SetGpsKeepsOthers(v: bv16, t: GpsTimeType)
    ensures Others(SetGps(v, t), Mask(GpsTime)) == Others(v, Mask(GpsTime))
  {
  }

  /** What the setters evidently intend: the flag ends up equal to b (set
      the bit, then flip it back off for false). */
  function Assign(v: bv16, mask: bv16, b: bool): bv16 {
    if b then v | mask else (v | mask) ^ mask
  }

  lemma AssignSets(v: bv16, f: Flag, b: bool)
    ensures Has(Assign(v, Mask(f), b), Mask(f)) <==> b
  {
  }

  lemma AssignKeepsOthers(v: bv16, f: Flag, b: bool)
    ensures Others(Assign(v, Mask(f), b), Mask(f)) == Others(v, Mask(f))
  {
  }

  /** Setting a flag to false when it is already false sets it: on a fresh
      register, `wkt = False` makes `wkt` true and `gps_time_type = WEEK_TIME`
      gives STANDARD. The intended assignment leaves both clear. */
  lemma ClearingAClearFlagSetsIt()
    ensures Has(SetIfTrue(0, Mask(Wkt), false), Mask(Wkt))
    ensures SetGps(0, WeekTime) == Mask(GpsTime)
    ensures !Has(Assign(0, Mask(Wkt), false), Mask(Wkt))
    ensures !Has(Assign(0, Mask(GpsTime), false), Mask(GpsTime))
  {
  }
}

/** The global-encoding register of the LAS header, read and written as 2
    little-endian bytes. */
module GlobalEncodings {

  import opened Bytes
  import opened Flags

  /** The register's value; a Python int that the format stores in 16 bits. */
  type u16 = x: int | 0 <= x < 0x1_0000

  /** `GlobalEncoding.write_to`: the value as 2 little-endian bytes. */
  function Encode(v: u16): (r: seq<byte>)
    ensures |r| == 2
  {
    assert Pow256(2) == 0x1_0000;
    Le(v, 2)
  }

  /** `GlobalEncoding.read_from`: `int.from_bytes(stream.read(2))`. A short
      stream gives fewer bytes and the value of those (0 for none). Returns
      the value and the rest of the stream. */
  function Decode(s: seq<byte>): (r: (u16, seq<byte>))
    ensures |s| >= 2 ==> r.1 == s[2..]
  {
    var n := if |s| < 2 then |s| else 2;
    assert Pow256(2) == 0x1_0000 && (n < 2 ==> Pow256(n) <= 256);
    (LeValue(s[..n]), s[n..])
  }

  /** `read_from(write_to(g)).value == g.value`, leaving the rest of the
      stream for the next field. */
  lemma DecodeEncode(v: u16, rest: seq<byte>)
    ensures Decode(Encode(v) + rest) == (v, rest)
  {
    var s := Encode(v) + rest;
    assert s[..2] == Encode(v) && s[2..] == rest;
  }

  class GlobalEncoding {
    var value: u16

    constructor (value: u16)
      ensures this.value == value
    {
      this.value := value;
    }

    function Bits(): bv16
      reads this
    {
      value as bv16
    }

    function GpsTimeType(): (t: GpsTimeType)
      reads this
      ensures t == Standard <==> Has(Bits(), Mask(GpsTime))
    {
      if Bits() & Mask(GpsTime) == 0 then WeekTime else Standard
    }

    /** The `gps_time_type` setter (XOR the mask, then OR in the new bit). */
    method SetGpsTimeType(t: GpsTimeType)
      modifies this
      ensures Bits() == SetGps(old(Bits()), t)
    {
      value := SetGps(value as bv16, t) as u16;
    }

    function WaveformDataPacketsInternal(): bool
      reads this
    {
      Has(Bits(), Mask(WaveformInternal))
    }

    method SetWaveformDataPacketsInternal(b: bool)
      modifies this
      ensures Bits() == SetIfTrue(old(Bits()), Mask(WaveformInternal), b)
    {
      SetFlag(WaveformInternal, b);
    }

    function WaveformDataPacketsExternal(): bool
      reads this
    {
      Has(Bits(), Mask(WaveformExternal))
    }

    method SetWaveformDataPacketsExternal(b: bool)
      modifies this
      ensures Bits() == SetIfTrue(old(Bits()), Mask(WaveformExternal), b)
    {
      SetFlag(WaveformExternal, b);
    }

    function SyntheticReturnNumbers(): bool
      reads this
    {
      Has(Bits(), Mask(Flag.SyntheticReturnNumbers))
    }

    method SetSyntheticReturnNumbers(b: bool)
      modifies this
      ensures Bits() == SetIfTrue(old(Bits()), Mask(Flag.SyntheticReturnNumbers), b)
    {
      SetFlag(Flag.SyntheticReturnNumbers, b);
    }

    function Wkt(): bool
      reads this
    {
      Has(Bits(), Mask(Flag.Wkt))
    }

    method SetWkt(b: bool)
      modifies this
      ensures Bits() == SetIfTrue(old(Bits()), Mask(Flag.Wkt), b)
    {
      SetFlag(Flag.Wkt, b);
    }

    /** `_set_if_true`: `_set_bit` (OR) for true, `_unset_bit` (XOR) for false. */
    method SetFlag(f: Flag, b: bool)
      modifies this
      ensures Bits() == SetIfTrue(old(Bits()), Mask(f), b)
    {
      value := SetIfTrue(value as bv16, Mask(f), b) as u16;
    }

    method WriteTo() returns (bytes: seq<byte>)
      ensures bytes == Encode(value)
    {
      assert Pow256(2) == 0x1_0000;
      bytes := Le(value, 2);
    }
  }
}

/** The LAS file version: a (major, minor) pair that prints and parses as
    "major.minor" and compares equal to a Version or to a string. */
module Versions {

  import opened Wrappers

  datatype Version = Version(major: nat, minor: nat)

  /** The right-hand side of `Version.__eq__`: another Version or a string. */
  datatype Other = AsVersion(version: Version) | AsString(text: string)

  predicate IsDigit(c: char) {
    '0' <= c <= '9'
  }

  function DigitChar(d: nat): (c: char)
    requires d < 10
    ensures IsDigit(c)
  {
    ('0' as int + d) as char
  }

  function DigitValue(c: char): (d: nat)
    requires IsDigit(c)
    ensures d < 10 && DigitChar(d) == c
  {
    c as int - '0' as int
  }

  /** Decimal rendering of a natural number, as `f"{n}"` does it. */
  function NatToString(n: nat): (r: string)
    ensures |r| > 0 && forall i :: 0 <= i < |r| ==> IsDigit(r[i])
  {
    if n < 10 then [DigitChar(n)] else NatToString(n / 10) + [DigitChar(n % 10)]
  }

  /** Value of a non-empty string of decimal digits (leading zeros allowed). */
  function DigitsValue(s: string): nat
    requires |s| > 0 && forall i :: 0 <= i < |s| ==> IsDigit(s[i])
  {
    if |s| == 1 then DigitValue(s[0])
    else 10 * DigitsValue(s[..|s| - 1]) + DigitValue(s[|s| - 1])
  }

  /** `int(s)` restricted to plain ASCII digit strings; anything else raises. */
  function ParseNat(s: string): (r: Result<nat>)
    ensures r.Ok? <==> |s| > 0 && forall i :: 0 <= i < |s| ==> IsDigit(s[i])
  {
    if |s| > 0 && forall i :: 0 <= i < |s| ==> IsDigit(s[i]) then Ok(DigitsValue(s))
    else Err(VersionFormat)
  }

  /** Number of occurrences of '.' in s. */
  function Dots(s: string): nat {
    if s == [] then 0 else (if s[0] == '.' then 1 else 0) + Dots(s[1..])
  }

  /** Position of the first '.' of s (|s| when there is none). */
  function DotIndex(s: string): (k: nat)
    ensures k <= |s| && (k < |s| ==> s[k] == '.')
    ensures k < |s| <==> Dots(s) > 0
    ensures forall i :: 0 <= i < k ==> s[i] != '.'
  {
    if s == [] then 0 else if s[0] == '.' then 0 else 1 + DotIndex(s[1..])
  }

  /** `str(v)`: "major.minor". */
  function ToStr(v: Version): string {
    NatToString(v.major) + "." + NatToString(v.minor)
  }

  /** `Version.from_str`: split on '.', which must give exactly two parts,
      each converted with `int`; it raises when either part is not a number. */
  function FromStr(s: string): (r: Result<Version>)
    ensures r.Ok? ==> Dots(s) == 1
    ensures r.Err? ==> r.error == VersionFormat
    ensures Dots(s) == 1 ==>
      (r.Ok? <==> ParseNat(s[..DotIndex(s)]).Ok? && ParseNat(s[DotIndex(s) + 1..]).Ok?)
    ensures r.Ok? ==>
      r.value == Version(ParseNat(s[..DotIndex(s)]).value, ParseNat(s[DotIndex(s) + 1..]).value)
  {
    if Dots(s) != 1 then Err(VersionFormat)
    else
      var k := DotIndex(s);
      var major :- ParseNat(s[..k]);
      var minor :- ParseNat(s[k + 1..]);
      Ok(Version(major, minor))
  }

  /** `Version.__eq__`. */
  function Equals(v: Version, other: Other): bool {
    match other
    case AsVersion(w) => w.major == v.major && w.minor == v.minor
    case AsString(s) => ToStr(v) == s
  }

  lemma {:induction false} DigitsOfNat(n: nat)
    ensures DigitsValue(NatToString(n)) == n
  {
    if n >= 10 {
      var s := NatToString(n);
      assert s[..|s| - 1] == NatToString(n / 10);
      DigitsOfNat(n / 10);
    }
  }

  lemma {:induction false} NoDotsInDigits(s: string)
    requires forall i :: 0 <= i < |s| ==> IsDigit(s[i])
    ensures Dots(s) == 0
  {
    if s != [] {
      NoDotsInDigits(s[1..]);
    }
  }

  lemma {:induction false} DotsAppend(a: string, b: string)
    ensures Dots(a + b) == Dots(a) + Dots(b)
  {
    if a == [] {
      assert a + b == b;
    } else {
      assert (a + b)[1..] == a[1..] + b;
      DotsAppend(a[1..], b);
    }
  }

  /** The string form has exactly one '.', right after the major digits. */
  lemma ToStrShape(v: Version)
    ensures Dots(ToStr(v)) == 1
    ensures DotIndex(ToStr(v)) == |NatToString(v.major)|
    ensures ToStr(v)[..|NatToString(v.major)|] == NatToString(v.major)
    ensures ToStr(v)[|NatToString(v.major)| + 1..] == NatToString(v.minor)
  {
    var a, b := NatToString(v.major), NatToString(v.minor);
    NoDotsInDigits(a);
    NoDotsInDigits(b);
    DotsAppend(a, "." + b);
    DotsAppend(".", b);
    assert ToStr(v) == a + ("." + b);
    assert forall i :: 0 <= i < |a| ==> ToStr(v)[i] == a[i] && ToStr(v)[i] != '.';
    assert ToStr(v)[|a|] == '.';
  }

  /** Parsing the printed form gives the version back: `from_str(str(v)) == v`. */
  lemma FromStrToStr(v: Version)
    ensures FromStr(ToStr(v)) == Ok(v)
  {
    ToStrShape(v);
    DigitsOfNat(v.major);
    DigitsOfNat(v.minor);
  }

  /** Different versions print differently, so comparing through strings
      agrees with comparing the fields. */
  lemma ToStrInjective(v: Version, w: Version)
    requires ToStr(v) == ToStr(w)
    ensures v == w
  {
    FromStrToStr(v);
    FromStrToStr(w);
  }

  /** A Version equals another Version exactly when both fields agree, and
      equals the printed form of another Version exactly when the two are the
      same version. */
  lemma EqualsVersion(v: Version, w: Version)
    ensures Equals(v, AsVersion(w)) <==> v == w
    ensures Equals(v, AsString(ToStr(w))) <==> v == w
  {
    if ToStr(v) == ToStr(w) {
      ToStrInjective(v, w);
    }
  }

  /** A string that a Version equals parses back to that Version. */
  lemma EqualsStringParses(v: Version, s: string)
    requires Equals(v, AsString(s))
    ensures FromStr(s) == Ok(v)
  {
    FromStrToStr(v);
  }

  /** Parsing ignores leading zeros while printing never writes them, so a
      Version can parse from a string it does not equal. */
  lemma LeadingZeroNotEqual()
    ensures FromStr("1.02") == Ok(Version(1, 2))
    ensures !Equals(Version(1, 2), AsString("1.02"))
  {
    assert Dots("1.02") == 1;
    assert DotIndex("1.02") == 1;
    assert "1.02"[..1] == "1";
    assert "1.02"[2..] == "02";
    assert DigitsValue("02") == 10 * DigitsValue("0") + 2 by {
      assert "02"[..1] == "0";
    }
    assert ToStr(Version(1, 2)) == "1.2";
  }
}

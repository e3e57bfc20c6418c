/** Little-endian unsigned integers over byte strings, as produced by Python's
    `int.to_bytes(n, "little", signed=False)` and read back by `int.from_bytes`. */
module Bytes {

  import opened Wrappers

  type byte = b: int | 0 <= b < 256

  /** 256^n: the first value that no longer fits in n bytes. */
  function Pow256(n: nat): (r: nat)
    ensures r >= 1
  {
    if n == 0 then 1 else 256 * Pow256(n - 1)
  }

  /** Whether `v.to_bytes(n, ...)` succeeds instead of raising OverflowError. */
  predicate Fits(v: nat, n: nat) {
    v < Pow256(n)
  }

  /** `int.from_bytes(s, "little", signed=False)`. */
  function LeValue(s: seq<byte>): (r: nat)
    ensures r < Pow256(|s|)
  {
    if s == [] then 0 else s[0] + 256 * LeValue(s[1..])
  }

  /** `v.to_bytes(n, "little", signed=False)`; decoding gives `v` back. */
  function Le(v: nat, n: nat): (r: seq<byte>)
    requires Fits(v, n)
    ensures |r| == n && LeValue(r) == v
  {
    if n == 0 then []
    else
      assert v / 256 < Pow256(n - 1);
      [v % 256] + Le(v / 256, n - 1)
  }

  /** n zero bytes (NUL padding, zero-valued fields). */
  function Zeros(n: nat): (r: seq<byte>)
    ensures |r| == n && forall i :: 0 <= i < n ==> r[i] == 0
  {
    seq(n, _ => 0)
  }

  lemma {:induction false} LeZero(n: nat)
    ensures Fits(0, n) && Le(0, n) == Zeros(n)
  {
    if n > 0 {
      LeZero(n - 1);
      assert Le(0, n) == [0] + Le(0, n - 1);
    }
  }

  /** Encoding is injective on the values that fit: two values with the same
      bytes are equal. */
  lemma LeInjective(v: nat, w: nat, n: nat)
    requires Fits(v, n) && Fits(w, n) && Le(v, n) == Le(w, n)
    ensures v == w
  {
    assert LeValue(Le(v, n)) == LeValue(Le(w, n));
  }

  lemma DivMod256(lo: nat, hi: nat)
    requires lo < 256
    ensures (lo + 256 * hi) % 256 == lo && (lo + 256 * hi) / 256 == hi
  {
  }

  /** Every byte string is the encoding of its own value. */
  lemma {:induction false} LeOfValue(s: seq<byte>)
    ensures Fits(LeValue(s), |s|) && Le(LeValue(s), |s|) == s
  {
    if s != [] {
      LeOfValue(s[1..]);
      DivMod256(s[0], LeValue(s[1..]));
    }
  }

  /** Concatenation of a list of fields, first field first. */
  function Concat(cs: seq<seq<byte>>): (r: seq<byte>)
    ensures |r| == Sum(Widths(cs))
  {
    if cs == [] then [] else cs[0] + Concat(cs[1..])
  }

  /** The width of every field of a list. */
  function Widths(cs: seq<seq<byte>>): (r: seq<nat>)
    ensures |r| == |cs| && forall i :: 0 <= i < |cs| ==> r[i] == |cs[i]|
  {
    if cs == [] then [] else [|cs[0]|] + Widths(cs[1..])
  }

  function Sum(ws: seq<nat>): nat {
    if ws == [] then 0 else ws[0] + Sum(ws[1..])
  }

  lemma {:induction false} SumAppend(a: seq<nat>, b: seq<nat>)
    ensures Sum(a + b) == Sum(a) + Sum(b)
  {
    if a != [] {
      assert (a + b)[1..] == a[1..] + b;
      SumAppend(a[1..], b);
    } else {
      assert a + b == b;
    }
  }

  /** Writing one more field after a list of fields appends its bytes. */
  lemma {:induction false} ConcatSnoc(cs: seq<seq<byte>>, c: seq<byte>)
    ensures Concat(cs + [c]) == Concat(cs) + c
  {
    if cs != [] {
      assert (cs + [c])[1..] == cs[1..] + [c];
      ConcatSnoc(cs[1..], c);
    }
  }

  lemma {:induction false} ConcatAppend(a: seq<seq<byte>>, b: seq<seq<byte>>)
    ensures Concat(a + b) == Concat(a) + Concat(b)
  {
    if a != [] {
      assert (a + b)[1..] == a[1..] + b;
      ConcatAppend(a[1..], b);
    } else {
      assert a + b == b;
    }
  }

  /** Reading consecutive fields of the given widths from a stream, as a
      sequence of `stream.read(w)` calls; a short read is `None`. Returns the
      fields and what remains of the stream. */
  function Split(s: seq<byte>, ws: seq<nat>): (r: Option<(seq<seq<byte>>, seq<byte>)>)
    ensures r.Some? ==> Widths(r.value.0) == ws && s == Concat(r.value.0) + r.value.1
    ensures r.None? <==> |s| < Sum(ws)
  {
    if ws == [] then Some(([], s))
    else if |s| < ws[0] then None
    else
      match Split(s[ws[0]..], ws[1..])
      case None => None
      case Some((cs, rest)) =>
        ConsField(s[..ws[0]], cs);
        Joins2(s, ws[0]);
        Some(([s[..ws[0]]] + cs, rest))
  }

  /** A field in front of a list of fields: its bytes come first. */
  lemma ConsField(c: seq<byte>, cs: seq<seq<byte>>)
    ensures Concat([c] + cs) == c + Concat(cs) && Widths([c] + cs) == [|c|] + Widths(cs)
  {
    assert ([c] + cs)[1..] == cs;
  }

  /** Reading back a list of fields recovers them and leaves the rest of the
      stream untouched. */
  lemma {:induction false} SplitConcat(cs: seq<seq<byte>>, rest: seq<byte>)
    ensures Split(Concat(cs) + rest, Widths(cs)) == Some((cs, rest))
  {
    if cs != [] {
      var ws := Widths(cs);
      var tail := Concat(cs[1..]) + rest;
      var s := Concat(cs) + rest;
      assert s == cs[0] + tail;
      assert ws[0] == |cs[0]| && ws[1..] == Widths(cs[1..]);
      assert s[..ws[0]] == cs[0] && s[ws[0]..] == tail;
      SplitConcat(cs[1..], rest);
      assert [cs[0]] + cs[1..] == cs;
    } else {
      assert Concat(cs) + rest == rest;
    }
  }

  /** Where each part of a concatenation sits. */
  lemma Parts2(a: seq<byte>, b: seq<byte>)
    ensures (a + b)[..|a|] == a && (a + b)[|a|..] == b
  {
  }

  /** Slicing within a prefix is slicing the whole. */
  lemma SliceOfPrefix(s: seq<byte>, i: nat, k: nat, j: nat)
    requires i <= k <= j <= |s|
    ensures s[..j][..k] == s[..k] && s[..j][i..k] == s[i..k]
  {
  }

  lemma Parts3(a: seq<byte>, b: seq<byte>, c: seq<byte>)
    ensures var s := a + b + c;
      s[..|a|] == a && s[|a|..|a| + |b|] == b && s[|a| + |b|..] == c
  {
    var s := a + b + c;
    Parts2(a + b, c);
    Parts2(a, b);
    SliceOfPrefix(s, |a|, |a| + |b|, |a| + |b|);
    SliceOfPrefix(s, 0, |a|, |a| + |b|);
  }

  lemma Parts4(a: seq<byte>, b: seq<byte>, c: seq<byte>, d: seq<byte>)
    ensures var s := a + b + c + d;
      var i, j, k := |a|, |a| + |b|, |a| + |b| + |c|;
      s[..i] == a && s[i..j] == b && s[j..k] == c && s[k..] == d
  {
    var s := a + b + c + d;
    var i, j, k := |a|, |a| + |b|, |a| + |b| + |c|;
    Parts2(a + b + c, d);
    Parts3(a, b, c);
    SliceOfPrefix(s, 0, i, k);
    SliceOfPrefix(s, i, j, k);
    SliceOfPrefix(s, j, k, k);
  }

  lemma Parts5(a: seq<byte>, b: seq<byte>, c: seq<byte>, d: seq<byte>, e: seq<byte>)
    ensures var s := a + b + c + d + e;
      var i1, i2, i3, i4 := |a|, |a| + |b|, |a| + |b| + |c|, |a| + |b| + |c| + |d|;
      s[..i1] == a && s[i1..i2] == b && s[i2..i3] == c && s[i3..i4] == d && s[i4..] == e
  {
    var s := a + b + c + d + e;
    var i1, i2, i3, i4 := |a|, |a| + |b|, |a| + |b| + |c|, |a| + |b| + |c| + |d|;
    Parts2(a + b + c + d, e);
    Parts4(a, b, c, d);
    SliceOfPrefix(s, 0, i1, i4);
    SliceOfPrefix(s, i1, i2, i4);
    SliceOfPrefix(s, i2, i3, i4);
    SliceOfPrefix(s, i3, i4, i4);
  }

  lemma Parts6(a: seq<byte>, b: seq<byte>, c: seq<byte>, d: seq<byte>, e: seq<byte>, f: seq<byte>)
    ensures var s := a + b + c + d + e + f;
      var i1, i2, i3 := |a|, |a| + |b|, |a| + |b| + |c|;
      var i4, i5 := i3 + |d|, i3 + |d| + |e|;
      s[..i1] == a && s[i1..i2] == b && s[i2..i3] == c && s[i3..i4] == d && s[i4..i5] == e && s[i5..] == f
  {
    var s := a + b + c + d + e + f;
    var i1, i2, i3 := |a|, |a| + |b|, |a| + |b| + |c|;
    var i4, i5 := i3 + |d|, i3 + |d| + |e|;
    Parts2(a + b + c + d + e, f);
    Parts5(a, b, c, d, e);
    SliceOfPrefix(s, 0, i1, i5);
    SliceOfPrefix(s, i1, i2, i5);
    SliceOfPrefix(s, i2, i3, i5);
    SliceOfPrefix(s, i3, i4, i5);
    SliceOfPrefix(s, i4, i5, i5);
  }

  lemma Parts7(a: seq<byte>, b: seq<byte>, c: seq<byte>, d: seq<byte>, e: seq<byte>, f: seq<byte>, g: seq<byte>)
    ensures var s := a + b + c + d + e + f + g;
      var i1, i2, i3 := |a|, |a| + |b|, |a| + |b| + |c|;
      var i4, i5, i6 := i3 + |d|, i3 + |d| + |e|, i3 + |d| + |e| + |f|;
      s[..i1] == a && s[i1..i2] == b && s[i2..i3] == c && s[i3..i4] == d && s[i4..i5] == e
        && s[i5..i6] == f && s[i6..] == g
  {
    var s := a + b + c + d + e + f + g;
    var i1, i2, i3 := |a|, |a| + |b|, |a| + |b| + |c|;
    var i4, i5, i6 := i3 + |d|, i3 + |d| + |e|, i3 + |d| + |e| + |f|;
    Parts2(a + b + c + d + e + f, g);
    Parts6(a, b, c, d, e, f);
    SliceOfPrefix(s, 0, i1, i6);
    SliceOfPrefix(s, i1, i2, i6);
    SliceOfPrefix(s, i2, i3, i6);
    SliceOfPrefix(s, i3, i4, i6);
    SliceOfPrefix(s, i4, i5, i6);
    SliceOfPrefix(s, i5, i6, i6);
  }

  /** A sequence is the concatenation of its consecutive slices. */
  lemma Joins2(s: seq<byte>, i: nat)
    requires i <= |s|
    ensures s == s[..i] + s[i..]
  {
  }

  lemma Joins3(s: seq<byte>, i1: nat, i2: nat)
    requires i1 <= i2 <= |s|
    ensures s == s[..i1] + s[i1..i2] + s[i2..]
  {
  }

  lemma Joins4(s: seq<byte>, i1: nat, i2: nat, i3: nat)
    requires i1 <= i2 <= i3 <= |s|
    ensures s == s[..i1] + s[i1..i2] + s[i2..i3] + s[i3..]
  {
  }

  lemma Joins5(s: seq<byte>, i1: nat, i2: nat, i3: nat, i4: nat)
    requires i1 <= i2 <= i3 <= i4 <= |s|
    ensures s == s[..i1] + s[i1..i2] + s[i2..i3] + s[i3..i4] + s[i4..]
  {
  }

  lemma Joins6(s: seq<byte>, i1: nat, i2: nat, i3: nat, i4: nat, i5: nat)
    requires i1 <= i2 <= i3 <= i4 <= i5 <= |s|
    ensures s == s[..i1] + s[i1..i2] + s[i2..i3] + s[i3..i4] + s[i4..i5] + s[i5..]
  {
  }

  lemma Joins7(s: seq<byte>, i1: nat, i2: nat, i3: nat, i4: nat, i5: nat, i6: nat)
    requires i1 <= i2 <= i3 <= i4 <= i5 <= i6 <= |s|
    ensures s == s[..i1] + s[i1..i2] + s[i2..i3] + s[i3..i4] + s[i4..i5] + s[i5..i6] + s[i6..]
  {
  }
}

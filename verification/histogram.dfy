/** What `update` folds into the header for one batch of points: the
    per-return-number histogram built from `np.unique(..., return_counts=True)`
    and the per-axis extrema of the raw coordinates. */
module Histogram {

  /** The 15 slots of `number_of_points_by_return` (a uint32 array). */
  const SLOTS: nat := 15
  const U32: nat := 0x1_0000_0000

  type u32 = x: int | 0 <= x < 0x1_0000_0000

  /** How many entries of rs equal v. */
  function CountOf(rs: seq<nat>, v: nat): nat {
    if rs == [] then 0 else CountOf(rs[..|rs| - 1], v) + (if rs[|rs| - 1] == v then 1 else 0)
  }

  /** Distinct values in strictly ascending order, each with a positive count. */
  predicate UniqueShape(u: seq<(nat, nat)>) {
    && (forall i, j :: 0 <= i < j < |u| ==> u[i].0 < u[j].0)
    && (forall i :: 0 <= i < |u| ==> u[i].1 > 0)
  }

  /** Total count that the pairs give to value v. */
  function Added(u: seq<(nat, nat)>, v: nat): nat {
    if u == [] then 0 else (if u[0].0 == v then u[0].1 else 0) + Added(u[1..], v)
  }

  /** One more occurrence of r counted into ascending (value, count) pairs;
      the first value is then the smaller of r and the old first value. */
  function Insert(u: seq<(nat, nat)>, r: nat): (w: seq<(nat, nat)>)
    ensures UniqueShape(u) ==> UniqueShape(w)
    ensures |w| > 0 && w[0].0 == if u != [] && u[0].0 < r then u[0].0 else r
  {
    if u == [] then [(r, 1)]
    else if r < u[0].0 then [(r, 1)] + u
    else if r == u[0].0 then [(r, u[0].1 + 1)] + u[1..]
    else [u[0]] + Insert(u[1..], r)
  }

  /** `np.unique(rs, return_counts=True)`: the distinct values of rs in
      ascending order, each with the number of times it occurs. */
  function Unique(rs: seq<nat>): (u: seq<(nat, nat)>)
    ensures UniqueShape(u)
  {
    if rs == [] then [] else Insert(Unique(rs[..|rs| - 1]), rs[|rs| - 1])
  }

  lemma {:induction false} AddedInsert(u: seq<(nat, nat)>, r: nat, v: nat)
    ensures Added(Insert(u, r), v) == Added(u, v) + (if r == v then 1 else 0)
  {
    var w := Insert(u, r);
    if u == [] {
      assert w == [(r, 1)];
      assert w[1..] == [];
    } else if r < u[0].0 {
      assert w == [(r, 1)] + u;
      assert w[0] == (r, 1) && w[1..] == u;
    } else if r == u[0].0 {
      assert w == [(r, u[0].1 + 1)] + u[1..];
      assert w[0] == (r, u[0].1 + 1) && w[1..] == u[1..];
    } else {
      assert w == [u[0]] + Insert(u[1..], r);
      assert w[0] == u[0] && w[1..] == Insert(u[1..], r);
      AddedInsert(u[1..], r, v);
    }
  }

  /** The counts `np.unique` returns are the occurrence counts. */
  lemma {:induction false} UniqueCounts(rs: seq<nat>, v: nat)
    ensures Added(Unique(rs), v) == CountOf(rs, v)
  {
    if rs != [] {
      UniqueCounts(rs[..|rs| - 1], v);
      AddedInsert(Unique(rs[..|rs| - 1]), rs[|rs| - 1], v);
    }
  }

  lemma {:induction false} AddedAppend(a: seq<(nat, nat)>, b: seq<(nat, nat)>, v: nat)
    ensures Added(a + b, v) == Added(a, v) + Added(b, v)
  {
    if a == [] {
      assert a + b == b;
    } else {
      assert (a + b)[1..] == a[1..] + b;
      AddedAppend(a[1..], b, v);
    }
  }

  /** One more pair adds its count to its own value only. */
  lemma AddedSnoc(u: seq<(nat, nat)>, p: (nat, nat), v: nat)
    ensures Added(u + [p], v) == Added(u, v) + (if p.0 == v then p.1 else 0)
  {
    AddedAppend(u, [p], v);
    assert [p][1..] == [];
  }

  /** A count stored into a uint32 slot: NumPy's in-place addition wraps
      around modulo 2^32. */
  function Wrap(x: nat): u32 {
    (x % U32) as u32
  }

  /** Adding to a uint32 slot that already wrapped wraps the same way. */
  lemma WrapAdd(x: nat, c: nat)
    ensures ((x % U32) + c) % U32 == (x + c) % U32
  {
    var q := x / U32;
    assert x == q * U32 + x % U32;
    assert x + c == q * U32 + ((x % U32) + c);
  }

  /** Pairs whose values all differ from v add nothing to it. */
  lemma {:induction false} AddedAbsent(u: seq<(nat, nat)>, v: nat)
    requires forall i :: 0 <= i < |u| ==> u[i].0 != v
    ensures Added(u, v) == 0
  {
    if u != [] {
      AddedAbsent(u[1..], v);
    }
  }

  /** The histogram after a batch: slot j (return number j + 1) grows by the
      number of points with that return number, wrapping at 2^32 as the uint32
      array does. */
  function Tallied(h: seq<u32>, rs: seq<nat>): (r: seq<u32>)
    requires |h| == SLOTS
    ensures |r| == SLOTS
  {
    seq(SLOTS, j requires 0 <= j < SLOTS => Wrap(h[j] + CountOf(rs, j + 1)))
  }

  /** The histogram after folding in the (value, count) pairs of `u` one by
      one; pairs whose value has no slot add nothing. */
  function TalliedPairs(h: seq<u32>, u: seq<(nat, nat)>): (r: seq<u32>)
    requires |h| == SLOTS
    ensures |r| == SLOTS
  {
    seq(SLOTS, j requires 0 <= j < SLOTS => Wrap(h[j] + Added(u, j + 1)))
  }

  /** No pairs leave the histogram as it was. */
  lemma TalliedPairsNone(h: seq<u32>)
    requires |h| == SLOTS
    ensures TalliedPairs(h, []) == h
  {
    assert forall j :: 0 <= j < SLOTS ==> TalliedPairs(h, [])[j] == h[j];
  }

  /** A pair with a slot adds its count to that slot, wrapping at 2^32. */
  lemma TalliedPairsSnoc(h: seq<u32>, u: seq<(nat, nat)>, p: (nat, nat))
    requires |h| == SLOTS && 1 <= p.0 <= SLOTS
    ensures var before := TalliedPairs(h, u);
      TalliedPairs(h, u + [p]) == before[p.0 - 1 := ((before[p.0 - 1] + p.1) % U32) as u32]
  {
    var before := TalliedPairs(h, u);
    forall j | 0 <= j < SLOTS
      ensures TalliedPairs(h, u + [p])[j] == before[p.0 - 1 := ((before[p.0 - 1] + p.1) % U32) as u32][j]
    {
      AddedSnoc(u, p, j + 1);
      if j == p.0 - 1 {
        WrapAdd(h[j] + Added(u, j + 1), p.1);
      }
    }
  }

  /** A pair without a slot changes nothing. */
  lemma TalliedPairsSkip(h: seq<u32>, u: seq<(nat, nat)>, p: (nat, nat))
    requires |h| == SLOTS && (p.0 == 0 || p.0 > SLOTS)
    ensures TalliedPairs(h, u + [p]) == TalliedPairs(h, u)
  {
    forall j | 0 <= j < SLOTS
      ensures TalliedPairs(h, u + [p])[j] == TalliedPairs(h, u)[j]
    {
      AddedSnoc(u, p, j + 1);
    }
  }

  /** In ascending pairs, once a value has no slot neither has any later one,
      so stopping there loses nothing. */
  lemma TalliedPairsStop(h: seq<u32>, u: seq<(nat, nat)>, i: nat)
    requires |h| == SLOTS && UniqueShape(u) && i < |u| && u[i].0 > SLOTS
    ensures TalliedPairs(h, u[..i]) == TalliedPairs(h, u)
  {
    var tail := u[i..];
    assert u == u[..i] + tail;
    forall k | 0 <= k < |tail|
      ensures tail[k].0 > SLOTS
    {
      assert tail[k] == u[i + k];
    }
    forall j | 0 <= j < SLOTS
      ensures TalliedPairs(h, u[..i])[j] == TalliedPairs(h, u)[j]
    {
      AddedAppend(u[..i], tail, j + 1);
      AddedAbsent(tail, j + 1);
    }
  }

  /** Folding in the pairs of `np.unique` is tallying the return numbers. */
  lemma TalliedPairsUnique(h: seq<u32>, rs: seq<nat>)
    requires |h| == SLOTS
    ensures TalliedPairs(h, Unique(rs)) == Tallied(h, rs)
  {
    var u := Unique(rs);
    forall j | 0 <= j < SLOTS
      ensures TalliedPairs(h, u)[j] == Tallied(h, rs)[j]
    {
      UniqueSlot(h, rs, u, j);
    }
  }

  lemma UniqueSlot(h: seq<u32>, rs: seq<nat>, u: seq<(nat, nat)>, j: nat)
    requires |h| == SLOTS && j < SLOTS && u == Unique(rs)
    ensures TalliedPairs(h, u)[j] == Tallied(h, rs)[j]
  {
    UniqueCounts(rs, j + 1);
  }

  lemma {:induction false} CountAppend(a: seq<nat>, b: seq<nat>, v: nat)
    ensures CountOf(a + b, v) == CountOf(a, v) + CountOf(b, v)
  {
    if b == [] {
      assert a + b == a;
    } else {
      assert (a + b)[..|a + b| - 1] == a + b[..|b| - 1];
      CountAppend(a, b[..|b| - 1], v);
    }
  }

  /** Two batches folded one after the other give what their concatenation
      gives in one fold. */
  lemma TalliedTwice(h: seq<u32>, a: seq<nat>, b: seq<nat>)
    requires |h| == SLOTS
    ensures Tallied(Tallied(h, a), b) == Tallied(h, a + b)
  {
    forall j | 0 <= j < SLOTS
      ensures Tallied(Tallied(h, a), b)[j] == Tallied(h, a + b)[j]
    {
      TalliedTwiceSlot(h, a, b, j);
    }
  }

  lemma TalliedTwiceSlot(h: seq<u32>, a: seq<nat>, b: seq<nat>, j: nat)
    requires |h| == SLOTS && j < SLOTS
    ensures Tallied(Tallied(h, a), b)[j] == Tallied(h, a + b)[j]
  {
    CountAppend(a, b, j + 1);
    WrapAdd(h[j] + CountOf(a, j + 1), CountOf(b, j + 1));
  }

  /** Points with return number 0 or above 15 leave the histogram as it is. */
  lemma TalliedIgnores(h: seq<u32>, rs: seq<nat>, r: nat)
    requires |h| == SLOTS && (r == 0 || r > SLOTS)
    ensures Tallied(h, rs + [r]) == Tallied(h, rs)
  {
    forall j | 0 <= j < SLOTS
      ensures Tallied(h, rs + [r])[j] == Tallied(h, rs)[j]
    {
      assert (rs + [r])[..|rs + [r]| - 1] == rs;
    }
  }

  /** `a.max()`: the largest element. */
  function SeqMax(a: seq<int>): (m: int)
    requires |a| > 0
    ensures m in a && forall i :: 0 <= i < |a| ==> a[i] <= m
  {
    if |a| == 1 then a[0]
    else
      var m := SeqMax(a[..|a| - 1]);
      assert forall i :: 0 <= i < |a| - 1 ==> a[..|a| - 1][i] == a[i];
      if a[|a| - 1] > m then a[|a| - 1] else m
  }

  /** `a.min()`: the smallest element. */
  function SeqMin(a: seq<int>): (m: int)
    requires |a| > 0
    ensures m in a && forall i :: 0 <= i < |a| ==> m <= a[i]
  {
    if |a| == 1 then a[0]
    else
      var m := SeqMin(a[..|a| - 1]);
      assert forall i :: 0 <= i < |a| - 1 ==> a[..|a| - 1][i] == a[i];
      if a[|a| - 1] < m then a[|a| - 1] else m
  }
}

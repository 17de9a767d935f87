/** `is_dense`: whether a strided view visits the first elements of its buffer exactly once, in any dimension order. */
module DenseViews {
  import opened IndexArithmetic
  import opened MixedRadix

  function ByStride(a: Dim, sorted: seq<Dim>): seq<Dim> {
    if sorted == [] || a.stride <= sorted[0].stride then [a] + sorted
    else [sorted[0]] + ByStride(a, sorted[1..])
  }

  /** The dimensions longer than one, sorted by stride. */
  function SortedDims(dims: seq<Dim>): seq<Dim> {
    if dims == [] then []
    else if dims[0].extent > 1 then ByStride(dims[0], SortedDims(dims[1..]))
    else SortedDims(dims[1..])
  }

  /** Every dimension moves, and strides only grow. */
  predicate Ascending(dims: seq<Dim>) {
    && (forall i :: 0 <= i < |dims| ==> dims[i].extent > 1)
    && (forall i, j :: 0 <= i < j < |dims| ==> dims[i].stride <= dims[j].stride)
  }

  /** Dimensions that hit alike still do behind one more. */
  lemma SameBehind(b: Dim, tail: seq<Dim>, other: seq<Dim>)
    requires (forall q: int :: Hits(tail, q) == Hits(other, q)) && Cells(tail) == Cells(other)
    ensures forall p: int :: Hits([b] + tail, p) == Hits([b] + other, p)
    ensures Cells([b] + tail) == Cells([b] + other)
  {
    assert ([b] + tail)[1..] == tail && ([b] + other)[1..] == other;
    forall p: int
      ensures Hits([b] + tail, p) == Hits([b] + other, p)
    {
      SameRestSameHits(b.extent, b.stride, tail, other, p);
    }
  }

  lemma {:induction false} ByStrideKeeps(a: Dim, sorted: seq<Dim>)
    requires a.extent > 1 && Ascending(sorted)
    ensures Ascending(ByStride(a, sorted))
    ensures forall p: int :: Hits(ByStride(a, sorted), p) == Hits([a] + sorted, p)
    ensures Cells(ByStride(a, sorted)) == Cells([a] + sorted)
    ensures forall d :: d in ByStride(a, sorted) ==> d == a || d in sorted
  {
    hide Hits, Cells;
    if sorted == [] || a.stride <= sorted[0].stride {
    } else {
      var b, rest := sorted[0], sorted[1..];
      assert sorted == [b] + rest;
      ByStrideKeeps(a, rest);
      var tail := ByStride(a, rest);
      assert ByStride(a, sorted) == [b] + tail;
      SameBehind(b, tail, [a] + rest);
      assert [a, b] + rest == [a] + sorted && [b, a] + rest == [b] + ([a] + rest);
      forall p: int
        ensures Hits([b] + tail, p) == Hits([a] + sorted, p)
      {
        SwapDims(a, b, rest, p);
      }
      SwapDims(a, b, rest, 0);
      forall i | 0 <= i < |tail|
        ensures b.stride <= tail[i].stride
      {
        assert tail[i] in tail;
      }
    }
  }

  /** Sorting, and leaving out what does not move, changes no position's count. */
  lemma {:induction false} SortingKeepsHits(dims: seq<Dim>)
    requires forall i :: 0 <= i < |dims| ==> dims[i].extent >= 1
    ensures Ascending(SortedDims(dims))
    ensures forall p: int :: Hits(SortedDims(dims), p) == Hits(dims, p)
    ensures Cells(SortedDims(dims)) == Cells(dims)
  {
    if dims != [] {
      var a, rest := dims[0], dims[1..];
      SortingKeepsHits(rest);
      assert dims == [a] + rest && ([a] + SortedDims(rest))[1..] == SortedDims(rest);
      if a.extent > 1 {
        ByStrideKeeps(a, SortedDims(rest));
        forall p: int
          ensures Hits(SortedDims(dims), p) == Hits(dims, p)
        {
          SameRestSameHits(a.extent, a.stride, SortedDims(rest), rest, p);
        }
      } else {
        forall p: int
          ensures Hits(dims, p) == Hits(rest, p) && Cells(dims) == Cells(rest)
        {
          UnitDim(a, rest, p);
        }
        UnitDim(a, rest, 0);
      }
    }
  }

  // ---- the stride test ------------------------------------------------------------------

  /** Each stride is the product of the extents before it, starting from e. */
  predicate Chain(dims: seq<Dim>, e: nat) {
    dims == [] || (dims[0].stride == e && Chain(dims[1..], e * dims[0].extent))
  }

  /** Hits of the dimensions after a solid run of e cells. */
  function RunHits(dims: seq<Dim>, e: nat, p: int): nat {
    if e == 0 then 0 else RunHits(dims, e - 1, p) + Hits(dims, p - (e - 1))
  }

  /** The run and the dimensions together hit every position below the product once. */
  ghost predicate Tiles(dims: seq<Dim>, e: nat) {
    forall p: int :: RunHits(dims, e, p) == if 0 <= p < e * Cells(dims) then 1 else 0
  }

  lemma {:induction false} OriginIsHit(dims: seq<Dim>)
    requires Ascending(dims)
    ensures Hits(dims, 0) >= 1
    ensures dims != [] ==> Hits(dims, dims[0].stride) >= 1
    ensures dims != [] && dims[0].stride == 0 ==> Hits(dims, 0) >= 2
  {
    if dims != [] {
      var n, s, rest := dims[0].extent, dims[0].stride, dims[1..];
      OriginIsHit(rest);
      HitsBelowAt(n, s, rest, 0, 0);
      HitsBelowAt(n, s, rest, s, 1);
      if s == 0 {
        HitsBelowAtTwo(n, s, rest, 0, 0, 1);
      }
    }
  }

  /** Nothing below zero is hit, and nothing between the origin and the smallest stride. */
  lemma {:induction false} GapIsMissed(dims: seq<Dim>, s: nat, p: int)
    requires forall i :: 0 <= i < |dims| ==> dims[i].stride >= s
    requires p < 0 || 0 < p < s
    ensures Hits(dims, p) == 0
  {
    if Hits(dims, p) > 0 {
      HitByTuple(dims, p);
      var c: seq<nat> :| InBox(c, dims) && Position(c, dims) == p;
      PositionInGap(c, dims, s);
    }
  }

  lemma {:induction false} PositionInGap(c: seq<nat>, dims: seq<Dim>, s: nat)
    requires |c| == |dims| && forall i :: 0 <= i < |dims| ==> dims[i].stride >= s
    ensures Position(c, dims) == 0 || Position(c, dims) >= s
  {
    if c != [] {
      PositionInGap(c[1..], dims[1..], s);
      if c[0] > 0 {
        Monotone(1, c[0], dims[0].stride);
      }
    }
  }

  lemma {:induction false} RunHitsAt(dims: seq<Dim>, e: nat, p: int, q: nat)
    requires q < e
    ensures RunHits(dims, e, p) >= Hits(dims, p - q)
  {
    if q < e - 1 {
      RunHitsAt(dims, e - 1, p, q);
    }
  }

  lemma {:induction false} RunHitsAtTwo(dims: seq<Dim>, e: nat, p: int, q: nat, r: nat)
    requires q < r < e
    ensures RunHits(dims, e, p) >= Hits(dims, p - q) + Hits(dims, p - r)
  {
    if r == e - 1 {
      RunHitsAt(dims, e - 1, p, q);
    } else {
      RunHitsAtTwo(dims, e - 1, p, q, r);
    }
  }

  lemma {:induction false} RunMissesGap(dims: seq<Dim>, s: nat, e: nat, k: nat)
    requires forall i :: 0 <= i < |dims| ==> dims[i].stride >= s
    requires k <= e < s
    ensures RunHits(dims, k, e) == 0
  {
    if k > 0 {
      RunMissesGap(dims, s, e, k - 1);
      GapIsMissed(dims, s, e - (k - 1));
    }
  }

  /** A dimension that steps exactly over the run extends the run. */
  lemma {:induction false} RunGrows(rest: seq<Dim>, e: nat, n: nat, p: int)
    ensures RunHitsOf(n, e, rest, e, p) == RunHits(rest, e * n, p)
  {
    if n > 0 {
      RunGrows(rest, e, n - 1, p);
      Distribute(e, n - 1, 1);
      Nonnegative(e, n - 1);
      RunAppends(rest, e * (n - 1), e, p);
    }
  }

  /** The run's hits over the first n coordinates of a dimension of stride s. */
  function RunHitsOf(n: nat, s: nat, rest: seq<Dim>, e: nat, p: int): nat {
    if n == 0 then 0 else RunHitsOf(n - 1, s, rest, e, p) + RunHits(rest, e, p - (n - 1) * s)
  }

  lemma {:induction false} RunAppends(rest: seq<Dim>, a: nat, b: nat, p: int)
    ensures RunHits(rest, a + b, p) == RunHits(rest, a, p) + RunHits(rest, b, p - a)
  {
    if b > 0 {
      RunAppends(rest, a, b - 1, p);
    }
  }

  lemma {:induction false} RunHitsByCoordinate(d: Dim, rest: seq<Dim>, e: nat, p: int)
    ensures RunHits([d] + rest, e, p) == RunHitsOf(d.extent, d.stride, rest, e, p)
  {
    assert ([d] + rest)[1..] == rest;
    if e == 0 {
      NoRun(d.extent, d.stride, rest, p);
    } else {
      RunHitsByCoordinate(d, rest, e - 1, p);
      RunHitsPeel(d.extent, d.stride, rest, e, p);
    }
  }

  lemma {:induction false} NoRun(n: nat, s: nat, rest: seq<Dim>, p: int)
    ensures RunHitsOf(n, s, rest, 0, p) == 0
  {
    if n > 0 {
      NoRun(n - 1, s, rest, p);
    }
  }

  lemma {:induction false} RunHitsPeel(n: nat, s: nat, rest: seq<Dim>, e: nat, p: int)
    requires e > 0
    ensures RunHitsOf(n, s, rest, e, p) == RunHitsOf(n, s, rest, e - 1, p) + HitsBelow(n, s, rest, p - (e - 1))
  {
    if n > 0 {
      RunHitsPeel(n - 1, s, rest, e, p);
    }
  }

  /** If the run tiles with the sorted dimensions, the smallest stride can only be the run's length. */
  lemma SmallestStrideIsRun(dims: seq<Dim>, e: nat)
    requires Ascending(dims) && dims != [] && e > 0 && Tiles(dims, e)
    ensures dims[0].stride == e
  {
    var s := dims[0].stride;
    OriginIsHit(dims);
    CellsPositive(dims);
    assert e * Cells(dims) > e by {
      Monotone(2, Cells(dims), e);
    }
    if s < e {
      if s == 0 {
        RunHitsAt(dims, e, 0, 0);
      } else {
        RunHitsAtTwo(dims, e, s, 0, s);
      }
      assert false;
    } else if s > e {
      RunMissesGap(dims, s, e, e);
      assert false;
    }
  }

  lemma {:induction false} CellsPositive(dims: seq<Dim>)
    requires Ascending(dims)
    ensures Cells(dims) >= 1 && (dims != [] ==> Cells(dims) >= 2)
  {
    if dims != [] {
      CellsPositive(dims[1..]);
      Monotone(1, Cells(dims[1..]), dims[0].extent);
    }
  }

  lemma {:induction false} ChainIffTiles(dims: seq<Dim>, e: nat)
    requires Ascending(dims) && e > 0
    ensures Chain(dims, e) <==> Tiles(dims, e)
    decreases |dims|
  {
    if dims == [] {
      forall p: int
        ensures RunHits([], e, p) == if 0 <= p < e then 1 else 0
      {
        BareRun(e, p);
      }
      assert Cells([]) == 1;
    } else {
      var d, rest := dims[0], dims[1..];
      assert dims == [d] + rest;
      if Tiles(dims, e) {
        SmallestStrideIsRun(dims, e);
      }
      if d.stride == e {
        var longer := e * d.extent;
        Associate(e, d.extent, Cells(rest));
        Monotone(1, d.extent, e);
        ChainIffTiles(rest, longer);
        forall p: int
          ensures RunHits(dims, e, p) == RunHits(rest, longer, p)
        {
          RunHitsByCoordinate(d, rest, e, p);
          RunGrows(rest, e, d.extent, p);
        }
        assert Tiles(dims, e) <==> Tiles(rest, longer);
      }
    }
  }

  lemma {:induction false} BareRun(e: nat, p: int)
    ensures RunHits([], e, p) == if 0 <= p < e then 1 else 0
  {
    if e > 0 {
      BareRun(e - 1, p);
    }
  }

  lemma RunOfOne(dims: seq<Dim>)
    ensures Tiles(dims, 1) <==> ExactlyOnce(dims)
  {
    forall p: int
      ensures RunHits(dims, 1, p) == Hits(dims, p)
    {
      assert RunHits(dims, 0, p) == 0;
    }
    assert 1 * Cells(dims) == Cells(dims);
  }

  /** Empty dimensions counted as one long, as the filter treats them. */
  function Widened(dims: seq<Dim>): (r: seq<Dim>)
    ensures |r| == |dims|
    ensures forall i :: 0 <= i < |dims| ==> r[i] == Dim(if dims[i].extent == 0 then 1 else dims[i].extent, dims[i].stride)
    ensures (forall i :: 0 <= i < |dims| ==> dims[i].extent >= 1) ==> r == dims
  {
    seq(|dims|, i requires 0 <= i < |dims| => Dim(if dims[i].extent == 0 then 1 else dims[i].extent, dims[i].stride))
  }

  lemma {:induction false} WideningKeepsSorting(dims: seq<Dim>)
    ensures SortedDims(Widened(dims)) == SortedDims(dims)
  {
    if dims != [] {
      WideningKeepsSorting(dims[1..]);
      assert Widened(dims)[1..] == Widened(dims[1..]);
    }
  }

  /** A view without elements visits every one of them once, whatever its strides. */
  lemma EmptyIsBijective(dims: seq<Dim>, i: nat)
    requires i < |dims| && dims[i].extent == 0
    ensures Bijective(dims)
  {
    NoCells(dims, i);
  }

  lemma {:induction false} NoCells(dims: seq<Dim>, i: nat)
    requires i < |dims| && dims[i].extent == 0
    ensures Cells(dims) == 0
  {
    if i > 0 {
      NoCells(dims[1..], i - 1);
    }
  }

  /**
   `is_dense`: filter, sort, then compare each stride with the product so far. True exactly when the view visits each
   element once; a view without elements always does, and is judged as if its empty dimensions had one.
   */
  method IsDense(shape: seq<nat>, strides: seq<nat>) returns (dense: bool)
    requires |shape| == |strides|
    ensures dense <==> Bijective(Widened(Dims(shape, strides)))
    ensures (forall i :: 0 <= i < |shape| ==> shape[i] >= 1) ==> (dense <==> Bijective(Dims(shape, strides)))
    ensures dense ==> Bijective(Dims(shape, strides))
  {
    ghost var all := Widened(Dims(shape, strides));
    var dims := SortedDims(Dims(shape, strides));
    WideningKeepsSorting(Dims(shape, strides));
    SortingKeepsHits(all);
    if i :| 0 <= i < |shape| && shape[i] == 0 {
      EmptyIsBijective(Dims(shape, strides), i);
    }
    ChainIffTiles(dims, 1);
    RunOfOne(dims);
    assert ExactlyOnce(dims) <==> ExactlyOnce(all);
    ExactlyOnceIffBijective(all);
    var expected: nat := 1;
    var i := 0;
    while i < |dims|
      invariant 0 <= i <= |dims|
      invariant Chain(dims, 1) <==> Chain(dims[i..], expected)
    {
      if dims[i].stride != expected {
        return false;
      }
      assert dims[i..][1..] == dims[i + 1..];
      Nonnegative(expected, dims[i].extent);
      expected := expected * dims[i].extent;
      i := i + 1;
    }
    return true;
  }

  function Dims(shape: seq<nat>, strides: seq<nat>): (dims: seq<Dim>)
    requires |shape| == |strides|
    ensures |dims| == |shape|
    ensures forall i :: 0 <= i < |dims| ==> dims[i] == Dim(shape[i], strides[i])
  {
    seq(|shape|, i requires 0 <= i < |shape| && |shape| == |strides| => Dim(shape[i], strides[i]))
  }
}

/**
 Strided boxes: which buffer position a coordinate tuple lands on, how often each position is hit, and when every
 position of the buffer is hit exactly once.
 */
module MixedRadix {
  import opened IndexArithmetic

  /** One dimension: its extent and the stride between neighbours. */
  datatype Dim = Dim(extent: nat, stride: nat)

  /** The number of coordinate tuples. */
  function Cells(dims: seq<Dim>): nat {
    if dims == [] then 1 else dims[0].extent * Cells(dims[1..])
  }

  predicate InBox(c: seq<nat>, dims: seq<Dim>) {
    |c| == |dims| && forall i :: 0 <= i < |c| ==> c[i] < dims[i].extent
  }

  function Position(c: seq<nat>, dims: seq<Dim>): nat
    requires |c| == |dims|
  {
    if c == [] then 0 else c[0] * dims[0].stride + Position(c[1..], dims[1..])
  }

  lemma {:induction false} PositionSnoc(c: seq<nat>, x: nat, dims: seq<Dim>, d: Dim)
    requires |c| == |dims|
    ensures Position(c + [x], dims + [d]) == Position(c, dims) + x * d.stride
  {
    if c == [] {
      assert ([] + [x])[1..] == [] && ([] + [d])[1..] == [];
    } else {
      PositionSnoc(c[1..], x, dims[1..], d);
      assert (c + [x])[1..] == c[1..] + [x] && (dims + [d])[1..] == dims[1..] + [d];
    }
  }

  /** How many of the coordinates below n of the first dimension, continued through the rest, land on p. */
  function HitsBelow(n: nat, stride: nat, rest: seq<Dim>, p: int): nat
    decreases rest, n + 1
  {
    if n == 0 then 0 else HitsBelow(n - 1, stride, rest, p) + Hits(rest, p - (n - 1) * stride)
  }

  /** How many coordinate tuples land on position p. */
  function Hits(dims: seq<Dim>, p: int): nat
    decreases dims, 0
  {
    if dims == [] then (if p == 0 then 1 else 0)
    else HitsBelow(dims[0].extent, dims[0].stride, dims[1..], p)
  }

  /** Some tuple lands on p. */
  ghost predicate Reached(dims: seq<Dim>, p: int) {
    exists c: seq<nat> :: InBox(c, dims) && Position(c, dims) == p
  }

  // ---- hits are tuples ----------------------------------------------------------------

  /** A position is hit exactly when some tuple lands on it. */
  lemma {:induction false} HitByTuple(dims: seq<Dim>, p: int)
    ensures Hits(dims, p) >= 1 <==> Reached(dims, p)
    decreases dims, 0
  {
    if dims == [] {
      if p == 0 {
        assert InBox([], dims) && Position([], dims) == p;
      }
    } else {
      HitBelowByTuple(dims[0].extent, dims, p);
      if c: seq<nat> :| InBox(c, dims) && Position(c, dims) == p {
        assert c[0] < dims[0].extent;
      }
    }
  }

  lemma {:induction false} HitBelowByTuple(n: nat, dims: seq<Dim>, p: int)
    requires dims != [] && n <= dims[0].extent
    ensures HitsBelow(n, dims[0].stride, dims[1..], p) >= 1
       <==> exists c: seq<nat> :: InBox(c, dims) && c[0] < n && Position(c, dims) == p
    decreases dims[1..], n + 1
  {
    var rest := dims[1..];
    if n > 0 {
      var q := p - (n - 1) * dims[0].stride;
      HitBelowByTuple(n - 1, dims, p);
      HitByTuple(rest, q);
      if t: seq<nat> :| InBox(t, rest) && Position(t, rest) == q {
        var c := [n - 1] + t;
        assert c[1..] == t;
        assert InBox(c, dims) && c[0] < n && Position(c, dims) == p;
      }
      if c: seq<nat> :| InBox(c, dims) && c[0] < n && Position(c, dims) == p {
        if c[0] == n - 1 {
          assert InBox(c[1..], rest) && Position(c[1..], rest) == q;
        }
      }
    }
  }

  /** Two different tuples on one position count twice. */
  lemma {:induction false} TwoTuplesTwoHits(dims: seq<Dim>, c: seq<nat>, d: seq<nat>)
    requires InBox(c, dims) && InBox(d, dims) && c != d && Position(c, dims) == Position(d, dims)
    ensures Hits(dims, Position(c, dims)) >= 2
  {
    var p, rest := Position(c, dims), dims[1..];
    var n, s := dims[0].extent, dims[0].stride;
    if c[0] == d[0] {
      assert c == [c[0]] + c[1..] && d == [d[0]] + d[1..];
      TwoTuplesTwoHits(rest, c[1..], d[1..]);
      HitsBelowAt(n, s, rest, p, c[0]);
    } else {
      HitByTuple(rest, Position(c[1..], rest));
      HitByTuple(rest, Position(d[1..], rest));
      HitsBelowAtTwo(n, s, rest, p, c[0], d[0]);
    }
  }

  ghost predicate ReachedTwice(dims: seq<Dim>, p: int) {
    exists c: seq<nat>, d: seq<nat> ::
      InBox(c, dims) && InBox(d, dims) && c != d && Position(c, dims) == p && Position(d, dims) == p
  }

  /** A count of two comes from two different tuples. */
  lemma {:induction false} TwoHitsTwoTuples(dims: seq<Dim>, p: int)
    requires Hits(dims, p) >= 2
    ensures ReachedTwice(dims, p)
    decreases dims, 0
  {
    TwoHitsBelow(dims[0].extent, dims, p);
  }

  lemma {:induction false} TwoHitsBelow(n: nat, dims: seq<Dim>, p: int)
    requires dims != [] && n <= dims[0].extent
    requires HitsBelow(n, dims[0].stride, dims[1..], p) >= 2
    ensures ReachedTwice(dims, p)
    decreases dims[1..], n + 1
  {
    hide Hits, Position, InBox;
    var rest, q := dims[1..], p - (n - 1) * dims[0].stride;
    if HitsBelow(n - 1, dims[0].stride, rest, p) >= 2 {
      TwoHitsBelow(n - 1, dims, p);
    } else if Hits(rest, q) >= 2 {
      TwoHitsTwoTuples(rest, q);
      TwiceInTail(n - 1, dims, p);
    } else {
      HitBelowByTuple(n - 1, dims, p);
      HitByTuple(rest, q);
      OnceBelowOnceAt(n - 1, dims, p);
    }
  }

  lemma TwiceInTail(i: nat, dims: seq<Dim>, p: int)
    requires dims != [] && i < dims[0].extent && ReachedTwice(dims[1..], p - i * dims[0].stride)
    ensures ReachedTwice(dims, p)
  {
    hide Position;
    var rest, q := dims[1..], p - i * dims[0].stride;
    var c: seq<nat>, d: seq<nat> :|
      InBox(c, rest) && InBox(d, rest) && c != d && Position(c, rest) == q && Position(d, rest) == q;
    Prefixed(i, c, dims);
    Prefixed(i, d, dims);
    assert ([i] + c)[1..] == c && ([i] + d)[1..] == d;
  }

  lemma OnceBelowOnceAt(i: nat, dims: seq<Dim>, p: int)
    requires dims != [] && i < dims[0].extent && Reached(dims[1..], p - i * dims[0].stride)
    requires exists c: seq<nat> :: InBox(c, dims) && c[0] < i && Position(c, dims) == p
    ensures ReachedTwice(dims, p)
  {
    hide Position;
    var c: seq<nat> :| InBox(c, dims) && c[0] < i && Position(c, dims) == p;
    var d: seq<nat> :| InBox(d, dims[1..]) && Position(d, dims[1..]) == p - i * dims[0].stride;
    Prefixed(i, d, dims);
    assert c != [i] + d;
  }

  lemma Prefixed(i: nat, c: seq<nat>, dims: seq<Dim>)
    requires dims != [] && i < dims[0].extent && InBox(c, dims[1..])
    ensures InBox([i] + c, dims)
    ensures Position([i] + c, dims) == i * dims[0].stride + Position(c, dims[1..])
  {
    assert ([i] + c)[1..] == c;
  }

  lemma {:induction false} HitsBelowAt(n: nat, s: nat, rest: seq<Dim>, p: int, i: nat)
    requires i < n
    ensures HitsBelow(n, s, rest, p) >= Hits(rest, p - i * s)
  {
    if i < n - 1 {
      HitsBelowAt(n - 1, s, rest, p, i);
    }
  }

  lemma {:induction false} HitsBelowAtTwo(n: nat, s: nat, rest: seq<Dim>, p: int, i: nat, j: nat)
    requires i < n && j < n && i != j
    ensures HitsBelow(n, s, rest, p) >= Hits(rest, p - i * s) + Hits(rest, p - j * s)
  {
    if i == n - 1 {
      HitsBelowAt(n - 1, s, rest, p, j);
    } else if j == n - 1 {
      HitsBelowAt(n - 1, s, rest, p, i);
    } else {
      HitsBelowAtTwo(n - 1, s, rest, p, i, j);
    }
  }

  // ---- exactly once -----------------------------------------------------------------------

  /** Every position below the cell count is hit once, and no other position at all. */
  ghost predicate ExactlyOnce(dims: seq<Dim>) {
    forall p: int :: Hits(dims, p) == if 0 <= p < Cells(dims) then 1 else 0
  }

  /** No two tuples share a position. */
  ghost predicate Injective(dims: seq<Dim>) {
    forall c: seq<nat>, d: seq<nat> :: InBox(c, dims) && InBox(d, dims) && Position(c, dims) == Position(d, dims) ==> c == d
  }

  /** The strided map is a bijection from the box onto the first positions of the buffer. */
  ghost predicate Bijective(dims: seq<Dim>) {
    && (forall c: seq<nat> :: InBox(c, dims) ==> Position(c, dims) < Cells(dims))
    && Injective(dims)
    && (forall p: nat :: p < Cells(dims) ==> Reached(dims, p))
  }

  lemma ExactlyOnceIffBijective(dims: seq<Dim>)
    ensures ExactlyOnce(dims) <==> Bijective(dims)
  {
    if ExactlyOnce(dims) {
      ExactlyOnceIsBijective(dims);
    }
    if Bijective(dims) {
      forall p: int
        ensures Hits(dims, p) == if 0 <= p < Cells(dims) then 1 else 0
      {
        HitByTuple(dims, p);
        if Hits(dims, p) >= 2 {
          TwoHitsTwoTuples(dims, p);
        }
      }
    }
  }

  lemma ExactlyOnceIsBijective(dims: seq<Dim>)
    requires ExactlyOnce(dims)
    ensures Bijective(dims)
  {
    forall c: seq<nat> | InBox(c, dims)
      ensures Position(c, dims) < Cells(dims)
    {
      HitByTuple(dims, Position(c, dims));
    }
    forall c: seq<nat>, d: seq<nat> | InBox(c, dims) && InBox(d, dims) && Position(c, dims) == Position(d, dims)
      ensures c == d
    {
      if c != d {
        TwoTuplesTwoHits(dims, c, d);
      }
    }
    forall p: nat | p < Cells(dims)
      ensures Reached(dims, p)
    {
      HitByTuple(dims, p);
    }
  }

  // ---- order and unit dimensions do not matter ---------------------------------------

  /** Hits of two leading dimensions taken together. */
  function Hits2(m: nat, s: nat, n: nat, t: nat, rest: seq<Dim>, p: int): nat {
    if m == 0 then 0 else Hits2(m - 1, s, n, t, rest, p) + HitsBelow(n, t, rest, p - (m - 1) * s)
  }

  lemma {:induction false} Hits2IsHits(m: nat, s: nat, b: Dim, rest: seq<Dim>, p: int)
    ensures HitsBelow(m, s, [b] + rest, p) == Hits2(m, s, b.extent, b.stride, rest, p)
  {
    if m > 0 {
      Hits2IsHits(m - 1, s, b, rest, p);
      assert ([b] + rest)[1..] == rest;
    }
  }

  lemma {:induction false} Hits2Peel(m: nat, s: nat, n: nat, t: nat, rest: seq<Dim>, p: int)
    requires n > 0
    ensures Hits2(m, s, n, t, rest, p) == Hits2(m, s, n - 1, t, rest, p) + HitsBelow(m, s, rest, p - (n - 1) * t)
  {
    if m > 0 {
      Hits2Peel(m - 1, s, n, t, rest, p);
    }
  }

  lemma {:induction false} Hits2Empty(m: nat, s: nat, t: nat, rest: seq<Dim>, p: int)
    ensures Hits2(m, s, 0, t, rest, p) == 0
  {
    if m > 0 {
      Hits2Empty(m - 1, s, t, rest, p);
    }
  }

  lemma {:induction false} Hits2Swap(m: nat, s: nat, n: nat, t: nat, rest: seq<Dim>, p: int)
    ensures Hits2(m, s, n, t, rest, p) == Hits2(n, t, m, s, rest, p)
  {
    if n == 0 {
      Hits2Empty(m, s, t, rest, p);
    } else {
      Hits2Peel(m, s, n, t, rest, p);
      Hits2Swap(m, s, n - 1, t, rest, p);
    }
  }

  /** Exchanging the first two dimensions changes no position's count. */
  lemma SwapDims(a: Dim, b: Dim, rest: seq<Dim>, p: int)
    ensures Hits([a, b] + rest, p) == Hits([b, a] + rest, p)
    ensures Cells([a, b] + rest) == Cells([b, a] + rest)
  {
    assert ([a, b] + rest)[1..] == [b] + rest && ([b, a] + rest)[1..] == [a] + rest;
    assert ([a] + rest)[1..] == rest && ([b] + rest)[1..] == rest;
    Hits2IsHits(a.extent, a.stride, b, rest, p);
    Hits2IsHits(b.extent, b.stride, a, rest, p);
    Hits2Swap(a.extent, a.stride, b.extent, b.stride, rest, p);
    Associate(a.extent, b.extent, Cells(rest));
  }

  lemma {:induction false} SameRestSameHits(n: nat, s: nat, rest: seq<Dim>, other: seq<Dim>, p: int)
    requires forall q: int :: Hits(rest, q) == Hits(other, q)
    ensures HitsBelow(n, s, rest, p) == HitsBelow(n, s, other, p)
  {
    if n > 0 {
      SameRestSameHits(n - 1, s, rest, other, p);
    }
  }

  /** A dimension of extent one has no say. */
  lemma UnitDim(d: Dim, rest: seq<Dim>, p: int)
    requires d.extent == 1
    ensures Hits([d] + rest, p) == Hits(rest, p) && Cells([d] + rest) == Cells(rest)
  {
    assert ([d] + rest)[1..] == rest;
    assert HitsBelow(1, d.stride, rest, p) == HitsBelow(0, d.stride, rest, p) + Hits(rest, p - 0 * d.stride);
  }

  // ---- row-major boxes -----------------------------------------------------------------

  /** Each dimension steps over everything finer than it. */
  predicate RowMajor(dims: seq<Dim>) {
    dims == [] || (dims[0].stride == Cells(dims[1..]) && RowMajor(dims[1..]))
  }

  lemma {:induction false} RowMajorExactlyOnce(dims: seq<Dim>)
    requires RowMajor(dims)
    ensures ExactlyOnce(dims)
  {
    if dims != [] {
      RowMajorExactlyOnce(dims[1..]);
      forall p: int
        ensures Hits(dims, p) == if 0 <= p < Cells(dims) then 1 else 0
      {
        TiledBelow(dims[0].extent, dims[1..], p);
      }
    }
  }

  lemma {:induction false} TiledBelow(n: nat, rest: seq<Dim>, p: int)
    requires ExactlyOnce(rest)
    ensures HitsBelow(n, Cells(rest), rest, p) == if 0 <= p < n * Cells(rest) then 1 else 0
  {
    if n > 0 {
      TiledBelow(n - 1, rest, p);
      Distribute(Cells(rest), n - 1, 1);
      Nonnegative(n - 1, Cells(rest));
    }
  }
}

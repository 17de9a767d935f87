/** Why `is_dense` licenses adding up a buffer in storage order: the sum over coordinates against the sum over cells. */
module DenseSums {
  import opened IndexArithmetic
  import opened MixedRadix

  /** The elements of a strided view added in coordinate order, from the cell `off` on. */
  function SumBelow(n: nat, stride: nat, rest: seq<Dim>, f: int -> real, off: nat): real
    decreases rest, n + 1
  {
    if n == 0 then 0.0
    else
      Nonnegative(n - 1, stride);
      SumBelow(n - 1, stride, rest, f, off) + LogicalSum(rest, f, off + (n - 1) * stride)
  }

  function LogicalSum(dims: seq<Dim>, f: int -> real, off: nat): real
    decreases dims, 0
  {
    if dims == [] then f(off) else SumBelow(dims[0].extent, dims[0].stride, dims[1..], f, off)
  }

  /** The first m cells added in storage order. */
  function BufferSum(h: int -> real, m: nat): real {
    if m == 0 then 0.0 else BufferSum(h, m - 1) + h(m - 1)
  }

  lemma {:induction false} BufferSumAdds(h: int -> real, g1: int -> real, g2: int -> real, m: nat)
    requires forall p :: 0 <= p < m ==> h(p) == g1(p) + g2(p)
    ensures BufferSum(h, m) == BufferSum(g1, m) + BufferSum(g2, m)
  {
    if m > 0 {
      BufferSumAdds(h, g1, g2, m - 1);
    }
  }

  /** A buffer with one cell that matters. */
  lemma {:induction false} SpikeSum(h: int -> real, m: nat, at: int, v: real)
    requires forall p :: 0 <= p < m ==> h(p) == if p == at then v else 0.0
    ensures BufferSum(h, m) == if 0 <= at < m then v else 0.0
  {
    if m > 0 {
      SpikeSum(h, m - 1, at, v);
    }
  }

  /** Every hit lies within the first m cells, counted from off. */
  ghost predicate Inside(dims: seq<Dim>, off: nat, m: nat) {
    forall p: int :: Hits(dims, p) > 0 ==> 0 <= off + p < m
  }

  ghost predicate InsideBelow(n: nat, s: nat, rest: seq<Dim>, off: nat, m: nat) {
    forall p: int :: HitsBelow(n, s, rest, p) > 0 ==> 0 <= off + p < m
  }

  /** Each cell's content, as often as it is hit. */
  function Weighted(dims: seq<Dim>, f: int -> real, off: nat): int -> real {
    p => Hits(dims, p - off) as real * f(p)
  }

  function WeightedBelow(n: nat, s: nat, rest: seq<Dim>, f: int -> real, off: nat): int -> real {
    p => HitsBelow(n, s, rest, p - off) as real * f(p)
  }

  /** Adding over coordinates counts each cell as often as it is hit. */
  lemma {:induction false} SumIsWeighted(dims: seq<Dim>, f: int -> real, off: nat, m: nat)
    requires Inside(dims, off, m)
    ensures LogicalSum(dims, f, off) == BufferSum(Weighted(dims, f, off), m)
    decreases dims, 0
  {
    var h := Weighted(dims, f, off);
    if dims == [] {
      assert Hits(dims, 0) == 1;
      SpikeSum(h, m, off, f(off));
    } else {
      var below := WeightedBelow(dims[0].extent, dims[0].stride, dims[1..], f, off);
      forall p: int | HitsBelow(dims[0].extent, dims[0].stride, dims[1..], p) > 0
        ensures 0 <= off + p < m
      {
        assert Hits(dims, p) > 0;
      }
      SumBelowIsWeighted(dims[0].extent, dims[0].stride, dims[1..], f, off, m);
      SameBufferSum(h, below, m);
    }
  }

  lemma {:induction false} SumBelowIsWeighted(n: nat, s: nat, rest: seq<Dim>, f: int -> real, off: nat, m: nat)
    requires InsideBelow(n, s, rest, off, m)
    ensures SumBelow(n, s, rest, f, off) == BufferSum(WeightedBelow(n, s, rest, f, off), m)
    decreases rest, n + 1
  {
    if n == 0 {
      SpikeSum(WeightedBelow(n, s, rest, f, off), m, -1, 0.0);
    } else {
      hide HitsBelow, Hits, WeightedBelow, Weighted;
      Nonnegative(n - 1, s);
      var next := off + (n - 1) * s;
      PeelInside(n, s, rest, off, m);
      SumBelowIsWeighted(n - 1, s, rest, f, off, m);
      SumIsWeighted(rest, f, next, m);
      forall p | 0 <= p < m
        ensures WeightedBelow(n, s, rest, f, off)(p) == WeightedBelow(n - 1, s, rest, f, off)(p) + Weighted(rest, f, next)(p)
      {
        WeightsSplit(n, s, rest, f, off, p);
      }
      BufferSumAdds(WeightedBelow(n, s, rest, f, off), WeightedBelow(n - 1, s, rest, f, off), Weighted(rest, f, next), m);
    }
  }

  lemma WeightsSplit(n: nat, s: nat, rest: seq<Dim>, f: int -> real, off: nat, p: int)
    requires n > 0
    ensures (n - 1) * s >= 0
    ensures WeightedBelow(n, s, rest, f, off)(p)
         == WeightedBelow(n - 1, s, rest, f, off)(p) + Weighted(rest, f, off + (n - 1) * s)(p)
  {
    hide HitsBelow, Hits;
    Nonnegative(n - 1, s);
    var next := off + (n - 1) * s;
    Peel(n, s, rest, p - off);
    assert (p - off) - (n - 1) * s == p - next;
    WeightsAdd(HitsBelow(n - 1, s, rest, p - off), Hits(rest, p - next), f(p));
  }

  lemma {:induction false} SameBufferSum(h: int -> real, g: int -> real, m: nat)
    requires forall p :: 0 <= p < m ==> h(p) == g(p)
    ensures BufferSum(h, m) == BufferSum(g, m)
  {
    if m > 0 {
      SameBufferSum(h, g, m - 1);
    }
  }

  lemma Peel(n: nat, s: nat, rest: seq<Dim>, p: int)
    requires n > 0
    ensures HitsBelow(n, s, rest, p) == HitsBelow(n - 1, s, rest, p) + Hits(rest, p - (n - 1) * s)
  {}

  lemma PeelInside(n: nat, s: nat, rest: seq<Dim>, off: nat, m: nat)
    requires n > 0 && InsideBelow(n, s, rest, off, m)
    ensures (n - 1) * s >= 0
    ensures InsideBelow(n - 1, s, rest, off, m) && Inside(rest, off + (n - 1) * s, m)
  {
    hide HitsBelow, Hits;
    Nonnegative(n - 1, s);
    forall p: int {:trigger HitsBelow(n - 1, s, rest, p)} | HitsBelow(n - 1, s, rest, p) > 0
      ensures 0 <= off + p < m
    {
      Peel(n, s, rest, p);
    }
    var shift := (n - 1) * s;
    forall p: int | Hits(rest, p) > 0
      ensures 0 <= off + shift + p < m
    {
      Peel(n, s, rest, p + shift);
      assert p + shift - shift == p;
      assert HitsBelow(n, s, rest, p + shift) > 0;
    }
  }

  lemma WeightsAdd(a: nat, b: nat, x: real)
    ensures (a + b) as real * x == a as real * x + b as real * x
  {}

  /** The last position of the box. */
  function Span(dims: seq<Dim>): nat {
    if dims == [] then 0
    else
      Nonnegative(dims[0].extent, dims[0].stride);
      dims[0].extent * dims[0].stride + Span(dims[1..])
  }

  lemma {:induction false} PositionInSpan(c: seq<nat>, dims: seq<Dim>)
    requires InBox(c, dims)
    ensures 0 <= Position(c, dims) <= Span(dims)
  {
    if dims != [] {
      PositionInSpan(c[1..], dims[1..]);
      Monotone(c[0], dims[0].extent, dims[0].stride);
    }
  }

  lemma HitsInSpan(dims: seq<Dim>, p: int)
    requires Hits(dims, p) > 0
    ensures 0 <= p <= Span(dims)
  {
    HitByTuple(dims, p);
    var c: seq<nat> :| InBox(c, dims) && Position(c, dims) == p;
    PositionInSpan(c, dims);
  }

  /** Whatever the buffer holds, adding its cells is adding the view's elements. */
  ghost predicate SumsAgree(dims: seq<Dim>) {
    forall f: int -> real :: LogicalSum(dims, f, 0) == BufferSum(f, Cells(dims))
  }

  /**
   Adding the buffer in storage order gives the sum of the view for every content exactly when the strides visit each
   cell once: the test is neither too lax nor too strict for its use.
   */
  lemma SumsAgreeIff(dims: seq<Dim>)
    ensures SumsAgree(dims) <==> Bijective(dims)
  {
    ExactlyOnceIffBijective(dims);
    if ExactlyOnce(dims) {
      forall f: int -> real
        ensures LogicalSum(dims, f, 0) == BufferSum(f, Cells(dims))
      {
        SumIsWeighted(dims, f, 0, Cells(dims));
        SameBufferSum(f, Weighted(dims, f, 0), Cells(dims));
      }
    }
    if SumsAgree(dims) {
      forall p: int
        ensures Hits(dims, p) == if 0 <= p < Cells(dims) then 1 else 0
      {
        SpikeIsHit(dims, p);
      }
    }
  }

  lemma SpikeIsHit(dims: seq<Dim>, at: int)
    requires SumsAgree(dims)
    ensures Hits(dims, at) == if 0 <= at < Cells(dims) then 1 else 0
  {
    if at < 0 {
      if Hits(dims, at) > 0 {
        HitsInSpan(dims, at);
        assert false;
      }
    } else {
      var spike := p => if p == at then 1.0 else 0.0;
      var m := Span(dims) + at + 1;
      forall p: int | Hits(dims, p) > 0
        ensures 0 <= p < m
      {
        HitsInSpan(dims, p);
      }
      SumIsWeighted(dims, spike, 0, m);
      SpikeSum(Weighted(dims, spike, 0), m, at, Hits(dims, at) as real);
      SpikeSum(spike, Cells(dims), at, 1.0);
    }
  }
}

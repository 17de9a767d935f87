/** `split`: the strides of one buffer dimension cut into blocks by several axes. */
module AxisSplit {
  import opened DenseViews
  import opened MixedRadix

  datatype SplitResult = Panic | Split(coefficients: seq<nat>)

  /** Coefficients from the finest extent outwards; no extents, or an empty one, is refused. */
  method Split(extents: seq<nat>) returns (r: SplitResult)
    ensures r.Split? <==> extents != [] && forall i :: 0 <= i < |extents| ==> extents[i] > 0
    ensures r.Split? ==> |r.coefficients| == |extents| && RowMajor(Dims(extents, r.coefficients))
    ensures r.Split? ==> Bijective(Dims(extents, r.coefficients))
  {
    if extents == [] {
      return Panic;
    }
    var coefficients: seq<nat> := [];
    var coefficient: nat := 1;
    var i := |extents|;
    while i > 0
      invariant 0 <= i <= |extents| && |coefficients| == |extents| - i
      invariant forall j :: i <= j < |extents| ==> extents[j] > 0
      invariant RowMajor(Dims(extents[i..], coefficients)) && coefficient == Cells(Dims(extents[i..], coefficients))
    {
      i := i - 1;
      if extents[i] == 0 {
        return Panic;
      }
      ghost var finer := Dims(extents[i + 1..], coefficients);
      coefficients := [coefficient] + coefficients;
      assert Dims(extents[i..], coefficients)[1..] == finer;
      coefficient := coefficient * extents[i];
    }
    assert extents[0..] == extents;
    RowMajorExactlyOnce(Dims(extents, coefficients));
    ExactlyOnceIffBijective(Dims(extents, coefficients));
    return SplitResult.Split(coefficients);
  }
}

/** `BatchSignalLayout`: the window index picks the other coordinates, the position in the window the signal's. */
module BatchLayout {
  import opened DenseViews
  import opened IndexArithmetic
  import opened MixedRadix
  import opened TensorViews

  /** How many windows a shape has: the product of all extents but the transformed one. */
  function Windows(dims: seq<Dim>, dim: int): nat {
    if dims == [] then 1
    else if dim == 0 then Windows(dims[1..], -1)
    else dims[0].extent * Windows(dims[1..], dim - 1)
  }

  /** The coordinates of sample k of window w, the first batch dimension varying fastest. */
  function Coordinates(dims: seq<Dim>, dim: int, w: nat, k: nat): (c: seq<nat>)
    requires forall i :: 0 <= i < |dims| ==> dims[i].extent >= 1
    ensures |c| == |dims|
  {
    if dims == [] then []
    else if dim == 0 then [k] + Coordinates(dims[1..], -1, w, k)
    else [w % dims[0].extent] + Coordinates(dims[1..], dim - 1, w / dims[0].extent, k)
  }

  /** The window's batch offset as the loop accumulates it. */
  function Offset(dims: seq<Dim>, dim: int, w: nat): nat
    requires forall i :: 0 <= i < |dims| ==> dims[i].extent >= 1
  {
    if dims == [] then 0
    else if dim == 0 then Offset(dims[1..], -1, w)
    else (w % dims[0].extent) * dims[0].stride + Offset(dims[1..], dim - 1, w / dims[0].extent)
  }

  /** `BatchSignalLayout::new`. */
  method New(shape: seq<nat>, strides: seq<nat>, w: nat, dim: nat) returns (view: View)
    requires |shape| == |strides| && dim < |shape| && forall i :: 0 <= i < |shape| ==> shape[i] >= 1
    ensures view == WindowView(Dims(shape, strides), dim, w)
  {
    ghost var dims := Dims(shape, strides);
    var offset, temp := 0, w;
    for i := 0 to |shape|
      invariant offset + Offset(dims[i..], dim - i, temp) == Offset(dims, dim, w)
    {
      assert dims[i..][1..] == dims[i + 1..];
      DivBounds(temp, shape[i]);
      if i != dim {
        var coord := temp % shape[i];
        Nonnegative(coord, strides[i]);
        offset := offset + coord * strides[i];
        temp := temp / shape[i];
      }
    }
    return View(offset, strides[dim], shape[dim]);
  }

  /** The cells of window w. */
  function WindowView(dims: seq<Dim>, dim: nat, w: nat): View
    requires dim < |dims| && forall i :: 0 <= i < |dims| ==> dims[i].extent >= 1
  {
    View(Offset(dims, dim, w), dims[dim].stride, dims[dim].extent)
  }

  lemma {:induction false} OffsetIsPosition(dims: seq<Dim>, dim: int, w: nat, k: nat)
    requires dim < |dims| && forall i :: 0 <= i < |dims| ==> dims[i].extent >= 1
    ensures Position(Coordinates(dims, dim, w, k), dims)
         == Offset(dims, dim, w) + (if dim >= 0 then k * dims[dim].stride else 0)
  {
    if dims != [] {
      var rest := dims[1..];
      var w' := if dim == 0 then w else w / dims[0].extent;
      OffsetIsPosition(rest, dim - 1, w', k);
      if dim == 0 {
        SameOffset(rest, -1, -1, w);
        assert Coordinates(dims, dim, w, k)[1..] == Coordinates(rest, -1, w, k);
      } else {
        assert Coordinates(dims, dim, w, k)[1..] == Coordinates(rest, dim - 1, w', k);
      }
    }
  }

  lemma SameOffset(dims: seq<Dim>, a: int, b: int, w: nat)
    requires a == b && forall i :: 0 <= i < |dims| ==> dims[i].extent >= 1
    ensures Offset(dims, a, w) == Offset(dims, b, w)
  {}

  lemma {:induction false} CoordinatesInBox(dims: seq<Dim>, dim: int, w: nat, k: nat)
    requires dim < |dims| && forall i :: 0 <= i < |dims| ==> dims[i].extent >= 1
    requires dim >= 0 ==> k < dims[dim].extent
    ensures InBox(Coordinates(dims, dim, w, k), dims)
  {
    if dims != [] {
      var w' := if dim == 0 then w else w / dims[0].extent;
      CoordinatesInBox(dims[1..], dim - 1, w', k);
    }
  }

  lemma InnerWindow(dims: seq<Dim>, dim: int, w: nat)
    requires dims != [] && dim != 0 && dims[0].extent >= 1 && w < Windows(dims, dim)
    ensures 0 <= w / dims[0].extent < Windows(dims[1..], dim - 1)
  {
    DivBounds(w, dims[0].extent);
    CellOf(w, Windows(dims[1..], dim - 1), dims[0].extent);
  }

  lemma SameDivision(w: nat, v: nat, n: nat)
    requires n > 0 && w / n == v / n && w % n == v % n
    ensures w == v
  {}

  /** Different (window, sample) pairs have different coordinates. */
  lemma {:induction false} CoordinatesInjective(dims: seq<Dim>, dim: int, w: nat, k: nat, v: nat, l: nat)
    requires dim < |dims| && forall i :: 0 <= i < |dims| ==> dims[i].extent >= 1
    requires w < Windows(dims, dim) && v < Windows(dims, dim)
    requires Coordinates(dims, dim, w, k) == Coordinates(dims, dim, v, l)
    ensures w == v && (dim >= 0 ==> k == l)
  {
    if dims != [] {
      if dim == 0 {
        var c, d := Coordinates(dims, dim, w, k), Coordinates(dims, dim, v, l);
        assert c[0] == d[0] && c[1..] == d[1..];
        CoordinatesInjective(dims[1..], -1, w, k, v, l);
      } else {
        hide *;
        var n := dims[0].extent;
        InnerWindow(dims, dim, w);
        InnerWindow(dims, dim, v);
        SameOuter(dims, dim, w, k, v, l);
        CoordinatesInjective(dims[1..], dim - 1, w / n, k, v / n, l);
        SameDivision(w, v, n);
      }
    }
  }

  lemma SameOuter(dims: seq<Dim>, dim: int, w: nat, k: nat, v: nat, l: nat)
    requires dims != [] && dim != 0 && forall i :: 0 <= i < |dims| ==> dims[i].extent >= 1
    requires Coordinates(dims, dim, w, k) == Coordinates(dims, dim, v, l)
    ensures w % dims[0].extent == v % dims[0].extent
    ensures w / dims[0].extent >= 0 && v / dims[0].extent >= 0
    ensures Coordinates(dims[1..], dim - 1, w / dims[0].extent, k) == Coordinates(dims[1..], dim - 1, v / dims[0].extent, l)
  {
    var n := dims[0].extent;
    DivBounds(w, n);
    DivBounds(v, n);
    var c, d := Coordinates(dims, dim, w, k), Coordinates(dims, dim, v, l);
    assert c[0] == w % n && d[0] == v % n;
    assert c[1..] == Coordinates(dims[1..], dim - 1, w / n, k) && d[1..] == Coordinates(dims[1..], dim - 1, v / n, l);
  }

  /** Every coordinate tuple belongs to some window. */
  lemma {:induction false} CoordinatesOnto(dims: seq<Dim>, dim: int, c: seq<nat>) returns (w: nat, k: nat)
    requires dim < |dims| && forall i :: 0 <= i < |dims| ==> dims[i].extent >= 1
    requires InBox(c, dims)
    ensures w < Windows(dims, dim)
    ensures forall l: nat :: dim < 0 ==> Coordinates(dims, dim, w, l) == c
    ensures dim >= 0 ==> k == c[dim] && Coordinates(dims, dim, w, k) == c
  {
    if dims == [] {
      w, k := 0, 0;
    } else {
      var rest, n := dims[1..], dims[0].extent;
      assert c == [c[0]] + c[1..];
      if dim == 0 {
        w, k := CoordinatesOnto(rest, -1, c[1..]);
        k := c[0];
      } else {
        var v, l := CoordinatesOnto(rest, dim - 1, c[1..]);
        w, k := v * n + c[0], l;
        CellBelow(v, c[0], Windows(rest, dim - 1), n);
      }
    }
  }

  /** Cell p belongs to some window. */
  ghost predicate Covered(dims: seq<Dim>, dim: nat, p: int)
    requires dim < |dims| && forall i :: 0 <= i < |dims| ==> dims[i].extent >= 1
  {
    exists w: nat :: w < Windows(dims, dim) && WindowView(dims, dim, w).Holds(p)
  }

  lemma WindowCell(dims: seq<Dim>, dim: nat, w: nat, k: nat)
    requires dim < |dims| && (forall i :: 0 <= i < |dims| ==> dims[i].extent >= 1) && k < dims[dim].extent
    ensures InBox(Coordinates(dims, dim, w, k), dims)
    ensures WindowView(dims, dim, w).At(k) == Position(Coordinates(dims, dim, w, k), dims)
  {
    OffsetIsPosition(dims, dim, w, k);
    CoordinatesInBox(dims, dim, w, k);
  }

  /** On a tensor none of whose elements overlap, neither do its windows, nor the cells of one window. */
  lemma WindowsDisjoint(dims: seq<Dim>, dim: nat)
    requires dim < |dims| && (forall i :: 0 <= i < |dims| ==> dims[i].extent >= 1) && Injective(dims)
    ensures forall w: nat, j: nat, k: nat ::
      && w < Windows(dims, dim) && j < dims[dim].extent && k < dims[dim].extent
      && WindowView(dims, dim, w).At(j) == WindowView(dims, dim, w).At(k)
      ==> j == k
    ensures forall w: nat, v: nat, p: int ::
      && w < Windows(dims, dim) && v < Windows(dims, dim)
      && WindowView(dims, dim, w).Holds(p) && WindowView(dims, dim, v).Holds(p)
      ==> w == v
  {
    hide Position, Coordinates, Offset, Windows;
    forall w: nat, v: nat, k: nat, l: nat |
      w < Windows(dims, dim) && v < Windows(dims, dim) && k < dims[dim].extent && l < dims[dim].extent
      && WindowView(dims, dim, w).At(k) == WindowView(dims, dim, v).At(l)
      ensures w == v && k == l
    {
      WindowCell(dims, dim, w, k);
      WindowCell(dims, dim, v, l);
      CoordinatesInjective(dims, dim, w, k, v, l);
    }
  }

  /**
   On a tensor whose strides visit every element once, the windows cut the buffer into disjoint pieces that together
   cover it: a cell belongs to exactly one sample of exactly one window.
   */
  lemma WindowsTile(dims: seq<Dim>, dim: nat)
    requires dim < |dims| && (forall i :: 0 <= i < |dims| ==> dims[i].extent >= 1) && Bijective(dims)
    ensures forall w: nat :: w < Windows(dims, dim) ==> WindowView(dims, dim, w).Fits(Cells(dims))
    ensures forall w: nat, v: nat, p: int ::
      && w < Windows(dims, dim) && v < Windows(dims, dim)
      && WindowView(dims, dim, w).Holds(p) && WindowView(dims, dim, v).Holds(p)
      ==> w == v
    ensures forall p: nat :: p < Cells(dims) ==> Covered(dims, dim, p)
  {
    hide Position, Coordinates, Offset, Windows, Cells;
    WindowsDisjoint(dims, dim);
    forall w: nat, k: nat | k < dims[dim].extent
      ensures WindowView(dims, dim, w).At(k) < Cells(dims)
    {
      WindowCell(dims, dim, w, k);
    }
    forall p: nat | p < Cells(dims)
      ensures Covered(dims, dim, p)
    {
      assert Reached(dims, p);
      var c: seq<nat> :| InBox(c, dims) && Position(c, dims) == p;
      var w, k := CoordinatesOnto(dims, dim, c);
      WindowCell(dims, dim, w, k);
      assert WindowView(dims, dim, w).At(k) == p;
      assert WindowView(dims, dim, w).Holds(p);
    }
  }
}

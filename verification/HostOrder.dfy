/**
 The host reference walks a tensor's windows with the last batch dimension fastest, the kernels with the first. Read
 backwards, the host's tensor is a batch in the kernels' order, so one theory serves both.
 */
module HostOrder {
  import opened BatchedTensors
  import opened BatchLayout
  import opened DenseViews
  import opened IndexArithmetic
  import opened MixedRadix

  function Reversed<T>(s: seq<T>): (r: seq<T>)
    ensures |r| == |s| && forall i :: 0 <= i < |s| ==> r[i] == s[|s| - 1 - i]
  {
    if s == [] then [] else Reversed(s[1..]) + [s[0]]
  }

  lemma {:induction false} ReversedTwice<T>(s: seq<T>)
    ensures Reversed(Reversed(s)) == s
  {
    forall i | 0 <= i < |s|
      ensures Reversed(Reversed(s))[i] == s[i]
    {
      assert Reversed(s)[|s| - 1 - i] == s[i];
    }
  }

  lemma {:induction false} PositionReversed(c: seq<nat>, dims: seq<Dim>)
    requires |c| == |dims|
    ensures Position(Reversed(c), Reversed(dims)) == Position(c, dims)
  {
    if c != [] {
      PositionReversed(c[1..], dims[1..]);
      PositionSnoc(Reversed(c[1..]), c[0], Reversed(dims[1..]), dims[0]);
    }
  }

  lemma {:induction false} CellsSnoc(dims: seq<Dim>, d: Dim)
    ensures Cells(dims + [d]) == Cells(dims) * d.extent
  {
    if dims == [] {
      assert ([] + [d])[1..] == [];
    } else {
      CellsSnoc(dims[1..], d);
      assert (dims + [d])[1..] == dims[1..] + [d];
      Associate(dims[0].extent, Cells(dims[1..]), d.extent);
    }
  }

  lemma {:induction false} CellsReversed(dims: seq<Dim>)
    ensures Cells(Reversed(dims)) == Cells(dims)
  {
    if dims != [] {
      CellsReversed(dims[1..]);
      CellsSnoc(Reversed(dims[1..]), dims[0]);
    }
  }

  lemma InBoxReversed(c: seq<nat>, dims: seq<Dim>)
    ensures InBox(Reversed(c), Reversed(dims)) <==> InBox(c, dims)
  {
    if InBox(Reversed(c), Reversed(dims)) {
      forall i | 0 <= i < |c|
        ensures c[i] < dims[i].extent
      {
        assert Reversed(c)[|c| - 1 - i] == c[i] && Reversed(dims)[|c| - 1 - i] == dims[i];
      }
    }
  }

  lemma InjectiveReversed(dims: seq<Dim>)
    requires Injective(dims)
    ensures Injective(Reversed(dims))
  {
    hide Position, Reversed;
    forall c: seq<nat>, d: seq<nat> |
      InBox(c, Reversed(dims)) && InBox(d, Reversed(dims)) && Position(c, Reversed(dims)) == Position(d, Reversed(dims))
      ensures c == d
    {
      TupleReversed(c, dims);
      TupleReversed(d, dims);
    }
  }

  /** A tuple of the reversed box, read backwards, is a tuple of the box at the same position. */
  lemma TupleReversed(c: seq<nat>, dims: seq<Dim>)
    requires InBox(c, Reversed(dims))
    ensures Reversed(Reversed(c)) == c && InBox(Reversed(c), dims)
    ensures Position(c, Reversed(dims)) == Position(Reversed(c), dims)
  {
    hide Position;
    ReversedTwice(c);
    InBoxReversed(Reversed(c), dims);
    PositionReversed(Reversed(c), dims);
  }

  /** All elements, as windows times window length: how the host counts its windows. */
  lemma {:induction false} CellsAreWindows(dims: seq<Dim>, dim: int)
    requires dim < |dims|
    ensures Cells(dims) == Windows(dims, dim) * (if dim >= 0 then dims[dim].extent else 1)
  {
    if dims != [] {
      CellsAreWindows(dims[1..], if dim == 0 then -1 else dim - 1);
      if dim > 0 {
        Associate(dims[0].extent, Windows(dims[1..], dim - 1), dims[dim].extent);
      }
    }
  }

  // ---- the tensor read backwards ---------------------------------------------------------------------

  function Host(b: Batch): Batch
    requires b.dim < |b.shape|
  {
    Batch(Reversed(b.shape), Reversed(b.strides), |b.shape| - 1 - b.dim)
  }

  lemma HostDims(b: Batch)
    requires |b.shape| == |b.strides| && b.dim < |b.shape|
    ensures Dims(Host(b).shape, Host(b).strides) == Reversed(Dims(b.shape, b.strides))
  {}

  lemma HostForm(b: Batch)
    requires b.WellFormed()
    ensures Host(b).WellFormed()
    ensures Host(b).Count() == b.Count() && Host(b).Length() == b.Length() && Host(b).Size() == b.Size()
  {
    hide Cells, Windows;
    var dims := Dims(b.shape, b.strides);
    HostDims(b);
    CellsReversed(dims);
    CellsAreWindows(dims, b.dim);
    CellsAreWindows(Reversed(dims), Host(b).dim);
    CancelLength(b.Count(), Host(b).Count(), b.Length());
  }

  lemma HostInBounds(b: Batch, size: nat)
    requires b.InBounds(size)
    ensures Host(b).InBounds(size)
    ensures Host(b).Count() == b.Count() && Host(b).Length() == b.Length() && Host(b).Size() == b.Size()
  {
    hide Position, InBox, Batch.Count, Batch.Length, Batch.Size;
    HostForm(b);
    HostDims(b);
    var dims := Dims(b.shape, b.strides);
    forall c: seq<nat> | InBox(c, Reversed(dims))
      ensures |c| == |dims| && Position(c, Reversed(dims)) < size
    {
      BoxLength(c, Reversed(dims));
      TupleReversed(c, dims);
    }
  }

  lemma BoxLength(c: seq<nat>, dims: seq<Dim>)
    requires InBox(c, dims)
    ensures |c| == |dims|
  {}

  lemma HostFits(b: Batch, size: nat)
    requires b.Fits(size)
    ensures Host(b).Fits(size) && Host(b).Count() == b.Count() && Host(b).Length() == b.Length() && Host(b).Size() == b.Size()
  {
    hide Injective, Batch.InBounds, Batch.Count, Batch.Length, Batch.Size;
    HostInBounds(b, size);
    HostForm(b);
    HostDims(b);
    InjectiveReversed(Dims(b.shape, b.strides));
  }

  lemma HostIsValid(b: Batch)
    requires b.Valid()
    ensures Host(b).Valid()
  {
    HostForm(b);
  }

  lemma CancelLength(a: nat, b: nat, n: nat)
    requires n > 0 && a * n == b * n
    ensures a == b
  {
    if a < b {
      Monotone(a + 1, b, n);
      Distribute(n, a, 1);
    } else if a > b {
      Monotone(b + 1, a, n);
      Distribute(n, b, 1);
    }
  }

  /** Coordinates off `dim` depend on the batch alone. */
  lemma {:induction false} SameCoordinates(a: seq<Dim>, b: seq<Dim>, dim: int, w: nat, k: nat)
    requires |a| == |b| && (forall i :: 0 <= i < |a| && i != dim ==> a[i].extent == b[i].extent)
    requires (forall i :: 0 <= i < |a| ==> a[i].extent >= 1) && forall i :: 0 <= i < |b| ==> b[i].extent >= 1
    ensures Coordinates(a, dim, w, k) == Coordinates(b, dim, w, k)
  {
    if a != [] {
      SameCoordinates(a[1..], b[1..], if dim == 0 then -1 else dim - 1, if dim == 0 then w else w / a[0].extent, k);
    }
  }

  lemma {:induction false} CoordinateAtDim(dims: seq<Dim>, dim: int, w: nat, k: nat)
    requires forall i :: 0 <= i < |dims| ==> dims[i].extent >= 1
    ensures 0 <= dim < |dims| ==> Coordinates(dims, dim, w, k)[dim] == k
  {
    if dims != [] && dim > 0 {
      CoordinateAtDim(dims[1..], dim - 1, w / dims[0].extent, k);
    }
  }

  /** A lane of the host and a window of the kernels have the same coordinates, read in opposite orders. */
  ghost predicate LaneMatches(b: Batch, w: nat, lane: nat) {
    && b.Valid() && Host(b).Valid()
    && Coordinates(Dims(Host(b).shape, Host(b).strides), Host(b).dim, lane, 0)
       == Reversed(Coordinates(Dims(b.shape, b.strides), b.dim, w, 0))
  }

  lemma MatchingWindow(b: Batch, w: nat, lane: nat)
    requires LaneMatches(b, w, lane)
    ensures Host(b).Window(lane) == b.Window(w)
  {
    hide Coordinates, Offset, Reversed;
    HostDims(b);
    OffsetByCoordinates(Dims(b.shape, b.strides), b.dim, w, lane);
  }

  /** Whether they match depends on the batch dimensions alone. */
  lemma MatchesAlike(a: Batch, b: Batch, w: nat, lane: nat)
    requires LaneMatches(a, w, lane) && b.Valid() && SameBatch(a, b)
    ensures LaneMatches(b, w, lane)
  {
    hide Coordinates, Reversed;
    HostIsValid(b);
    SameCoordinates(Dims(a.shape, a.strides), Dims(b.shape, b.strides), a.dim, w, 0);
    SameCoordinates(Dims(Host(a).shape, Host(a).strides), Dims(Host(b).shape, Host(b).strides), Host(a).dim, lane, 0);
  }

  /** Every window of the kernels is some lane of the host. */
  lemma SomeLane(b: Batch, w: nat) returns (lane: nat)
    requires b.Valid() && w < b.Count()
    ensures LaneMatches(b, w, lane) && lane < Host(b).Count()
  {
    hide Position, Coordinates, Windows, Reversed;
    HostIsValid(b);
    HostDims(b);
    var dims := Dims(b.shape, b.strides);
    var c := Coordinates(dims, b.dim, w, 0);
    CoordinatesInBox(dims, b.dim, w, 0);
    CoordinateAtDim(dims, b.dim, w, 0);
    InBoxReversed(c, dims);
    var k;
    lane, k := CoordinatesOnto(Reversed(dims), Host(b).dim, Reversed(c));
    assert k == c[b.dim] == 0;
  }

  /** The host's lane for a window of the kernels: the same cells, in every tensor of the batch. */
  lemma LaneOf(a: Batch, b: Batch, w: nat) returns (lane: nat)
    requires a.Valid() && b.Valid() && SameBatch(a, b) && w < a.Count()
    ensures Host(a).Valid() && Host(b).Valid() && lane < Host(a).Count()
    ensures Host(a).Window(lane) == a.Window(w) && Host(b).Window(lane) == b.Window(w)
  {
    lane := SomeLane(a, w);
    MatchesAlike(a, b, w, lane);
    MatchingWindow(a, w, lane);
    MatchingWindow(b, w, lane);
    hide *;
  }

  lemma OffsetByCoordinates(dims: seq<Dim>, dim: nat, w: nat, lane: nat)
    requires dim < |dims| && forall i :: 0 <= i < |dims| ==> dims[i].extent >= 1
    requires forall i :: 0 <= i < |dims| ==> Reversed(dims)[i].extent >= 1
    requires Coordinates(Reversed(dims), |dims| - 1 - dim, lane, 0) == Reversed(Coordinates(dims, dim, w, 0))
    ensures Offset(Reversed(dims), |dims| - 1 - dim, lane) == Offset(dims, dim, w)
  {
    hide Position, Coordinates, Offset, Reversed;
    OffsetIsPosition(dims, dim, w, 0);
    OffsetIsPosition(Reversed(dims), |dims| - 1 - dim, lane, 0);
    PositionReversed(Coordinates(dims, dim, w, 0), dims);
  }

  // ---- the host's coordinates ------------------------------------------------------------------------------

  /** The coordinates peeled off so far and those the rest of the number stands for make up them all. */
  ghost predicate Peeling(dims: seq<Dim>, dim: int, peeled: seq<nat>, rest: nat, all: seq<nat>) {
    && |peeled| <= |dims| && (forall i :: 0 <= i < |dims| ==> dims[i].extent >= 1)
    && peeled + Coordinates(dims[|peeled|..], dim - |peeled|, rest, 0) == all
  }

  lemma PeelStep(dims: seq<Dim>, dim: int, peeled: seq<nat>, rest: nat, all: seq<nat>)
    requires Peeling(dims, dim, peeled, rest, all) && |peeled| < |dims|
    ensures rest / dims[|peeled|].extent >= 0
    ensures
      var n := dims[|peeled|].extent;
      if |peeled| == dim then Peeling(dims, dim, peeled + [0], rest, all)
      else Peeling(dims, dim, peeled + [rest % n], rest / n, all)
  {
    var d, i := dims[|peeled|..], |peeled|;
    var x, left := if i == dim then 0 else rest % d[0].extent, if i == dim then rest else rest / d[0].extent;
    DivBounds(rest, d[0].extent);
    assert d[1..] == dims[i + 1..];
    var others := Coordinates(d[1..], dim - i - 1, left, 0);
    assert peeled + ([x] + others) == (peeled + [x]) + others;
  }

  lemma PeelEnds(dims: seq<Dim>, dim: int, peeled: seq<nat>, rest: nat, all: seq<nat>)
    requires Peeling(dims, dim, peeled, rest, all) && |peeled| == |dims|
    ensures peeled == all
  {
    assert dims[|peeled|..] == [];
  }

  /** The peeled coordinates are those from place i on, last first. */
  predicate Mirrors(peeled: seq<nat>, coords: seq<nat>, i: nat) {
    i <= |coords| && |peeled| == |coords| - i && forall k :: 0 <= k < |peeled| ==> peeled[k] == coords[|coords| - 1 - k]
  }

  lemma MirrorsOneMore(peeled: seq<nat>, was: seq<nat>, coords: seq<nat>, i: nat)
    requires i < |was| && Mirrors(peeled, was, i + 1)
    requires |coords| == |was| && forall k :: 0 <= k < |was| && k != i ==> coords[k] == was[k]
    ensures Mirrors(peeled + [coords[i]], coords, i)
  {}

  /** `get_coords`: the coordinates of a lane, peeled off from the last dimension, zero along `dim`. */
  method GetCoords(lane: nat, shape: seq<nat>, strides: seq<nat>, dim: nat) returns (coords: array<nat>)
    requires |shape| == |strides| && dim < |shape| && forall i :: 0 <= i < |shape| ==> shape[i] >= 1
    ensures fresh(coords) && coords.Length == |shape|
    ensures
      var dims := Reversed(Dims(shape, strides));
      (forall i :: 0 <= i < |dims| ==> dims[i].extent >= 1)
      && Reversed(coords[..]) == Coordinates(dims, |shape| - 1 - dim, lane, 0)
  {
    hide Reversed, Coordinates;
    coords := new nat[|shape|](_ => 0);
    ghost var dims, rdim := Reversed(Dims(shape, strides)), |shape| - 1 - dim;
    ghost var all := Coordinates(dims, rdim, lane, 0);
    ghost var peeled: seq<nat> := [];
    var temp := lane;
    var i := |shape|;
    assert dims[0..] == dims && [] + all == all;
    while i > 0
      invariant 0 <= i <= |shape| && |peeled| == |shape| - i
      invariant Mirrors(peeled, coords[..], i)
      invariant Peeling(dims, rdim, peeled, temp, all)
      invariant coords[dim] == 0
    {
      hide Peeling, Mirrors;
      i := i - 1;
      ghost var was := coords[..];
      PeelStep(dims, rdim, peeled, temp, all);
      if i != dim {
        coords[i] := temp % shape[i];
        temp := temp / shape[i];
      }
      MirrorsOneMore(peeled, was, coords[..], i);
      peeled := peeled + [coords[i]];
    }
    PeelEnds(dims, rdim, peeled, temp, all);
    assert Reversed(coords[..]) == peeled;
  }

  /** The cell a host index names is the cell of the lane's window. */
  lemma HostCell(b: Batch, lane: nat, coords: seq<nat>, k: nat)
    requires b.Valid() && Host(b).Valid() && |coords| == |b.shape|
    requires Reversed(coords) == Coordinates(Dims(Host(b).shape, Host(b).strides), Host(b).dim, lane, 0)
    ensures Position(coords[b.dim := k], Dims(b.shape, b.strides)) == Host(b).Window(lane).At(k)
  {
    hide *;
    HostWindow(b, lane);
    HostPosition(Dims(b.shape, b.strides), b.dim, coords, lane, k);
  }

  /** The host's window is the window of the reversed dimensions. */
  lemma HostWindow(b: Batch, lane: nat)
    requires b.Valid() && Host(b).Valid()
    ensures |b.shape| == |b.strides| && b.dim < |b.shape|
    ensures
      var dims := Dims(b.shape, b.strides);
      && |dims| == |b.shape| && Host(b).dim == |dims| - 1 - b.dim
      && (forall i :: 0 <= i < |dims| ==> Reversed(dims)[i].extent >= 1)
      && Dims(Host(b).shape, Host(b).strides) == Reversed(dims)
      && Host(b).Window(lane) == WindowView(Reversed(dims), |dims| - 1 - b.dim, lane)
  {
    hide WindowView, Reversed;
    HostDims(b);
  }

  lemma HostPosition(dims: seq<Dim>, dim: nat, coords: seq<nat>, lane: nat, k: nat)
    requires dim < |dims| == |coords| && forall i :: 0 <= i < |dims| ==> Reversed(dims)[i].extent >= 1
    requires Reversed(coords) == Coordinates(Reversed(dims), |dims| - 1 - dim, lane, 0)
    ensures Position(coords[dim := k], dims) == WindowView(Reversed(dims), |dims| - 1 - dim, lane).At(k)
  {
    hide Position, Coordinates, Offset, Reversed;
    OffsetIsPosition(Reversed(dims), |dims| - 1 - dim, lane, k);
    UpdatedCoordinates(Reversed(dims), |dims| - 1 - dim, lane, k);
    ReversedUpdate(coords, dim, k);
    PositionReversed(coords[dim := k], dims);
  }

  lemma ReversedUpdate<T>(s: seq<T>, i: nat, x: T)
    requires i < |s|
    ensures Reversed(s[i := x]) == Reversed(s)[|s| - 1 - i := x]
  {}

  lemma {:induction false} UpdatedCoordinates(dims: seq<Dim>, dim: int, w: nat, k: nat)
    requires 0 <= dim < |dims| && forall i :: 0 <= i < |dims| ==> dims[i].extent >= 1
    ensures Coordinates(dims, dim, w, k) == Coordinates(dims, dim, w, 0)[dim := k]
  {
    if dim == 0 {
      SameTail(dims[1..], w, k);
    } else {
      UpdatedCoordinates(dims[1..], dim - 1, w / dims[0].extent, k);
    }
  }

  lemma {:induction false} SameTail(dims: seq<Dim>, w: nat, k: nat)
    requires forall i :: 0 <= i < |dims| ==> dims[i].extent >= 1
    ensures forall dim: int :: dim < 0 ==> Coordinates(dims, dim, w, k) == Coordinates(dims, dim, w, 0)
  {
    if dims != [] {
      SameTail(dims[1..], w / dims[0].extent, k);
    }
  }
}

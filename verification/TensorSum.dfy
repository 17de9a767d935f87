/** `shared_sum` on a strided tensor: whichever way it reads the tensor, it adds up the tensor's elements. */
module TensorSums {
  import opened DenseSums
  import opened DenseViews
  import opened IndexArithmetic
  import opened MixedRadix
  import opened SharedSum

  /** The buffer's content as a function, zero outside. */
  function Content(buffer: seq<real>): int -> real {
    p => if 0 <= p < |buffer| then buffer[p] else 0.0
  }

  // ---- the elements in coordinate order -------------------------------------------------------------

  /** The view's elements in coordinate order, the last dimension fastest. */
  function Elements(dims: seq<Dim>, f: int -> real, off: nat): (xs: seq<real>)
    ensures |xs| == Cells(dims)
    decreases dims, 0
  {
    if dims == [] then [f(off)] else ElementsBelow(dims[0].extent, dims[0].stride, dims[1..], f, off)
  }

  function ElementsBelow(n: nat, stride: nat, rest: seq<Dim>, f: int -> real, off: nat): (xs: seq<real>)
    ensures |xs| == n * Cells(rest)
    decreases rest, n + 1
  {
    if n == 0 then []
    else
      Nonnegative(n - 1, stride);
      Distribute(Cells(rest), n - 1, 1);
      ElementsBelow(n - 1, stride, rest, f, off) + Elements(rest, f, off + (n - 1) * stride)
  }

  lemma {:induction false} LaneSumConcat(a: seq<real>, b: seq<real>)
    ensures LaneSum(a + b) == LaneSum(a) + LaneSum(b)
  {
    if b == [] {
      assert a + b == a;
    } else {
      LaneSumConcat(a, b[..|b| - 1]);
      assert (a + b)[..|a + b| - 1] == a + b[..|b| - 1];
    }
  }

  lemma {:induction false} ElementsSum(dims: seq<Dim>, f: int -> real, off: nat)
    ensures LaneSum(Elements(dims, f, off)) == LogicalSum(dims, f, off)
    decreases dims, 0
  {
    if dims == [] {
      assert [f(off)][..0] == [];
    } else {
      ElementsBelowSum(dims[0].extent, dims[0].stride, dims[1..], f, off);
    }
  }

  lemma {:induction false} ElementsBelowSum(n: nat, stride: nat, rest: seq<Dim>, f: int -> real, off: nat)
    ensures LaneSum(ElementsBelow(n, stride, rest, f, off)) == SumBelow(n, stride, rest, f, off)
    decreases rest, n + 1
  {
    if n > 0 {
      Nonnegative(n - 1, stride);
      var next := off + (n - 1) * stride;
      ElementsBelowSum(n - 1, stride, rest, f, off);
      ElementsSum(rest, f, next);
      LaneSumConcat(ElementsBelow(n - 1, stride, rest, f, off), Elements(rest, f, next));
    }
  }

  /** Adding the buffer cell by cell. */
  lemma {:induction false} BufferLaneSum(buffer: seq<real>, m: nat)
    requires m <= |buffer|
    ensures LaneSum(buffer[..m]) == BufferSum(Content(buffer), m)
  {
    if m > 0 {
      BufferLaneSum(buffer, m - 1);
      assert buffer[..m][..m - 1] == buffer[..m - 1];
    }
  }

  // ---- vectors ----------------------------------------------------------------------------------------

  /** Consecutive elements in vectors of so many lanes. */
  function Vectors(xs: seq<real>, lanes: nat): (vectors: seq<Vector>)
    requires lanes > 0 && |xs| % lanes == 0
    ensures Uniform(vectors, lanes)
    decreases |xs|
  {
    if xs == [] then []
    else
      LastVector(|xs|, lanes);
      Vectors(xs[..|xs| - lanes], lanes) + [xs[|xs| - lanes..]]
  }

  lemma LastVector(n: nat, lanes: nat)
    requires n > 0 && lanes > 0 && n % lanes == 0
    ensures n >= lanes && (n - lanes) % lanes == 0
  {
    Distribute(lanes, n / lanes, -1);
    ModOfMultiple(lanes, n / lanes - 1);
  }

  lemma {:induction false} VectorsTotal(xs: seq<real>, lanes: nat)
    requires lanes > 0 && |xs| % lanes == 0
    ensures Total(Vectors(xs, lanes)) == LaneSum(xs)
    decreases |xs|
  {
    if xs != [] {
      LastVector(|xs|, lanes);
      var init, last := xs[..|xs| - lanes], xs[|xs| - lanes..];
      VectorsTotal(init, lanes);
      LaneSumConcat(init, last);
      assert xs == init + last;
      var all := Vectors(xs, lanes);
      assert all[..|all| - 1] == Vectors(init, lanes);
    }
  }

  /** The widest of the device's vectors that divides the tensor, one if none does. */
  method WidestVector(sizes: seq<nat>, n: nat) returns (lanes: nat)
    requires forall i :: 0 <= i < |sizes| ==> sizes[i] > 0
    ensures lanes > 0 && n % lanes == 0 && (lanes in sizes || lanes == 1)
    ensures forall i :: 0 <= i < |sizes| && n % sizes[i] == 0 ==> sizes[i] <= lanes
  {
    lanes := 1;
    for i := 0 to |sizes|
      invariant lanes > 0 && n % lanes == 0 && (lanes in sizes || lanes == 1)
      invariant forall j :: 0 <= j < i && n % sizes[j] == 0 ==> sizes[j] <= lanes
    {
      if n % sizes[i] == 0 && sizes[i] > lanes {
        lanes := sizes[i];
      }
    }
  }

  // ---- the launch ---------------------------------------------------------------------------------------

  /** The element count of a shape. */
  method CountElements(shape: seq<nat>, ghost strides: seq<nat>) returns (n: nat)
    requires |shape| == |strides|
    ensures n == Cells(Dims(shape, strides))
  {
    n := 1;
    ghost var dims := Dims(shape, strides);
    var i := |shape|;
    while i > 0
      invariant 0 <= i <= |shape| && n == Cells(dims[i..])
    {
      i := i - 1;
      assert dims[i..][1..] == dims[i + 1..];
      n := shape[i] * n;
    }
    assert dims[0..] == dims;
  }

  /**
   `shared_sum`. A tensor that fills its buffer and visits each cell once is read as the flat buffer in the widest vectors
   that divide it, any other through its view in coordinate order. Either way the output grows by the sum of the view.
   */
  method SumTensor(buffer: seq<real>, shape: seq<nat>, strides: seq<nat>, output: array<real>, cubes: nat, maxUnits: nat,
                   sizes: seq<nat>, viewLanes: nat)
    returns (flat: bool)
    requires |shape| == |strides| && cubes > 0 && output.Length > 0
    requires forall i :: 0 <= i < |sizes| ==> sizes[i] > 0
    requires viewLanes > 0 && Cells(Dims(shape, strides)) % viewLanes == 0
    modifies output
    ensures flat ==> Bijective(Dims(shape, strides)) && Cells(Dims(shape, strides)) == |buffer|
    ensures (forall i :: 0 <= i < |shape| ==> shape[i] >= 1) ==>
      (flat <==> Bijective(Dims(shape, strides)) && Cells(Dims(shape, strides)) == |buffer|)
    ensures output[0] == old(output[0]) + LogicalSum(Dims(shape, strides), Content(buffer), 0)
    ensures forall i :: 0 < i < output.Length ==> output[i] == old(output[i])
  {
    hide *;
    var n := CountElements(shape, strides);
    ghost var dims := Dims(shape, strides);
    flat := false;
    if n == |buffer| {
      flat := IsDense(shape, strides);
    }
    if flat {
      var lanes := WidestVector(sizes, n);
      FlatSum(dims, buffer, lanes);
      Launch(Vectors(buffer, lanes), lanes, output, cubes, maxUnits);
    } else {
      ViewSum(dims, buffer, viewLanes);
      Launch(Vectors(Elements(Dims(shape, strides), Content(buffer), 0), viewLanes), viewLanes, output, cubes, maxUnits);
    }
  }

  lemma FlatSum(dims: seq<Dim>, buffer: seq<real>, lanes: nat)
    requires Bijective(dims) && Cells(dims) == |buffer| && lanes > 0 && |buffer| % lanes == 0
    ensures Total(Vectors(buffer, lanes)) == LogicalSum(dims, Content(buffer), 0)
  {
    hide Bijective, Total, LaneSum, LogicalSum, BufferSum, Cells;
    VectorsTotal(buffer, lanes);
    assert buffer[..|buffer|] == buffer;
    BufferLaneSum(buffer, |buffer|);
    SumsAgreeIff(dims);
    assert LogicalSum(dims, Content(buffer), 0) == BufferSum(Content(buffer), Cells(dims));
  }

  lemma ViewSum(dims: seq<Dim>, buffer: seq<real>, lanes: nat)
    requires lanes > 0 && Cells(dims) % lanes == 0
    ensures Total(Vectors(Elements(dims, Content(buffer), 0), lanes)) == LogicalSum(dims, Content(buffer), 0)
  {
    hide Total, LaneSum, LogicalSum, Cells, Elements;
    VectorsTotal(Elements(dims, Content(buffer), 0), lanes);
    ElementsSum(dims, Content(buffer), 0);
  }
}

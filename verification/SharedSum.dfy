/** `shared_sum`: every unit sums a run of vectors, every cube reduces its units in a tree, the cubes add atomically. */
module SharedSum {
  import opened IndexArithmetic
  import opened PowersOfTwo
  import opened UnitSchedule

  // ---- vectors of lanes ---------------------------------------------------------------

  type Vector = seq<real>

  function Zero(lanes: nat): (v: Vector)
    ensures |v| == lanes && forall k :: 0 <= k < lanes ==> v[k] == 0.0
  {
    seq(lanes, _ => 0.0)
  }

  function AddVectors(a: Vector, b: Vector): (v: Vector)
    requires |a| == |b|
    ensures |v| == |a| && forall k :: 0 <= k < |a| ==> v[k] == a[k] + b[k]
  {
    seq(|a|, k requires 0 <= k < |a| && |a| == |b| => a[k] + b[k])
  }

  predicate Uniform(xs: seq<Vector>, lanes: nat) {
    forall i :: 0 <= i < |xs| ==> |xs[i]| == lanes
  }

  /** The lane-wise sum of a run of vectors. */
  function VectorSum(xs: seq<Vector>, lanes: nat): (v: Vector)
    requires Uniform(xs, lanes)
    ensures |v| == lanes
  {
    if xs == [] then Zero(lanes) else AddVectors(VectorSum(xs[..|xs| - 1], lanes), xs[|xs| - 1])
  }

  function LaneSum(v: Vector): real {
    if v == [] then 0.0 else LaneSum(v[..|v| - 1]) + v[|v| - 1]
  }

  /** The sum of all elements of the input. */
  function Total(xs: seq<Vector>): real {
    if xs == [] then 0.0 else Total(xs[..|xs| - 1]) + LaneSum(xs[|xs| - 1])
  }

  lemma {:induction false} VectorSumSplit(xs: seq<Vector>, ys: seq<Vector>, lanes: nat)
    requires Uniform(xs, lanes) && Uniform(ys, lanes)
    ensures Uniform(xs + ys, lanes)
    ensures VectorSum(xs + ys, lanes) == AddVectors(VectorSum(xs, lanes), VectorSum(ys, lanes))
  {
    if ys == [] {
      assert xs + ys == xs;
      assert AddVectors(VectorSum(xs, lanes), Zero(lanes)) == VectorSum(xs, lanes);
    } else {
      var init, last := ys[..|ys| - 1], ys[|ys| - 1];
      VectorSumSplit(xs, init, lanes);
      assert (xs + ys)[..|xs + ys| - 1] == xs + init;
      var a, b := VectorSum(xs, lanes), VectorSum(init, lanes);
      assert AddVectors(AddVectors(a, b), last) == AddVectors(a, AddVectors(b, last));
    }
  }

  lemma {:induction false} LaneSumAdds(a: Vector, b: Vector)
    requires |a| == |b|
    ensures LaneSum(AddVectors(a, b)) == LaneSum(a) + LaneSum(b)
  {
    if a != [] {
      var n := |a| - 1;
      LaneSumAdds(a[..n], b[..n]);
      assert AddVectors(a, b)[..n] == AddVectors(a[..n], b[..n]);
    }
  }

  lemma {:induction false} LaneSumOfVectorSum(xs: seq<Vector>, lanes: nat)
    requires Uniform(xs, lanes)
    ensures LaneSum(VectorSum(xs, lanes)) == Total(xs)
  {
    if xs == [] {
      LaneSumOfZero(lanes);
    } else {
      LaneSumOfVectorSum(xs[..|xs| - 1], lanes);
      LaneSumAdds(VectorSum(xs[..|xs| - 1], lanes), xs[|xs| - 1]);
    }
  }

  lemma {:induction false} LaneSumOfZero(lanes: nat)
    ensures LaneSum(Zero(lanes)) == 0.0
  {
    if lanes > 0 {
      LaneSumOfZero(lanes - 1);
      assert Zero(lanes)[..lanes - 1] == Zero(lanes - 1);
    }
  }

  lemma {:induction false} TotalSplit(xs: seq<Vector>, ys: seq<Vector>)
    ensures Total(xs + ys) == Total(xs) + Total(ys)
  {
    if ys == [] {
      assert xs + ys == xs;
    } else {
      TotalSplit(xs, ys[..|ys| - 1]);
      assert (xs + ys)[..|xs + ys| - 1] == xs + ys[..|ys| - 1];
    }
  }

  // ---- launch geometry ------------------------------------------------------------------

  function NextPowerOfTwo(n: nat, p: nat): (r: nat)
    requires p > 0
    decreases if p < n then n - p else 0
  {
    if p >= n then p else NextPowerOfTwo(n, 2 * p)
  }

  /** The unit count: 256 or the device's cap, cut down to a power of two. */
  function Units(maxUnits: nat): nat {
    var cap := Min(256, Max(maxUnits, 1));
    var next := NextPowerOfTwo(cap, 1);
    if next == cap then cap else next / 2
  }

  lemma {:induction false} NextPowerBounds(n: nat, e: nat) returns (d: nat)
    requires n > 0 && (e == 0 || Exp2(e - 1) < n)
    ensures NextPowerOfTwo(n, Exp2(e)) == Exp2(d) && Exp2(d) >= n && (d == 0 || Exp2(d - 1) < n)
    decreases if Exp2(e) < n then n - Exp2(e) else 0
  {
    if Exp2(e) < n {
      assert Exp2(e + 1) == 2 * Exp2(e);
      d := NextPowerBounds(n, e + 1);
    } else {
      d := e;
    }
  }

  /** The units form the largest power of two within the cap, so the tree has whole rounds; x and y split them evenly. */
  lemma UnitsArePowerOfTwo(maxUnits: nat) returns (bits: nat)
    ensures Units(maxUnits) == Exp2(bits) <= Min(256, Max(maxUnits, 1)) < Exp2(bits + 1)
    ensures Min(32, Exp2(bits)) * (Exp2(bits) / Min(32, Exp2(bits))) == Exp2(bits)
  {
    var cap := Min(256, Max(maxUnits, 1));
    var d := NextPowerBounds(cap, 0);
    bits := if Exp2(d) == cap then d else d - 1;
    EvenSplit(bits);
  }

  lemma EvenSplit(bits: nat)
    ensures Min(32, Exp2(bits)) * (Exp2(bits) / Min(32, Exp2(bits))) == Exp2(bits)
  {
    if bits > 5 {
      Exp2Add(5, bits - 5);
      SmallPowers(5);
      ModOfMultiple(32, Exp2(bits - 5));
    } else {
      SmallPowers(bits);
      ModOfMultiple(Exp2(bits), 1);
    }
  }

  lemma {:induction false} SmallPowers(e: nat)
    requires e <= 5
    ensures Exp2(e) <= 32 && (e == 5 ==> Exp2(e) == 32)
  {
    assert Exp2(0) == 1 && Exp2(1) == 2 && Exp2(2) == 4 && Exp2(3) == 8 && Exp2(4) == 16 && Exp2(5) == 32;
  }

  /** The end of the runs of the first p units, in vectors. */
  function Bound(p: nat, perUnit: nat, vectors: nat): (b: nat)
    ensures b <= vectors
  {
    Min(p * perUnit, vectors)
  }

  /** The bounds of consecutive units. */
  function Bounds(p: nat, units: nat, perUnit: nat, vectors: nat): (bounds: seq<nat>)
    ensures |bounds| == units && forall u :: 0 <= u < units ==> bounds[u] == Bound(p + u, perUnit, vectors)
  {
    seq<nat>(units, u requires u >= 0 => Bound(p + u, perUnit, vectors))
  }

  lemma BoundsAscend(p: nat, q: nat, perUnit: nat, vectors: nat)
    requires p <= q
    ensures Bound(p, perUnit, vectors) <= Bound(q, perUnit, vectors)
  {
    Monotone(p, q, perUnit);
  }

  // ---- the kernel ---------------------------------------------------------------------------

  /** What unit u of a cube is to add up. */
  function Run(input: seq<Vector>, first: nat, perUnit: nat, u: nat): seq<Vector> {
    BoundsAscend(first + u, first + u + 1, perUnit, |input|);
    input[Bound(first + u, perUnit, |input|)..Bound(first + u + 1, perUnit, |input|)]
  }

  lemma ExtendRun(input: seq<Vector>, lanes: nat, a: nat, k: nat)
    requires Uniform(input, lanes) && a <= k < |input|
    ensures VectorSum(input[a..k + 1], lanes) == AddVectors(VectorSum(input[a..k], lanes), input[k])
  {
    var run := input[a..k + 1];
    assert run[..|run| - 1] == input[a..k];
  }

  lemma RunsAreRanges(first: nat, units: nat, perUnit: nat, vectors: nat)
    ensures forall u: nat :: u < units ==>
      Bounds(first, units, perUnit, vectors)[u] <= Bounds(first + 1, units, perUnit, vectors)[u] <= vectors
  {
    forall u: nat | u < units
      ensures Bounds(first, units, perUnit, vectors)[u] <= Bounds(first + 1, units, perUnit, vectors)[u] <= vectors
    {
      BoundsAscend(first + u, first + u + 1, perUnit, vectors);
    }
  }

  /** Every unit sums its run into its own cell; any unit may go next. */
  method SumRuns(input: seq<Vector>, lanes: nat, shared: array<Vector>, first: nat, perUnit: nat)
    requires Uniform(input, lanes)
    modifies shared
    ensures forall u: nat :: u < shared.Length ==> shared[u] == VectorSum(Run(input, first, perUnit, u), lanes)
  {
    hide VectorSum, Bound, AddVectors, Items, Zero;
    var units := shared.Length;
    var start := Bounds(first, units, perUnit, |input|);
    var end := Bounds(first + 1, units, perUnit, |input|);
    RunsAreRanges(first, units, perUnit, |input|);
    forall u | 0 <= u < units {
      shared[u] := Zero(lanes);
    }
    EmptyRun(lanes);
    var k := start;
    assert forall u: nat :: u < units ==> input[start[u]..k[u]] == [];
    ghost var unread := set u: nat, i: nat | u in Items(units) && i in Items(|input|) :: (u, i);
    while exists u :: 0 <= u < units && k[u] < end[u]
      invariant |k| == units
      invariant forall u :: 0 <= u < units ==> start[u] <= k[u] <= end[u] <= |input|
      invariant forall u :: 0 <= u < units ==> shared[u] == VectorSum(input[start[u]..k[u]], lanes)
      invariant forall u: nat, i: nat :: u < units && k[u] <= i < end[u] ==> (u, i) in unread
      decreases unread
    {
      var u :| 0 <= u < units && k[u] < end[u];
      ExtendRun(input, lanes, start[u], k[u]);
      shared[u] := AddVectors(shared[u], input[k[u]]);
      unread := unread - {(u, k[u])};
      k := k[u := k[u] + 1];
    }
  }

  lemma EmptyRun(lanes: nat)
    ensures VectorSum([], lanes) == Zero(lanes)
  {}

  // ---- the tree --------------------------------------------------------------------------------

  /** The cell unit u of a round adds into, and the one it adds. */
  function Destination(jump: nat, u: nat): nat {
    jump * 2 * u
  }

  function Origin(jump: nat, u: nat): nat {
    jump * (2 * u + 1)
  }

  /** Inside a round no unit touches a cell another unit writes. */
  lemma RoundIsRaceFree(jump: nat, active: nat)
    requires jump > 0
    ensures forall u: nat, v: nat :: Destination(jump, u) != Origin(jump, v)
    ensures forall u: nat, v: nat :: u != v ==> Destination(jump, u) != Destination(jump, v)
    ensures forall u: nat {:trigger Destination(jump, u)} {:trigger Origin(jump, u)} :: u < active ==>
      Destination(jump, u) < Origin(jump, u) < jump * (2 * active)
  {
    forall u: nat, v: nat
      ensures Destination(jump, u) != Origin(jump, v)
    {
      Associate(jump, 2, u);
      DifferentMultiples(jump, 2 * u, 2 * v + 1);
    }
    forall u: nat, v: nat | u != v
      ensures Destination(jump, u) != Destination(jump, v)
    {
      Associate(jump, 2, u);
      Associate(jump, 2, v);
      DifferentMultiples(jump, 2 * u, 2 * v);
    }
    forall u: nat | u < active
      ensures Destination(jump, u) < Origin(jump, u) < jump * (2 * active)
    {
      Associate(jump, 2, u);
      Distribute(jump, 2 * u, 1);
      Monotone(2 * u + 2, 2 * active, jump);
      Distribute(jump, 2 * u + 1, 1);
    }
  }

  lemma DifferentMultiples(d: nat, a: nat, b: nat)
    requires d > 0 && a != b
    ensures d * a != d * b
  {
    if a < b {
      Monotone(a + 1, b, d);
      Distribute(d, a, 1);
    } else {
      Monotone(b + 1, a, d);
      Distribute(d, b, 1);
    }
  }

  /** The original cells from `lo` up to `hi`, summed. */
  function BlockSum(was: seq<Vector>, lanes: nat, lo: nat, hi: nat): Vector
    requires Uniform(was, lanes) && lo <= hi <= |was|
  {
    VectorSum(was[lo..hi], lanes)
  }

  lemma BlocksJoin(was: seq<Vector>, lanes: nat, lo: nat, mid: nat, hi: nat)
    requires Uniform(was, lanes) && lo <= mid <= hi <= |was|
    ensures BlockSum(was, lanes, lo, hi) == AddVectors(BlockSum(was, lanes, lo, mid), BlockSum(was, lanes, mid, hi))
  {
    assert was[lo..hi] == was[lo..mid] + was[mid..hi];
    VectorSumSplit(was[lo..mid], was[mid..hi], lanes);
  }

  /** After the rounds so far, every jump-th cell holds the sum of its block of the original cells. */
  ghost predicate Reduced(now: seq<Vector>, was: seq<Vector>, lanes: nat, jump: nat, blocks: nat) {
    && jump > 0 && |now| == |was| == jump * blocks && Uniform(was, lanes)
    && forall i: nat {:trigger BlockStart(jump, i)} :: i < blocks ==>
         var lo := BlockStart(jump, i);
         lo + jump <= |was| && now[lo] == BlockSum(was, lanes, lo, lo + jump)
  }

  function BlockStart(jump: nat, i: nat): nat {
    jump * i
  }

  lemma BlockStarts(jump: nat, u: nat)
    ensures BlockStart(jump, 2 * u) == Destination(jump, u) == BlockStart(2 * jump, u)
    ensures BlockStart(jump, 2 * u + 1) == Origin(jump, u) == Destination(jump, u) + jump
  {
    Associate(jump, 2, u);
    Distribute(jump, 2 * u, 1);
  }

  /** One round of the tree, its active units in any order. */
  method TreeRound(acc: array<Vector>, ghost was: seq<Vector>, lanes: nat, jump: nat, active: nat)
    requires jump > 0 && Reduced(acc[..], was, lanes, jump, 2 * active)
    modifies acc
    ensures Reduced(acc[..], was, lanes, 2 * jump, active)
  {
    hide Destination, Origin, BlockStart, BlockSum, Items, AddVectors, VectorSum, Uniform;
    RoundIsRaceFree(jump, active);
    forall u: nat | u < active
      ensures Origin(jump, u) + jump <= |was|
      ensures acc[Destination(jump, u)] == BlockSum(was, lanes, Destination(jump, u), Origin(jump, u))
      ensures acc[Origin(jump, u)] == BlockSum(was, lanes, Origin(jump, u), Origin(jump, u) + jump)
    {
      BlockStarts(jump, u);
    }
    var todo := Items(active);
    while todo != {}
      invariant todo <= Items(active)
      invariant forall u: nat {:trigger Origin(jump, u)} :: u < active ==>
        acc[Origin(jump, u)] == BlockSum(was, lanes, Origin(jump, u), Origin(jump, u) + jump)
      invariant forall u: nat {:trigger Destination(jump, u)} :: u < active ==>
        acc[Destination(jump, u)] == BlockSum(was, lanes, Destination(jump, u),
                                              if u in todo then Origin(jump, u) else Origin(jump, u) + jump)
      decreases todo
    {
      var u :| u in todo;
      var destination, origin := Destination(jump, u), Origin(jump, u);
      BlocksJoin(was, lanes, destination, origin, origin + jump);
      SameLanes(was, lanes, destination, origin, origin + jump);
      acc[destination] := AddVectors(acc[destination], acc[origin]);
      todo := todo - {u};
    }
    Associate(2, jump, active);
    forall u: nat | u < active
      ensures
        var lo := BlockStart(2 * jump, u);
        lo + 2 * jump <= |was| && acc[lo] == BlockSum(was, lanes, lo, lo + 2 * jump)
    {
      BlockStarts(jump, u);
      assert Origin(jump, u) + jump == Destination(jump, u) + 2 * jump;
    }
  }

  lemma SameLanes(was: seq<Vector>, lanes: nat, lo: nat, mid: nat, hi: nat)
    requires Uniform(was, lanes) && lo <= mid <= hi <= |was|
    ensures |BlockSum(was, lanes, lo, mid)| == |BlockSum(was, lanes, mid, hi)| == lanes
  {}

  /** `sum_shared_memory`: halve the active units and double the jump until one cell holds everything. */
  method SumSharedMemory(acc: array<Vector>, lanes: nat, bits: nat) returns (total: Vector)
    requires acc.Length == Exp2(bits) && Uniform(acc[..], lanes)
    modifies acc
    ensures total == VectorSum(old(acc[..]), lanes)
  {
    ghost var was := acc[..];
    var active, jump := acc.Length, 1;
    ghost var round := 0;
    SingleBlocks(was, lanes);
    while active > 1
      invariant 0 <= round <= bits && active == Exp2(bits - round) && jump > 0
      invariant Reduced(acc[..], was, lanes, jump, active)
      decreases active
    {
      hide Reduced;
      active := active / 2;
      TreeRound(acc, was, lanes, jump, active);
      jump := jump * 2;
      round := round + 1;
    }
    assert BlockStart(jump, 0) == 0;
    assert was[0..|was|] == was;
    return acc[0];
  }

  lemma SingleBlocks(was: seq<Vector>, lanes: nat)
    requires Uniform(was, lanes)
    ensures Reduced(was, was, lanes, 1, |was|)
  {
    forall i: nat | i < |was|
      ensures BlockStart(1, i) == i && was[i] == BlockSum(was, lanes, i, i + 1)
    {
      var one := was[i..i + 1];
      assert one[..0] == [] && VectorSum(one, lanes) == AddVectors(VectorSum(one[..0], lanes), was[i]);
    }
  }

  // ---- the launch ------------------------------------------------------------------------------

  /** The vectors that cube c is to add up. */
  function CubeInput(input: seq<Vector>, c: nat, units: nat, perUnit: nat): seq<Vector> {
    BoundsAscend(c * units, (c + 1) * units, perUnit, |input|);
    input[Bound(c * units, perUnit, |input|)..Bound((c + 1) * units, perUnit, |input|)]
  }

  /** The sums of the units' runs, one after the other. */
  function RunSums(input: seq<Vector>, lanes: nat, first: nat, perUnit: nat, n: nat): (sums: seq<Vector>)
    requires Uniform(input, lanes)
    ensures |sums| == n && Uniform(sums, lanes)
  {
    if n == 0 then []
    else RunSums(input, lanes, first, perUnit, n - 1) + [VectorSum(Run(input, first, perUnit, n - 1), lanes)]
  }

  lemma {:induction false} RunSumsTotal(input: seq<Vector>, lanes: nat, first: nat, perUnit: nat, n: nat)
    requires Uniform(input, lanes)
    ensures Bound(first, perUnit, |input|) <= Bound(first + n, perUnit, |input|)
    ensures Total(RunSums(input, lanes, first, perUnit, n))
         == Total(input[Bound(first, perUnit, |input|)..Bound(first + n, perUnit, |input|)])
  {
    hide Bound, LaneSum, VectorSum;
    BoundsAscend(first, first + n, perUnit, |input|);
    var lo, hi := Bound(first, perUnit, |input|), Bound(first + n, perUnit, |input|);
    if n == 0 {
      assert input[lo..hi] == [];
    } else {
      RunSumsTotal(input, lanes, first, perUnit, n - 1);
      BoundsAscend(first + n - 1, first + n, perUnit, |input|);
      var mid := Bound(first + n - 1, perUnit, |input|);
      hide Total;
      JoinRuns(input, lanes, RunSums(input, lanes, first, perUnit, n - 1), lo, mid, hi);
    }
  }

  lemma JoinRuns(input: seq<Vector>, lanes: nat, sums: seq<Vector>, lo: nat, mid: nat, hi: nat)
    requires Uniform(input, lanes) && lo <= mid <= hi <= |input| && Total(sums) == Total(input[lo..mid])
    ensures Total(sums + [VectorSum(input[mid..hi], lanes)]) == Total(input[lo..hi])
  {
    hide Total, VectorSum, LaneSum;
    assert input[lo..hi] == input[lo..mid] + input[mid..hi];
    TotalSplit(input[lo..mid], input[mid..hi]);
    LaneSumOfVectorSum(input[mid..hi], lanes);
    TotalOfOneMore(sums, VectorSum(input[mid..hi], lanes));
  }

  lemma TotalOfOneMore(xs: seq<Vector>, v: Vector)
    ensures Total(xs + [v]) == Total(xs) + LaneSum(v)
  {
    assert (xs + [v])[..|xs|] == xs;
  }

  lemma {:induction false} RunSumsAt(input: seq<Vector>, lanes: nat, first: nat, perUnit: nat, n: nat, cells: seq<Vector>)
    requires Uniform(input, lanes) && n <= |cells|
    requires forall u: nat :: u < n ==> cells[u] == VectorSum(Run(input, first, perUnit, u), lanes)
    ensures cells[..n] == RunSums(input, lanes, first, perUnit, n)
  {
    if n > 0 {
      RunSumsAt(input, lanes, first, perUnit, n - 1, cells);
      hide VectorSum, Run;
      assert cells[..n] == cells[..n - 1] + [cells[n - 1]];
    }
  }

  /** One cube up to its atomic add: the value it contributes. */
  method CubeSum(input: seq<Vector>, lanes: nat, c: nat, bits: nat, perUnit: nat) returns (sum: real)
    requires Uniform(input, lanes)
    ensures sum == Total(CubeInput(input, c, Exp2(bits), perUnit))
  {
    hide VectorSum, LaneSum, Total, Run, Bound;
    var units := Exp2(bits);
    var shared := new Vector[units](_ => []);
    SumRuns(input, lanes, shared, c * units, perUnit);
    RunSumsAt(input, lanes, c * units, perUnit, units, shared[..]);
    assert shared[..][..units] == shared[..];
    RunSumsTotal(input, lanes, c * units, perUnit, units);
    ghost var cells := shared[..];
    var vector := SumSharedMemory(shared, lanes, bits);
    LaneSumOfVectorSum(cells, lanes);
    Distribute(units, c, 1);
    sum := ExtractLanes(vector);
  }

  /** The lanes of the reduced vector, added one after the other. */
  method ExtractLanes(v: Vector) returns (sum: real)
    ensures sum == LaneSum(v)
  {
    sum := 0.0;
    for k := 0 to |v|
      invariant sum == LaneSum(v[..k])
    {
      assert v[..k + 1][..k] == v[..k];
      sum := v[k] + sum;
    }
    assert v[..|v|] == v;
  }

  /** The contributions of the cubes below n that have added theirs. */
  function Added(input: seq<Vector>, units: nat, perUnit: nat, n: nat, waiting: set<nat>): real {
    if n == 0 then 0.0 else
      var last := if n - 1 in waiting then 0.0 else Total(CubeInput(input, n - 1, units, perUnit));
      Added(input, units, perUnit, n - 1, waiting) + last
  }

  lemma {:induction false} AddOne(input: seq<Vector>, units: nat, perUnit: nat, n: nat, waiting: set<nat>, c: nat)
    requires c in waiting
    ensures Added(input, units, perUnit, n, waiting - {c})
         == Added(input, units, perUnit, n, waiting) + (if c < n then Total(CubeInput(input, c, units, perUnit)) else 0.0)
  {
    if n > 0 {
      AddOne(input, units, perUnit, n - 1, waiting, c);
    }
  }

  lemma {:induction false} NoneAdded(input: seq<Vector>, units: nat, perUnit: nat, n: nat, waiting: set<nat>)
    requires forall c: nat :: c < n ==> c in waiting
    ensures Added(input, units, perUnit, n, waiting) == 0.0
  {
    if n > 0 {
      NoneAdded(input, units, perUnit, n - 1, waiting);
    }
  }

  lemma {:induction false} AllAdded(input: seq<Vector>, units: nat, perUnit: nat, n: nat)
    ensures Added(input, units, perUnit, n, {}) == Total(input[..Bound(n * units, perUnit, |input|)])
  {
    if n == 0 {
      assert Bound(0, perUnit, |input|) == 0;
    } else {
      AllAdded(input, units, perUnit, n - 1);
      Monotone(n - 1, n, units);
      BoundsAscend((n - 1) * units, n * units, perUnit, |input|);
      var mid, hi := Bound((n - 1) * units, perUnit, |input|), Bound(n * units, perUnit, |input|);
      assert input[..hi] == input[..mid] + input[mid..hi];
      TotalSplit(input[..mid], input[mid..hi]);
    }
  }

  /** Rounding up gives every vector a unit. */
  lemma RunsReachTheEnd(vectors: nat, lanes: nat, units: nat)
    requires lanes > 0 && units > 0
    ensures Bound(units, DivCeil(vectors * lanes, units * lanes), vectors) == vectors
  {
    var perUnit := DivCeil(vectors * lanes, units * lanes);
    DivCeilCovers(vectors * lanes, units * lanes);
    Associate(perUnit, units, lanes);
    if perUnit * units < vectors {
      Monotone(perUnit * units + 1, vectors, lanes);
      Distribute(lanes, perUnit * units, 1);
      assert false;
    }
  }

  /**
   `shared_sum`: whatever the input length, cube count and device, and in whatever order the cubes' atomic adds arrive,
   the output grows by exactly the sum of all input elements.
   */
  method Launch(input: seq<Vector>, lanes: nat, output: array<real>, cubes: nat, maxUnits: nat)
    requires lanes > 0 && cubes > 0 && Uniform(input, lanes) && output.Length > 0
    modifies output
    ensures output[0] == old(output[0]) + Total(input)
    ensures forall i :: 0 < i < output.Length ==> output[i] == old(output[i])
  {
    hide Total, Bound, Items;
    ghost var e := UnitsArePowerOfTwo(maxUnits);
    var units := Units(maxUnits);
    var bits := Log2(units);
    var perUnit := DivCeil(|input| * lanes, cubes * units * lanes);
    var waiting := Items(cubes);
    NoneAdded(input, units, perUnit, cubes, waiting);
    while waiting != {}
      invariant waiting <= Items(cubes)
      invariant output[0] == old(output[0]) + Added(input, units, perUnit, cubes, waiting)
      invariant forall i :: 0 < i < output.Length ==> output[i] == old(output[i])
      decreases waiting
    {
      var c :| c in waiting;
      var sum := CubeSum(input, lanes, c, bits, perUnit);
      AddOne(input, units, perUnit, cubes, waiting, c);
      output[0] := output[0] + sum;
      waiting := waiting - {c};
    }
    AllAdded(input, units, perUnit, cubes);
    Monotone(1, cubes, units);
    RunsReachTheEnd(|input|, lanes, cubes * units);
    assert input[..|input|] == input;
  }

  /** The number of rounds of the tree. */
  function Log2(n: nat): (e: nat)
    requires n > 0
    ensures forall d: nat :: n == Exp2(d) ==> e == d
  {
    if n == 1 then 0 else 1 + Log2(n / 2)
  }
}

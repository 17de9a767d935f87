/** `BlockScaledLayout`: the scale slot of each element, and which unit of a launch writes it. */
module BlockScales {
  import opened DenseViews
  import opened IndexArithmetic
  import opened MixedRadix

  /** Tensor extents and block edges, outermost first. */
  ghost predicate Legal(shape: seq<nat>, block: seq<nat>) {
    |shape| == |block| && forall d :: 0 <= d < |shape| ==> shape[d] >= 1 && block[d] >= 1
  }

  function Cells(shape: seq<nat>): nat {
    if shape == [] then 1 else Cells(shape[..|shape| - 1]) * shape[|shape| - 1]
  }

  /** The block a position lies in, one index per dimension. */
  function BlockOf(shape: seq<nat>, block: seq<nat>, pos: nat): (b: seq<nat>)
    requires Legal(shape, block)
    ensures |b| == |shape|
  {
    if shape == [] then [] else
      var last := |shape| - 1;
      BlockOf(shape[..last], block[..last], pos / shape[last]) + [(pos % shape[last]) / block[last]]
  }

  /** Whether a position is the first of its block. */
  predicate Starts(shape: seq<nat>, block: seq<nat>, pos: nat)
    requires Legal(shape, block)
  {
    shape == [] ||
      var last := |shape| - 1;
      (pos % shape[last]) % block[last] == 0 && Starts(shape[..last], block[..last], pos / shape[last])
  }

  /** How many blocks each dimension has. */
  function Grid(shape: seq<nat>, block: seq<nat>): (g: seq<nat>)
    requires Legal(shape, block)
    ensures |g| == |shape|
  {
    seq<nat>(|shape|, d requires 0 <= d < |shape| && Legal(shape, block) => DivCeil(shape[d], block[d]))
  }

  /** The scale slot of a block under the scales' strides. */
  function Slot(b: seq<nat>, strides: seq<nat>): nat
    requires |b| == |strides|
  {
    if b == [] then 0 else
      var last := |b| - 1;
      Slot(b[..last], strides[..last]) + b[last] * strides[last]
  }

  lemma PeelBlock(shape: seq<nat>, block: seq<nat>, d: nat, offs: nat)
    requires Legal(shape, block) && d < |shape|
    ensures BlockOf(shape[..d + 1], block[..d + 1], offs)
         == BlockOf(shape[..d], block[..d], offs / shape[d]) + [(offs % shape[d]) / block[d]]
    ensures Starts(shape[..d + 1], block[..d + 1], offs)
       <==> (offs % shape[d]) % block[d] == 0 && Starts(shape[..d], block[..d], offs / shape[d])
  {
    assert shape[..d + 1][..d] == shape[..d] && block[..d + 1][..d] == block[..d];
  }

  lemma PeelSlot(b: seq<nat>, x: nat, strides: seq<nat>, d: nat)
    requires |b| == d < |strides|
    ensures Slot(b + [x], strides[..d + 1]) == Slot(b, strides[..d]) + x * strides[d]
  {
    assert (b + [x])[..d] == b && strides[..d + 1][..d] == strides[..d];
  }

  lemma WholePrefix(s: seq<nat>)
    ensures s[..|s|] == s
  {}

  // ---- the loops ------------------------------------------------------------------------------

  /**
   `to_source_pos`: peel the coordinates off from the innermost dimension, adding each block's share of the slot, and turn
   the slot into a vector of scales.
   */
  method ToSourcePos(shape: seq<nat>, block: seq<nat>, strides: seq<nat>, scalesVectorSize: nat, pos: nat) returns (index: nat)
    requires Legal(shape, block) && |strides| == |shape| && scalesVectorSize > 0
    ensures index == Slot(BlockOf(shape, block, pos), strides) / scalesVectorSize
  {
    hide BlockOf, Slot;
    var offs := pos;
    var slot := 0;
    WholePrefix(shape);
    WholePrefix(block);
    WholePrefix(strides);
    var dim := |shape|;
    while dim > 0
      invariant 0 <= dim <= |shape|
      invariant slot + Slot(BlockOf(shape[..dim], block[..dim], offs), strides[..dim])
             == Slot(BlockOf(shape, block, pos), strides)
    {
      dim := dim - 1;
      PeelBlock(shape, block, dim, offs);
      DivBounds(offs, shape[dim]);
      var local := offs % shape[dim];
      offs := offs / shape[dim];
      DivBounds(local, block[dim]);
      PeelSlot(BlockOf(shape[..dim], block[..dim], offs), local / block[dim], strides, dim);
      Nonnegative(local / block[dim], strides[dim]);
      slot := slot + (local / block[dim]) * strides[dim];
    }
    NoBlocks(BlockOf([], [], offs));
    DivBounds(slot, scalesVectorSize);
    return slot / scalesVectorSize;
  }

  lemma NoBlocks(b: seq<nat>)
    requires b == []
    ensures Slot(b, []) == 0
  {}

  /** `shape_divmod_quant`: the tensor's logical extents from the packed one's, whose last extent counts words. */
  method ShapeDivmodQuant(shape: seq<nat>, numQuants: nat) returns (logical: seq<nat>)
    requires |shape| > 0 && numQuants > 0
    ensures |logical| == |shape|
    ensures forall d :: 0 <= d < |shape| - 1 ==> logical[d] == shape[d]
    ensures logical[|shape| - 1] == shape[|shape| - 1] * numQuants && logical[|shape| - 1] % numQuants == 0
    ensures Cells(logical) == Cells(shape) * numQuants
  {
    logical := [];
    for d := 0 to |shape| - 1
      invariant logical == shape[..d]
    {
      logical := logical + [shape[d]];
    }
    var last := shape[|shape| - 1];
    Nonnegative(last, numQuants);
    ModOfMultiple(numQuants, last);
    logical := logical + [last * numQuants];
    assert logical[..|shape| - 1] == shape[..|shape| - 1];
    Associate(Cells(shape[..|shape| - 1]), last, numQuants);
  }

  /** `is_block_start`. */
  method IsBlockStart(shape: seq<nat>, block: seq<nat>, pos: nat) returns (isStart: bool)
    requires Legal(shape, block)
    ensures isStart <==> Starts(shape, block, pos)
  {
    hide BlockOf;
    var offs := pos;
    isStart := true;
    WholePrefix(shape);
    WholePrefix(block);
    var dim := |shape|;
    while dim > 0
      invariant 0 <= dim <= |shape|
      invariant (isStart && Starts(shape[..dim], block[..dim], offs)) <==> Starts(shape, block, pos)
    {
      dim := dim - 1;
      PeelBlock(shape, block, dim, offs);
      DivBounds(offs, shape[dim]);
      var local := offs % shape[dim];
      offs := offs / shape[dim];
      isStart := isStart && local % block[dim] == 0;
    }
  }

  // ---- blocks and their first positions -----------------------------------------------------

  /** The first position of a block. */
  function FirstOf(shape: seq<nat>, block: seq<nat>, b: seq<nat>): nat
    requires Legal(shape, block) && |b| == |shape|
  {
    if shape == [] then 0 else
      var last := |shape| - 1;
      FirstOf(shape[..last], block[..last], b[..last]) * shape[last] + b[last] * block[last]
  }

  predicate Below(b: seq<nat>, grid: seq<nat>) {
    |b| == |grid| && forall d :: 0 <= d < |b| ==> b[d] < grid[d]
  }

  lemma BlockInGrid(x: nat, n: nat, k: nat)
    requires x < n && k > 0
    ensures x / k < DivCeil(n, k)
  {
    DivCeilCovers(n, k);
    if x / k >= DivCeil(n, k) {
      Monotone(DivCeil(n, k), x / k, k);
      assert false;
    }
  }

  lemma FirstInDim(i: nat, n: nat, k: nat)
    requires k > 0 && i < DivCeil(n, k)
    ensures i * k < n
  {
    DivCeilCovers(n, k);
    if i * k >= n {
      assert false;
    }
  }

  /** Every element lies in a block of the grid. */
  lemma {:induction false} BlockOfInGrid(shape: seq<nat>, block: seq<nat>, pos: nat)
    requires Legal(shape, block)
    ensures Below(BlockOf(shape, block, pos), Grid(shape, block))
  {
    if shape != [] {
      var last := |shape| - 1;
      BlockOfInGrid(shape[..last], block[..last], pos / shape[last]);
      assert Grid(shape[..last], block[..last]) == Grid(shape, block)[..last];
      BlockInGrid(pos % shape[last], shape[last], block[last]);
    }
  }

  /** The place of a block's first element, by its row and its place in the row. */
  lemma FirstCell(outer: nat, rows: nat, n: nat, i: nat, k: nat)
    requires outer < rows && k > 0 && i * k < n
    ensures 0 <= i * k && 0 <= outer * n + i * k < rows * n
    ensures (outer * n + i * k) / n == outer && (outer * n + i * k) % n == i * k
    ensures (i * k) % k == 0 && (i * k) / k == i
  {
    Nonnegative(i, k);
    CellBelow(outer, i * k, rows, n);
    ModOfMultiple(k, i);
  }

  /** Each block of the grid has a first element, in the tensor and in the block, and it alone counts as a start. */
  lemma {:induction false} FirstIsStart(shape: seq<nat>, block: seq<nat>, b: seq<nat>)
    requires Legal(shape, block) && Below(b, Grid(shape, block))
    ensures
      var p := FirstOf(shape, block, b);
      p < Cells(shape) && Starts(shape, block, p) && BlockOf(shape, block, p) == b
  {
    if shape != [] {
      var last := |shape| - 1;
      var n, k := shape[last], block[last];
      assert Grid(shape[..last], block[..last]) == Grid(shape, block)[..last];
      FirstIsStart(shape[..last], block[..last], b[..last]);
      FirstInDim(b[last], n, k);
      var outer := FirstOf(shape[..last], block[..last], b[..last]);
      FirstCell(outer, Cells(shape[..last]), n, b[last], k);
      assert b == b[..last] + [b[last]];
    }
  }

  lemma {:induction false} StartIsFirst(shape: seq<nat>, block: seq<nat>, pos: nat)
    requires Legal(shape, block) && pos < Cells(shape) && Starts(shape, block, pos)
    ensures pos == FirstOf(shape, block, BlockOf(shape, block, pos))
  {
    if shape != [] {
      var last := |shape| - 1;
      var n, k := shape[last], block[last];
      CellOf(pos, Cells(shape[..last]), n);
      StartIsFirst(shape[..last], block[..last], pos / n);
      var b := BlockOf(shape, block, pos);
      assert b[..last] == BlockOf(shape[..last], block[..last], pos / n);
      assert pos % n == b[last] * k;
    }
  }

  // ---- slots --------------------------------------------------------------------------------------

  lemma {:induction false} SlotIsPosition(b: seq<nat>, grid: seq<nat>, strides: seq<nat>)
    requires |b| == |grid| == |strides|
    ensures Slot(b, strides) == Position(b, Dims(grid, strides))
  {
    if b != [] {
      var last := |b| - 1;
      SlotIsPosition(b[..last], grid[..last], strides[..last]);
      PositionSnoc(b[..last], b[last], Dims(grid[..last], strides[..last]), Dim(grid[last], strides[last]));
      assert b == b[..last] + [b[last]];
      assert Dims(grid, strides) == Dims(grid[..last], strides[..last]) + [Dim(grid[last], strides[last])];
    }
  }

  /** On scales whose strides separate the blocks, equal slots mean equal blocks. */
  lemma SlotsSeparateBlocks(shape: seq<nat>, block: seq<nat>, strides: seq<nat>, b: seq<nat>, c: seq<nat>)
    requires Legal(shape, block) && |strides| == |shape| && Bijective(Dims(Grid(shape, block), strides))
    requires Below(b, Grid(shape, block)) && Below(c, Grid(shape, block)) && Slot(b, strides) == Slot(c, strides)
    ensures b == c
  {
    var grid := Grid(shape, block);
    SlotIsPosition(b, grid, strides);
    SlotIsPosition(c, grid, strides);
    assert InBox(b, Dims(grid, strides)) && InBox(c, Dims(grid, strides));
  }

  // ---- the launch ------------------------------------------------------------------------------------

  /** The innermost block and extent come in whole groups of `lanes`, the width one unit quantizes. */
  ghost predicate WholeGroups(shape: seq<nat>, block: seq<nat>, lanes: nat)
    requires Legal(shape, block)
  {
    lanes > 0 && shape != [] && shape[|shape| - 1] % lanes == 0 && block[|block| - 1] % lanes == 0
  }

  lemma MultipleOfMultiple(a: nat, b: nat, k: nat)
    requires k > 0 && b > 0 && a % b == 0 && b % k == 0
    ensures a % k == 0
  {
    var q := a / b;
    Associate(q, k, b / k);
    assert b == k * (b / k);
    assert a == k * (q * (b / k));
    ModOfMultiple(k, q * (b / k));
  }

  /** Rows of whole groups: a position is a multiple of the group exactly when its place in the row is. */
  lemma PlaceInRow(pos: nat, n: nat, k: nat)
    requires k > 0 && n > 0 && n % k == 0
    ensures pos % k == (pos % n) % k
  {
    var m, q, r := n / k, pos / n, pos % n;
    assert n == m * k;
    Associate(q, m, k);
    Distribute(k, q * m, r / k);
    DivModUnique(pos, k, q * m + r / k, r % k);
  }

  /** A block starts at a unit's first lane, never inside a unit. */
  lemma StartsAreUnits(shape: seq<nat>, block: seq<nat>, lanes: nat, pos: nat)
    requires Legal(shape, block) && WholeGroups(shape, block, lanes) && Starts(shape, block, pos)
    ensures pos % lanes == 0
  {
    var last := |shape| - 1;
    PlaceInRow(pos, shape[last], lanes);
    MultipleOfMultiple(pos % shape[last], block[last], lanes);
  }

  /** Adding fewer than `k` to a multiple of k stays in its group, for every larger group k divides. */
  lemma SameGroup(x: nat, j: nat, k: nat, n: nat)
    requires 0 < k && n > 0 && j < k && x % k == 0 && n % k == 0
    ensures (x + j) / n == x / n && (x + j) % n == x % n + j
  {
    var q, r := x / n, x % n;
    PlaceInRow(x, n, k);
    GapBetweenMultiples(r, n, k);
    DivModUnique(x + j, n, q, r + j);
  }

  lemma GapBetweenMultiples(r: nat, n: nat, k: nat)
    requires k > 0 && r < n && r % k == 0 && n % k == 0
    ensures r + k <= n
  {
    if n / k <= r / k {
      Monotone(n / k, r / k, k);
      assert false;
    }
    Monotone(r / k + 1, n / k, k);
    Distribute(k, r / k, 1);
  }

  /** All lanes of a unit lie in one block, so the one scale the unit reads is every lane's scale. */
  lemma LanesShareBlock(shape: seq<nat>, block: seq<nat>, lanes: nat, unit: nat, lane: nat)
    requires Legal(shape, block) && WholeGroups(shape, block, lanes) && lane < lanes
    ensures unit * lanes >= 0
    ensures BlockOf(shape, block, unit * lanes + lane) == BlockOf(shape, block, unit * lanes)
  {
    Nonnegative(unit, lanes);
    ModOfMultiple(lanes, unit);
    GroupSharesBlock(shape, block, lanes, unit * lanes, lane);
  }

  lemma GroupSharesBlock(shape: seq<nat>, block: seq<nat>, lanes: nat, x: nat, lane: nat)
    requires Legal(shape, block) && WholeGroups(shape, block, lanes) && lane < lanes && x % lanes == 0
    ensures BlockOf(shape, block, x + lane) == BlockOf(shape, block, x)
  {
    var last := |shape| - 1;
    SameGroup(x, lane, lanes, shape[last]);
    PlaceInRow(x, shape[last], lanes);
    SameGroup(x % shape[last], lane, lanes, block[last]);
  }

  /** The unit that writes the scale of a block: the one that quantizes the block's first element. */
  function Writer(shape: seq<nat>, block: seq<nat>, lanes: nat, b: seq<nat>): nat
    requires Legal(shape, block) && |b| == |shape| && lanes > 0
  {
    FirstOf(shape, block, b) / lanes
  }

  /** Position p is elected for block b: it starts a block, and its scale goes to b's slot. */
  predicate Elected(shape: seq<nat>, block: seq<nat>, strides: seq<nat>, b: seq<nat>, p: nat)
    requires Legal(shape, block) && |strides| == |b| == |shape|
  {
    Starts(shape, block, p) && Slot(BlockOf(shape, block, p), strides) == Slot(b, strides)
  }

  lemma ElectedIsFirst(shape: seq<nat>, block: seq<nat>, strides: seq<nat>, b: seq<nat>, p: nat)
    requires Legal(shape, block) && p < Cells(shape)
    requires |strides| == |shape| && Bijective(Dims(Grid(shape, block), strides)) && Below(b, Grid(shape, block))
    ensures Elected(shape, block, strides, b, p) <==> p == FirstOf(shape, block, b)
  {
    hide Slot, BlockOf, Starts, FirstOf, Bijective;
    FirstIsStart(shape, block, b);
    if Elected(shape, block, strides, b, p) {
      BlockOfInGrid(shape, block, p);
      SlotsSeparateBlocks(shape, block, strides, BlockOf(shape, block, p), b);
      StartIsFirst(shape, block, p);
    }
  }

  /**
   Over the whole launch every scale slot is written by exactly one unit: unit u, whose first lane is u * lanes, writes
   the slot of block b if and only if u is that block's writer, and the writer is a unit of the launch.
   */
  lemma ExactlyOneWriter(shape: seq<nat>, block: seq<nat>, strides: seq<nat>, lanes: nat, u: nat, b: seq<nat>)
    requires Legal(shape, block) && WholeGroups(shape, block, lanes)
    requires |strides| == |shape| && Bijective(Dims(Grid(shape, block), strides)) && Below(b, Grid(shape, block))
    requires 0 <= u * lanes < Cells(shape)
    ensures Writer(shape, block, lanes, b) * lanes < Cells(shape)
    ensures Elected(shape, block, strides, b, u * lanes) <==> u == Writer(shape, block, lanes, b)
  {
    hide Elected, FirstOf, Bijective, Starts, BlockOf, Cells, Grid;
    var first := FirstOf(shape, block, b);
    FirstIsStart(shape, block, b);
    StartsAreUnits(shape, block, lanes, first);
    ElectedIsFirst(shape, block, strides, b, u * lanes);
    ExactMultiple(first, lanes, u);
  }

  lemma ExactMultiple(x: nat, k: nat, u: nat)
    requires k > 0 && x % k == 0
    ensures (x / k) * k == x && (u * k == x <==> u == x / k)
  {
    ModOfMultiple(k, u);
  }

  // ---- the host's index -----------------------------------------------------------------------------

  /** `scale_index`'s fold: the row-major number of a block. */
  function HostIndex(b: seq<nat>, grid: seq<nat>): nat
    requires |b| == |grid|
  {
    if b == [] then 0 else
      var last := |b| - 1;
      HostIndex(b[..last], grid[..last]) * grid[last] + b[last]
  }

  /** The coordinates lie in these blocks. */
  predicate InBlocks(coord: seq<nat>, block: seq<nat>, b: seq<nat>) {
    |coord| == |block| == |b| && forall i :: 0 <= i < |coord| ==> block[i] >= 1 && coord[i] / block[i] == b[i]
  }

  lemma InBlocksOneMore(x: nat, coord: seq<nat>, block: seq<nat>, b: seq<nat>, d: nat)
    requires d < |block| == |b| && block[d] >= 1 && InBlocks(coord, block[d + 1..], b[d + 1..]) && x / block[d] == b[d]
    ensures InBlocks([x] + coord, block[d..], b[d..]) && b[d..] == [b[d]] + b[d + 1..]
  {
    assert block[d..] == [block[d]] + block[d + 1..] && b[d..] == [b[d]] + b[d + 1..];
  }

  /** The block of the element at given coordinates: each coordinate over the block's extent there. */
  lemma {:induction false} BlockOfCoordinates(shape: seq<nat>, block: seq<nat>, coord: seq<nat>)
    requires Legal(shape, block) && Below(coord, shape)
    ensures InBlocks(coord, block, BlockOf(shape, block, HostIndex(coord, shape)))
  {
    if shape != [] {
      var last := |shape| - 1;
      var outer := HostIndex(coord[..last], shape[..last]);
      BlockOfCoordinates(shape[..last], block[..last], coord[..last]);
      Nonnegative(outer, shape[last]);
      DivModUnique(HostIndex(coord, shape), shape[last], outer, coord[last]);
    }
  }

  /** `scale_index`: the coordinates from the innermost out, then the fold from the outermost in. */
  method ScaleIndex(pos: nat, shape: seq<nat>, block: seq<nat>, grid: seq<nat>) returns (index: nat)
    requires Legal(shape, block) && |grid| == |shape|
    ensures index == HostIndex(BlockOf(shape, block, pos), grid)
  {
    hide BlockOf, HostIndex, Starts;
    var rank := |shape|;
    var rem, coord: seq<nat> := pos, [];
    ghost var b := BlockOf(shape, block, pos);
    WholePrefix(shape);
    WholePrefix(block);
    var d := rank;
    while d > 0
      invariant 0 <= d <= rank && |coord| == rank - d
      invariant b == BlockOf(shape[..d], block[..d], rem) + b[d..]
      invariant InBlocks(coord, block[d..], b[d..])
    {
      d := d - 1;
      PeelBlock(shape, block, d, rem);
      DivBounds(rem, shape[d]);
      var x := rem % shape[d];
      InBlocksOneMore(x, coord, block, b, d);
      coord := [x] + coord;
      rem := rem / shape[d];
    }
    index := FoldBlocks(coord, block, grid, b);
  }

  /** The second loop of `scale_index`. */
  method FoldBlocks(coord: seq<nat>, block: seq<nat>, grid: seq<nat>, ghost b: seq<nat>) returns (index: nat)
    requires |coord| == |block| == |grid| == |b|
    requires InBlocks(coord, block, b)
    ensures index == HostIndex(b, grid)
  {
    index := 0;
    for i := 0 to |coord|
      invariant index == HostIndex(b[..i], grid[..i])
    {
      assert b[..i + 1][..i] == b[..i] && grid[..i + 1][..i] == grid[..i];
      Nonnegative(index, grid[i]);
      index := index * grid[i] + coord[i] / block[i];
    }
    WholePrefix(b);
    WholePrefix(grid);
  }

  /** Row-major strides, innermost one. */
  function RowMajorStrides(grid: seq<nat>): (s: seq<nat>)
    ensures |s| == |grid|
  {
    if grid == [] then [] else
      var last := |grid| - 1;
      Scaled(RowMajorStrides(grid[..last]), grid[last]) + [1]
  }

  function Scaled(s: seq<nat>, k: nat): (r: seq<nat>)
    ensures |r| == |s|
  {
    seq<nat>(|s|, i requires 0 <= i < |s| => s[i] * k)
  }

  lemma {:induction false} SlotOfScaled(b: seq<nat>, s: seq<nat>, k: nat)
    requires |b| == |s|
    ensures Slot(b, Scaled(s, k)) == Slot(b, s) * k
  {
    if b != [] {
      var last := |b| - 1;
      SlotOfScaled(b[..last], s[..last], k);
      assert Scaled(s, k)[..last] == Scaled(s[..last], k);
      Associate(b[last], s[last], k);
      Distribute(k, Slot(b[..last], s[..last]), b[last] * s[last]);
    }
  }

  /** On row-major scales the kernel's slot is the host's index. */
  lemma {:induction false} SlotIsHostIndex(b: seq<nat>, grid: seq<nat>)
    requires |b| == |grid|
    ensures Slot(b, RowMajorStrides(grid)) == HostIndex(b, grid)
  {
    if b != [] {
      var last := |b| - 1;
      var outer := RowMajorStrides(grid[..last]);
      SlotIsHostIndex(b[..last], grid[..last]);
      SlotOfScaled(b[..last], outer, grid[last]);
      assert RowMajorStrides(grid)[..last] == Scaled(outer, grid[last]);
    }
  }
}

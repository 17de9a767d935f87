/** The launch geometries of the random generator and the stores of its kernel. */
module PrngLayout {
  import opened CubeCount
  import opened IndexArithmetic
  import opened UnitSchedule

  const VALUES_PER_UNIT := 128

  /** Which output vectors a unit writes. */
  datatype Blueprint = Interleaved(cubeDim: nat, lineSize: nat) | Blocked(vectorsPerUnit: nat) {
    predicate Valid() {
      match this
      case Interleaved(cubeDim, lineSize) => cubeDim > 0 && lineSize > 0 && VALUES_PER_UNIT % lineSize == 0
      case Blocked(vectorsPerUnit) => vectorsPerUnit > 0
    }

    /** Vectors one unit is to write. */
    function Run(): nat
      requires Valid()
    {
      match this
      case Interleaved(_, lineSize) => VALUES_PER_UNIT / lineSize
      case Blocked(vectorsPerUnit) => vectorsPerUnit
    }

    /** The first output position of a unit and the distance to its next. */
    function First(unit: nat): nat
      requires Valid()
    {
      match this
      case Interleaved(cubeDim, lineSize) =>
        Nonnegative(unit / cubeDim, cubeDim);
        DivBounds(unit / cubeDim * cubeDim * VALUES_PER_UNIT, lineSize);
        unit / cubeDim * cubeDim * VALUES_PER_UNIT / lineSize + unit % cubeDim
      case Blocked(vectorsPerUnit) => unit * vectorsPerUnit
    }

    function Stride(): nat {
      match this
      case Interleaved(cubeDim, _) => cubeDim
      case Blocked(_) => 1
    }

    /** `OutputSlots`: the position of the nth vector of a unit. */
    function Slot(unit: nat, nth: nat): nat
      requires Valid()
    {
      First(unit) + nth * Stride()
    }

    /** The unit a position belongs to, and its place in the unit's run. */
    function Owner(pos: nat): nat
      requires Valid()
    {
      match this
      case Interleaved(cubeDim, _) => pos / (cubeDim * Run()) * cubeDim + pos % cubeDim
      case Blocked(vectorsPerUnit) => pos / vectorsPerUnit
    }

    function Place(pos: nat): nat
      requires Valid()
    {
      match this
      case Interleaved(cubeDim, _) => pos / cubeDim % Run()
      case Blocked(vectorsPerUnit) => pos % vectorsPerUnit
    }
  }

  lemma RunIsPositive(b: Blueprint)
    requires b.Valid()
    ensures b.Run() > 0
    ensures b.Blocked? ==> b.Run() == b.vectorsPerUnit
    ensures b.Interleaved? ==> b.Run() * b.lineSize == VALUES_PER_UNIT
  {
    if b.Interleaved? && b.lineSize > VALUES_PER_UNIT {
      DivModUnique(VALUES_PER_UNIT, b.lineSize, 0, VALUES_PER_UNIT);
      assert false;
    }
  }

  // ---- tiles: position c * (r * d) + s * d + u is step s of lane u of cube c ---------------------

  lemma TilePosition(c: nat, s: nat, u: nat, r: nat, d: nat)
    requires s < r && u < d
    ensures
      var pos := c * (r * d) + u + s * d;
      pos >= 0 && d * r > 0 && pos / (d * r) == c && pos % d == u && (pos / d) % r == s
  {
    var pos := c * (r * d) + u + s * d;
    CellBelow(s, u, r, d);
    Nonnegative(c, r * d);
    DivModUnique(pos, r * d, c, s * d + u);
    Associate(c, r, d);
    Distribute(d, c * r, s);
    DivModUnique(pos, d, c * r + s, u);
    DivModUnique(c * r + s, r, c, s);
    assert d * r == r * d;
  }

  lemma TileOf(pos: nat, r: nat, d: nat)
    requires r > 0 && d > 0
    ensures d * r > 0 && pos / (d * r) >= 0 && 0 <= pos % d < d && 0 <= (pos / d) % r < r
    ensures pos == pos / (d * r) * (r * d) + pos % d + (pos / d) % r * d
  {
    var c, s, u := TileCoordinates(pos, r, d);
    TilePosition(c, s, u, r, d);
  }

  lemma TileCoordinates(pos: nat, r: nat, d: nat) returns (c: nat, s: nat, u: nat)
    requires r > 0 && d > 0
    ensures s < r && u < d && pos == c * (r * d) + u + s * d
  {
    var q;
    q, u := Divide(pos, d);
    c, s := Divide(q, r);
    Distribute(d, c * r, s);
    Associate(c, r, d);
  }

  lemma Divide(x: nat, d: nat) returns (q: nat, r: nat)
    requires d > 0
    ensures x == q * d + r && r < d
  {
    DivBounds(x, d);
    q, r := x / d, x % d;
  }

  lemma TileSlot(pos: nat, r: nat, d: nat)
    requires r > 0 && d > 0
    ensures d * r > 0 && 0 <= (pos / d) % r < r
    ensures
      var owner := pos / (d * r) * d + pos % d;
      owner >= 0 && pos == owner / d * (r * d) + owner % d + (pos / d) % r * d
  {
    TileOf(pos, r, d);
    TileOwner(pos / (d * r), pos % d, d);
  }

  lemma TileOwner(c: nat, u: nat, d: nat)
    requires u < d
    ensures c * d + u >= 0 && (c * d + u) / d == c && (c * d + u) % d == u
  {
    Nonnegative(c, d);
    DivModUnique(c * d + u, d, c, u);
  }

  lemma TileOwnerBelow(pos: nat, cubes: nat, r: nat, d: nat)
    requires r > 0 && d > 0 && pos < cubes * d * r
    ensures d * r > 0 && pos / (d * r) * d + pos % d < cubes * d
  {
    Associate(cubes, d, r);
    Monotone(1, r, d);
    CellOf(pos, cubes, d * r);
    DivBounds(pos, d * r);
    CellBelow(pos / (d * r), pos % d, cubes, d);
  }

  /** Interleaved cubes cut the output into tiles of run * cubeDim vectors. */
  lemma InterleavedFirst(b: Blueprint, unit: nat)
    requires b.Valid() && b.Interleaved?
    ensures b.First(unit) == unit / b.cubeDim * (b.Run() * b.cubeDim) + unit % b.cubeDim
  {
    hide Blueprint.Run;
    RunIsPositive(b);
    TileStart(unit / b.cubeDim, b.cubeDim, b.Run(), b.lineSize);
  }

  lemma TileStart(c: nat, d: nat, r: nat, n: nat)
    requires n > 0 && r * n == VALUES_PER_UNIT
    ensures c * d * VALUES_PER_UNIT / n == c * (r * d)
  {
    Associate(c * d, r, n);
    Associate(c, d, r);
    assert c * d * VALUES_PER_UNIT == n * (c * d * r);
    ModOfMultiple(n, c * d * r);
  }

  // ---- slots and their owners --------------------------------------------------------------------

  /** A slot belongs to its unit and to its place, and to no other. */
  lemma SlotHasOneOwner(b: Blueprint, unit: nat, nth: nat)
    requires b.Valid() && nth < b.Run()
    ensures b.Owner(b.Slot(unit, nth)) == unit && b.Place(b.Slot(unit, nth)) == nth
  {
    hide Blueprint.Run, Blueprint.First;
    RunIsPositive(b);
    match b
    case Blocked(run) =>
      assert b.First(unit) == unit * run by { BlockedFirst(b, unit); }
      DivModUnique(unit * run + nth, run, unit, nth);
    case Interleaved(d, _) =>
      InterleavedFirst(b, unit);
      DivBounds(unit, d);
      TilePosition(unit / d, nth, unit % d, b.Run(), d);
  }

  lemma BlockedFirst(b: Blueprint, unit: nat)
    requires b.Valid() && b.Blocked?
    ensures b.First(unit) == unit * b.vectorsPerUnit
  {}

  /** Every position is the slot of its owner at its place. */
  lemma PositionIsSlot(b: Blueprint, pos: nat)
    requires b.Valid()
    ensures b.Run() > 0 && b.Place(pos) < b.Run()
    ensures b.Slot(b.Owner(pos), b.Place(pos)) == pos
  {
    RunIsPositive(b);
    if b.Blocked? {
      PositionInRun(b, pos);
    } else {
      PositionInTile(b, pos);
    }
  }

  lemma PositionInRun(b: Blueprint, pos: nat)
    requires b.Valid() && b.Blocked? && b.Run() > 0
    ensures b.Place(pos) < b.Run() && b.Slot(b.Owner(pos), b.Place(pos)) == pos
  {
    hide Blueprint.First;
    var run := b.vectorsPerUnit;
    DivBounds(pos, run);
    BlockedFirst(b, pos / run);
  }

  lemma PositionInTile(b: Blueprint, pos: nat)
    requires b.Valid() && b.Interleaved? && b.Run() > 0
    ensures b.Place(pos) < b.Run() && b.Slot(b.Owner(pos), b.Place(pos)) == pos
  {
    hide Blueprint.Run, Blueprint.First;
    TileSlot(pos, b.Run(), b.cubeDim);
    InterleavedFirst(b, b.Owner(pos));
  }

  /** A launch whose runs cover the output owns all of it. */
  lemma OwnerBelow(b: Blueprint, pos: nat, vectors: nat, units: nat)
    requires b.Valid() && pos < vectors && units * b.Run() >= vectors
    requires b.Interleaved? ==> units % b.cubeDim == 0
    ensures b.Owner(pos) < units
  {
    hide Blueprint.Run;
    RunIsPositive(b);
    match b
    case Blocked(run) =>
      CellOf(pos, units, run);
    case Interleaved(d, _) =>
      DivBounds(units, d);
      assert units == units / d * d;
      TileOwnerBelow(pos, units / d, b.Run(), d);
  }

  // ---- geometry -----------------------------------------------------------------------------------

  /** `interleaved`: cubes for every run of 128 values, however the spread rounds them up. */
  lemma InterleavedCovers(size: nat, cubeDim: nat, lineSize: nat, cubes: nat)
    requires cubeDim > 0 && lineSize > 0 && VALUES_PER_UNIT % lineSize == 0
    requires cubes >= DivCeil(DivCeil(size, VALUES_PER_UNIT), cubeDim)
    ensures cubes * cubeDim >= 0 && (cubes * cubeDim) % cubeDim == 0
    ensures cubes * cubeDim * Interleaved(cubeDim, lineSize).Run() >= DivCeil(size, lineSize)
  {
    hide Blueprint.Run;
    var b := Interleaved(cubeDim, lineSize);
    RunIsPositive(b);
    ModOfMultiple(cubeDim, cubes);
    Nonnegative(cubes, cubeDim);
    LaunchCovers(size, cubes, cubeDim);
    ValuesCoverVectors(size, cubes * cubeDim, b.Run(), lineSize);
  }

  /** So many cubes have a unit for every 128 values. */
  predicate HasUnits(size: nat, cubeDim: nat, cubes: nat) {
    cubes * cubeDim * VALUES_PER_UNIT >= size
  }

  lemma WantedIsFewest(size: nat, cubeDim: nat, enough: nat)
    requires cubeDim > 0 && HasUnits(size, cubeDim, enough)
    ensures DivCeil(DivCeil(size, VALUES_PER_UNIT), cubeDim) <= enough
  {
    hide DivCeil;
    Nonnegative(enough, cubeDim);
    DivCeilCovers(size, VALUES_PER_UNIT);
    DivCeilCovers(DivCeil(size, VALUES_PER_UNIT), cubeDim);
  }

  /** Within the first limit nothing is rounded up. */
  lemma LaunchedWithin(n: nat, limit: nat)
    requires Reachable(n, limit)
    ensures n <= limit ==> Launched(n, limit) == n
    ensures n == 0 ==> Launched(n, limit) == 0
  {}

  lemma LaunchCovers(size: nat, cubes: nat, cubeDim: nat)
    requires cubeDim > 0 && cubes >= DivCeil(DivCeil(size, VALUES_PER_UNIT), cubeDim)
    ensures cubes * cubeDim >= DivCeil(size, VALUES_PER_UNIT)
    ensures cubes * cubeDim * VALUES_PER_UNIT >= size
  {
    hide DivCeil;
    var units := DivCeil(size, VALUES_PER_UNIT);
    DivCeilCovers(size, VALUES_PER_UNIT);
    DivCeilCovers(units, cubeDim);
    Monotone(DivCeil(units, cubeDim), cubes, cubeDim);
    Monotone(units, cubes * cubeDim, VALUES_PER_UNIT);
  }

  lemma ValuesCoverVectors(size: nat, units: nat, run: nat, lineSize: nat)
    requires lineSize > 0 && run * lineSize == VALUES_PER_UNIT && units * VALUES_PER_UNIT >= size
    ensures units * run >= DivCeil(size, lineSize)
  {
    hide DivCeil;
    Nonnegative(units, run);
    Associate(units, run, lineSize);
    DivCeilCovers(size, lineSize);
  }

  lemma WholeDraws(draws: nat, perDraw: nat)
    requires perDraw > 0
    ensures draws * perDraw >= 0 && (draws * perDraw) % perDraw == 0 && perDraw % perDraw == 0
  {
    Nonnegative(draws, perDraw);
    ModOfMultiple(perDraw, draws);
    ModOfMultiple(perDraw, 1);
  }

  /** `blocked`: the run length of a unit, a whole number of draws and at least one. */
  function VectorsPerUnit(vectors: nat, units: nat, perDraw: nat): (n: nat)
    requires units > 0 && perDraw > 0
    ensures n >= perDraw && n % perDraw == 0
  {
    var draws := DivCeil(DivCeil(vectors, units), perDraw);
    WholeDraws(draws, perDraw);
    Max(draws * perDraw, perDraw)
  }

  /**
   `blocked`: the run length and the cubes launched, `least` being the smallest run worth a unit. The run is the shortest of
   whole draws that asks for no more units than the budget has and no more than have a least run each.
   */
  method BlockedGeometry(vectors: nat, budget: nat, least: nat, perDraw: nat, maxUnits: nat)
    returns (b: Blueprint, cubes: nat, perCube: nat)
    requires least > 0 && perDraw > 0 && maxUnits > 0
    ensures b.Blocked? && b.Valid() && b.Run() % perDraw == 0
    ensures 0 < perCube <= maxUnits
    ensures cubes * perCube * b.Run() >= vectors
    ensures vectors > 0 ==> (cubes - 1) * perCube * b.Run() < vectors
    ensures cubes > 1 ==> perCube == maxUnits
    ensures vectors > 0 ==> (perCube - 1) * b.Run() < vectors
    ensures vectors >= least ==> b.Run() >= least
    ensures
      var most := Max(1, Min(budget, Quotient(vectors, least)));
      DivCeil(vectors, b.Run()) <= most && (b.Run() > perDraw ==> most * (b.Run() - perDraw) < vectors)
  {
    hide DivCeil;
    DivBounds(vectors, least);
    var units := Max(Min(budget, vectors / least), 1);
    var run := VectorsPerUnit(vectors, units, perDraw);
    units := Max(DivCeil(vectors, run), 1);
    perCube := Min(units, maxUnits);
    cubes := DivCeil(units, perCube);
    b := Blocked(run);
    CeilingsCover(vectors, run, perCube);
    UnitsAreNeeded(vectors, run, maxUnits);
    RunIsShortest(vectors, Max(Min(budget, vectors / least), 1), perDraw);
    if vectors >= least {
      RunIsWorthAUnit(vectors, budget, least, run);
    }
  }

  function Quotient(a: nat, d: nat): nat
    requires d > 0
  {
    DivBounds(a, d);
    a / d
  }

  lemma UnitsAreNeeded(vectors: nat, run: nat, maxUnits: nat)
    requires run > 0 && maxUnits > 0
    ensures
      var units := Max(DivCeil(vectors, run), 1);
      var perCube := Min(units, maxUnits);
      && (DivCeil(units, perCube) > 1 ==> perCube == maxUnits)
      && (vectors > 0 ==> (perCube - 1) * run < vectors)
  {
    hide DivCeil;
    var units := Max(DivCeil(vectors, run), 1);
    DivCeilCovers(vectors, run);
    Monotone(Min(units, maxUnits) - 1, units - 1, run);
    DivCeilCovers(units, units);
    assert 1 * units >= units;
  }

  lemma RunIsShortest(vectors: nat, units: nat, perDraw: nat)
    requires units > 0 && perDraw > 0
    ensures
      var run := VectorsPerUnit(vectors, units, perDraw);
      units * run >= vectors && DivCeil(vectors, run) <= units && (run > perDraw ==> units * (run - perDraw) < vectors)
  {
    hide DivCeil;
    var each := DivCeil(vectors, units);
    var draws := DivCeil(each, perDraw);
    var run := VectorsPerUnit(vectors, units, perDraw);
    DivCeilCovers(vectors, units);
    DivCeilCovers(each, perDraw);
    DivCeilCovers(vectors, run);
    Monotone(each, run, units);
    if run > perDraw {
      Distribute(perDraw, draws, -1);
      Monotone(run - perDraw, each - 1, units);
    }
  }

  lemma RunIsWorthAUnit(vectors: nat, budget: nat, least: nat, run: nat)
    requires least > 0 && vectors >= least && Max(1, Min(budget, Quotient(vectors, least))) * run >= vectors
    ensures run >= least
  {
    var units := Max(1, Min(budget, Quotient(vectors, least)));
    Monotone(units, Max(1, vectors / least), least);
    if run < least {
      Monotone(run + 1, least, units);
      Distribute(units, run, 1);
    }
  }

  lemma CeilingsCover(vectors: nat, run: nat, perCube: nat)
    requires run > 0 && perCube > 0
    ensures
      var cubes := DivCeil(Max(DivCeil(vectors, run), 1), perCube);
      cubes * perCube * run >= vectors && (vectors > 0 ==> (cubes - 1) * perCube * run < vectors)
  {
    hide DivCeil;
    var units := Max(DivCeil(vectors, run), 1);
    var cubes := DivCeil(units, perCube);
    DivCeilCovers(vectors, run);
    DivCeilCovers(units, perCube);
    Monotone(DivCeil(vectors, run), cubes * perCube, run);
    if vectors > 0 {
      if (cubes - 1) * perCube * run >= vectors {
        assert false;
      }
    }
  }

  // ---- the kernel -------------------------------------------------------------------------------

  /** One store: the unit that made it and which of the unit's vectors it was. */
  datatype Store = Store(unit: nat, nth: nat)

  /**
   The stores each output vector has received when the units outside todo have stored their first `total` vectors, and
   `unit` its first `n`.
   */
  ghost predicate Written(log: seq<seq<Store>>, b: Blueprint, todo: set<nat>, unit: nat, n: nat, total: nat)
    requires b.Valid()
  {
    forall pos: nat :: pos < |log| ==>
      log[pos] ==
      if b.Owner(pos) in todo || b.Place(pos) >= (if b.Owner(pos) == unit then n else total) then []
      else [Store(b.Owner(pos), b.Place(pos))]
  }

  /** A vector of the unit's run: stored if it lies inside the output, dropped by the checked write if not. */
  lemma StoreKeeps(log: seq<seq<Store>>, b: Blueprint, todo: set<nat>, unit: nat, n: nat, total: nat)
    requires b.Valid() && unit !in todo && n < b.Run() && Written(log, b, todo, unit, n, total)
    ensures
      var pos := b.Slot(unit, n);
      Written(if pos < |log| then log[pos := log[pos] + [Store(unit, n)]] else log, b, todo, unit, n + 1, total)
  {
    hide Blueprint.Owner, Blueprint.Place, Blueprint.Slot;
    SlotHasOneOwner(b, unit, n);
    forall pos: nat | pos < |log| && b.Owner(pos) == unit && b.Place(pos) == n
      ensures pos == b.Slot(unit, n)
    {
      PositionIsSlot(b, pos);
    }
  }

  /** All slots from n up to m lie inside the output. */
  ghost predicate InBounds(b: Blueprint, unit: nat, n: nat, m: nat, vectors: nat)
    requires b.Valid()
  {
    forall k: nat :: n <= k < m ==> b.Slot(unit, k) < vectors
  }

  /** The stores of one draw, from the unit's nth vector on. An unchecked store must be in bounds. */
  method Draw(log: array<seq<Store>>, b: Blueprint, perDraw: nat, unit: nat, n: nat, checked: bool, ghost todo: set<nat>,
              ghost total: nat)
    requires b.Valid() && unit !in todo && n + perDraw <= b.Run()
    requires Written(log[..], b, todo, unit, n, total)
    requires checked || InBounds(b, unit, n, n + perDraw, log.Length)
    modifies log
    ensures Written(log[..], b, todo, unit, n + perDraw, total)
  {
    hide Blueprint.Owner, Blueprint.Place, Blueprint.Slot, Blueprint.Run, Written;
    for j := 0 to perDraw
      invariant Written(log[..], b, todo, unit, n + j, total)
    {
      StoreKeeps(log[..], b, todo, unit, n + j, total);
      var pos := b.Slot(unit, n + j);
      if !checked || pos < log.Length {
        log[pos] := log[pos] + [Store(unit, n + j)];
      }
    }
  }

  /** Draws that fit before the end of the output, under the blocked layout. */
  function Inside(b: Blueprint, unit: nat, vectors: nat, perDraw: nat): (n: nat)
    requires b.Valid() && b.Blocked? && perDraw > 0
  {
    var first := b.First(unit);
    var left := if vectors >= first then vectors - first else 0;
    DivBounds(b.vectorsPerUnit, perDraw);
    DivBounds(left, perDraw);
    Min(b.vectorsPerUnit / perDraw, left / perDraw)
  }

  /** The unchecked loop of the blocked layout never leaves the output, and takes every draw of a run that does not. */
  lemma InsideIsInBounds(b: Blueprint, unit: nat, vectors: nat, perDraw: nat, nth: nat)
    requires b.Valid() && b.Blocked? && perDraw > 0
    ensures nth * perDraw >= 0
    ensures nth < Inside(b, unit, vectors, perDraw) <==>
            nth * perDraw + perDraw <= b.Run() && InBounds(b, unit, nth * perDraw, nth * perDraw + perDraw, vectors)
  {
    var first := b.First(unit);
    var left := if vectors >= first then vectors - first else 0;
    Nonnegative(nth, perDraw);
    Distribute(perDraw, nth, 1);
    DrawsWithin(nth + 1, perDraw, left);
    DrawsWithin(nth + 1, perDraw, b.vectorsPerUnit);
    LastInBounds(b, unit, nth * perDraw, nth * perDraw + perDraw, vectors);
  }

  lemma DrawsWithin(draws: nat, perDraw: nat, n: nat)
    requires perDraw > 0
    ensures draws * perDraw <= n <==> draws <= n / perDraw
  {
    if draws <= n / perDraw {
      Monotone(draws, n / perDraw, perDraw);
    } else {
      Monotone(n / perDraw + 1, draws, perDraw);
      Distribute(perDraw, n / perDraw, 1);
    }
  }

  /** A stretch of a blocked run is in bounds when its last vector is. */
  lemma LastInBounds(b: Blueprint, unit: nat, n: nat, m: nat, vectors: nat)
    requires b.Valid() && b.Blocked? && n < m
    ensures InBounds(b, unit, n, m, vectors) <==> b.First(unit) + m <= vectors
  {
    assert forall k: nat :: b.Slot(unit, k) == b.First(unit) + k;
    if InBounds(b, unit, n, m, vectors) {
      assert b.Slot(unit, m - 1) < vectors;
    }
  }

  /** One unit of `prng_kernel`: it stores its first draws * perDraw vectors, where draws is rounded down. */
  method RunUnit(log: array<seq<Store>>, b: Blueprint, perDraw: nat, unit: nat, ghost todo: set<nat>)
    requires b.Valid() && perDraw > 0 && unit !in todo
    requires Written(log[..], b, todo, unit, 0, Stored(b, perDraw))
    modifies log
    ensures Written(log[..], b, todo, unit, Stored(b, perDraw), Stored(b, perDraw))
  {
    hide Blueprint.Owner, Blueprint.Place, Blueprint.Slot, Blueprint.First, Blueprint.Run, Written, InBounds;
    DivBounds(b.Run(), perDraw);
    var draws := b.Run() / perDraw;
    var inside := if b.Blocked? then Inside(b, unit, log.Length, perDraw) else 0;
    var nth := 0;
    while nth < draws
      invariant 0 <= nth <= draws && nth * perDraw >= 0
      invariant Written(log[..], b, todo, unit, nth * perDraw, Stored(b, perDraw))
    {
      Monotone(nth + 1, draws, perDraw);
      Distribute(perDraw, nth, 1);
      if nth < inside {
        InsideIsInBounds(b, unit, log.Length, perDraw, nth);
      }
      Draw(log, b, perDraw, unit, nth * perDraw, nth >= inside, todo, Stored(b, perDraw));
      nth := nth + 1;
    }
  }

  /** The vectors a unit's whole draws produce. */
  function Stored(b: Blueprint, perDraw: nat): (n: nat)
    requires b.Valid() && perDraw > 0
    ensures n <= b.Run() && (n == b.Run() <==> b.Run() % perDraw == 0)
  {
    hide Blueprint.Run;
    DivBounds(b.Run(), perDraw);
    Nonnegative(b.Run() / perDraw, perDraw);
    b.Run() / perDraw * perDraw
  }

  /**
   `prng_kernel` over the whole launch, its units in any order. Each output vector is stored at most once, by its owner,
   and exactly once when it is among the owner's whole draws; surplus units store nothing.
   */
  method PrngKernel(log: array<seq<Store>>, b: Blueprint, perDraw: nat, units: nat)
    requires b.Valid() && perDraw > 0
    requires (b.Interleaved? ==> units % b.cubeDim == 0) && units * b.Run() >= log.Length
    requires forall pos :: 0 <= pos < log.Length ==> log[pos] == []
    modifies log
    ensures forall pos: nat :: pos < log.Length ==>
      b.Owner(pos) < units &&
      log[pos] == if b.Place(pos) < Stored(b, perDraw) then [Store(b.Owner(pos), b.Place(pos))] else []
  {
    hide Blueprint.Owner, Blueprint.Place, Blueprint.Run, Stored;
    forall pos: nat | pos < log.Length
      ensures b.Owner(pos) < units
    {
      OwnerBelow(b, pos, log.Length, units);
    }
    var todo := Items(units);
    while todo != {}
      invariant todo <= Items(units)
      invariant forall pos: nat :: pos < log.Length ==>
        log[pos] == if b.Owner(pos) in todo || b.Place(pos) >= Stored(b, perDraw) then []
                    else [Store(b.Owner(pos), b.Place(pos))]
      decreases todo
    {
      var unit :| unit in todo;
      todo := todo - {unit};
      RunUnit(log, b, perDraw, unit, todo);
    }
  }

  /** The blocked layout always stores everything: its runs are whole draws. */
  lemma BlockedStoresAll(b: Blueprint, perDraw: nat, pos: nat)
    requires b.Valid() && perDraw > 0 && b.Run() % perDraw == 0
    ensures b.Place(pos) < Stored(b, perDraw)
  {
    hide Blueprint.Run;
    PositionIsSlot(b, pos);
  }

  /**
   The interleaved layout rounds its draws down, so it stores all vectors exactly when a draw divides the run, or the
   output ends within the whole draws of the first cube. Paired draws at a line of 128 values store nothing at all.
   */
  lemma InterleavedStoresAllIff(b: Blueprint, perDraw: nat, vectors: nat)
    requires b.Valid() && b.Interleaved? && perDraw > 0
    ensures (forall pos: nat :: pos < vectors ==> b.Place(pos) < Stored(b, perDraw)) <==>
            b.Run() % perDraw == 0 || vectors <= Stored(b, perDraw) * b.cubeDim
  {
    hide Blueprint.Run, Stored;
    RunIsPositive(b);
    var r, d, n := b.Run(), b.cubeDim, Stored(b, perDraw);
    forall pos: nat | pos < vectors && (n == r || vectors <= n * d)
      ensures b.Place(pos) < n
    {
      PositionIsSlot(b, pos);
      if n < r {
        CellOf(pos, n, d);
        DivBounds(pos, d);
        DivModUnique(pos / d, r, 0, pos / d);
      }
    }
    if n < r && vectors > n * d {
      Nonnegative(n, d);
      ModOfMultiple(d, n);
      DivModUnique(n, r, 0, n);
      assert b.Place(n * d) == n;
    }
  }

  // ---- the launches -----------------------------------------------------------------------------

  /** Every vector has been stored, and none twice. */
  ghost predicate EachOnce(log: seq<seq<Store>>) {
    forall pos :: 0 <= pos < |log| ==> |log[pos]| == 1
  }

  /**
   The blocked launch: for every tensor size, line, device and draw, geometry and kernel together store every vector
   exactly once.
   */
  method LaunchBlocked(log: array<seq<Store>>, size: nat, lineSize: nat, budget: nat, least: nat, perDraw: nat, maxUnits: nat)
    requires lineSize > 0 && least > 0 && perDraw > 0 && maxUnits > 0 && log.Length == DivCeil(size, lineSize)
    requires forall pos :: 0 <= pos < log.Length ==> log[pos] == []
    modifies log
    ensures EachOnce(log[..])
  {
    hide Blueprint.Owner, Blueprint.Place, Blueprint.Run, Stored, DivCeil;
    var b, cubes, perCube := BlockedGeometry(DivCeil(size, lineSize), budget, least, perDraw, maxUnits);
    Nonnegative(cubes, perCube);
    PrngKernel(log, b, perDraw, cubes * perCube);
    forall pos: nat | pos < log.Length
      ensures |log[pos]| == 1
    {
      BlockedStoresAll(b, perDraw, pos);
    }
  }

  /**
   The interleaved launch, its cubes spread over the grid: each vector is stored at most once, and all of them are stored
   exactly when a draw divides the run or the tensor ends within the whole draws of the first cube. The cubes are fewer than
   twice any number that has units for every value, and no more than it if it is within the first limit.
   */
  method LaunchInterleaved(log: array<seq<Store>>, size: nat, lineSize: nat, cubeDim: nat, perDraw: nat,
                           maxCubeCount: (nat, nat, nat))
    returns (cubes: nat)
    requires lineSize > 0 && VALUES_PER_UNIT % lineSize == 0 && cubeDim > 0 && perDraw > 0
    requires Spreadable(DivCeil(DivCeil(size, VALUES_PER_UNIT), cubeDim), maxCubeCount.0, maxCubeCount.1)
    requires log.Length == DivCeil(size, lineSize) && forall pos :: 0 <= pos < log.Length ==> log[pos] == []
    modifies log
    ensures forall pos :: 0 <= pos < log.Length ==> |log[pos]| <= 1
    ensures
      var b := Interleaved(cubeDim, lineSize);
      EachOnce(log[..]) <==> b.Run() % perDraw == 0 || log.Length <= Stored(b, perDraw) * cubeDim
    ensures forall enough: nat :: enough > 0 && HasUnits(size, cubeDim, enough) ==>
      cubes < 2 * enough && (enough <= maxCubeCount.0 ==> cubes <= enough)
  {
    hide Blueprint.Owner, Blueprint.Place, Blueprint.Run, Stored, DivCeil, Launched;
    var b := Interleaved(cubeDim, lineSize);
    var units := DivCeil(size, VALUES_PER_UNIT);
    var wanted := DivCeil(units, cubeDim);
    var num := CubeCountSpread(maxCubeCount, wanted);
    cubes := num[0] * num[1] * num[2];
    LaunchedCovers(wanted, maxCubeCount.0);
    forall enough: nat | enough > 0 && HasUnits(size, cubeDim, enough)
      ensures cubes < 2 * enough && (enough <= maxCubeCount.0 ==> cubes <= enough)
    {
      WantedIsFewest(size, cubeDim, enough);
      LaunchedWithin(wanted, maxCubeCount.0);
    }
    InterleavedCovers(size, cubeDim, lineSize, cubes);
    PrngKernel(log, b, perDraw, cubes * cubeDim);
    InterleavedStoresAllIff(b, perDraw, log.Length);
    if EachOnce(log[..]) {
      forall pos: nat | pos < log.Length
        ensures b.Place(pos) < Stored(b, perDraw)
      {
        assert |log[..][pos]| == 1;
      }
    }
  }

  /** A line of 128 values leaves a unit one vector, and a paired draw takes two: the launch stores nothing. */
  lemma PairedDrawsAtFullLine(cubeDim: nat)
    requires cubeDim > 0
    ensures Stored(Interleaved(cubeDim, VALUES_PER_UNIT), 2) == 0
  {}
}

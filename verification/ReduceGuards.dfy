/** The geometry and the guards the reduce routines infer, and what the reduce kernels then read. */
module ReduceGuards {
  import opened CubeCount
  import opened IndexArithmetic
  import opened PowersOfTwo

  const U32 := 0x1_0000_0000
  const PLANES_MAX_LOG2 := 3

  datatype Option<T> = None | Some(value: T)

  datatype VectorizationMode = Parallel | Perpendicular

  datatype IdleMode = Unguarded | Masked | Terminate

  datatype BoundChecks = Unchecked | Mask | Branch

  /** What the routines ask the device, and the size of the planes it then runs the kernel in. */
  datatype Device = Device(planeMin: nat, planeMax: nat, planeDim: nat, maxUnitsPerCube: nat, cpuCores: Option<nat>,
                           maxCubes: nat, sharedMemory: nat, planes: bool, nonUniformControlFlow: bool) {
    predicate Valid() {
      0 < planeMin <= planeDim <= planeMax < U32 && maxUnitsPerCube < U32 && maxCubes > 0 &&
      (cpuCores.Some? ==> cpuCores.value < U32)
    }
  }

  /** A reduction may write several values, its slots, which lie slotStride elements apart in the output. */
  datatype Problem = Problem(reduceLen: nat, reduceCount: nat, bytesPerAccumulator: nat, slots: nat, slotStride: nat)

  datatype Settings = Settings(mode: VectorizationMode, vectorIn: nat, vectorOut: nat, unchecked: bool, fuseOnRead: bool) {
    predicate Valid() {
      vectorIn > 0 && vectorOut > 0
    }

    /** The reductions one worker takes on. */
    function Each(): nat {
      if mode == Parallel then vectorOut else vectorIn
    }

    /**
     What the output width is chosen by: it divides the elements of the output, slots included, and is no more than the
     contiguous run that ends where the next slot begins. It need not divide that run, nor the reductions.
     */
    predicate Fits(p: Problem) {
      && Valid() && p.slots > 0
      && (p.reduceCount * p.slots) % vectorOut == 0
      && (p.slots > 1 ==> p.slotStride >= vectorOut)
    }
  }

  /**
   The launch: its cubes, the reductions each cube takes on, the units sharing one reduction, how far they advance in a
   step, and the guards.
   */
  datatype Launch = Launch(cubes: nat, perCube: nat, width: nat, advance: nat, idle: IdleMode, bounds: BoundChecks) {
    function Workers(): (n: nat)
      ensures n == cubes * perCube
    {
      Nonnegative(cubes, perCube);
      cubes * perCube
    }
  }

  datatype Outcome =
    | Ready(launch: Launch)
    | PlanesUnavailable
    | SharedMemoryOverflow(requested: nat, available: nat)
    | DivisionByZero

  /** Whole vectors of reductions, each of which is one worker's. */
  function Working(p: Problem, s: Settings): nat
    requires s.Valid()
  {
    DivBounds(p.reduceCount, s.vectorOut);
    DivBounds(p.reduceCount, s.vectorIn);
    match s.mode
    case Parallel => p.reduceCount / s.vectorOut
    case Perpendicular => p.reduceCount / s.vectorIn
  }

  /** Vectors of input one reduction reads. */
  function WorkSize(p: Problem, s: Settings): nat
    requires s.Valid()
  {
    DivBounds(p.reduceLen, s.vectorIn);
    match s.mode
    case Parallel => p.reduceLen / s.vectorIn
    case Perpendicular => p.reduceLen
  }

  predicate IsMultipleOf(a: nat, b: nat) {
    if b == 0 then a == 0 else a % b == 0
  }

  // ---- planes per cube ----------------------------------------------------------------------------

  /** `calculate_plane_count_per_cube`. The cast to u32 wraps. */
  function PlaneCount(units: nat, planeDim: nat, d: Device): (count: nat)
    requires planeDim > 0
    ensures count * planeDim <= d.maxUnitsPerCube
    ensures count == 0 <==>
            d.maxUnitsPerCube < planeDim || (d.cpuCores.Some? && (d.cpuCores.value == 0 || units % U32 == 0))
    ensures d.cpuCores.None? ==> count <= Exp2(PLANES_MAX_LOG2)
  {
    DivBounds(units, planeDim);
    var e := Min(PLANES_MAX_LOG2, Log2Floor(Max(1, units / planeDim)));
    Exp2Monotone(e, PLANES_MAX_LOG2);
    var wanted := if d.cpuCores.Some? then Min(d.cpuCores.value, units % U32) else Exp2(e);
    PlanesThatFit(wanted, d.maxUnitsPerCube, planeDim);
    Min(wanted, d.maxUnitsPerCube / planeDim)
  }

  /** Planes worth starting without a CPU's cores: powers of two up to eight that the work fills, and one in any case. */
  predicate Asked(n: nat, units: nat, planeDim: nat) {
    n <= 1 || (n <= 2 && 2 * planeDim <= units) || (n <= 4 && 4 * planeDim <= units) || (n <= 8 && 8 * planeDim <= units)
  }

  /** So many planes are within the units of a cube and within what the work asks for. */
  predicate PlanesAllowed(n: nat, units: nat, planeDim: nat, d: Device) {
    && n * planeDim <= d.maxUnitsPerCube
    && match d.cpuCores
       case Some(cores) => n <= cores && n <= units % U32
       case None => Asked(n, units, planeDim)
  }

  /** The plane count is the largest that is allowed. */
  lemma PlaneCountIsLargest(units: nat, planeDim: nat, d: Device, n: nat)
    requires planeDim > 0
    ensures n <= PlaneCount(units, planeDim, d) <==> PlanesAllowed(n, units, planeDim, d)
  {
    DivBounds(units, planeDim);
    DivBounds(d.maxUnitsPerCube, planeDim);
    QuotientBounds(n, planeDim, d.maxUnitsPerCube);
    SmallPowers(units / planeDim);
    QuotientBounds(2, planeDim, units);
    QuotientBounds(4, planeDim, units);
    QuotientBounds(8, planeDim, units);
    hide Exp2, Log2Floor;
  }

  lemma SmallPowers(q: nat)
    ensures Exp2(Min(PLANES_MAX_LOG2, Log2Floor(Max(1, q)))) ==
            if q >= 8 then 8 else if q >= 4 then 4 else if q >= 2 then 2 else 1
  {
    var e := Log2Floor(Max(1, q));
    assert Exp2(1) == 2 && Exp2(2) == 4 && Exp2(3) == 8;
    if e >= PLANES_MAX_LOG2 {
      Exp2Monotone(PLANES_MAX_LOG2, e);
    } else {
      assert e == 0 || e == 1 || e == 2;
    }
  }

  lemma PlanesThatFit(wanted: nat, maxUnits: nat, planeDim: nat)
    requires planeDim > 0
    ensures maxUnits / planeDim >= 0
    ensures Min(wanted, maxUnits / planeDim) * planeDim <= maxUnits
    ensures Min(wanted, maxUnits / planeDim) == 0 <==> wanted == 0 || maxUnits < planeDim
  {
    DivBounds(maxUnits, planeDim);
    QuotientBounds(Min(wanted, maxUnits / planeDim), planeDim, maxUnits);
    QuotientBounds(1, planeDim, maxUnits);
  }

  // ---- shared memory ------------------------------------------------------------------------------

  /** Bytes of shared memory a cube of so many planes needs. */
  function Footprint(bytes: nat, planeSize: nat, planes: nat, usePlanes: bool): int {
    (if usePlanes then planes else planes * planeSize) * bytes
  }

  /** `clamp_plane_count`. The cast to u32 wraps. */
  function ClampPlaneCount(bytes: nat, available: nat, planeSize: nat, planes: nat, usePlanes: bool): (r: Result)
    requires planeSize > 0
  {
    if bytes == 0 then Ok(planes)
    else
      DivBounds(available, bytes);
      var accumulators := available / bytes;
      var least := if usePlanes then 1 else planeSize;
      if accumulators < least then
        Nonnegative(bytes, least);
        Overflow(bytes * least)
      else
        DivBounds(accumulators, planeSize);
        var most := if usePlanes then accumulators else accumulators / planeSize;
        Ok(Max(Min(planes, most % U32), 1))
  }

  datatype Result = Ok(planes: nat) | Overflow(requested: nat)

  /** Planes that fit: as many as the quotient the clamp computes. */
  lemma FitsIff(bytes: nat, available: nat, planeSize: nat, planes: nat, usePlanes: bool)
    requires bytes > 0 && planeSize > 0
    ensures available / bytes >= 0 && available / bytes / planeSize >= 0
    ensures Footprint(bytes, planeSize, planes, usePlanes) <= available <==>
            planes <= if usePlanes then available / bytes else available / bytes / planeSize
  {
    DivBounds(available, bytes);
    DivBounds(available / bytes, planeSize);
    Nonnegative(planes, planeSize);
    QuotientBounds(planes, bytes, available);
    QuotientBounds(planes * planeSize, bytes, available);
    QuotientBounds(planes, planeSize, available / bytes);
  }

  lemma QuotientBounds(k: nat, b: nat, n: nat)
    requires b > 0
    ensures k * b <= n <==> k <= n / b
  {
    if k <= n / b {
      Monotone(k, n / b, b);
    } else {
      Monotone(n / b + 1, k, b);
      Distribute(b, n / b, 1);
    }
  }

  /**
   The clamp fails exactly when one plane alone does not fit, and otherwise leaves a cube that fits. It leaves the largest
   fitting cube within the request exactly when the wrapped quotient does not fall short of it.
   */
  lemma ClampFits(bytes: nat, available: nat, planeSize: nat, planes: nat, usePlanes: bool)
    requires 0 < planeSize && 0 < planes < U32
    ensures
      var r := ClampPlaneCount(bytes, available, planeSize, planes, usePlanes);
      && (r.Overflow? <==> Footprint(bytes, planeSize, 1, usePlanes) > available)
      && (r.Overflow? ==> r.requested == Footprint(bytes, planeSize, 1, usePlanes))
      && (r.Ok? ==> 1 <= r.planes <= planes && Footprint(bytes, planeSize, r.planes, usePlanes) <= available)
  {
    if bytes > 0 {
      var r := ClampPlaneCount(bytes, available, planeSize, planes, usePlanes);
      FitsIff(bytes, available, planeSize, 1, usePlanes);
      QuotientBounds(1, planeSize, available / bytes);
      if r.Ok? {
        FitsIff(bytes, available, planeSize, r.planes, usePlanes);
      }
    }
  }

  /** The same when no plane was asked for: the clamp then leaves one. */
  lemma ClampFitsAny(bytes: nat, available: nat, planeSize: nat, planes: nat, usePlanes: bool)
    requires 0 < planeSize && planes < U32
    ensures
      var r := ClampPlaneCount(bytes, available, planeSize, planes, usePlanes);
      && (r.Overflow? <==> Footprint(bytes, planeSize, 1, usePlanes) > available)
      && (r.Overflow? ==> r.requested == Footprint(bytes, planeSize, 1, usePlanes))
      && (r.Ok? ==> r.planes <= Max(planes, 1) && Footprint(bytes, planeSize, r.planes, usePlanes) <= available)
      && (r.Ok? && r.planes == 0 <==> planes == 0 && bytes == 0)
  {
    if planes > 0 {
      ClampFits(bytes, available, planeSize, planes, usePlanes);
    } else {
      ClampFits(bytes, available, planeSize, 1, usePlanes);
    }
  }

  lemma ClampIsLargestIff(bytes: nat, available: nat, planeSize: nat, planes: nat, usePlanes: bool)
    requires bytes > 0 && planeSize > 0 && 0 < planes < U32
    requires Footprint(bytes, planeSize, 1, usePlanes) <= available
    ensures available / bytes >= 0 && available / bytes / planeSize >= 0
    ensures
      var r := ClampPlaneCount(bytes, available, planeSize, planes, usePlanes);
      var most := if usePlanes then available / bytes else available / bytes / planeSize;
      && r.Ok?
      && ((forall more: nat :: r.planes < more <= planes ==> Footprint(bytes, planeSize, more, usePlanes) > available)
          <==> most < U32 || most % U32 >= planes || planes == 1)
  {
    var r := ClampPlaneCount(bytes, available, planeSize, planes, usePlanes);
    ClampFits(bytes, available, planeSize, planes, usePlanes);
    FitsIff(bytes, available, planeSize, 1, usePlanes);
    hide Footprint;
    forall more: nat
      ensures Footprint(bytes, planeSize, more, usePlanes) <= available <==>
              more <= if usePlanes then available / bytes else available / bytes / planeSize
    {
      FitsIff(bytes, available, planeSize, more, usePlanes);
    }
    if r.planes < planes {
      assert Footprint(bytes, planeSize, r.planes + 1, usePlanes) <= available <==>
             r.planes + 1 <= if usePlanes then available / bytes else available / bytes / planeSize;
    }
  }

  lemma ClampIsLargestAny(bytes: nat, available: nat, planeSize: nat, planes: nat, usePlanes: bool)
    requires bytes > 0 && planeSize > 0 && planes < U32
    requires ClampPlaneCount(bytes, available, planeSize, planes, usePlanes).Ok?
    ensures available / bytes >= 0 && available / bytes / planeSize >= 0
    ensures
      var r := ClampPlaneCount(bytes, available, planeSize, planes, usePlanes);
      var most := if usePlanes then available / bytes else available / bytes / planeSize;
      (forall more: nat :: r.planes < more <= planes ==> Footprint(bytes, planeSize, more, usePlanes) > available)
      <==> most < U32 || planes <= Max(1, most % U32)
  {
    ClampFitsAny(bytes, available, planeSize, planes, usePlanes);
    FitsIff(bytes, available, planeSize, 1, usePlanes);
    hide Footprint;
    if planes > 0 {
      ClampIsLargestIff(bytes, available, planeSize, planes, usePlanes);
    }
  }

  /** Four planes over 2^32 + 1 accumulators of one byte all fit; the wrapped quotient leaves one. */
  lemma ClampWraps()
    ensures ClampPlaneCount(1, U32 + 1, 32, 4, true) == Ok(1) && Footprint(1, 32, 4, true) <= U32 + 1
  {}

  // ---- the three inferred blueprints ----------------------------------------------------------------

  /** The bound checks of a plane or a cube. A fused read must branch where any unit may be out of range. */
  function Bounds(s: Settings, tail: bool, idlePossible: bool): BoundChecks {
    if s.fuseOnRead then
      (if tail || idlePossible then Branch else Unchecked)
    else
      (if tail then Mask else Unchecked)
  }

  /** `generate_blueprint` of the plane routine: one plane a reduction. */
  function InferPlane(d: Device, p: Problem, s: Settings): Outcome
    requires d.Valid() && s.Valid()
  {
    if !d.planes then PlanesUnavailable
    else
      var working := Working(p, s);
      Nonnegative(working, d.planeMax);
      var units := working * d.planeMax;
      var planes := PlaneCount(units, d.planeMax, d);
      if planes == 0 then DivisionByZero
      else
        var cubes := Launched(DivCeil(working, planes), d.maxCubes);
        var surplus := cubes * (d.planeMax * planes) != units;
        var tail := !(s.unchecked && IsMultipleOf(WorkSize(p, s), d.planeMax));
        var guarded := !s.unchecked || surplus;
        var idle := if !guarded then Unguarded else if d.nonUniformControlFlow then Terminate else Masked;
        var advance := if d.planeMax != d.planeMin then Min(d.planeMax, d.planeDim) else d.planeMax;
        Ready(Launch(cubes, planes, d.planeMax, advance, idle, Bounds(s, tail, guarded)))
  }

  /** `generate_blueprint` of the cube routine: one cube a reduction. */
  function InferCube(d: Device, p: Problem, s: Settings, wantPlanes: bool): Outcome
    requires d.Valid() && s.Valid()
  {
    if wantPlanes && !d.planes then PlanesUnavailable
    else
      var usePlanes := wantPlanes && d.planeMax == d.planeMin;
      var working := Working(p, s);
      Nonnegative(working, DivCeil(p.reduceLen, s.vectorIn));
      var planes := PlaneCount(working * DivCeil(p.reduceLen, s.vectorIn), d.planeMax, d);
      match ClampPlaneCount(p.bytesPerAccumulator, d.sharedMemory, d.planeMax, planes, usePlanes)
      case Overflow(requested) => SharedMemoryOverflow(requested, d.sharedMemory)
      case Ok(planes) =>
        Nonnegative(d.planeMax, planes);
        var width := d.planeMax * planes;
        var cubes := Launched(working, d.maxCubes);
        var tail := !(s.unchecked && IsMultipleOf(WorkSize(p, s), width));
        var guarded := !s.unchecked || working != cubes;
        var idle :=
          if !guarded then Unguarded else if wantPlanes && !d.nonUniformControlFlow then Masked else Terminate;
        Ready(Launch(cubes, 1, width, width, idle, Bounds(s, tail, guarded)))
  }

  /** `generate_blueprint` of the unit routine: one unit a reduction, reading without bound checks. */
  function InferUnit(d: Device, p: Problem, s: Settings): Outcome
    requires d.Valid() && s.Valid()
  {
    var working := Working(p, s);
    var planes := PlaneCount(working, d.planeMax, d);
    Nonnegative(d.planeMax, planes);
    var perCube := d.planeMax * planes;
    if perCube == 0 then DivisionByZero
    else
      var cubes := Launched(DivCeil(working, perCube), d.maxCubes);
      var idle := !s.unchecked || !IsMultipleOf(working, perCube) || cubes != DivCeil(working, perCube);
      Ready(Launch(cubes, perCube, 1, 1, if idle then Terminate else Unguarded, Unchecked))
  }

  datatype Routine = PlaneRoutine | CubeRoutine(wantPlanes: bool) | UnitRoutine

  function Infer(routine: Routine, d: Device, p: Problem, s: Settings): Outcome
    requires d.Valid() && s.Valid()
  {
    match routine
    case PlaneRoutine => InferPlane(d, p, s)
    case CubeRoutine(wantPlanes) => InferCube(d, p, s, wantPlanes)
    case UnitRoutine => InferUnit(d, p, s)
  }

  // ---- covering the work -----------------------------------------------------------------------------

  /** Rounding a spread up to whole cubes loses nothing exactly when it launches as many workers as there is work. */
  lemma SpreadIsExactIff(working: nat, perCube: nat, limit: nat)
    requires perCube > 0 && limit > 0
    ensures Launched(DivCeil(working, perCube), limit) * perCube >= working
    ensures Launched(DivCeil(working, perCube), limit) * perCube == working <==>
            working % perCube == 0 && Launched(DivCeil(working, perCube), limit) == DivCeil(working, perCube)
  {
    hide DivCeil, Launched;
    var asked := DivCeil(working, perCube);
    var cubes := Launched(asked, limit);
    LaunchedCovers(asked, limit);
    DivCeilCovers(working, perCube);
    Monotone(asked, cubes, perCube);
    if cubes * perCube == working {
      ModOfMultiple(perCube, cubes);
    }
    RoundedUp(working, perCube);
  }

  /** Every inferred launch has a worker for each whole vector, and drops its guard only when it has no other worker. */
  lemma LaunchIsExactIff(routine: Routine, d: Device, p: Problem, s: Settings)
    requires d.Valid() && s.Valid() && Infer(routine, d, p, s).Ready?
    ensures
      var l := Infer(routine, d, p, s).launch;
      && l.Workers() >= Working(p, s)
      && (l.idle == Unguarded <==> s.unchecked && l.Workers() == Working(p, s))
  {
    match routine
    case CubeRoutine(wantPlanes) => CubeIsExactIff(d, p, s, wantPlanes);
    case PlaneRoutine => PlaneIsExactIff(d, p, s);
    case UnitRoutine => UnitIsExactIff(d, p, s);
  }

  lemma PlaneIsExactIff(d: Device, p: Problem, s: Settings)
    requires d.Valid() && s.Valid() && InferPlane(d, p, s).Ready?
    ensures
      var l := InferPlane(d, p, s).launch;
      && l.Workers() >= Working(p, s)
      && (l.idle == Unguarded <==> s.unchecked && l.Workers() == Working(p, s))
  {
    hide Launched, DivCeil, PlaneCount, Working, WorkSize;
    var l, working := InferPlane(d, p, s).launch, Working(p, s);
    SpreadIsExactIff(working, l.perCube, d.maxCubes);
    Associate(l.cubes, l.perCube, d.planeMax);
    CancelFactor(l.cubes * l.perCube, working, d.planeMax);
  }

  lemma CubeIsExactIff(d: Device, p: Problem, s: Settings, wantPlanes: bool)
    requires d.Valid() && s.Valid() && InferCube(d, p, s, wantPlanes).Ready?
    ensures
      var l := InferCube(d, p, s, wantPlanes).launch;
      && l.Workers() >= Working(p, s)
      && (l.idle == Unguarded <==> s.unchecked && l.Workers() == Working(p, s))
  {
    hide Launched, DivCeil, PlaneCount, ClampPlaneCount, Working, WorkSize;
    LaunchedCovers(Working(p, s), d.maxCubes);
  }

  lemma UnitIsExactIff(d: Device, p: Problem, s: Settings)
    requires d.Valid() && s.Valid() && InferUnit(d, p, s).Ready?
    ensures
      var l := InferUnit(d, p, s).launch;
      && l.Workers() >= Working(p, s)
      && (l.idle == Unguarded <==> s.unchecked && l.Workers() == Working(p, s))
  {
    hide Launched, DivCeil, PlaneCount, Working, WorkSize;
    SpreadIsExactIff(Working(p, s), InferUnit(d, p, s).launch.perCube, d.maxCubes);
  }

  /** A reduction's accumulators are one a plane where planes are wanted and come in one size, and otherwise one a unit. */
  predicate OneAPlane(wantPlanes: bool, d: Device) {
    wantPlanes && d.planeMin == d.planeMax
  }

  /**
   The cube routine stops exactly when planes are wanted of a device without, or one plane's accumulators do not fit shared
   memory; the cube it launches is whole planes, and their accumulators fit.
   */
  lemma CubeFits(wantPlanes: bool, d: Device, p: Problem, s: Settings)
    requires d.Valid() && s.Valid()
    ensures
      var r := Infer(CubeRoutine(wantPlanes), d, p, s);
      var least := (if OneAPlane(wantPlanes, d) then 1 else d.planeMax) * p.bytesPerAccumulator;
      && (r.PlanesUnavailable? <==> wantPlanes && !d.planes)
      && (r.SharedMemoryOverflow? <==> (wantPlanes ==> d.planes) && least > d.sharedMemory)
      && (r.SharedMemoryOverflow? ==> r.requested == least && r.available == d.sharedMemory)
      && !r.DivisionByZero?
      && (r.Ready? ==>
            var l := r.launch;
            && l.width % d.planeMax == 0 && l.perCube == 1 && l.advance == l.width
            && (if OneAPlane(wantPlanes, d) then l.width / d.planeMax else l.width) * p.bytesPerAccumulator <= d.sharedMemory)
  {
    if wantPlanes ==> d.planes {
      var asked, usePlanes := AskedOfCube(d, p, s), OneAPlane(wantPlanes, d);
      CubeIs(wantPlanes, d, p, s);
      ClampFitsAny(p.bytesPerAccumulator, d.sharedMemory, d.planeMax, asked, usePlanes);
      var r := Clamped(wantPlanes, d, p, s);
      hide Infer, AskedOfCube, Clamped;
      if r.Ok? {
        ModOfMultiple(d.planeMax, r.planes);
      }
    }
  }

  /** The planes a cube's work asks for. */
  function AskedOfCube(d: Device, p: Problem, s: Settings): nat
    requires d.Valid() && s.Valid()
  {
    Nonnegative(Working(p, s), DivCeil(p.reduceLen, s.vectorIn));
    PlaneCount(Working(p, s) * DivCeil(p.reduceLen, s.vectorIn), d.planeMax, d)
  }

  /** The planes of a cube after the clamp. */
  function Clamped(wantPlanes: bool, d: Device, p: Problem, s: Settings): Result
    requires d.Valid() && s.Valid()
  {
    ClampPlaneCount(p.bytesPerAccumulator, d.sharedMemory, d.planeMax, AskedOfCube(d, p, s), OneAPlane(wantPlanes, d))
  }

  lemma CubeIs(wantPlanes: bool, d: Device, p: Problem, s: Settings)
    requires d.Valid() && s.Valid() && (wantPlanes ==> d.planes)
    ensures AskedOfCube(d, p, s) * d.planeMax <= d.maxUnitsPerCube && AskedOfCube(d, p, s) < U32
    ensures
      var r := Infer(CubeRoutine(wantPlanes), d, p, s);
      match Clamped(wantPlanes, d, p, s)
      case Overflow(requested) => r == SharedMemoryOverflow(requested, d.sharedMemory)
      case Ok(planes) =>
        && r.Ready? && r.launch.width == d.planeMax * planes
        && r.launch.perCube == 1 && r.launch.advance == r.launch.width
  {
    hide ClampPlaneCount, PlaneCount, Launched, DivCeil, Working, WorkSize;
    Monotone(1, d.planeMax, AskedOfCube(d, p, s));
  }

  /** A cube of n planes fits both what the device allows and the work asks for. */
  predicate CubeAllowed(n: nat, d: Device, p: Problem, s: Settings)
    requires d.Valid() && s.Valid()
  {
    Nonnegative(Working(p, s), DivCeil(p.reduceLen, s.vectorIn));
    PlanesAllowed(n, Working(p, s) * DivCeil(p.reduceLen, s.vectorIn), d.planeMax, d)
  }

  /**
   No wider cube is allowed whose accumulators would still fit, exactly when the cast to u32 does not cut the quotient below
   the planes asked for.
   */
  lemma CubeIsLargestIff(wantPlanes: bool, d: Device, p: Problem, s: Settings)
    requires d.Valid() && s.Valid() && Infer(CubeRoutine(wantPlanes), d, p, s).Ready? && p.bytesPerAccumulator > 0
    ensures
      var l := Infer(CubeRoutine(wantPlanes), d, p, s).launch;
      var one, each := OneAPlane(wantPlanes, d), d.sharedMemory / p.bytesPerAccumulator;
      && each >= 0 && each / d.planeMax >= 0
      && ((forall n: nat :: CubeAllowed(n, d, p, s) && n * d.planeMax > l.width ==>
             (if one then n else n * d.planeMax) * p.bytesPerAccumulator > d.sharedMemory)
          <==>
          var most := if one then each else each / d.planeMax;
          most < U32 || !CubeAllowed(Max(1, most % U32) + 1, d, p, s))
  {
    CubeIs(wantPlanes, d, p, s);
    var bytes, asked, one := p.bytesPerAccumulator, AskedOfCube(d, p, s), OneAPlane(wantPlanes, d);
    var r, width := Clamped(wantPlanes, d, p, s), Infer(CubeRoutine(wantPlanes), d, p, s).launch.width;
    ClampIsLargestAny(bytes, d.sharedMemory, d.planeMax, asked, one);
    hide Infer, AskedOfCube, Clamped, CubeAllowed, ClampPlaneCount;
    var each := d.sharedMemory / bytes;
    AllowedIs(d, p, s, Max(1, (if one then each else each / d.planeMax) % U32) + 1);
    hide *;
    if forall n: nat :: CubeAllowed(n, d, p, s) && n * d.planeMax > width ==>
         (if one then n else n * d.planeMax) * bytes > d.sharedMemory {
      NoneWider(d, p, s, one, r.planes);
    } else {
      if forall n: nat :: r.planes < n <= asked ==> Footprint(bytes, d.planeMax, n, one) > d.sharedMemory {
        NoneWiderFits(d, p, s, one, r.planes);
      }
    }
  }

  /** Whether no wider allowed cube fits, by planes or by units. */
  lemma NoneWider(d: Device, p: Problem, s: Settings, one: bool, planes: nat)
    requires d.Valid() && s.Valid()
    requires forall n: nat :: CubeAllowed(n, d, p, s) && n * d.planeMax > d.planeMax * planes ==>
      (if one then n else n * d.planeMax) * p.bytesPerAccumulator > d.sharedMemory
    ensures forall n: nat :: planes < n <= AskedOfCube(d, p, s) ==>
      Footprint(p.bytesPerAccumulator, d.planeMax, n, one) > d.sharedMemory
  {
    hide AskedOfCube, CubeAllowed;
    forall n: nat | planes < n <= AskedOfCube(d, p, s)
      ensures Footprint(p.bytesPerAccumulator, d.planeMax, n, one) > d.sharedMemory
    {
      AllowedIs(d, p, s, n);
      AtLeastCancels(planes, n, d.planeMax);
    }
  }

  lemma NoneWiderFits(d: Device, p: Problem, s: Settings, one: bool, planes: nat)
    requires d.Valid() && s.Valid()
    requires forall n: nat :: planes < n <= AskedOfCube(d, p, s) ==>
      Footprint(p.bytesPerAccumulator, d.planeMax, n, one) > d.sharedMemory
    ensures forall n: nat :: CubeAllowed(n, d, p, s) && n * d.planeMax > d.planeMax * planes ==>
      (if one then n else n * d.planeMax) * p.bytesPerAccumulator > d.sharedMemory
  {
    hide AskedOfCube, CubeAllowed;
    forall n: nat | CubeAllowed(n, d, p, s) && n * d.planeMax > d.planeMax * planes
      ensures (if one then n else n * d.planeMax) * p.bytesPerAccumulator > d.sharedMemory
    {
      AllowedIs(d, p, s, n);
      AtLeastCancels(planes, n, d.planeMax);
      assert Footprint(p.bytesPerAccumulator, d.planeMax, n, one) > d.sharedMemory;
    }
  }

  lemma AllowedIs(d: Device, p: Problem, s: Settings, n: nat)
    requires d.Valid() && s.Valid()
    ensures CubeAllowed(n, d, p, s) <==> n <= AskedOfCube(d, p, s)
  {
    hide PlaneCount, PlanesAllowed, Working, DivCeil;
    Nonnegative(Working(p, s), DivCeil(p.reduceLen, s.vectorIn));
    PlaneCountIsLargest(Working(p, s) * DivCeil(p.reduceLen, s.vectorIn), d.planeMax, d, n);
  }

  /** The cube is within the device's units exactly when one plane is, or there is nothing to accumulate. */
  lemma CubeWithinUnitsIff(wantPlanes: bool, d: Device, p: Problem, s: Settings)
    requires d.Valid() && s.Valid() && Infer(CubeRoutine(wantPlanes), d, p, s).Ready?
    ensures Infer(CubeRoutine(wantPlanes), d, p, s).launch.width <= d.maxUnitsPerCube <==>
            p.bytesPerAccumulator == 0 || d.planeMax <= d.maxUnitsPerCube
  {
    CubeIs(wantPlanes, d, p, s);
    var asked, r := AskedOfCube(d, p, s), Clamped(wantPlanes, d, p, s);
    ClampFitsAny(p.bytesPerAccumulator, d.sharedMemory, d.planeMax, asked, OneAPlane(wantPlanes, d));
    hide Infer, AskedOfCube, Clamped, ClampPlaneCount, Footprint;
    Monotone(r.planes, Max(asked, 1), d.planeMax);
    if r.planes > 0 {
      Monotone(1, r.planes, d.planeMax);
    }
    if asked > 0 {
      Monotone(1, asked, d.planeMax);
    }
  }

  /** A device whose planes are wider than its cubes: the clamp raises no plane to one. */
  lemma CubeBeyondUnits()
    ensures
      var d := Device(64, 64, 64, 32, None, 1024, 4096, true, true);
      var p, s := Problem(64, 1, 4, 1, 1), Settings(Parallel, 1, 1, false, false);
      && d.Valid() && s.Fits(p)
      && Infer(CubeRoutine(false), d, p, s).Ready? && Infer(CubeRoutine(false), d, p, s).launch.width == 64
  {}

  /** The plane and the unit routine fill their cubes with the planes that are allowed, and stop exactly when none is. */
  lemma PlanesOfLaunch(routine: Routine, d: Device, p: Problem, s: Settings, n: nat)
    requires d.Valid() && s.Valid() && !routine.CubeRoutine?
    ensures Working(p, s) * d.planeMax >= 0
    ensures
      var r := Infer(routine, d, p, s);
      var units := if routine == PlaneRoutine then Working(p, s) * d.planeMax else Working(p, s);
      && (r.PlanesUnavailable? <==> routine == PlaneRoutine && !d.planes)
      && (r.DivisionByZero? <==> !r.PlanesUnavailable? && !PlanesAllowed(1, units, d.planeMax, d))
      && !r.SharedMemoryOverflow?
      && (r.Ready? ==>
            var l := r.launch;
            match routine
            case PlaneRoutine =>
              && l.width == d.planeMax && l.advance == d.planeDim && l.perCube * l.width <= d.maxUnitsPerCube
              && (n <= l.perCube <==> PlanesAllowed(n, units, d.planeMax, d))
            case _ =>
              && l.width == l.advance == 1 && l.perCube % d.planeMax == 0 && l.perCube <= d.maxUnitsPerCube
              && (n * d.planeMax <= l.perCube <==> PlanesAllowed(n, units, d.planeMax, d)))
  {
    hide PlanesAllowed, Infer, Working;
    Nonnegative(Working(p, s), d.planeMax);
    var units := if routine == PlaneRoutine then Working(p, s) * d.planeMax else Working(p, s);
    var planes := PlaneCount(units, d.planeMax, d);
    PlaneCountIsLargest(units, d.planeMax, d, n);
    PlaneCountIsLargest(units, d.planeMax, d, 1);
    hide PlaneCount;
    if routine == PlaneRoutine {
      PlaneIs(d, p, s);
    } else {
      UnitIs(d, p, s);
      AtLeastCancels(planes, n, d.planeMax);
      ModOfMultiple(d.planeMax, planes);
    }
  }

  lemma PlaneIs(d: Device, p: Problem, s: Settings)
    requires d.Valid() && s.Valid()
    ensures Working(p, s) * d.planeMax >= 0
    ensures
      var planes := PlaneCount(Working(p, s) * d.planeMax, d.planeMax, d);
      match Infer(PlaneRoutine, d, p, s)
      case Ready(l) => d.planes && planes > 0 && l.perCube == planes && l.width == d.planeMax && l.advance == d.planeDim
      case PlanesUnavailable => !d.planes
      case DivisionByZero => d.planes && planes == 0
      case _ => false
  {
    hide PlaneCount, Launched, DivCeil, Working, WorkSize;
    Nonnegative(Working(p, s), d.planeMax);
  }

  lemma UnitIs(d: Device, p: Problem, s: Settings)
    requires d.Valid() && s.Valid()
    ensures
      var planes := PlaneCount(Working(p, s), d.planeMax, d);
      match Infer(UnitRoutine, d, p, s)
      case Ready(l) => planes > 0 && l.perCube == d.planeMax * planes && l.width == l.advance == 1
      case DivisionByZero => planes == 0
      case _ => false
  {
    hide PlaneCount, Launched, DivCeil, Working, WorkSize;
    PositiveProduct(d.planeMax, PlaneCount(Working(p, s), d.planeMax, d));
  }

  lemma PositiveProduct(a: nat, b: nat)
    requires a > 0
    ensures a * b == 0 <==> b == 0
  {}

  /** The workers a cube holds. */
  function PerCube(routine: Routine, d: Device, p: Problem, s: Settings): nat
    requires d.Valid() && s.Valid()
  {
    Nonnegative(Working(p, s), d.planeMax);
    Nonnegative(d.planeMax, PlaneCount(Working(p, s), d.planeMax, d));
    match routine
    case PlaneRoutine => PlaneCount(Working(p, s) * d.planeMax, d.planeMax, d)
    case CubeRoutine(_) => 1
    case UnitRoutine => d.planeMax * PlaneCount(Working(p, s), d.planeMax, d)
  }

  /** The work does not fill the cubes, or the spread adds some. */
  predicate HasSurplus(routine: Routine, d: Device, p: Problem, s: Settings)
    requires d.Valid() && s.Valid()
  {
    var perCube := PerCube(routine, d, p, s);
    perCube > 0 &&
    !(Working(p, s) % perCube == 0 &&
      Launched(DivCeil(Working(p, s), perCube), d.maxCubes) == DivCeil(Working(p, s), perCube))
  }

  /** Whether a launch has surplus workers, from the call alone. */
  lemma SurplusIff(routine: Routine, d: Device, p: Problem, s: Settings)
    requires d.Valid() && s.Valid() && Infer(routine, d, p, s).Ready?
    ensures Infer(routine, d, p, s).launch.Workers() != Working(p, s) <==> HasSurplus(routine, d, p, s)
  {
    hide Launched, PlaneCount, ClampPlaneCount, Working, WorkSize;
    match routine
    case CubeRoutine(_) => assert DivCeil(Working(p, s), 1) == Working(p, s);
    case PlaneRoutine => SpreadIsExactIff(Working(p, s), PerCube(routine, d, p, s), d.maxCubes);
    case UnitRoutine => SpreadIsExactIff(Working(p, s), PerCube(routine, d, p, s), d.maxCubes);
  }

  lemma CancelFactor(a: int, b: int, c: nat)
    requires c > 0
    ensures a * c == b * c <==> a == b
  {
    if a < b {
      Monotone(a + 1, b, c);
      Distribute(c, a, 1);
    } else if a > b {
      Monotone(b + 1, a, c);
      Distribute(c, b, 1);
    }
  }

  // ---- where the reductions write ------------------------------------------------------------------------

  /** Vectors of output between two slots. */
  function VectorStride(p: Problem, s: Settings): (stride: nat)
    requires s.Fits(p) && p.slots > 1
    ensures stride > 0
  {
    QuotientBounds(1, s.vectorOut, p.slotStride);
    p.slotStride / s.vectorOut
  }

  /** Where item i goes when each run of so many items is followed by its further slots. */
  function Spaced(i: nat, stride: nat, slots: nat): nat
    requires stride > 0
  {
    DivBounds(i, stride);
    Nonnegative(stride, slots);
    Nonnegative(i / stride, stride * slots);
    (i / stride) * (stride * slots) + i % stride
  }

  /** `reduction_output_base`: the vector of output at which a worker's first slot starts. */
  function OutputBase(p: Problem, s: Settings, worker: nat): nat
    requires s.Fits(p)
  {
    if p.slots > 1 then Spaced(worker, VectorStride(p, s), p.slots) else worker
  }

  /** Spacing keeps items below n below n * slots. Item n reaches that exactly at a whole run, and then so do all after. */
  lemma SpacedAround(i: nat, n: nat, stride: nat, slots: nat)
    requires stride > 0 && slots > 1
    ensures i < n ==> Spaced(i, stride, slots) < n * slots
    ensures i >= n && n % stride == 0 ==> Spaced(i, stride, slots) >= n * slots
    ensures Spaced(n, stride, slots) >= n * slots <==> n % stride == 0
    ensures Spaced(n, stride, slots) <= n * slots
  {
    hide Spaced;
    SpacedIs(i, stride, slots);
    SpacedIs(n, stride, slots);
    if i < n {
      Monotone(i + 1, n, slots);
      Distribute(slots, i, 1);
    } else if n % stride == 0 {
      Monotone(n / stride, i / stride, stride * slots) by { RunsInOrder(n, i, stride); }
    }
  }

  lemma RunsInOrder(n: nat, i: nat, stride: nat)
    requires stride > 0 && n <= i
    ensures 0 <= n / stride <= i / stride
  {
    DivBounds(n, stride);
    if n / stride > i / stride {
      Monotone(i / stride + 1, n / stride, stride);
      Distribute(stride, i / stride, 1);
    }
  }

  /** The spaced place, in terms of the packed one: short of it by the slots of the run not yet finished. */
  lemma SpacedIs(i: nat, stride: nat, slots: nat)
    requires stride > 0 && slots > 1
    ensures Spaced(i, stride, slots) == i * slots - (i % stride) * (slots - 1)
    ensures Spaced(i, stride, slots) <= i * slots
    ensures i % stride == 0 ==> Spaced(i, stride, slots) == i * slots == (i / stride) * (stride * slots)
    ensures Spaced(i, stride, slots) >= i * slots ==> i % stride == 0
  {
    SpacedParts(i, i / stride, stride, i % stride, slots);
  }

  lemma SpacedParts(i: nat, q: int, stride: nat, r: nat, slots: nat)
    requires i == q * stride + r && slots > 1
    ensures q * (stride * slots) + r == i * slots - r * (slots - 1) <= i * slots
    ensures r == 0 || r * (slots - 1) > 0
    ensures r == 0 ==> q * (stride * slots) == i * slots
  {
    Associate(q, stride, slots);
    Distribute(slots, q * stride, r);
    Distribute(r, slots, -1);
    Nonnegative(r, slots - 1);
    if r > 0 {
      Monotone(1, r, slots - 1);
    }
  }

  /** The element of output at which the first slot of a reduction lies. */
  function FirstSlot(p: Problem, s: Settings, reduction: nat): nat
    requires s.Fits(p)
  {
    if p.slots > 1 then Spaced(reduction, p.slotStride, p.slots) else reduction
  }

  /** The worker that takes on a reduction finds its first slot: at its own base, as far in as the reduction. */
  predicate SlotFound(p: Problem, s: Settings, reduction: nat)
    requires s.Fits(p)
  {
    DivBounds(reduction, s.Each());
    OutputBase(p, s, reduction / s.Each()) * s.Each() + reduction % s.Each() == FirstSlot(p, s, reduction)
  }

  /** The run of reductions the workers assume: so many vectors, of a worker's share each. */
  function AssumedRun(p: Problem, s: Settings): (run: nat)
    requires s.Fits(p) && p.slots > 1
    ensures run > 0
  {
    Monotone(1, VectorStride(p, s), s.Each());
    VectorStride(p, s) * s.Each()
  }

  /** The first m reductions find their slots exactly when the assumed run is the true one, or neither ends before. */
  predicate RunsAgree(p: Problem, s: Settings, m: nat)
    requires s.Fits(p)
  {
    p.slots == 1 || AssumedRun(p, s) == p.slotStride || m <= Min(AssumedRun(p, s), p.slotStride)
  }

  lemma SlotsFoundIff(p: Problem, s: Settings, m: nat)
    requires s.Fits(p)
    ensures (forall reduction: nat :: reduction < m ==> SlotFound(p, s, reduction)) <==> RunsAgree(p, s, m)
  {
    if p.slots > 1 {
      var assumed, run := AssumedRun(p, s), p.slotStride;
      forall r: nat
        ensures SlotFound(p, s, r) <==> Spaced(r, assumed, p.slots) == Spaced(r, run, p.slots)
      {
        SlotFoundIff(p, s, r);
      }
      hide SlotFound, Spaced, AssumedRun;
      var first := Min(assumed, run);
      forall r: nat | r < first || assumed == run
        ensures SlotFound(p, s, r)
      {
        SpacedFirst(r, assumed, p.slots);
        SpacedFirst(r, run, p.slots);
      }
      SpacedFirst(first, assumed, p.slots);
      SpacedFirst(first, run, p.slots);
    } else {
      forall r: nat
        ensures SlotFound(p, s, r)
      {
        DivBounds(r, s.Each());
      }
    }
  }

  lemma SlotFoundIff(p: Problem, s: Settings, reduction: nat)
    requires s.Fits(p) && p.slots > 1
    ensures SlotFound(p, s, reduction) <==>
            Spaced(reduction, AssumedRun(p, s), p.slots) == Spaced(reduction, p.slotStride, p.slots)
  {
    hide Spaced, VectorStride;
    SpacedElement(reduction, VectorStride(p, s), s.Each(), p.slots);
  }

  lemma SpacedElement(i: nat, stride: nat, each: nat, slots: nat)
    requires stride > 0 && each > 0 && slots > 1
    ensures stride * each > 0 && i / each >= 0
    ensures Spaced(i / each, stride, slots) * each + i % each == Spaced(i, stride * each, slots)
  {
    hide Spaced;
    DivBounds(i, each);
    SpacedVectors(i / each, i % each, stride, each, slots);
    assert i == (i / each) * each + i % each;
  }

  /** Spacing vectors spaces their elements. */
  lemma SpacedVectors(worker: nat, lane: nat, stride: nat, each: nat, slots: nat)
    requires stride > 0 && lane < each && slots > 1
    ensures worker * each + lane >= 0 && stride * each > 0
    ensures Spaced(worker * each + lane, stride * each, slots) == Spaced(worker, stride, slots) * each + lane
  {
    Nonnegative(worker, each);
    Monotone(1, stride, each);
    var q, r := worker / stride, worker % stride;
    DivBounds(worker, stride);
    Scaled(worker, q, stride, r, lane, each);
    ScaledRuns(q, stride, slots, r, each);
  }

  lemma Scaled(x: nat, q: nat, d: nat, r: nat, lane: nat, each: nat)
    requires lane < each && r < d && x == q * d + r
    ensures x * each + lane >= 0 && d * each > 0
    ensures (x * each + lane) / (d * each) == q && (x * each + lane) % (d * each) == r * each + lane
  {
    Nonnegative(x, each);
    Monotone(1, d, each);
    Monotone(r + 1, d, each);
    Distribute(each, r, 1);
    Distribute(each, q * d, r);
    Nonnegative(r, each);
    assert x * each == q * (d * each) + r * each by { Regroup(q, d, each); }
    DivModUnique(x * each + lane, d * each, q, r * each + lane);
  }

  lemma Regroup(q: int, d: int, each: int)
    ensures (q * d) * each == q * (d * each)
  {}

  lemma ScaledRuns(q: int, stride: int, slots: int, r: int, each: int)
    ensures q * ((stride * each) * slots) + r * each == (q * (stride * slots) + r) * each
  {
    Distribute(each, q * (stride * slots), r);
    Regroup(q, stride * slots, each);
    assert (stride * each) * slots == (stride * slots) * each by { Associate(each, stride, slots); }
  }

  /** The first run stays where it is, and the run after it moves. */
  lemma SpacedFirst(i: nat, stride: nat, slots: nat)
    requires stride > 0 && slots > 1
    ensures i < stride ==> Spaced(i, stride, slots) == i
    ensures i == stride ==> Spaced(i, stride, slots) != i
  {
  }

  /** The workers start at their first slots, lane by lane, exactly when the runs agree as far as the workers reach. */
  lemma EachAtItsSlotIff(p: Problem, s: Settings)
    requires s.Fits(p)
    ensures Working(p, s) * s.Each() >= 0
    ensures (forall reduction: nat :: reduction < Working(p, s) * s.Each() ==> SlotFound(p, s, reduction)) <==>
            RunsAgree(p, s, Working(p, s) * s.Each())
  {
    Nonnegative(Working(p, s), s.Each());
    SlotsFoundIff(p, s, Working(p, s) * s.Each());
  }

  /** Every reduction is some worker's exactly when the workers' shares divide the reductions. */
  lemma WorkersCoverIff(p: Problem, s: Settings)
    requires s.Valid()
    ensures (forall reduction: nat :: reduction < p.reduceCount ==> InSomeShare(p, s, reduction)) <==>
            p.reduceCount % s.Each() == 0
    ensures p.reduceCount % s.Each() == 0 <==> p.reduceCount <= Working(p, s) * s.Each()
  {
    hide InSomeShare;
    forall r: nat
      ensures InSomeShare(p, s, r) <==> r < Working(p, s) * s.Each()
    {
      ShareIff(r, s.Each(), Working(p, s));
      assert InSomeShare(p, s, r) <==> r / s.Each() < Working(p, s) by { ShareIs(p, s, r); }
    }
    if p.reduceCount % s.Each() != 0 {
      assert Working(p, s) * s.Each() < p.reduceCount && !InSomeShare(p, s, Working(p, s) * s.Each()) by {
        Nonnegative(Working(p, s), s.Each());
      }
    }
  }

  predicate InSomeShare(p: Problem, s: Settings, reduction: nat)
    requires s.Valid()
  {
    reduction / s.Each() < Working(p, s)
  }

  lemma ShareIs(p: Problem, s: Settings, reduction: nat)
    requires s.Valid()
    ensures InSomeShare(p, s, reduction) <==> reduction / s.Each() < Working(p, s)
  {}

  /** A reduction is in a share exactly when its whole vector, of output or of input, is inside the reductions. */
  lemma ShareIsWhole(p: Problem, s: Settings, reduction: nat)
    requires s.Valid()
    ensures
      var vector := if s.mode == Parallel then s.vectorOut else s.vectorIn;
      InSomeShare(p, s, reduction) <==> (reduction / vector + 1) * vector <= p.reduceCount
  {
    DivBounds(reduction, s.Each());
    QuotientBounds(reduction / s.Each() + 1, s.Each(), p.reduceCount);
  }

  lemma ShareIff(r: nat, each: nat, n: nat)
    requires each > 0
    ensures r / each < n <==> r < n * each
  {
    QuotientBounds(n, each, r);
  }

  /** A reduction has a worker, and that worker finds its slot. */
  predicate Served(p: Problem, s: Settings, reduction: nat)
    requires s.Fits(p)
  {
    InSomeShare(p, s, reduction) && SlotFound(p, s, reduction)
  }

  /** Every reduction is served exactly when the shares divide the reductions and the runs agree. */
  lemma AllServedIff(p: Problem, s: Settings)
    requires s.Fits(p)
    ensures (forall reduction: nat :: reduction < p.reduceCount ==> Served(p, s, reduction)) <==>
            p.reduceCount % s.Each() == 0 && RunsAgree(p, s, p.reduceCount)
  {
    hide InSomeShare, SlotFound, RunsAgree;
    WorkersCoverIff(p, s);
    SlotsFoundIff(p, s, p.reduceCount);
    if forall reduction: nat :: reduction < p.reduceCount ==> Served(p, s, reduction) {
      forall reduction: nat | reduction < p.reduceCount
        ensures InSomeShare(p, s, reduction) && SlotFound(p, s, reduction)
      {
        assert Served(p, s, reduction);
      }
    }
  }

  /**
   Top-2 of six rows, the slots six elements apart: a width of four divides the twelve elements and is within the run of six.
   The launch has one worker, for four of the six reductions.
   */
  lemma WidthDropsReductions()
    ensures
      var d := Device(32, 32, 32, 1024, None, 1024, 0, true, true);
      var p, s := Problem(64, 6, 16, 2, 6), Settings(Parallel, 4, 4, false, false);
      && d.Valid() && s.Fits(p)
      && Infer(PlaneRoutine, d, p, s).Ready? && Infer(PlaneRoutine, d, p, s).launch.Workers() * s.Each() == 4
      && !Served(p, s, 4) && !Served(p, s, 5)
  {
    hide SlotFound;
    assert Log2Floor(1) == 0 && Exp2(0) == 1;
  }

  // ---- what the kernels read ---------------------------------------------------------------------------

  /** What a unit does at one step of its reduction. */
  datatype Access = Stopped | NullValue | NullAfterReadingZero | Value

  /** `idle_check`: whether the worker is past the output, compared by the place its first slot would have. */
  predicate IsIdle(p: Problem, s: Settings, worker: nat)
    requires s.Fits(p)
  {
    Nonnegative(p.reduceCount, p.slots);
    match s.mode
    case Parallel => OutputBase(p, s, worker) * s.vectorOut >= p.reduceCount * p.slots
    case Perpendicular => OutputBase(p, s, worker) >= (p.reduceCount * p.slots) / s.vectorIn
  }

  /** One read of the kernel, through `idle_check` and `ReaderBoundChecks`. */
  function Read(l: Launch, p: Problem, s: Settings, worker: nat, pos: nat): Access
    requires s.Fits(p)
  {
    if l.idle == Terminate && IsIdle(p, s, worker) then Stopped
    else
      var idle := if l.idle == Masked then Some(IsIdle(p, s, worker)) else None;
      var posMax := if idle == Some(true) then 0 else WorkSize(p, s);
      var bounds := if idle.None? then l.bounds else if l.bounds == Branch then Branch else Mask;
      match bounds
      case Unchecked => Value
      case Mask => if pos < posMax then Value else NullAfterReadingZero
      case Branch => if pos < posMax then Value else NullValue
  }

  /** The vectors of the output that hold whole shares. */
  function Limit(p: Problem, s: Settings): nat
    requires s.Valid()
  {
    Nonnegative(p.reduceCount, p.slots);
    DivBounds(p.reduceCount * p.slots, s.Each());
    (p.reduceCount * p.slots) / s.Each()
  }

  /** Vectors of output are whole, so comparing elements is comparing vectors. */
  lemma IdleByBase(p: Problem, s: Settings, worker: nat)
    requires s.Fits(p)
    ensures IsIdle(p, s, worker) <==> OutputBase(p, s, worker) >= Limit(p, s)
  {
    hide OutputBase;
    Nonnegative(p.reduceCount, p.slots);
    if s.mode == Parallel {
      AtLeastCancels(OutputBase(p, s, worker), (p.reduceCount * p.slots) / s.vectorOut, s.vectorOut);
    }
  }

  /** The limit counts the workers' slots exactly when what the last share lacks does not make up a further vector. */
  lemma LimitIs(p: Problem, s: Settings)
    requires s.Valid() && p.slots > 0
    ensures (p.reduceCount % s.Each()) * p.slots >= 0
    ensures Working(p, s) * p.slots <= Limit(p, s)
    ensures Limit(p, s) == Working(p, s) * p.slots <==> (p.reduceCount % s.Each()) * p.slots < s.Each()
    ensures p.slots == 1 ==> Limit(p, s) == Working(p, s)
  {
    Nonnegative(p.reduceCount, p.slots);
    LimitParts(p.reduceCount, s.Each(), Working(p, s), p.reduceCount % s.Each(), p.slots);
  }

  lemma LimitParts(count: nat, each: nat, n: nat, rest: nat, slots: nat)
    requires each > 0 && count == n * each + rest && slots > 0
    ensures rest * slots >= 0
    ensures n * slots <= (count * slots) / each
    ensures (count * slots) / each == n * slots <==> rest * slots < each
  {
    Nonnegative(rest, slots);
    Nonnegative(n, slots);
    var total := count * slots;
    assert total == (n * slots) * each + rest * slots by {
      Distribute(slots, n * each, rest);
      Associate(slots, n, each);
    }
    Nonnegative(n * slots, each);
    QuotientBounds(n * slots, each, total);
    QuotientBounds(n * slots + 1, each, total);
    Distribute(each, n * slots, 1);
  }

  lemma DividesThrough(a: nat, b: nat, c: nat)
    requires b > 0 && c > 0 && a % b == 0 && b % c == 0
    ensures a % c == 0
  {
    MultipleThrough(a, b, c, a / b, b / c);
  }

  lemma MultipleThrough(a: int, b: int, c: nat, p: int, q: int)
    requires c > 0 && a == b * p && b == c * q
    ensures a % c == 0
  {
    Associate(c, q, p);
    ModOfMultiple(c, q * p);
  }

  lemma AtLeastCancels(a: nat, b: nat, c: nat)
    requires c > 0
    ensures a * c >= b * c <==> a >= b
  {
    if a < b {
      Monotone(a + 1, b, c);
      Distribute(c, a, 1);
    } else {
      Monotone(b, a, c);
    }
  }

  /** The guard tells a surplus worker from a working one. */
  ghost predicate IdleIsSurplus(p: Problem, s: Settings, worker: nat)
    requires s.Fits(p)
  {
    IsIdle(p, s, worker) <==> worker >= Working(p, s)
  }

  /**
   The last run of reductions is whole in output vectors, and no further vector is made up of what the last share lacks, so
   that spacing the slots moves every surplus worker past the end.
   */
  predicate LastRunIsWhole(p: Problem, s: Settings)
    requires s.Fits(p)
  {
    LimitIs(p, s);
    p.slots > 1 ==> Working(p, s) % VectorStride(p, s) == 0 && (p.reduceCount % s.Each()) * p.slots < s.Each()
  }

  /** A working unit is never taken for idle, and the first surplus one is exactly when the last run is whole. */
  lemma IdleIff(p: Problem, s: Settings, worker: nat)
    requires s.Fits(p)
    ensures worker < Working(p, s) || LastRunIsWhole(p, s) ==> IdleIsSurplus(p, s, worker)
    ensures IdleIsSurplus(p, s, Working(p, s)) <==> LastRunIsWhole(p, s)
  {
    hide Spaced, Working, IsIdle, Limit, VectorStride;
    LimitIs(p, s);
    IdleByBase(p, s, worker);
    IdleByBase(p, s, Working(p, s));
    if p.slots > 1 {
      SpacedAround(worker, Working(p, s), VectorStride(p, s), p.slots);
    }
  }

  /** When the workers assume the true run and the reductions are whole runs, every run is whole. */
  lemma TrueRunsAreWhole(p: Problem, s: Settings)
    requires s.Fits(p) && (p.slots > 1 ==> AssumedRun(p, s) == p.slotStride && p.reduceCount % p.slotStride == 0)
    ensures LastRunIsWhole(p, s)
  {
    if p.slots > 1 {
      var runs, stride := p.reduceCount / p.slotStride, VectorStride(p, s);
      assert p.reduceCount == s.Each() * (stride * runs) by { Associate(s.Each(), stride, runs); }
      ModOfMultiple(s.Each(), stride * runs);
      ModOfMultiple(stride, runs);
    }
  }

  /** Steps of a reduction: its units advance together. */
  function Steps(l: Launch, p: Problem, s: Settings): nat
    requires s.Valid() && l.advance > 0
  {
    DivCeil(WorkSize(p, s), l.advance)
  }

  /** The position a unit reads at a step. */
  function Position(l: Launch, step: nat, lane: nat): nat {
    Nonnegative(step, l.advance);
    step * l.advance + lane
  }

  /** A unit of the launch at one of its steps. */
  predicate Reads(l: Launch, p: Problem, s: Settings, worker: nat, step: nat, lane: nat)
    requires s.Valid() && l.advance > 0
  {
    worker < l.Workers() && step < Steps(l, p, s) && lane < l.width
  }

  /** The unit takes a value exactly where there is one. */
  ghost predicate Exact(l: Launch, p: Problem, s: Settings, worker: nat, step: nat, lane: nat)
    requires s.Fits(p)
  {
    var pos := Position(l, step, lane);
    Read(l, p, s, worker, pos) == Value <==> worker < Working(p, s) && pos < WorkSize(p, s)
  }

  /** No read is out of range and no value is hidden, whoever reads and whenever. */
  ghost predicate AllExact(l: Launch, p: Problem, s: Settings)
    requires s.Fits(p) && l.advance > 0
  {
    forall worker: nat, step: nat, lane: nat ::
      Reads(l, p, s, worker, step, lane) ==> Exact(l, p, s, worker, step, lane)
  }

  /** Hardware planes narrower than the cube's rows, and nothing that holds their outer units back. */
  predicate Overreads(routine: Routine, d: Device, p: Problem, s: Settings)
    requires d.Valid() && s.Valid()
  {
    && routine == PlaneRoutine && d.planeDim < d.planeMax
    && s.unchecked && IsMultipleOf(WorkSize(p, s), d.planeMax) && Working(p, s) > 0
    && (HasSurplus(routine, d, p, s) ==> d.nonUniformControlFlow && !s.fuseOnRead)
  }

  lemma OverreadsIff(routine: Routine, d: Device, p: Problem, s: Settings)
    requires d.Valid() && s.Valid() && Infer(routine, d, p, s).Ready? && Infer(routine, d, p, s).launch.width > 0
    ensures
      var l := Infer(routine, d, p, s).launch;
      Overreads(routine, d, p, s) <==>
      l.bounds == Unchecked && l.idle != Masked && l.advance < l.width && Working(p, s) > 0
  {
    SurplusIff(routine, d, p, s);
    LaunchIsExactIff(routine, d, p, s);
    InferredBounds(routine, d, p, s);
    if routine == PlaneRoutine {
      PlaneGuards(d, p, s);
    }
    hide Infer, HasSurplus, Working, WorkSize;
  }

  /** The guards of the plane routine, by whether it launches surplus workers. */
  lemma PlaneGuards(d: Device, p: Problem, s: Settings)
    requires d.Valid() && s.Valid() && InferPlane(d, p, s).Ready?
    ensures
      var l := InferPlane(d, p, s).launch;
      var surplus := l.Workers() != Working(p, s);
      && (l.bounds == Unchecked <==>
          s.unchecked && IsMultipleOf(WorkSize(p, s), d.planeMax) && (s.fuseOnRead ==> !surplus))
      && (l.idle == Masked <==> (!s.unchecked || surplus) && !d.nonUniformControlFlow)
      && (l.advance < l.width <==> d.planeDim < d.planeMax)
  {
    hide Launched, DivCeil, PlaneCount, Working, WorkSize;
    var l, working := InferPlane(d, p, s).launch, Working(p, s);
    Associate(l.cubes, l.perCube, d.planeMax);
    CancelFactor(l.cubes * l.perCube, working, d.planeMax);
  }

  /** The guards of every routine, by whether it launches surplus workers. */
  lemma GuardsAre(routine: Routine, d: Device, p: Problem, s: Settings)
    requires d.Valid() && s.Valid() && Infer(routine, d, p, s).Ready? && Infer(routine, d, p, s).launch.width > 0
    ensures
      var l := Infer(routine, d, p, s).launch;
      var surplus := l.Workers() != Working(p, s);
      && (l.idle == Unguarded <==> s.unchecked && !surplus)
      && (l.idle == Masked <==>
          l.idle != Unguarded && !d.nonUniformControlFlow && routine != UnitRoutine && routine != CubeRoutine(false))
      && (l.bounds == Unchecked <==>
          routine == UnitRoutine ||
          (s.unchecked && WorkSize(p, s) % l.width == 0 && (s.fuseOnRead ==> l.idle == Unguarded)))
      && (l.bounds == Mask ==> !s.fuseOnRead)
      && (l.bounds == Branch ==> s.fuseOnRead)
  {
    LaunchIsExactIff(routine, d, p, s);
    match routine
    case CubeRoutine(_) =>
      hide Launched, DivCeil, PlaneCount, ClampPlaneCount, Working, WorkSize;
    case PlaneRoutine =>
      PlaneGuards(d, p, s);
      hide Launched, DivCeil, PlaneCount, Working, WorkSize, Launch.Workers;
    case UnitRoutine =>
      hide Launched, DivCeil, PlaneCount, Working, WorkSize, Launch.Workers;
  }

  /** There are surplus workers, and the guard does not stop them. */
  predicate MissesSurplus(routine: Routine, d: Device, p: Problem, s: Settings)
    requires d.Valid() && s.Fits(p)
  {
    HasSurplus(routine, d, p, s) && !LastRunIsWhole(p, s)
  }

  /** Whatever guards a routine infers, a value inside the work is never hidden, and a fused read never issued outside. */
  lemma ValuesAreTaken(routine: Routine, d: Device, p: Problem, s: Settings, worker: nat, pos: nat)
    requires d.Valid() && s.Fits(p)
    requires Infer(routine, d, p, s).Ready? && Infer(routine, d, p, s).launch.width > 0
    ensures
      var l := Infer(routine, d, p, s).launch;
      && (worker < Working(p, s) && pos < WorkSize(p, s) ==> Read(l, p, s, worker, pos) == Value)
      && (s.fuseOnRead ==> Read(l, p, s, worker, pos) != NullAfterReadingZero)
  {
    IdleIff(p, s, worker);
    InferredBounds(routine, d, p, s);
    hide Infer, IsIdle, Working, WorkSize;
  }

  /**
   The inferred guards are exact, for every unit at every step, exactly when no outer unit of a narrow plane overreads and
   no surplus worker is missed.
   */
  lemma GuardsAreExactIff(routine: Routine, d: Device, p: Problem, s: Settings)
    requires d.Valid() && s.Fits(p)
    requires Infer(routine, d, p, s).Ready? && Infer(routine, d, p, s).launch.width > 0
    ensures
      var l := Infer(routine, d, p, s).launch;
      && 0 < l.advance <= l.width
      && (AllExact(l, p, s) <==>
          WorkSize(p, s) == 0 || !(Overreads(routine, d, p, s) || MissesSurplus(routine, d, p, s)))
  {
    var l := Infer(routine, d, p, s).launch;
    InferredBounds(routine, d, p, s);
    LaunchIsExactIff(routine, d, p, s);
    OverreadsIff(routine, d, p, s);
    SurplusIff(routine, d, p, s);
    hide Infer, Overreads, HasSurplus, LastRunIsWhole, AllExact;
    if WorkSize(p, s) > 0 {
      StepsArePositive(WorkSize(p, s), l.advance);
      if Overreads(routine, d, p, s) {
        OverreadsSomewhere(l, p, s);
      } else if MissesSurplus(routine, d, p, s) {
        MissesTheFirst(l, p, s);
      } else {
        forall worker: nat, step: nat, lane: nat | Reads(l, p, s, worker, step, lane)
          ensures Exact(l, p, s, worker, step, lane)
        {
          if worker < Working(p, s) && l.bounds == Unchecked && l.idle != Masked {
            assert l.advance == l.width;
          }
          ReadIsExact(l, p, s, worker, step, lane);
        }
        AllAreExact(l, p, s);
      }
    } else {
      NoSteps(l, p, s);
    }
  }

  lemma AllAreExact(l: Launch, p: Problem, s: Settings)
    requires s.Fits(p) && l.advance > 0
    requires forall worker: nat, step: nat, lane: nat ::
      Reads(l, p, s, worker, step, lane) ==> Exact(l, p, s, worker, step, lane)
    ensures AllExact(l, p, s)
  {}

  lemma NoSteps(l: Launch, p: Problem, s: Settings)
    requires s.Fits(p) && l.advance > 0 && WorkSize(p, s) == 0
    ensures AllExact(l, p, s)
  {
    hide WorkSize;
  }

  lemma StepsArePositive(work: nat, advance: nat)
    requires advance > 0 && work > 0
    ensures DivCeil(work, advance) > 0
  {
    DivCeilCovers(work, advance);
  }

  /** In the last step of the first reduction, the last unit of the row is past the work. */
  lemma OverreadsSomewhere(l: Launch, p: Problem, s: Settings)
    requires s.Fits(p) && WorkSize(p, s) > 0 && l.advance > 0 && Steps(l, p, s) > 0
    requires l.bounds == Unchecked && l.idle != Masked && l.advance < l.width && 0 < Working(p, s) <= l.Workers()
    ensures !AllExact(l, p, s)
  {
    var step, lane := Steps(l, p, s) - 1, l.width - 1;
    DivCeilCovers(WorkSize(p, s), l.advance);
    Distribute(l.advance, step, 1);
    IdleIff(p, s, 0);
    hide Working, WorkSize, IsIdle, Steps, Position;
    assert Position(l, step, lane) >= WorkSize(p, s) by { LastPosition(l, step, lane); }
    assert Reads(l, p, s, 0, step, lane) && !Exact(l, p, s, 0, step, lane);
  }

  lemma LastPosition(l: Launch, step: nat, lane: nat)
    ensures Position(l, step, lane) == step * l.advance + lane
  {}

  /** The first surplus worker takes the value at the first position. */
  lemma MissesTheFirst(l: Launch, p: Problem, s: Settings)
    requires s.Fits(p) && WorkSize(p, s) > 0 && l.advance > 0 && l.width > 0 && Steps(l, p, s) > 0
    requires l.Workers() > Working(p, s) && !LastRunIsWhole(p, s)
    ensures !AllExact(l, p, s)
  {
    var worker := Working(p, s);
    IdleIff(p, s, worker);
    hide Working, WorkSize, IsIdle, Steps, LastRunIsWhole;
    assert Position(l, 0, 0) == 0;
    assert Reads(l, p, s, worker, 0, 0) && !Exact(l, p, s, worker, 0, 0);
  }

  lemma ReadIsExact(l: Launch, p: Problem, s: Settings, worker: nat, step: nat, lane: nat)
    requires s.Fits(p) && l.advance > 0 && Reads(l, p, s, worker, step, lane)
    requires l.Workers() == Working(p, s) || LastRunIsWhole(p, s)
    requires l.bounds == Unchecked && l.idle != Masked && worker < Working(p, s) ==>
      lane < l.advance && WorkSize(p, s) % l.advance == 0
    requires l.idle == Unguarded ==> l.Workers() == Working(p, s)
    ensures Exact(l, p, s, worker, step, lane)
  {
    IdleIff(p, s, worker);
    WholeSteps(WorkSize(p, s), l.advance, step, lane);
    hide Working, WorkSize, IsIdle, LastRunIsWhole;
  }

  /**
   What the first plane of a row reads is exact even where the row overreads, if the row is whole planes: the results that
   are written come from values inside the work alone.
   */
  lemma WrittenIsExact(routine: Routine, d: Device, p: Problem, s: Settings, worker: nat, step: nat, lane: nat)
    requires d.Valid() && s.Fits(p) && d.planeMax % d.planeDim == 0 && !MissesSurplus(routine, d, p, s)
    requires Infer(routine, d, p, s).Ready? && Infer(routine, d, p, s).launch.width > 0
    requires
      var l := Infer(routine, d, p, s).launch;
      l.advance > 0 && Reads(l, p, s, worker, step, lane) && lane < l.advance
    ensures Exact(Infer(routine, d, p, s).launch, p, s, worker, step, lane)
  {
    var l := Infer(routine, d, p, s).launch;
    InferredBounds(routine, d, p, s);
    LaunchIsExactIff(routine, d, p, s);
    SurplusIff(routine, d, p, s);
    hide Infer, HasSurplus, LastRunIsWhole, Reads, Exact, Working, WorkSize, Launch.Workers;
    if l.bounds == Unchecked {
      WholePlanes(WorkSize(p, s), l.width, l.advance, d.planeMax, d.planeDim);
    }
    ReadIsExact(l, p, s, worker, step, lane);
  }

  lemma WholePlanes(work: nat, width: nat, advance: nat, planeMax: nat, planeDim: nat)
    requires 0 < advance && width > 0 && work % width == 0 && planeDim > 0 && planeMax % planeDim == 0
    requires advance == width || (advance == planeDim && width == planeMax)
    ensures work % advance == 0
  {
    if advance != width {
      DividesThrough(work, width, advance);
    }
  }

  lemma WholeSteps(work: nat, advance: nat, step: nat, lane: nat)
    requires advance > 0 && step < DivCeil(work, advance)
    ensures step * advance + lane >= 0
    ensures lane < advance && work % advance == 0 ==> step * advance + lane < work
  {
    Nonnegative(step, advance);
    if lane < advance {
      CellBelow(step, lane, DivCeil(work, advance), advance);
    }
  }

  /** The bound checks go only when the work is whole steps, and a fused read is never masked. */
  lemma InferredBounds(routine: Routine, d: Device, p: Problem, s: Settings)
    requires d.Valid() && s.Valid() && Infer(routine, d, p, s).Ready? && Infer(routine, d, p, s).launch.width > 0
    ensures
      var l := Infer(routine, d, p, s).launch;
      && 0 < l.advance <= l.width
      && (l.advance < l.width ==> routine == PlaneRoutine && l.advance == d.planeDim && l.width == d.planeMax)
      && (l.bounds == Unchecked ==> WorkSize(p, s) % l.width == 0)
      && (s.fuseOnRead ==> l.bounds != Mask && (l.idle == Masked ==> l.bounds == Branch))
      && (routine == UnitRoutine ==> l.idle != Masked)
  {
    hide Launched, DivCeil, PlaneCount, ClampPlaneCount, Working, WorkSize;
  }

  /** A device that runs planes of 16 in rows of 32: the last unit of the only reduction reads position 47 of 32. */
  lemma NarrowPlanesOverread()
    ensures
      var d := Device(8, 32, 16, 1024, None, 1024, 0, true, true);
      var p, s := Problem(32, 1, 4, 1, 1), Settings(Parallel, 1, 1, true, false);
      && d.Valid() && s.Fits(p)
      && Infer(PlaneRoutine, d, p, s) == Ready(Launch(1, 1, 32, 16, Unguarded, Unchecked))
      && Steps(Infer(PlaneRoutine, d, p, s).launch, p, s) == 2 && WorkSize(p, s) == 32
      && Read(Infer(PlaneRoutine, d, p, s).launch, p, s, 0, 47) == Value
  {
  }

  /**
   Top-2 over vectors of 8 written as vectors of 4. The second worker of two runs starts in the first run's second slot,
   and so does a surplus worker beside a single run, which the guard does not stop.
   */
  lemma NarrowOutputMissesItsSlot()
    ensures
      var s := Settings(Perpendicular, 8, 4, false, false);
      var two, one := Problem(64, 16, 4, 2, 8), Problem(64, 8, 4, 2, 8);
      && s.Fits(two) && Working(two, s) == 2 && OutputBase(two, s, 1) * s.Each() == 8 && FirstSlot(two, s, 8) == 16
      && !SlotFound(two, s, 8) && s.Fits(one) && Working(one, s) == 1 && !IsIdle(one, s, 1)
  {
  }

  /** The same with a single output vector, written one element at a time: reduction 24 starts at 24 and not at 48. */
  lemma ScalarOutputMissesItsSlot()
    ensures
      var p, s := Problem(10, 96, 16, 2, 24), Settings(Perpendicular, 8, 1, false, false);
      s.Fits(p) && OutputBase(p, s, 3) * s.Each() == 24 && FirstSlot(p, s, 24) == 48 && !SlotFound(p, s, 24)
  {
  }

  /** A unit whose result is written takes the value at that position of the reduction. */
  predicate TakenBy(l: Launch, p: Problem, s: Settings, cube: nat, place: nat, step: nat, lane: nat, reduction: nat, pos: nat)
    requires s.Fits(p) && l.advance > 0
  {
    DivBounds(reduction, s.Each());
    At(l, p, s, cube, place, step, lane, reduction / s.Each(), pos) && Read(l, p, s, reduction / s.Each(), pos) == Value
  }

  /**
   Every value of every reduction in some worker's share is taken by exactly one unit whose result is written, at exactly one
   step: of narrow planes only the first in each row writes.
   */
  lemma EachValueOnce(routine: Routine, d: Device, p: Problem, s: Settings, reduction: nat, pos: nat)
    requires d.Valid() && s.Fits(p)
    requires Infer(routine, d, p, s).Ready? && Infer(routine, d, p, s).launch.width > 0
    requires InSomeShare(p, s, reduction) && pos < WorkSize(p, s)
    ensures
      var l := Infer(routine, d, p, s).launch;
      && l.perCube > 0 && 0 < l.advance <= l.width
      && (exists cube: nat, place: nat, step: nat, lane: nat ::
            TakenBy(l, p, s, cube, place, step, lane, reduction, pos))
      && (forall cube: nat, place: nat, step: nat, lane: nat ::
            TakenBy(l, p, s, cube, place, step, lane, reduction, pos) ==>
            cube == reduction / s.Each() / l.perCube && place == reduction / s.Each() % l.perCube &&
            step == pos / l.advance && lane == pos % l.advance)
  {
    var l := Infer(routine, d, p, s).launch;
    DivBounds(reduction, s.Each());
    var worker: nat := reduction / s.Each();
    ShareIs(p, s, reduction);
    LaunchIsExactIff(routine, d, p, s);
    InferredBounds(routine, d, p, s);
    ValuesAreTaken(routine, d, p, s, worker, pos);
    hide *;
    TakenOnce(l, p, s, reduction, worker, pos);
  }

  lemma TakenOnce(l: Launch, p: Problem, s: Settings, reduction: nat, worker: nat, pos: nat)
    requires s.Fits(p) && l.advance > 0 && worker < l.Workers() && pos < WorkSize(p, s)
    requires worker == reduction / s.Each() && Read(l, p, s, worker, pos) == Value
    ensures l.perCube > 0
    ensures exists cube: nat, place: nat, step: nat, lane: nat ::
      TakenBy(l, p, s, cube, place, step, lane, reduction, pos)
    ensures forall cube: nat, place: nat, step: nat, lane: nat ::
      TakenBy(l, p, s, cube, place, step, lane, reduction, pos) ==>
      cube == worker / l.perCube && place == worker % l.perCube && step == pos / l.advance && lane == pos % l.advance
  {
    hide Working, WorkSize, At, Read, Launch.Workers;
    OneUnitAt(l, p, s, worker, pos);
    DivBounds(worker, l.perCube);
    DivBounds(pos, l.advance);
    assert TakenBy(l, p, s, worker / l.perCube, worker % l.perCube, pos / l.advance, pos % l.advance, reduction, pos);
  }

  // ---- element by element --------------------------------------------------------------------------

  /** The vector read at a position holds element j of the reduced axis. */
  predicate HoldsElement(s: Settings, pos: nat, j: nat) {
    match s.mode
    case Parallel => pos * s.vectorIn <= j < (pos + 1) * s.vectorIn
    case Perpendicular => pos == j
  }

  /** A unit whose result is written takes the vector with that element of the reduction. */
  predicate TakesElement(l: Launch, p: Problem, s: Settings, cube: nat, place: nat, step: nat, lane: nat, reduction: nat,
                         j: nat)
    requires s.Fits(p) && l.advance > 0
  {
    var pos := Position(l, step, lane);
    TakenBy(l, p, s, cube, place, step, lane, reduction, pos) && HoldsElement(s, pos, j)
  }

  /** The position whose vector holds an element. */
  function PositionOf(s: Settings, j: nat): (pos: nat)
    requires s.Valid()
    ensures forall other: nat :: HoldsElement(s, other, j) <==> other == pos
  {
    match s.mode
    case Parallel =>
      DivBounds(j, s.vectorIn);
      VectorOfElement(j, s.vectorIn);
      j / s.vectorIn
    case Perpendicular => j
  }

  lemma VectorOfElement(j: nat, v: nat)
    requires v > 0
    ensures forall pos: nat :: pos * v <= j < (pos + 1) * v <==> pos == j / v
  {
    forall pos: nat
      ensures pos * v <= j < (pos + 1) * v <==> pos == j / v
    {
      QuotientBounds(pos, v, j);
      QuotientBounds(pos + 1, v, j);
    }
  }

  /** The vectors of the reduced axis hold its elements, and nothing else. */
  lemma WorkHoldsAxis(p: Problem, s: Settings, pos: nat, j: nat)
    requires s.Valid() && HoldsElement(s, pos, j)
    ensures pos < WorkSize(p, s) ==> j < p.reduceLen
    ensures s.mode == Perpendicular || p.reduceLen % s.vectorIn == 0 ==> (pos < WorkSize(p, s) <==> j < p.reduceLen)
  {
    if s.mode == Parallel {
      DivBounds(p.reduceLen, s.vectorIn);
      QuotientBounds(pos + 1, s.vectorIn, p.reduceLen);
      if p.reduceLen % s.vectorIn == 0 && pos * s.vectorIn < p.reduceLen {
        AtLeastCancels(pos, p.reduceLen / s.vectorIn, s.vectorIn);
      }
    }
  }

  /**
   Every element of the reduced axis of every reduction in a share is taken by exactly one unit whose result is written, at
   exactly one step: the worker of the reduction's vector, at the element's own vector. A parallel read takes whole vectors.
   */
  lemma EachElementOnce(routine: Routine, d: Device, p: Problem, s: Settings, reduction: nat, j: nat)
    requires d.Valid() && s.Fits(p)
    requires Infer(routine, d, p, s).Ready? && Infer(routine, d, p, s).launch.width > 0
    requires InSomeShare(p, s, reduction) && j < p.reduceLen
    requires s.mode == Perpendicular || p.reduceLen % s.vectorIn == 0
    ensures
      var l := Infer(routine, d, p, s).launch;
      var worker := reduction / if s.mode == Parallel then s.vectorOut else s.vectorIn;
      var pos := if s.mode == Parallel then j / s.vectorIn else j;
      && l.perCube > 0 && 0 < l.advance <= l.width
      && (exists cube: nat, place: nat, step: nat, lane: nat ::
            TakesElement(l, p, s, cube, place, step, lane, reduction, j))
      && (forall cube: nat, place: nat, step: nat, lane: nat ::
            TakesElement(l, p, s, cube, place, step, lane, reduction, j) ==>
            cube == worker / l.perCube && place == worker % l.perCube && step == pos / l.advance && lane == pos % l.advance)
  {
    var l, pos := Infer(routine, d, p, s).launch, PositionOf(s, j);
    WorkHoldsAxis(p, s, pos, j);
    EachValueOnce(routine, d, p, s, reduction, pos);
    hide Infer, InSomeShare, WorkSize, Working, TakenBy, HoldsElement;
    var cube: nat, place: nat, step: nat, lane: nat :| TakenBy(l, p, s, cube, place, step, lane, reduction, pos);
    TakenAtPosition(l, p, s, cube, place, step, lane, reduction, pos);
    assert TakesElement(l, p, s, cube, place, step, lane, reduction, j);
  }

  lemma TakenAtPosition(l: Launch, p: Problem, s: Settings, cube: nat, place: nat, step: nat, lane: nat, reduction: nat,
                        pos: nat)
    requires s.Fits(p) && l.advance > 0 && TakenBy(l, p, s, cube, place, step, lane, reduction, pos)
    ensures pos == Position(l, step, lane)
  {
    hide Read;
  }

  /** Where rows are whole planes and no surplus worker is missed, nothing past the end of the reduced axis is taken. */
  lemma OnlyElementsTaken(routine: Routine, d: Device, p: Problem, s: Settings, cube: nat, place: nat, step: nat, lane: nat,
                          reduction: nat, j: nat)
    requires d.Valid() && s.Fits(p) && d.planeMax % d.planeDim == 0 && !MissesSurplus(routine, d, p, s)
    requires Infer(routine, d, p, s).Ready? && Infer(routine, d, p, s).launch.width > 0
    requires
      var l := Infer(routine, d, p, s).launch;
      l.advance > 0 && TakesElement(l, p, s, cube, place, step, lane, reduction, j)
    ensures j < p.reduceLen && InSomeShare(p, s, reduction)
  {
    var l := Infer(routine, d, p, s).launch;
    var pos := Position(l, step, lane);
    assert TakenBy(l, p, s, cube, place, step, lane, reduction, pos) && HoldsElement(s, pos, j);
    TakenInside(routine, d, p, s, cube, place, step, lane, reduction);
    hide *;
    WorkHoldsAxis(p, s, pos, j);
  }

  lemma TakenInside(routine: Routine, d: Device, p: Problem, s: Settings, cube: nat, place: nat, step: nat, lane: nat,
                    reduction: nat)
    requires d.Valid() && s.Fits(p) && d.planeMax % d.planeDim == 0 && !MissesSurplus(routine, d, p, s)
    requires Infer(routine, d, p, s).Ready? && Infer(routine, d, p, s).launch.width > 0
    requires
      var l := Infer(routine, d, p, s).launch;
      l.advance > 0 && TakenBy(l, p, s, cube, place, step, lane, reduction, Position(l, step, lane))
    ensures Position(Infer(routine, d, p, s).launch, step, lane) < WorkSize(p, s) && InSomeShare(p, s, reduction)
  {
    var l := Infer(routine, d, p, s).launch;
    InferredBounds(routine, d, p, s);
    DivBounds(reduction, s.Each());
    hide Infer, WorkSize, Working, At, MissesSurplus, Read;
    TakenIsRead(l, p, s, cube, place, step, lane, reduction);
    WrittenIsExact(routine, d, p, s, reduction / s.Each(), step, lane);
  }

  lemma TakenIsRead(l: Launch, p: Problem, s: Settings, cube: nat, place: nat, step: nat, lane: nat, reduction: nat)
    requires s.Fits(p) && 0 < l.advance <= l.width
    requires TakenBy(l, p, s, cube, place, step, lane, reduction, Position(l, step, lane))
    ensures lane < l.advance && reduction / s.Each() >= 0 && Reads(l, p, s, reduction / s.Each(), step, lane)
  {
    hide Read, WorkSize;
    DivBounds(reduction, s.Each());
    CellBelow(cube, place, l.cubes, l.perCube);
  }

  /** So the whole axis is taken exactly when the input vectors divide it or lie across it. */
  lemma AllElementsTakenIff(routine: Routine, d: Device, p: Problem, s: Settings, reduction: nat)
    requires d.Valid() && s.Fits(p) && d.planeMax % d.planeDim == 0 && !MissesSurplus(routine, d, p, s)
    requires Infer(routine, d, p, s).Ready? && Infer(routine, d, p, s).launch.width > 0
    requires InSomeShare(p, s, reduction)
    ensures
      var l := Infer(routine, d, p, s).launch;
      && l.advance > 0
      && ((forall j: nat :: j < p.reduceLen ==> ElementTaken(l, p, s, reduction, j)) <==>
          s.mode == Perpendicular || p.reduceLen % s.vectorIn == 0)
  {
    var l := Infer(routine, d, p, s).launch;
    InferredBounds(routine, d, p, s);
    hide Infer, InSomeShare, WorkSize, TakesElement, MissesSurplus;
    if s.mode == Perpendicular || p.reduceLen % s.vectorIn == 0 {
      forall j: nat | j < p.reduceLen
        ensures ElementTaken(l, p, s, reduction, j)
      {
        EachElementOnce(routine, d, p, s, reduction, j);
      }
    } else {
      LastElementIsLost(routine, d, p, s, reduction);
    }
  }

  ghost predicate ElementTaken(l: Launch, p: Problem, s: Settings, reduction: nat, j: nat)
    requires s.Fits(p) && l.advance > 0
  {
    exists cube: nat, place: nat, step: nat, lane: nat :: TakesElement(l, p, s, cube, place, step, lane, reduction, j)
  }

  lemma LastElementIsLost(routine: Routine, d: Device, p: Problem, s: Settings, reduction: nat)
    requires d.Valid() && s.Fits(p) && d.planeMax % d.planeDim == 0 && !MissesSurplus(routine, d, p, s)
    requires Infer(routine, d, p, s).Ready? && Infer(routine, d, p, s).launch.width > 0
    requires s.mode == Parallel && p.reduceLen % s.vectorIn != 0
    ensures
      var l := Infer(routine, d, p, s).launch;
      p.reduceLen > 0 && l.advance > 0 && !ElementTaken(l, p, s, reduction, p.reduceLen - 1)
  {
    hide Infer, WorkSize, HoldsElement, TakenBy, MissesSurplus, Position, Working, InSomeShare;
    NotWholeIsPositive(p.reduceLen, s.vectorIn);
    var l, j := Infer(routine, d, p, s).launch, p.reduceLen - 1;
    InferredBounds(routine, d, p, s);
    forall cube: nat, place: nat, step: nat, lane: nat
      ensures !TakesElement(l, p, s, cube, place, step, lane, reduction, j)
    {
      if TakesElement(l, p, s, cube, place, step, lane, reduction, j) {
        TakenInside(routine, d, p, s, cube, place, step, lane, reduction);
        LastVectorIsShort(p, s, Position(l, step, lane));
      }
    }
  }

  lemma LastVectorIsShort(p: Problem, s: Settings, pos: nat)
    requires s.Valid() && s.mode == Parallel && p.reduceLen % s.vectorIn != 0 && HoldsElement(s, pos, p.reduceLen - 1)
    ensures pos >= WorkSize(p, s)
  {
    DivBounds(p.reduceLen, s.vectorIn);
    WholeWhenEnding(pos + 1, s.vectorIn, p.reduceLen);
  }

  lemma NotWholeIsPositive(len: nat, v: nat)
    requires v > 0 && len % v != 0
    ensures len > 0
  {}

  /** Vectors that end where the axis does divide it. */
  lemma WholeWhenEnding(vectors: nat, v: nat, len: nat)
    requires v > 0 && len > 0 && len <= vectors * v && len % v != 0
    ensures len / v < vectors
  {
    if vectors <= len / v {
      QuotientBounds(vectors, v, len);
      ModOfMultiple(v, vectors);
      assert false;
    }
  }

  /** The values of a reduction in no worker's share are taken by none. */
  lemma DroppedIsNeverTaken(routine: Routine, d: Device, p: Problem, s: Settings, reduction: nat, pos: nat)
    requires d.Valid() && s.Fits(p) && !MissesSurplus(routine, d, p, s)
    requires Infer(routine, d, p, s).Ready? && Infer(routine, d, p, s).launch.width > 0
    requires !InSomeShare(p, s, reduction)
    ensures
      var l := Infer(routine, d, p, s).launch;
      && l.advance > 0
      && forall cube: nat, place: nat, step: nat, lane: nat ::
           !TakenBy(l, p, s, cube, place, step, lane, reduction, pos)
  {
    var l := Infer(routine, d, p, s).launch;
    DivBounds(reduction, s.Each());
    LaunchIsExactIff(routine, d, p, s);
    SurplusIff(routine, d, p, s);
    InferredBounds(routine, d, p, s);
    hide Infer, HasSurplus, Working, WorkSize, At, Read, LastRunIsWhole, Launch.Workers;
    SurplusTakesNothing(l, p, s, reduction / s.Each(), pos);
  }

  /** A surplus worker takes no value, be it held back or not there. */
  lemma SurplusTakesNothing(l: Launch, p: Problem, s: Settings, worker: nat, pos: nat)
    requires s.Fits(p) && l.advance > 0 && worker >= Working(p, s)
    requires l.Workers() == Working(p, s) || LastRunIsWhole(p, s)
    requires l.idle == Unguarded ==> l.Workers() == Working(p, s)
    ensures forall cube: nat, place: nat, step: nat, lane: nat ::
      At(l, p, s, cube, place, step, lane, worker, pos) ==> Read(l, p, s, worker, pos) != Value
  {
    IdleIff(p, s, worker);
    hide Working, WorkSize, IsIdle, LastRunIsWhole, Steps;
    forall cube: nat, place: nat, step: nat, lane: nat | At(l, p, s, cube, place, step, lane, worker, pos)
      ensures Read(l, p, s, worker, pos) != Value
    {
      CellBelow(cube, place, l.cubes, l.perCube);
    }
  }

  /** One place, one step and one lane are at a position of a worker. */
  lemma OneUnitAt(l: Launch, p: Problem, s: Settings, worker: nat, pos: nat)
    requires s.Fits(p) && l.advance > 0 && worker < l.Workers() && pos < WorkSize(p, s)
    ensures l.perCube > 0
    ensures
      At(l, p, s, worker / l.perCube, worker % l.perCube, pos / l.advance, pos % l.advance, worker, pos)
    ensures forall cube: nat, place: nat, step: nat, lane: nat ::
      At(l, p, s, cube, place, step, lane, worker, pos) ==>
      cube == worker / l.perCube && place == worker % l.perCube && step == pos / l.advance && lane == pos % l.advance
  {
    hide WorkSize, DivCeil;
    var work := WorkSize(p, s);
    CellOf(worker, l.cubes, l.perCube);
    DivBounds(worker, l.perCube);
    DivCeilCovers(work, l.advance);
    CellOf(pos, Steps(l, p, s), l.advance);
    DivBounds(pos, l.advance);
    forall cube: nat, place: nat, step: nat, lane: nat | At(l, p, s, cube, place, step, lane, worker, pos)
      ensures cube == worker / l.perCube && place == worker % l.perCube
      ensures step == pos / l.advance && lane == pos % l.advance
    {
      DivModUnique(worker, l.perCube, cube, place);
      DivModUnique(pos, l.advance, step, lane);
    }
  }

  /** The unit at that place of the launch, at that step, is at the position of the worker, and its result is written. */
  predicate At(l: Launch, p: Problem, s: Settings, cube: nat, place: nat, step: nat, lane: nat, worker: nat, pos: nat)
    requires s.Valid() && l.advance > 0
  {
    && cube < l.cubes && place < l.perCube && step < Steps(l, p, s) && lane < l.advance
    && worker == cube * l.perCube + place && pos == step * l.advance + lane
  }
}

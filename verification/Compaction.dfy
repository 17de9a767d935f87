/** `Compaction`: the smallest lattice box that stages a gathered window, and the map that addresses it. */
module WindowCompaction {
  import opened IndexArithmetic

  /** A coefficient: known, or known only by its upper bound until launch. */
  datatype Scale = Static(s: nat) | Dynamic(max: nat) {
    function Bound(): nat {
      match this case Static(s) => s case Dynamic(max) => max
    }

    /** The values the coefficient may take at launch. */
    predicate Admits(v: nat) {
      match this case Static(s) => v == s case Dynamic(max) => v <= max
    }
  }

  /** A divisor: known, or known only by its lower bound. */
  datatype Divisor = StaticDivisor(d: nat) | DynamicDivisor(min: nat) {
    function Bound(): nat {
      match this case StaticDivisor(d) => d case DynamicDivisor(min) => min
    }

    predicate Admits(v: nat) {
      match this case StaticDivisor(d) => v == d case DynamicDivisor(min) => v >= min
    }
  }

  /** One logical axis on one physical axis: the extent of the staged sub-tile along it, and its coefficient. */
  datatype Term = Term(extent: nat, scale: Scale)

  datatype AxisMap = AxisMap(terms: seq<Term>, divisor: Divisor)

  /** What the constructors refuse: an empty extent, a coefficient or divisor that can only be zero. */
  predicate Legal(terms: seq<Term>) {
    forall i :: 0 <= i < |terms| ==> terms[i].extent >= 1 && terms[i].scale.Bound() > 0
  }

  predicate Moves(t: Term) {
    t.extent > 1
  }

  // ---- the greatest common divisor --------------------------------------------------------

  function Gcd(a: nat, b: nat): nat
    decreases b
  {
    if b == 0 then a else Gcd(b, a % b)
  }

  ghost predicate Divides(g: nat, a: nat) {
    exists q: nat :: a == g * q
  }

  lemma DividesSum(g: nat, a: nat, b: nat, k: nat)
    requires Divides(g, a) && Divides(g, b)
    ensures Divides(g, a + b * k)
  {
    var p: nat, q: nat :| a == g * p && b == g * q;
    Associate(g, q, k);
    Distribute(g, p, q * k);
    Nonnegative(q, k);
    assert a + b * k == g * (p + q * k);
  }

  lemma DividesRemainder(g: nat, a: nat, b: nat)
    requires b > 0 && Divides(g, a) && Divides(g, b)
    ensures Divides(g, a % b)
  {
    var p: nat, q: nat :| a == g * p && b == g * q;
    var k := a / b;
    FactorOut(g, p, q, k);
    assert a % b == a - b * k;
    NonnegativeFactor(g, p - q * k);
    assert a % b == g * (p - q * k);
  }

  lemma FactorOut(g: int, p: int, q: int, k: int)
    ensures g * p - g * q * k == g * (p - q * k)
  {
    Associate(g, q, k);
    Distribute(g, p, -(q * k));
  }

  lemma NonnegativeFactor(g: nat, z: int)
    requires g > 0 && g * z >= 0
    ensures z >= 0
  {
    if z < 0 {
      Monotone(z, -1, g);
      assert false;
    }
  }

  lemma {:induction false} GcdDivides(a: nat, b: nat)
    ensures Divides(Gcd(a, b), a) && Divides(Gcd(a, b), b)
    decreases b
  {
    if b == 0 {
      assert a == a * 1 && b == a * 0;
    } else {
      GcdDivides(b, a % b);
      DividesSum(Gcd(a, b), a % b, b, a / b);
      assert a == a % b + b * (a / b);
    }
  }

  lemma {:induction false} GcdIsGreatest(a: nat, b: nat, g: nat)
    requires Divides(g, a) && Divides(g, b)
    ensures Divides(g, Gcd(a, b))
    decreases b
  {
    if b > 0 {
      DividesRemainder(g, a, b);
      GcdIsGreatest(b, a % b, g);
    }
  }

  lemma DividesTransitive(g: nat, h: nat, a: nat)
    requires Divides(g, h) && Divides(h, a)
    ensures Divides(g, a)
  {
    var p: nat, q: nat :| h == g * p && a == h * q;
    Associate(g, p, q);
    Nonnegative(p, q);
    assert a == g * (p * q);
  }

  lemma DivisorBound(g: nat, a: nat)
    requires Divides(g, a) && a > 0
    ensures 0 < g <= a
  {
    var q: nat :| a == g * q;
    Monotone(1, q, g);
  }

  lemma ExactQuotient(g: nat, a: nat)
    requires g > 0 && Divides(g, a)
    ensures a == g * (a / g)
  {
    var q: nat :| a == g * q;
    ModOfMultiple(g, q);
  }

  // ---- the window -----------------------------------------------------------------------------

  /** A logical position inside the sub-tile. */
  predicate InTile(a: seq<nat>, terms: seq<Term>) {
    |a| == |terms| && forall i :: 0 <= i < |a| ==> a[i] < terms[i].extent
  }

  /** Coefficient values a launch may pass. */
  predicate Launchable(v: seq<nat>, terms: seq<Term>) {
    |v| == |terms| && forall i :: 0 <= i < |v| ==> terms[i].scale.Admits(v[i])
  }

  /** The offset a logical position reaches. */
  function Reach(a: seq<nat>, v: seq<nat>): nat
    requires |a| == |v|
  {
    if a == [] then 0 else a[0] * v[0] + Reach(a[1..], v[1..])
  }

  /** The coefficients' common step over the moving terms; None as soon as a moving one is dynamic. */
  datatype Fold = None | Some(g: nat)

  function FoldGcd(terms: seq<Term>, g: nat, onlyMoving: bool): Fold {
    if terms == [] then Some(g)
    else if onlyMoving && !Moves(terms[0]) then FoldGcd(terms[1..], g, onlyMoving)
    else match terms[0].scale
      case Static(s) => FoldGcd(terms[1..], Gcd(g, s), onlyMoving)
      case Dynamic(_) => None
  }

  function Step(terms: seq<Term>): (step: nat)
    ensures step >= 1
  {
    match FoldGcd(terms, 0, true)
    case None => 1
    case Some(g) => Max(g, 1)
  }

  function StageScale(t: Term, step: nat): Scale
    requires step > 0
  {
    match t.scale
    case Static(s) => if Moves(t) then Static(s / step) else Static(1)
    case Dynamic(_) => t.scale
  }

  function StageTerms(terms: seq<Term>, step: nat): (stage: seq<Term>)
    requires step > 0
    ensures |stage| == |terms|
    ensures forall i :: 0 <= i < |terms| ==> stage[i] == Term(terms[i].extent, StageScale(terms[i], step))
  {
    seq(|terms|, i requires 0 <= i < |terms| && step > 0 => Term(terms[i].extent, StageScale(terms[i], step)))
  }

  /** The widest offset the coefficients' bounds admit. */
  function Field(terms: seq<Term>): nat
    requires forall i :: 0 <= i < |terms| ==> terms[i].extent >= 1
  {
    if terms == [] then 0 else (terms[0].extent - 1) * terms[0].scale.Bound() + Field(terms[1..])
  }

  /** The runtime coefficients of the stage: the quotients where they are known, the launch's values elsewhere. */
  function StageValues(terms: seq<Term>, step: nat, v: seq<nat>): (w: seq<nat>)
    requires step > 0 && |v| == |terms|
    ensures |w| == |v|
  {
    seq(|v|, i requires 0 <= i < |v| && |v| == |terms| && step > 0 =>
      match StageScale(terms[i], step) case Static(s) => s case Dynamic(_) => v[i])
  }

  // ---- the step divides what moves

  lemma {:induction false} FoldDivides(terms: seq<Term>, g: nat, onlyMoving: bool)
    requires FoldGcd(terms, g, onlyMoving).Some?
    ensures Divides(FoldGcd(terms, g, onlyMoving).g, g)
    ensures forall i :: 0 <= i < |terms| && (Moves(terms[i]) || !onlyMoving) ==>
      terms[i].scale.Static? && Divides(FoldGcd(terms, g, onlyMoving).g, terms[i].scale.s)
  {
    var h := FoldGcd(terms, g, onlyMoving).g;
    if terms == [] {
      assert g == g * 1;
    } else if onlyMoving && !Moves(terms[0]) {
      FoldDivides(terms[1..], g, onlyMoving);
    } else {
      var s := terms[0].scale.s;
      FoldDivides(terms[1..], Gcd(g, s), onlyMoving);
      GcdDivides(g, s);
      DividesTransitive(h, Gcd(g, s), g);
      DividesTransitive(h, Gcd(g, s), s);
    }
  }

  lemma {:induction false} FoldIsGreatest(terms: seq<Term>, g: nat, h: nat)
    requires FoldGcd(terms, g, true).Some? && Divides(h, g)
    requires forall i :: 0 <= i < |terms| && Moves(terms[i]) && terms[i].scale.Static? ==> Divides(h, terms[i].scale.s)
    ensures Divides(h, FoldGcd(terms, g, true).g)
  {
    if terms != [] {
      if Moves(terms[0]) {
        GcdIsGreatest(g, terms[0].scale.s, h);
        FoldIsGreatest(terms[1..], Gcd(g, terms[0].scale.s), h);
      } else {
        FoldIsGreatest(terms[1..], g, h);
      }
    }
  }

  lemma {:induction false} FoldNone(terms: seq<Term>, g: nat)
    requires FoldGcd(terms, g, true).None?
    ensures exists i :: 0 <= i < |terms| && Moves(terms[i]) && terms[i].scale.Dynamic?
  {
    if Moves(terms[0]) && terms[0].scale.Dynamic? {
      assert Moves(terms[0]);
    } else {
      FoldNone(terms[1..], if Moves(terms[0]) then Gcd(g, terms[0].scale.s) else g);
      var i :| 0 <= i < |terms[1..]| && Moves(terms[1..][i]) && terms[1..][i].scale.Dynamic?;
      assert Moves(terms[i + 1]) && terms[i + 1].scale.Dynamic?;
    }
  }

  /** Whenever something moves that the step is to divide, the step divides it. */
  lemma StepDividesMoving(terms: seq<Term>)
    requires Legal(terms)
    ensures forall i :: 0 <= i < |terms| && Moves(terms[i]) ==>
      (terms[i].scale.Static? ==> Divides(Step(terms), terms[i].scale.s))
      && (terms[i].scale.Dynamic? ==> Step(terms) == 1)
  {
    forall i | 0 <= i < |terms| && Moves(terms[i])
      ensures terms[i].scale.Static? ==> Divides(Step(terms), terms[i].scale.s)
      ensures terms[i].scale.Dynamic? ==> Step(terms) == 1
    {
      match FoldGcd(terms, 0, true)
      case None =>
        assert terms[i].scale.Static? ==> terms[i].scale.s == 1 * terms[i].scale.s;
      case Some(g) =>
        FoldDivides(terms, 0, true);
        DivisorBound(g, terms[i].scale.s);
    }
  }

  /** One term of the window, quotiented: an offset is the step times a stage offset within the term's share. */
  lemma TermQuotient(t: Term, step: nat, a: nat, v: nat)
    requires step > 0 && a < t.extent && t.scale.Admits(v)
    requires Moves(t) && t.scale.Static? ==> Divides(step, t.scale.s)
    requires Moves(t) && t.scale.Dynamic? ==> step == 1
    ensures
      var w := match StageScale(t, step) case Static(s) => s case Dynamic(_) => v;
      a * v == step * (a * w)
  {
    var w := match StageScale(t, step) case Static(s) => s case Dynamic(_) => v;
    if Moves(t) {
      if t.scale.Static? {
        ExactQuotient(step, v);
      }
      Associate(step, a, w);
    }
  }

  lemma StageTails(terms: seq<Term>, step: nat, v: seq<nat>)
    requires step > 0 && |v| == |terms| > 0
    ensures StageValues(terms[1..], step, v[1..]) == StageValues(terms, step, v)[1..]
    ensures StageTerms(terms[1..], step) == StageTerms(terms, step)[1..]
  {
    hide StageScale;
    forall i | 0 <= i < |terms| - 1
      ensures StageValues(terms[1..], step, v[1..])[i] == StageValues(terms, step, v)[1..][i]
    {
      assert terms[1..][i] == terms[i + 1] && v[1..][i] == v[i + 1];
    }
  }

  lemma {:induction false} ReachScales(terms: seq<Term>, step: nat, a: seq<nat>, v: seq<nat>)
    requires Legal(terms) && step > 0 && InTile(a, terms) && Launchable(v, terms)
    requires forall i :: 0 <= i < |terms| && Moves(terms[i]) ==>
      (terms[i].scale.Static? ==> Divides(step, terms[i].scale.s)) && (terms[i].scale.Dynamic? ==> step == 1)
    ensures Reach(a, v) == step * Reach(a, StageValues(terms, step, v))
  {
    if a != [] {
      var w := StageValues(terms, step, v);
      TermQuotient(terms[0], step, a[0], v[0]);
      ReachScales(terms[1..], step, a[1..], v[1..]);
      StageTails(terms, step, v);
      hide Divides, Legal, StageValues, StageTerms;
      Distribute(step, a[0] * w[0], Reach(a[1..], w[1..]));
    }
  }

  /** What a launch reaches is the step times what its stage does, and that is within the stage's field. */
  lemma ReachQuotient(terms: seq<Term>, step: nat, a: seq<nat>, v: seq<nat>)
    requires Legal(terms) && step > 0 && InTile(a, terms) && Launchable(v, terms)
    requires forall i :: 0 <= i < |terms| && Moves(terms[i]) ==>
      (terms[i].scale.Static? ==> Divides(step, terms[i].scale.s)) && (terms[i].scale.Dynamic? ==> step == 1)
    ensures Reach(a, v) == step * Reach(a, StageValues(terms, step, v))
    ensures Reach(a, StageValues(terms, step, v)) <= Field(StageTerms(terms, step))
  {
    ReachScales(terms, step, a, v);
    StageIsLegal(terms, step);
    StageIsLaunchable(terms, step, v);
    hide *;
    ReachBelowField(StageTerms(terms, step), a, StageValues(terms, step, v)) by {
      StageTile(terms, step, a);
    }
  }

  lemma StageTile(terms: seq<Term>, step: nat, a: seq<nat>)
    requires step > 0
    ensures InTile(a, StageTerms(terms, step)) <==> InTile(a, terms)
  {}

  lemma StageIsLaunchable(terms: seq<Term>, step: nat, v: seq<nat>)
    requires step > 0 && Launchable(v, terms)
    ensures Launchable(StageValues(terms, step, v), StageTerms(terms, step))
  {}

  // ---- minimality ------------------------------------------------------------------------------

  /** An evenly spaced box of `cells` cells, `g` apart, holds every offset a launch can reach. */
  ghost predicate BoxHolds(terms: seq<Term>, g: nat, cells: nat) {
    forall a: seq<nat>, v: seq<nat> :: InTile(a, terms) && Launchable(v, terms) ==> InBox(Reach(a, v), g, cells)
  }

  ghost predicate InBox(offset: nat, g: nat, cells: nat) {
    exists q: nat :: q < cells && offset == g * q
  }

  function Extent(terms: seq<Term>): nat
    requires Legal(terms)
  {
    1 + Field(StageTerms(terms, Step(terms)))
  }

  /** The position that moves only along term i, by one. */
  function UnitPosition(n: nat, i: nat): seq<nat> {
    seq(n, j => if j == i then 1 else 0)
  }

  lemma {:induction false} ReachOfZero(a: seq<nat>, v: seq<nat>)
    requires |a| == |v| && forall j :: 0 <= j < |a| ==> a[j] == 0
    ensures Reach(a, v) == 0
  {
    if a != [] {
      ReachOfZero(a[1..], v[1..]);
    }
  }

  lemma {:induction false} ReachOfUnit(n: nat, i: nat, v: seq<nat>)
    requires i < n == |v|
    ensures Reach(UnitPosition(n, i), v) == v[i]
  {
    var a := UnitPosition(n, i);
    if i == 0 {
      ReachOfZero(a[1..], v[1..]);
    } else {
      assert a[1..] == UnitPosition(n - 1, i - 1);
      ReachOfUnit(n - 1, i - 1, v[1..]);
    }
  }

  function Corner(terms: seq<Term>): seq<nat>
    requires Legal(terms)
  {
    seq<nat>(|terms|, i requires 0 <= i < |terms| && Legal(terms) => terms[i].extent - 1)
  }

  function Bounds(terms: seq<Term>): seq<nat> {
    seq<nat>(|terms|, i requires 0 <= i < |terms| => terms[i].scale.Bound())
  }

  lemma {:induction false} ReachOfCorner(terms: seq<Term>)
    requires Legal(terms)
    ensures Reach(Corner(terms), Bounds(terms)) == Field(terms)
  {
    if terms != [] {
      ReachOfCorner(terms[1..]);
      assert Corner(terms)[1..] == Corner(terms[1..]) && Bounds(terms)[1..] == Bounds(terms[1..]);
    }
  }

  /** The step of any box that holds the window divides everything that moves. */
  lemma BoxStepDivides(terms: seq<Term>, g: nat, cells: nat, i: nat, v: nat)
    requires Legal(terms) && BoxHolds(terms, g, cells) && i < |terms| && Moves(terms[i]) && terms[i].scale.Admits(v)
    ensures Divides(g, v)
  {
    var a, values := UnitPosition(|terms|, i), Bounds(terms)[i := v];
    ReachOfUnit(|terms|, i, values);
    assert InTile(a, terms) && Launchable(values, terms);
    var q: nat :| q < cells && Reach(a, values) == g * q;
  }

  lemma {:induction false} StageField(terms: seq<Term>, step: nat)
    requires Legal(terms) && step > 0
    requires forall i :: 0 <= i < |terms| && Moves(terms[i]) ==>
      (terms[i].scale.Static? ==> Divides(step, terms[i].scale.s)) && (terms[i].scale.Dynamic? ==> step == 1)
    ensures Field(terms) == step * Field(StageTerms(terms, step))
  {
    if terms != [] {
      var stage := StageTerms(terms, step);
      assert stage[1..] == StageTerms(terms[1..], step);
      StageField(terms[1..], step);
      if Moves(terms[0]) {
        var n, w := terms[0].extent - 1, stage[0].scale.Bound();
        if terms[0].scale.Static? {
          ExactQuotient(step, terms[0].scale.s);
        }
        Associate(n, step, w);
        Associate(step, n, w);
      }
      Distribute(step, (stage[0].extent - 1) * stage[0].scale.Bound(), Field(stage[1..]));
    }
  }

  /** The step of any box that holds the window divides the compacted step, unless nothing moves. */
  lemma BoxStepDividesStep(terms: seq<Term>, g: nat, cells: nat)
    requires Legal(terms) && BoxHolds(terms, g, cells)
    requires exists i :: 0 <= i < |terms| && Moves(terms[i])
    ensures Divides(g, Step(terms))
  {
    match FoldGcd(terms, 0, true)
    case None =>
      FoldNone(terms, 0);
      var i :| 0 <= i < |terms| && Moves(terms[i]) && terms[i].scale.Dynamic?;
      BoxStepDivides(terms, g, cells, i, 1);
    case Some(common) =>
      assert 0 == g * 0;
      FoldDivides(terms, 0, true);
      forall i | 0 <= i < |terms| && Moves(terms[i]) && terms[i].scale.Static?
        ensures Divides(g, terms[i].scale.s)
      {
        BoxStepDivides(terms, g, cells, i, terms[i].scale.s);
      }
      FoldIsGreatest(terms, 0, g);
      var i :| 0 <= i < |terms| && Moves(terms[i]);
      DivisorBound(common, terms[i].scale.s);
  }

  lemma {:induction false} StillField(terms: seq<Term>)
    requires Legal(terms) && forall i :: 0 <= i < |terms| ==> !Moves(terms[i])
    ensures Field(terms) == 0
  {
    if terms != [] {
      StillField(terms[1..]);
    }
  }

  /** No evenly spaced box with fewer cells holds the window. */
  lemma CompactionIsMinimal(terms: seq<Term>, g: nat, cells: nat)
    requires Legal(terms) && BoxHolds(terms, g, cells)
    ensures cells >= Extent(terms)
  {
    var step := Step(terms);
    StepDividesMoving(terms);
    StageField(terms, step);
    ReachOfCorner(terms);
    assert InTile(Corner(terms), terms) && Launchable(Bounds(terms), terms);
    var q: nat :| q < cells && Field(terms) == g * q;
    var top := Extent(terms) - 1;
    if i :| 0 <= i < |terms| && Moves(terms[i]) {
      BoxStepDividesStep(terms, g, cells);
      DivisorBound(g, step);
      if q < top {
        Monotone(g, step, top);
        Monotone(q + 1, top, g);
        Distribute(g, q, 1);
        assert false;
      }
    } else {
      StillField(terms);
      if top > 0 {
        Monotone(1, top, step);
        assert false;
      }
    }
  }

  /** The compacted box itself holds it: every offset is the step times a stage coordinate below the extent. */
  lemma CompactionHolds(terms: seq<Term>)
    requires Legal(terms)
    ensures BoxHolds(terms, Step(terms), Extent(terms))
  {
    forall a: seq<nat>, v: seq<nat> | InTile(a, terms) && Launchable(v, terms)
      ensures InBox(Reach(a, v), Step(terms), Extent(terms))
    {
      StepDividesMoving(terms);
      ReachQuotient(terms, Step(terms), a, v);
      var q := Reach(a, StageValues(terms, Step(terms), v));
      assert q < Extent(terms) && Reach(a, v) == Step(terms) * q;
    }
  }

  // ---- one physical axis -------------------------------------------------------------------------

  /** `over`: a known divisor that every known coefficient cancels is divided out. */
  function Over(terms: seq<Term>, divisor: Divisor): AxisMap
    requires divisor.Bound() > 0
  {
    match divisor
    case DynamicDivisor(_) => AxisMap(terms, divisor)
    case StaticDivisor(d) =>
      match FoldGcd(terms, 0, false)
      case None => AxisMap(terms, divisor)
      case Some(g) => if g % d == 0 then AxisMap(Divided(terms, d), StaticDivisor(1)) else AxisMap(terms, divisor)
  }

  function Divided(terms: seq<Term>, d: nat): (r: seq<Term>)
    requires d > 0
    ensures |r| == |terms|
  {
    seq(|terms|, i requires 0 <= i < |terms| && d > 0 => Term(terms[i].extent, Static(terms[i].scale.Bound() / d)))
  }

  /** Step, extent and addressing map of one staged physical axis. */
  datatype StagedAxis = StagedAxis(step: nat, extent: nat, projection: AxisMap)

  /** The body of the loop of `Compaction::new`. */
  function CompactAxis(source: AxisMap): StagedAxis
    requires Legal(source.terms) && source.divisor.Bound() > 0
  {
    var stage := Over(source.terms, source.divisor);
    if stage.divisor != StaticDivisor(1) then
      StagedAxis(1, 1 + DivCeil(Field(stage.terms), stage.divisor.Bound()), stage)
    else
      var step := Step(stage.terms);
      StagedAxis(step, 1 + Field(StageTerms(stage.terms, step)), AxisMap(StageTerms(stage.terms, step), StaticDivisor(1)))
  }

  /** The source cell a logical position reads: the affine sum and the axis's offset, divided and floored. */
  function SourceCell(a: seq<nat>, v: seq<nat>, offset: int, d: nat): int
    requires |a| == |v| && d > 0
  {
    (Reach(a, v) + offset) / d
  }

  /** Known coefficients at their value, the others as launched. */
  function LaunchOf(terms: seq<Term>, v: seq<nat>): (w: seq<nat>)
    requires |v| == |terms|
    ensures |w| == |v|
  {
    seq(|v|, i requires 0 <= i < |v| && |v| == |terms| =>
      match terms[i].scale case Static(s) => s case Dynamic(_) => v[i])
  }

  /** A known divisor at its value, any other as launched. */
  function DivisorOf(divisor: Divisor, d: nat): nat {
    match divisor
    case StaticDivisor(s) => s
    case DynamicDivisor(_) => d
  }

  /**
   The stage reads the source cell: the cell the projection addresses, its own coefficients and divisor put in, lies below
   the extent, and is as many steps from the window's origin as the source cell is cells.
   */
  ghost predicate ReadsSource(source: AxisMap, step: nat, extent: nat, projection: AxisMap, a: seq<nat>, v: seq<nat>, d: nat,
                              offset: int)
    requires |a| == |v| == |source.terms| && d > 0
  {
    && |projection.terms| == |v|
    && var e := DivisorOf(projection.divisor, d);
    && e > 0
    && var c := (Reach(a, LaunchOf(projection.terms, v)) + offset % e) / e;
    && SourceCell(a, v, offset, d) == offset / d + step * c
    && 0 <= c < extent
  }

  /** So does every read of the tile, whatever a launch passes for the coefficients and the divisor, at any offset. */
  ghost predicate Stages(source: AxisMap, step: nat, extent: nat, projection: AxisMap) {
    forall a: seq<nat>, v: seq<nat>, d: nat, offset: int ::
      InTile(a, source.terms) && Launchable(v, source.terms) && source.divisor.Admits(d) && d > 0 ==>
      ReadsSource(source, step, extent, projection, a, v, d, offset)
  }

  lemma {:induction false} ReachBelowField(terms: seq<Term>, a: seq<nat>, v: seq<nat>)
    requires Legal(terms) && InTile(a, terms) && Launchable(v, terms)
    ensures Reach(a, v) <= Field(terms)
  {
    if a != [] {
      ReachBelowField(terms[1..], a[1..], v[1..]);
      Monotone(a[0], terms[0].extent - 1, v[0]);
      Monotone(v[0], terms[0].scale.Bound(), terms[0].extent - 1);
    }
  }

  lemma FloorShift(x: int, o: int, d: nat)
    requires d > 0
    ensures (x + o) / d == o / d + (x + o % d) / d
  {
    var q, r := (x + o % d) / d, (x + o % d) % d;
    Distribute(d, o / d, q);
    DivModUnique(x + o, d, o / d + q, r);
  }

  /** A window divided by a larger divisor, from any phase, is no wider than the box sized for the smallest one. */
  lemma PhaseFits(reach: nat, field: nat, residue: nat, d: nat, least: nat)
    requires 0 < least <= d && residue < d && reach <= field
    ensures 0 <= (reach + residue) / d <= DivCeil(field, least)
  {
    hide DivCeil;
    DivCeilCovers(field, least);
    Monotone(least, d, DivCeil(field, least));
    QuotientWithin(reach + residue, d, DivCeil(field, least));
  }

  lemma QuotientWithin(x: nat, d: nat, n: nat)
    requires d > 0 && x < n * d + d
    ensures 0 <= x / d <= n
  {
    DivBounds(x, d);
    if x / d > n {
      Monotone(n + 1, x / d, d);
      Distribute(d, n, 1);
    }
  }

  lemma {:induction false} DividedReach(terms: seq<Term>, d: nat, a: seq<nat>, v: seq<nat>)
    requires Legal(terms) && d > 0 && InTile(a, terms) && Launchable(v, terms)
    requires forall i :: 0 <= i < |terms| ==> terms[i].scale.Static? && Divides(d, terms[i].scale.s)
    ensures Launchable(LaunchOf(Divided(terms, d), v), Divided(terms, d))
    ensures Reach(a, v) == d * Reach(a, LaunchOf(Divided(terms, d), v))
  {
    if a != [] {
      var w := LaunchOf(Divided(terms, d), v);
      DividedReach(terms[1..], d, a[1..], v[1..]);
      assert Divided(terms, d)[1..] == Divided(terms[1..], d);
      assert w[1..] == LaunchOf(Divided(terms[1..], d), v[1..]);
      ExactQuotient(d, terms[0].scale.s);
      Associate(d, a[0], w[0]);
      Distribute(d, a[0] * w[0], Reach(a[1..], w[1..]));
    }
  }

  /** What dividing out leaves legal. */
  lemma DividedIsLegal(terms: seq<Term>, d: nat)
    requires Legal(terms) && d > 0
    requires forall i :: 0 <= i < |terms| ==> terms[i].scale.Static? && Divides(d, terms[i].scale.s)
    ensures Legal(Divided(terms, d))
  {
    forall i | 0 <= i < |terms|
      ensures terms[i].scale.s / d > 0
    {
      DivisorBound(d, terms[i].scale.s);
      ExactQuotient(d, terms[i].scale.s);
    }
  }

  lemma OverDivides(terms: seq<Term>, d: nat, g: nat)
    requires d > 0 && FoldGcd(terms, 0, false) == Some(g) && g % d == 0
    ensures forall i :: 0 <= i < |terms| ==> terms[i].scale.Static? && Divides(d, terms[i].scale.s)
  {
    FoldDivides(terms, 0, false);
    assert g == d * (g / d);
    assert Divides(d, g);
    forall i | 0 <= i < |terms|
      ensures Divides(d, terms[i].scale.s)
    {
      DividesTransitive(d, g, terms[i].scale.s);
    }
  }

  lemma LaunchUnchanged(terms: seq<Term>, v: seq<nat>)
    requires Launchable(v, terms)
    ensures LaunchOf(terms, v) == v
  {}

  /** The whole-number case, once the divisor is gone. */
  lemma WholeStagedRead(terms: seq<Term>, a: seq<nat>, v: seq<nat>)
    requires Legal(terms) && InTile(a, terms) && Launchable(v, terms)
    ensures
      var step := Step(terms);
      var c := Reach(a, StageValues(terms, step, v));
      Reach(a, v) == step * c && c < 1 + Field(StageTerms(terms, step))
  {
    StepDividesMoving(terms);
    ReachQuotient(terms, Step(terms), a, v);
  }

  /** The staged terms at their own values are the quotients, and the launch's values where no coefficient is known. */
  lemma LaunchOfStage(terms: seq<Term>, step: nat, v: seq<nat>)
    requires step > 0 && |v| == |terms|
    ensures LaunchOf(StageTerms(terms, step), v) == StageValues(terms, step, LaunchOf(terms, v))
  {}

  /**
   A read through the map that compaction returns is the source read: for every logical position, every launchable
   coefficient and divisor, and every offset, the source cell is the window's origin plus the step times the cell the
   returned map addresses, and the stage holds that cell.
   */
  lemma StagedReadIsSourceRead(source: AxisMap, a: seq<nat>, v: seq<nat>, d: nat, offset: int)
    requires Legal(source.terms) && source.divisor.Bound() > 0 && source.divisor.Admits(d)
    requires InTile(a, source.terms) && Launchable(v, source.terms)
    ensures
      var staged := CompactAxis(source);
      ReadsSource(source, staged.step, staged.extent, staged.projection, a, v, d, offset)
  {
    hide Field, Reach, Step, ReadsSource;
    var stage := Over(source.terms, source.divisor);
    if stage.divisor != StaticDivisor(1) {
      RationalRead(source, a, v, d, offset);
    } else if source.divisor == StaticDivisor(1) && stage.terms == source.terms {
      WholeRead(source, a, v, offset);
    } else {
      DividedRead(source, a, v, d, offset);
    }
  }

  /** A divisor that stays: a box of single cells. */
  lemma RationalRead(source: AxisMap, a: seq<nat>, v: seq<nat>, d: nat, offset: int)
    requires Legal(source.terms) && source.divisor.Bound() > 0 && source.divisor.Admits(d)
    requires InTile(a, source.terms) && Launchable(v, source.terms)
    ensures ReadsSource(source, 1, 1 + DivCeil(Field(source.terms), source.divisor.Bound()), source, a, v, d, offset)
  {
    hide Field, Reach, DivCeil;
    LaunchUnchanged(source.terms, v);
    ReachBelowField(source.terms, a, v);
    PhaseFits(Reach(a, v), Field(source.terms), offset % d, d, source.divisor.Bound());
    FloorShift(Reach(a, v), offset, d);
  }

  /** No divisor to begin with. */
  lemma WholeRead(source: AxisMap, a: seq<nat>, v: seq<nat>, offset: int)
    requires Legal(source.terms) && source.divisor == StaticDivisor(1)
    requires InTile(a, source.terms) && Launchable(v, source.terms)
    ensures
      var stage := StageTerms(source.terms, Step(source.terms));
      ReadsSource(source, Step(source.terms), 1 + Field(stage), AxisMap(stage, StaticDivisor(1)), a, v, 1, offset)
  {
    hide Field, Reach, Step;
    LaunchUnchanged(source.terms, v);
    LaunchOfStage(source.terms, Step(source.terms), v);
    WholeStagedRead(source.terms, a, v);
  }

  /** A divisor divided out. */
  lemma DividedRead(source: AxisMap, a: seq<nat>, v: seq<nat>, d: nat, offset: int)
    requires Legal(source.terms) && source.divisor == StaticDivisor(d) && d > 0
    requires FoldGcd(source.terms, 0, false).Some? && FoldGcd(source.terms, 0, false).g % d == 0
    requires InTile(a, source.terms) && Launchable(v, source.terms)
    ensures
      var terms := Divided(source.terms, d);
      var stage := StageTerms(terms, Step(terms));
      && Legal(terms)
      && ReadsSource(source, Step(terms), 1 + Field(stage), AxisMap(stage, StaticDivisor(1)), a, v, d, offset)
  {
    hide Field, Reach, Step, FoldGcd;
    var terms := Divided(source.terms, d);
    OverDivides(source.terms, d, FoldGcd(source.terms, 0, false).g);
    DividedIsLegal(source.terms, d);
    DividedReach(source.terms, d, a, v);
    var w := LaunchOf(terms, v);
    LaunchOfStage(terms, Step(terms), v);
    WholeStagedRead(terms, a, w);
    ExactFloor(Reach(a, w), offset, d);
  }

  lemma ExactFloor(x: nat, o: int, d: nat)
    requires d > 0
    ensures (d * x + o) / d == o / d + x
  {
    Distribute(d, o / d, x);
    DivModUnique(d * x + o, d, o / d + x, o % d);
  }

  lemma CompactAxisStages(source: AxisMap)
    requires Legal(source.terms) && source.divisor.Bound() > 0
    ensures Stages(source, CompactAxis(source).step, CompactAxis(source).extent, CompactAxis(source).projection)
  {
    hide CompactAxis, Field, Reach, Step, ReadsSource;
    var staged := CompactAxis(source);
    forall a: seq<nat>, v: seq<nat>, d: nat, offset: int |
      InTile(a, source.terms) && Launchable(v, source.terms) && source.divisor.Admits(d) && d > 0
      ensures ReadsSource(source, staged.step, staged.extent, staged.projection, a, v, d, offset)
    {
      StagedReadIsSourceRead(source, a, v, d, offset);
    }
  }

  /** A map the constructors accept, over the same sub-tile. */
  predicate MapsSameTile(terms: seq<Term>, projection: AxisMap) {
    && Legal(projection.terms) && projection.divisor.Bound() > 0
    && |projection.terms| == |terms|
    && forall i :: 0 <= i < |terms| ==> projection.terms[i].extent == terms[i].extent
  }

  lemma CompactAxisIsLegal(source: AxisMap)
    requires Legal(source.terms) && source.divisor.Bound() > 0
    ensures MapsSameTile(source.terms, CompactAxis(source).projection)
  {
    hide Step, Field;
    var stage := Over(source.terms, source.divisor);
    OverIsLegal(source.terms, source.divisor);
    StepDividesMoving(stage.terms);
    StageIsLegal(stage.terms, Step(stage.terms));
  }

  /** A step that divides what moves leaves it positive. */
  lemma StageIsLegal(terms: seq<Term>, step: nat)
    requires Legal(terms) && step > 0
    requires forall i :: 0 <= i < |terms| && Moves(terms[i]) && terms[i].scale.Static? ==> Divides(step, terms[i].scale.s)
    ensures Legal(StageTerms(terms, step))
  {
    forall i | 0 <= i < |terms|
      ensures StageScale(terms[i], step).Bound() > 0
    {
      if Moves(terms[i]) && terms[i].scale.Static? {
        ExactQuotient(step, terms[i].scale.s);
      }
    }
  }

  /** `Compaction::new`: every physical axis compacted in turn. */
  method Compact(axes: seq<AxisMap>) returns (steps: seq<nat>, extents: seq<nat>, physical: seq<AxisMap>)
    requires forall i :: 0 <= i < |axes| ==> Legal(axes[i].terms) && axes[i].divisor.Bound() > 0
    ensures |steps| == |extents| == |physical| == |axes|
    ensures forall i :: 0 <= i < |axes| ==>
      && StagedAxis(steps[i], extents[i], physical[i]) == CompactAxis(axes[i])
      && MapsSameTile(axes[i].terms, physical[i])
      && Stages(axes[i], steps[i], extents[i], physical[i])
  {
    hide Stages, MapsSameTile;
    steps, extents, physical := [], [], [];
    for i := 0 to |axes|
      invariant |steps| == |extents| == |physical| == i
      invariant forall k :: 0 <= k < i ==> StagedAxis(steps[k], extents[k], physical[k]) == CompactAxis(axes[k])
    {
      var stage := Over(axes[i].terms, axes[i].divisor);
      OverIsLegal(axes[i].terms, axes[i].divisor);
      if stage.divisor != StaticDivisor(1) {
        extents := extents + [1 + DivCeil(Field(stage.terms), stage.divisor.Bound())];
        steps := steps + [1];
        physical := physical + [stage];
      } else {
        var step := Step(stage.terms);
        extents := extents + [1 + Field(StageTerms(stage.terms, step))];
        steps := steps + [step];
        physical := physical + [AxisMap(StageTerms(stage.terms, step), StaticDivisor(1))];
      }
    }
    forall i | 0 <= i < |axes|
      ensures MapsSameTile(axes[i].terms, physical[i]) && Stages(axes[i], steps[i], extents[i], physical[i])
    {
      CompactAxisIsLegal(axes[i]);
      CompactAxisStages(axes[i]);
    }
  }

  lemma OverIsLegal(terms: seq<Term>, divisor: Divisor)
    requires Legal(terms) && divisor.Bound() > 0
    ensures Legal(Over(terms, divisor).terms) && Over(terms, divisor).divisor.Bound() > 0
  {
    if Over(terms, divisor) != AxisMap(terms, divisor) {
      OverDivides(terms, divisor.d, FoldGcd(terms, 0, false).g);
      DividedIsLegal(terms, divisor.d);
    }
  }

  // ---- minimality of a compacted axis --------------------------------------------------------------

  /** An evenly spaced box from the window's origin on holds every source cell the tile reads. */
  ghost predicate SourceBoxHolds(source: AxisMap, d: nat, offset: int, g: nat, cells: nat)
    requires d > 0
  {
    forall a: seq<nat>, v: seq<nat> :: InTile(a, source.terms) && Launchable(v, source.terms) ==>
      Reached(SourceCell(a, v, offset, d) - offset / d, g, cells)
  }

  ghost predicate Reached(cell: int, g: nat, cells: nat) {
    exists q: nat :: q < cells && cell == g * q
  }

  /** Where the divisor goes away, no evenly spaced box is smaller than the extent the axis is given. */
  lemma CompactedAxisIsMinimal(source: AxisMap, d: nat, offset: int, g: nat, cells: nat)
    requires Legal(source.terms) && source.divisor.Bound() > 0 && source.divisor.Admits(d)
    requires Over(source.terms, source.divisor).divisor == StaticDivisor(1)
    requires SourceBoxHolds(source, d, offset, g, cells)
    ensures cells >= CompactAxis(source).extent
  {
    hide Field, Reach, Step;
    var stage := Over(source.terms, source.divisor);
    OverIsLegal(source.terms, source.divisor);
    forall a: seq<nat>, w: seq<nat> | InTile(a, stage.terms) && Launchable(w, stage.terms)
      ensures InBox(Reach(a, w), g, cells)
    {
      if source.divisor == StaticDivisor(1) && stage.terms == source.terms {
        assert Reached(SourceCell(a, w, offset, d) - offset / d, g, cells);
      } else {
        OverDivides(source.terms, d, FoldGcd(source.terms, 0, false).g);
        var v := Bounds(source.terms);
        assert InTile(a, source.terms) && Launchable(v, source.terms);
        assert LaunchOf(stage.terms, v) == w;
        DividedReach(source.terms, d, a, v);
        ExactFloor(Reach(a, w), offset, d);
        assert Reached(SourceCell(a, v, offset, d) - offset / d, g, cells);
      }
    }
    CompactionIsMinimal(stage.terms, g, cells);
  }

  /** A box holds the window of a rational axis at every phase and under every divisor a launch may pass. */
  ghost predicate RationalBoxHolds(source: AxisMap, g: nat, cells: nat) {
    forall a: seq<nat>, v: seq<nat>, d: nat, residue: nat ::
      InTile(a, source.terms) && Launchable(v, source.terms) && source.divisor.Admits(d) && residue < d ==>
      Reached(SourceCell(a, v, residue, d), g, cells)
  }

  /** When the conservative box of a rational axis is the smallest: unless the divisor properly divides the moving step. */
  predicate RationalBoxIsTight(source: AxisMap) {
    match source.divisor
    case DynamicDivisor(_) => true
    case StaticDivisor(d) => d == 0 || Step(source.terms) % d != 0 || Step(source.terms) == d
  }

  lemma RationalBoxIsMinimalIff(source: AxisMap)
    requires Legal(source.terms) && source.divisor.Bound() > 0
    requires Over(source.terms, source.divisor).divisor != StaticDivisor(1)
    ensures (forall g: nat, cells: nat :: RationalBoxHolds(source, g, cells) ==> cells >= CompactAxis(source).extent)
       <==> RationalBoxIsTight(source)
  {
    hide RationalBoxHolds, CompactAxis, Step, RationalBoxIsTight;
    if RationalBoxIsTight(source) {
      forall g: nat, cells: nat | RationalBoxHolds(source, g, cells)
        ensures cells >= CompactAxis(source).extent
      {
        TightBoxIsMinimal(source, g, cells);
      }
    } else {
      var g, cells := LooseBox(source);
    }
  }

  lemma ReadAt(source: AxisMap, g: nat, cells: nat, a: seq<nat>, v: seq<nat>, d: nat, residue: nat)
    requires RationalBoxHolds(source, g, cells)
    requires InTile(a, source.terms) && Launchable(v, source.terms) && source.divisor.Admits(d) && residue < d
    ensures Reached((Reach(a, v) + residue) / d, g, cells)
  {
    hide Reach, Reached;
    assert Reached(SourceCell(a, v, residue, d), g, cells);
  }

  /** The unit position along a moving term, read at a phase. */
  lemma UnitRead(source: AxisMap, g: nat, cells: nat, i: nat, v: nat, d: nat, residue: nat)
    requires Legal(source.terms) && RationalBoxHolds(source, g, cells)
    requires i < |source.terms| && Moves(source.terms[i]) && source.terms[i].scale.Admits(v)
    requires source.divisor.Admits(d) && residue < d
    ensures Reached((v + residue) / d, g, cells)
  {
    hide RationalBoxHolds;
    var a, values := UnitPosition(|source.terms|, i), Bounds(source.terms)[i := v];
    ReachOfUnit(|source.terms|, i, values);
    ReadAt(source, g, cells, a, values, d, residue);
  }

  lemma Consecutive(v: nat, d: nat)
    requires d > 0 && v % d != 0
    ensures (v + (d - 1)) / d == v / d + 1
  {
    Distribute(d, v / d, 1);
    DivModUnique(v + (d - 1), d, v / d + 1, v % d - 1);
  }

  lemma StepOfNeighbours(k: int, g: nat, cells: nat)
    requires Reached(k, g, cells) && Reached(k + 1, g, cells)
    ensures g == 1
  {
    var p: nat :| p < cells && k == g * p;
    var q: nat :| q < cells && k + 1 == g * q;
    Distribute(g, q, 0 - p);
    assert g * (q - p) == 1;
    if g != 1 {
      if q - p >= 1 {
        Monotone(1, q - p, g);
      } else {
        Monotone(q - p, 0, g);
      }
      assert false;
    }
  }

  /** A moving coefficient some launch does not divide reads two neighbouring cells, one phase apart. */
  lemma UndividedStep(source: AxisMap, g: nat, cells: nat, i: nat, v: nat, d: nat)
    requires Legal(source.terms) && RationalBoxHolds(source, g, cells)
    requires i < |source.terms| && Moves(source.terms[i]) && source.terms[i].scale.Admits(v)
    requires source.divisor.Admits(d) && d > 0 && v % d != 0
    ensures g == 1
  {
    hide RationalBoxHolds;
    UnitRead(source, g, cells, i, v, d, 0);
    UnitRead(source, g, cells, i, v, d, d - 1);
    Consecutive(v, d);
    StepOfNeighbours(v / d, g, cells);
  }

  /** A divisor of every moving coefficient divides their step. */
  lemma DividesStep(terms: seq<Term>, h: nat)
    requires Legal(terms) && exists i :: 0 <= i < |terms| && Moves(terms[i])
    requires forall i :: 0 <= i < |terms| && Moves(terms[i]) ==> terms[i].scale.Static? && Divides(h, terms[i].scale.s)
    ensures Divides(h, Step(terms))
  {
    match FoldGcd(terms, 0, true)
    case None =>
      FoldNone(terms, 0);
    case Some(common) =>
      assert 0 == h * 0;
      FoldIsGreatest(terms, 0, h);
      FoldDivides(terms, 0, true);
      var i :| 0 <= i < |terms| && Moves(terms[i]);
      DivisorBound(common, terms[i].scale.s);
  }

  lemma DividesRem(g: nat, a: nat)
    requires g > 0
    ensures Divides(g, a) <==> a % g == 0
  {
    if a % g == 0 {
      assert a == g * (a / g);
    } else if q: nat :| a == g * q {
      ModOfMultiple(g, q);
      assert false;
    }
  }

  /** The corner of the tile at the last phase reads the last cell of the box. */
  lemma LastCellRead(source: AxisMap, g: nat, cells: nat)
    requires Legal(source.terms) && source.divisor.Bound() > 0 && RationalBoxHolds(source, g, cells)
    ensures Reached(DivCeil(Field(source.terms), source.divisor.Bound()), g, cells)
  {
    hide RationalBoxHolds, Field;
    var d, n := source.divisor.Bound(), Field(source.terms);
    ReachOfCorner(source.terms);
    ReadAt(source, g, cells, Corner(source.terms), Bounds(source.terms), d, d - 1);
    LastPhase(n, d);
  }

  lemma LastPhase(n: nat, d: nat)
    requires d > 0
    ensures (n + (d - 1)) / d == DivCeil(n, d)
  {
    if n % d == 0 {
      DivModUnique(n + (d - 1), d, n / d, d - 1);
    } else {
      Consecutive(n, d);
    }
  }

  /** A box of step one that holds the window has room for its last cell. */
  lemma TightBoxIsMinimal(source: AxisMap, g: nat, cells: nat)
    requires Legal(source.terms) && source.divisor.Bound() > 0 && RationalBoxHolds(source, g, cells)
    requires Over(source.terms, source.divisor).divisor != StaticDivisor(1) && RationalBoxIsTight(source)
    ensures cells >= CompactAxis(source).extent
  {
    hide RationalBoxHolds, Step, Field, RationalBoxIsTight;
    var top := DivCeil(Field(source.terms), source.divisor.Bound());
    LastCellRead(source, g, cells);
    var q: nat :| q < cells && top == g * q;
    if i :| 0 <= i < |source.terms| && Moves(source.terms[i]) {
      TightStepIsOne(source, g, cells, i);
    } else {
      StillField(source.terms);
    }
  }

  lemma TightStepIsOne(source: AxisMap, g: nat, cells: nat, i: nat)
    requires Legal(source.terms) && source.divisor.Bound() > 0 && RationalBoxHolds(source, g, cells)
    requires Over(source.terms, source.divisor).divisor != StaticDivisor(1) && RationalBoxIsTight(source)
    requires i < |source.terms| && Moves(source.terms[i])
    ensures g == 1
  {
    hide RationalBoxHolds, Step, Field, Over;
    var v := source.terms[i].scale.Bound();
    match source.divisor
    case DynamicDivisor(least) =>
      var d := v + least;
      DivModUnique(v, d, 0, v);
      UndividedStep(source, g, cells, i, v, d);
    case StaticDivisor(d) =>
      if d == 1 {
        UnitDivisorReduces(source.terms);
        assert false;
      }
      if k :| 0 <= k < |source.terms| && Moves(source.terms[k]) && source.terms[k].scale.Dynamic? {
        DivModUnique(1, d, 0, 1);
        UndividedStep(source, g, cells, k, 1, d);
      } else if k :| 0 <= k < |source.terms| && Moves(source.terms[k]) && source.terms[k].scale.s % d != 0 {
        UndividedStep(source, g, cells, k, source.terms[k].scale.s, d);
      } else {
        DividedStepIsOne(source, g, cells, d, i);
      }
  }

  /** A divisor of one is always divided out, or leaves itself behind. */
  lemma UnitDivisorReduces(terms: seq<Term>)
    ensures Over(terms, StaticDivisor(1)).divisor == StaticDivisor(1)
  {}

  /** Where the divisor is the moving step itself, the quotients share no step. */
  lemma DividedStepIsOne(source: AxisMap, g: nat, cells: nat, d: nat, i: nat)
    requires Legal(source.terms) && RationalBoxHolds(source, g, cells)
    requires source.divisor == StaticDivisor(d) && d > 1 && RationalBoxIsTight(source)
    requires i < |source.terms| && Moves(source.terms[i])
    requires forall k :: 0 <= k < |source.terms| && Moves(source.terms[k]) ==>
      source.terms[k].scale.Static? && source.terms[k].scale.s % d == 0
    ensures g == 1
  {
    hide RationalBoxHolds, Step, Field;
    forall k | 0 <= k < |source.terms| && Moves(source.terms[k])
      ensures Divides(d, source.terms[k].scale.s) && Divides(d * g, source.terms[k].scale.s)
    {
      var s := source.terms[k].scale.s;
      DividesRem(d, s);
      ExactQuotient(d, s);
      UnitRead(source, g, cells, k, s, d, 0);
      var q: nat :| q < cells && s / d == g * q;
      Associate(d, g, q);
      assert s == (d * g) * q;
    }
    assert Moves(source.terms[i]);
    DividesStep(source.terms, d);
    DividesStep(source.terms, d * g);
    DividesRem(d, Step(source.terms));
    assert Step(source.terms) == d;
    var q: nat :| d == (d * g) * q;
    Associate(d, g, q);
    OneFactor(d, g, q);
  }

  lemma OneFactor(d: nat, g: nat, q: nat)
    requires d > 0 && d == d * (g * q)
    ensures g == 1
  {
    var p := g * q;
    Nonnegative(g, q);
    if p == 0 {
      assert false;
    } else if p >= 2 {
      Monotone(2, p, d);
      assert false;
    }
    if g >= 2 {
      Monotone(1, q, g);
    }
  }

  /** Quotienting by the moving step first, every offset lies in a box of the staged terms' extent. */
  lemma ReachedLoosely(terms: seq<Term>, step: nat, d: nat, a: seq<nat>, v: seq<nat>, residue: nat)
    requires Legal(terms) && step > 0 && d > 0 && step % d == 0 && residue < d
    requires InTile(a, terms) && Launchable(v, terms)
    requires forall i :: 0 <= i < |terms| && Moves(terms[i]) ==>
      (terms[i].scale.Static? ==> Divides(step, terms[i].scale.s)) && (terms[i].scale.Dynamic? ==> step == 1)
    ensures step / d >= 0 && Reached(SourceCell(a, v, residue, d), step / d, 1 + Field(StageTerms(terms, step)))
  {
    ReachQuotient(terms, step, a, v);
    hide Reach, Field, Divides, Legal, InTile, Launchable;
    DivBounds(step, d);
    var q := Reach(a, StageValues(terms, step, v));
    PhaseOfMultiple(step, d, q, residue);
    assert SourceCell(a, v, residue, d) == (step / d) * q;
  }

  /** Otherwise quotienting by the moving step first stages fewer cells. */
  lemma LooseBox(source: AxisMap) returns (g: nat, cells: nat)
    requires Legal(source.terms) && source.divisor.Bound() > 0
    requires Over(source.terms, source.divisor).divisor != StaticDivisor(1) && !RationalBoxIsTight(source)
    ensures g == Step(source.terms) / source.divisor.d && cells == 1 + Field(StageTerms(source.terms, Step(source.terms)))
    ensures RationalBoxHolds(source, g, cells) && cells < CompactAxis(source).extent
  {
    hide Step, Field, Reach;
    var d, step := source.divisor.d, Step(source.terms);
    g := step / d;
    var f := Field(StageTerms(source.terms, step));
    cells := 1 + f;
    StepDividesMoving(source.terms);
    StageField(source.terms, step);
    LooseStep(step, d, f);
    forall a: seq<nat>, v: seq<nat>, e: nat, residue: nat {:trigger SourceCell(a, v, residue, e)} |
      InTile(a, source.terms) && Launchable(v, source.terms) && source.divisor.Admits(e) && residue < e
      ensures Reached(SourceCell(a, v, residue, e), g, cells)
    {
      ReachedLoosely(source.terms, step, d, a, v, residue);
    }
    if i :| 0 <= i < |source.terms| && Moves(source.terms[i]) {
      MovingField(StageTerms(source.terms, step), i) by { StageMoves(source.terms, step, i); }
    } else {
      StillStep(source.terms);
      assert false;
    }
  }

  /**
   A stencil of eight outputs four cells apart and a single tap, read over a divisor of two: fifteen cells are staged where
   eight, two apart, hold every read.
   */
  lemma StillTapOverstages()
    ensures
      var source := AxisMap([Term(8, Static(4)), Term(1, Static(1))], StaticDivisor(2));
      && Legal(source.terms) && Over(source.terms, source.divisor).divisor != StaticDivisor(1)
      && CompactAxis(source).extent == 15 && RationalBoxHolds(source, 2, 8)
  {
    var terms := [Term(8, Static(4)), Term(1, Static(1))];
    var source := AxisMap(terms, StaticDivisor(2));
    assert terms[1..] == [Term(1, Static(1))] && terms[1..][1..] == [];
    assert FoldGcd(terms, 0, false) == Some(1) by { SmallGcds(); }
    assert Step(terms) == 4 by { SmallGcds(); }
    var staged := StageTerms(terms, 4);
    assert staged == [Term(8, Static(1)), Term(1, Static(1))] && staged[1..] == [Term(1, Static(1))];
    assert Field(terms) == 28 && Field(staged) == 7;
    var g, cells := LooseBox(source);
  }

  lemma SmallGcds()
    ensures Gcd(0, 4) == 4 && Gcd(4, 1) == 1
  {
    assert Gcd(4, 0) == 4 && Gcd(1, 0) == 1;
  }

  /** A resize has its divisor for the coefficient of its taps, so its box is always the least. */
  lemma ResizeIsTight(outputs: nat, taps: nat, scale: nat, d: nat)
    requires outputs >= 1 && taps >= 1 && scale > 0 && d > 0
    ensures
      var terms := [Term(outputs, Static(scale)), Term(taps, Static(d))];
      && Legal(terms)
      && (Over(terms, StaticDivisor(d)).divisor != StaticDivisor(1) ==> RationalBoxIsTight(AxisMap(terms, StaticDivisor(d))))
  {
    var terms := [Term(outputs, Static(scale)), Term(taps, Static(d))];
    assert Gcd(0, scale) == Gcd(scale, 0) == scale && Gcd(0, d) == Gcd(d, 0) == d;
    FoldTwo(terms[0], terms[1], 0, false);
    FoldTwo(terms[0], terms[1], 0, true);
    ModOfMultiple(d, 1);
    if scale % d == 0 {
      assert Gcd(scale, d) == Gcd(d, 0) == d;
      hide Gcd, FoldGcd, Divided;
    } else {
      GcdIsNoMultiple(scale, d);
      hide Gcd, FoldGcd, Divided;
      StepNotMultiple(terms, scale, d);
    }
  }

  lemma StepNotMultiple(terms: seq<Term>, scale: nat, d: nat)
    requires d > 0 && scale % d != 0 && Gcd(scale, d) > 0 && Gcd(scale, d) % d != 0
    requires FoldGcd(terms, 0, true).Some? && FoldGcd(terms, 0, true).g in {0, scale, d, Gcd(scale, d)}
    ensures Step(terms) % d != 0 || Step(terms) == d
  {
    hide Gcd, FoldGcd;
  }

  /** The coefficient a fold takes in, if it counts. */
  function Folded(g: nat, t: Term, onlyMoving: bool): nat {
    if onlyMoving && !Moves(t) then g else Gcd(g, t.scale.Bound())
  }

  lemma FoldTwo(a: Term, b: Term, g: nat, onlyMoving: bool)
    requires a.scale.Static? && b.scale.Static?
    ensures FoldGcd([a, b], g, onlyMoving) == Some(Folded(Folded(g, a, onlyMoving), b, onlyMoving))
  {
    assert [a, b][1..] == [b] && [b][1..] == [];
    hide Gcd;
    assert FoldGcd([b], Folded(g, a, onlyMoving), onlyMoving) == Some(Folded(Folded(g, a, onlyMoving), b, onlyMoving));
  }

  lemma GcdIsNoMultiple(a: nat, b: nat)
    requires b > 0 && a % b != 0
    ensures Gcd(a, b) > 0 && Gcd(a, b) % b != 0
  {
    GcdDivides(a, b);
    hide Gcd;
    NoMultipleDivides(Gcd(a, b), a, b);
  }

  lemma NoMultipleDivides(g: nat, a: nat, b: nat)
    requires b > 0 && a % b != 0 && Divides(g, a)
    ensures g > 0 && g % b != 0
  {
    var q: nat :| a == g * q;
    if g % b == 0 {
      MultipleOfMultiple(a, g, b, g / b, q);
      assert false;
    }
  }

  lemma MultipleOfMultiple(a: int, g: int, b: nat, p: int, q: int)
    requires b > 0 && g == b * p && a == g * q
    ensures a % b == 0
  {
    Associate(b, p, q);
    ModOfMultiple(b, p * q);
  }

  lemma LooseStep(step: nat, d: nat, f: nat)
    requires d > 0 && step % d == 0 && step > d
    ensures step / d >= 2 && DivCeil(step * f, d) == (step / d) * f
    ensures f > 0 ==> (step / d) * f > f
  {
    hide DivCeil;
    var g := ProperMultiple(step, d);
    WholeCeiling(d, g, f);
    Monotone(2, g, f);
  }

  lemma ProperMultiple(step: nat, d: nat) returns (g: nat)
    requires d > 0 && step % d == 0 && step > d
    ensures g == step / d >= 2 && step == d * g
  {
    g := step / d;
    if g < 2 {
      Monotone(g, 1, d);
      assert false;
    }
  }

  lemma WholeCeiling(d: nat, g: nat, f: nat)
    requires d > 0
    ensures (d * g) * f >= 0 && DivCeil((d * g) * f, d) == g * f
  {
    Associate(d, g, f);
    Nonnegative(g, f);
    ModOfMultiple(d, g * f);
  }

  lemma PhaseOfMultiple(step: nat, d: nat, q: nat, residue: nat)
    requires d > 0 && step % d == 0 && residue < d
    ensures (step * q + residue) / d == (step / d) * q
  {
    var g := step / d;
    Associate(d, g, q);
    DivModUnique(step * q + residue, d, g * q, residue);
  }

  lemma {:induction false} MovingField(terms: seq<Term>, i: nat)
    requires Legal(terms) && i < |terms| && Moves(terms[i])
    ensures Field(terms) > 0
  {
    Nonnegative(terms[0].extent - 1, terms[0].scale.Bound());
    if i == 0 {
      Monotone(1, terms[0].extent - 1, terms[0].scale.Bound());
    } else {
      MovingField(terms[1..], i - 1);
    }
  }

  lemma StageMoves(terms: seq<Term>, step: nat, i: nat)
    requires Legal(terms) && step > 0 && i < |terms| && Moves(terms[i])
    requires forall i :: 0 <= i < |terms| && Moves(terms[i]) ==>
      (terms[i].scale.Static? ==> Divides(step, terms[i].scale.s)) && (terms[i].scale.Dynamic? ==> step == 1)
    ensures Legal(StageTerms(terms, step)) && Moves(StageTerms(terms, step)[i])
  {
    StageIsLegal(terms, step);
  }

  lemma {:induction false} StillFold(terms: seq<Term>, g: nat)
    requires forall i :: 0 <= i < |terms| ==> !Moves(terms[i])
    ensures FoldGcd(terms, g, true) == Some(g)
  {
    if terms != [] {
      StillFold(terms[1..], g);
    }
  }

  lemma StillStep(terms: seq<Term>)
    requires forall i :: 0 <= i < |terms| ==> !Moves(terms[i])
    ensures Step(terms) == 1
  {
    StillFold(terms, 0);
  }
}

/** `fft_butterfly_parallel`: the in-place stages in shared memory, under every interleaving of the units. */
module FftParallel {
  import opened ButterflyStages
  import opened ComplexNumbers
  import opened PowersOfTwo
  import opened UnitSchedule

  /** The pair of float buffers that holds a complex window. */
  function Window(re: array<real>, im: array<real>): (y: seq<Complex>)
    requires re.Length == im.Length
    reads re, im
    ensures |y| == re.Length
    ensures forall p :: 0 <= p < |y| ==> y[p] == Complex(re[p], im[p])
  {
    seq(re.Length, p requires 0 <= p < re.Length reads re, im => Complex(re[p], im[p]))
  }

  // ---- one butterfly, access by access ----------------------------------------------------------

  /** The accesses of a butterfly in program order: four loads, then four stores, each of one float. */
  const ACCESSES := 8
  const LOADS := 4

  /** What a unit has read of its current butterfly, and the access it takes next. */
  datatype Registers = Registers(step: nat, loaded: seq<real>)

  /** The float an access touches: real or imaginary part, of the top or the bottom cell. */
  function CellOfStep(b: nat, half: nat, step: nat): nat
    requires half > 0
  {
    if step / 2 % 2 == 0 then Top(b, half) else Bottom(b, half)
  }

  function Part(c: Complex, step: nat): real {
    if step % 2 == 0 then c.re else c.im
  }

  function WithPart(c: Complex, step: nat, v: real): Complex {
    if step % 2 == 0 then c.(re := v) else c.(im := v)
  }

  /** The access that stores the real part (part 0) or the imaginary part (part 1) of cell p. */
  function StoreOf(p: nat, half: nat, part: nat): nat
    requires half > 0
  {
    LOADS + (if IsTop(p, half) then 0 else 2) + part
  }

  /** What the butterfly computes from its four floats for its store `step`. */
  function Combined(loaded: seq<real>, w: Complex, n: nat, half: nat, b: nat, step: nat): real
    requires |loaded| == LOADS && half > 0
  {
    var a := Complex(loaded[0], loaded[1]);
    var t := Mul(Twiddle(w, n, b % half, 2 * half), Complex(loaded[2], loaded[3]));
    Part(if step / 2 % 2 == 0 then Add(a, t) else Sub(a, t), step)
  }

  /** Access `step` of butterfly b is still to come. */
  predicate Pending(next: seq<nat>, regs: seq<Registers>, b: nat, step: nat)
    requires |next| == |regs| > 0
  {
    !Done(next, b) && (next[b % |next|] == b ==> step >= regs[b % |next|].step)
  }

  /** A part of cell p has received its new value. */
  predicate Stored(next: seq<nat>, regs: seq<Registers>, half: nat, p: nat, part: nat)
    requires half > 0 && |next| == |regs| > 0
  {
    !Pending(next, regs, Owner(p, half), StoreOf(p, half, part))
  }

  /** A unit's registers hold its butterfly's floats as they were at the barrier. */
  predicate Loaded(r: Registers, y: seq<Complex>, half: nat, b: nat)
    requires half > 0
  {
    && r.step < ACCESSES && |r.loaded| == (if r.step < LOADS then r.step else LOADS)
    && (r.step > 0 ==> Bottom(b, half) < |y|)
    && forall i: nat :: i < |r.loaded| ==> CellOfStep(b, half, i) < |y| && r.loaded[i] == Part(y[CellOfStep(b, half, i)], i)
  }

  /** Between two accesses of a stage: `y` is the window at the last barrier, `now` the window at this moment. */
  ghost predicate MidStage(y: seq<Complex>, now: seq<Complex>, w: Complex, bits: nat, s: nat,
                           next: seq<nat>, regs: seq<Registers>, todo: set<(nat, nat)>)
  {
    && s < bits && |y| == |now| == Exp2(bits)
    && |regs| == |next| && Strided(next, |next|)
    && (forall p :: 0 <= p < |now| ==>
         && now[p].re == (if Stored(next, regs, Exp2(s), p, 0) then StageCell(y, w, bits, s, p) else y[p]).re
         && now[p].im == (if Stored(next, regs, Exp2(s), p, 1) then StageCell(y, w, bits, s, p) else y[p]).im)
    && (forall u :: 0 <= u < |next| ==> Loaded(regs[u], y, Exp2(s), next[u]))
    && (forall b: nat, step: nat :: b < |y| / 2 && step < ACCESSES && Pending(next, regs, b, step) ==> (b, step) in todo)
  }

  function IdleRegisters(units: nat): (regs: seq<Registers>)
    ensures |regs| == units && forall u :: 0 <= u < units ==> regs[u] == Registers(0, [])
  {
    seq(units, _ => Registers(0, []))
  }

  lemma StageStart(y: seq<Complex>, w: Complex, bits: nat, s: nat, units: nat)
    returns (todo: set<(nat, nat)>)
    requires s < bits && |y| == Exp2(bits) && units > 0
    ensures MidStage(y, y, w, bits, s, Start(units), IdleRegisters(units), todo)
  {
    hide StageCell, Owner, IsTop;
    StartIsStrided(units);
    todo := set b, step | b in Items(|y| / 2) && step in Items(ACCESSES) :: (b, step);
  }

  /** An access inside a butterfly settles exactly that access. */
  lemma StepSettles(next: seq<nat>, regs: seq<Registers>, u: nat, r: Registers)
    requires |regs| == |next| && Strided(next, |next|) && u < |next|
    requires r.step == regs[u].step + 1
    ensures Pending(next, regs, next[u], regs[u].step)
    ensures forall b: nat, step: nat ::
      Pending(next, regs[u := r], b, step) <==> Pending(next, regs, b, step) && (b, step) != (next[u], regs[u].step)
  {
    assert next[u] % |next| == u;
  }

  /** The last access of a butterfly settles it and moves the unit on. */
  lemma LastStepSettles(next: seq<nat>, regs: seq<Registers>, u: nat, r: Registers)
    requires |regs| == |next| && Strided(next, |next|) && u < |next|
    requires regs[u].step == ACCESSES - 1 && r.step == 0
    ensures Strided(next[u := next[u] + |next|], |next|)
    ensures Pending(next, regs, next[u], ACCESSES - 1)
    ensures forall b: nat, step: nat :: step < ACCESSES ==>
      (Pending(next[u := next[u] + |next|], regs[u := r], b, step)
       <==> Pending(next, regs, b, step) && (b, step) != (next[u], ACCESSES - 1))
  {
    Turn(next, |next|, u);
    assert next[u] % |next| == u;
  }

  /** The stores of an unfinished butterfly are pending, and its two cells are its own. */
  lemma OwnCells(next: seq<nat>, regs: seq<Registers>, u: nat, half: nat, step: nat)
    requires |regs| == |next| && Strided(next, |next|) && u < |next| && half > 0
    ensures forall later: nat :: regs[u].step <= later ==> Pending(next, regs, next[u], later)
    ensures
      var p := CellOfStep(next[u], half, step);
      Owner(p, half) == next[u] && (IsTop(p, half) <==> step / 2 % 2 == 0)
  {
    assert next[u] % |next| == u;
    CellsOfOwner(next[u], half);
  }

  lemma StoreOfStep(step: nat)
    requires LOADS <= step < ACCESSES
    ensures LOADS + (if step / 2 % 2 == 0 then 0 else 2) + step % 2 == step
  {}

  /** Whatever the other units have stored since the barrier, a load reads the float as it was at the barrier. */
  lemma LoadedFresh(y: seq<Complex>, now: seq<Complex>, w: Complex, bits: nat, s: nat,
                    next: seq<nat>, regs: seq<Registers>, todo: set<(nat, nat)>, u: nat)
    requires MidStage(y, now, w, bits, s, next, regs, todo)
    requires u < |next| && next[u] < |y| / 2 && regs[u].step < LOADS
    ensures
      var p := CellOfStep(next[u], Exp2(s), regs[u].step);
      p < |y| && Part(now[p], regs[u].step) == Part(y[p], regs[u].step)
  {
    hide StageCell, Owner, IsTop, Top, Bottom, CellOfStep, Pending, Done, Strided, Loaded;
    var step, half := regs[u].step, Exp2(s);
    var p := CellOfStep(next[u], half, step);
    CellInWindow(next[u], bits, s, step);
    OwnCells(next, regs, u, half, step);
    assert !Stored(next, regs, half, p, 0) && !Stored(next, regs, half, p, 1);
  }

  lemma CellInWindow(b: nat, bits: nat, s: nat, step: nat)
    requires s < bits && b < Exp2(bits) / 2
    ensures CellOfStep(b, Exp2(s), step) < Exp2(bits) && Bottom(b, Exp2(s)) < Exp2(bits)
  {
    hide Top;
    ButterflyIndices(b, bits, s);
  }

  lemma LoadKeeps(y: seq<Complex>, now: seq<Complex>, w: Complex, bits: nat, s: nat,
                  next: seq<nat>, regs: seq<Registers>, todo: set<(nat, nat)>, u: nat, r: Registers)
    requires MidStage(y, now, w, bits, s, next, regs, todo)
    requires u < |next| && next[u] < |y| / 2 && regs[u].step < LOADS
    requires
      var step := regs[u].step;
      var p := CellOfStep(next[u], Exp2(s), step);
      p < |now| && r == Registers(step + 1, regs[u].loaded + [Part(now[p], step)])
    ensures MidStage(y, now, w, bits, s, next, regs[u := r], todo - {(next[u], regs[u].step)})
  {
    hide StageCell, Owner, IsTop, Top, Bottom, CellOfStep, Pending, Done, Strided, Part;
    StepSettles(next, regs, u, r);
    LoadedFresh(y, now, w, bits, s, next, regs, todo, u);
    CellInWindow(next[u], bits, s, 0);
    var step := regs[u].step;
    assert Loaded(regs[u], y, Exp2(s), next[u]);
    forall i: nat | i < |r.loaded|
      ensures CellOfStep(next[u], Exp2(s), i) < |y| && r.loaded[i] == Part(y[CellOfStep(next[u], Exp2(s), i)], i)
    {
      assert i < step ==> r.loaded[i] == regs[u].loaded[i];
    }
    forall p, part: nat | 0 <= p < |now| && part < 2
      ensures Stored(next, regs[u := r], Exp2(s), p, part) <==> Stored(next, regs, Exp2(s), p, part)
    {
      assert StoreOf(p, Exp2(s), part) >= LOADS;
    }
  }

  /** What a butterfly computes from the floats of the barrier is the stage's value for its cell. */
  lemma CombinedIsStage(y: seq<Complex>, loaded: seq<real>, w: Complex, bits: nat, s: nat, b: nat, step: nat)
    requires s < bits && |y| == Exp2(bits) && b < |y| / 2 && |loaded| == LOADS
    requires forall i: nat :: i < LOADS ==>
      CellOfStep(b, Exp2(s), i) < |y| && loaded[i] == Part(y[CellOfStep(b, Exp2(s), i)], i)
    ensures
      var p := CellOfStep(b, Exp2(s), step);
      p < |y| && Combined(loaded, w, |y|, Exp2(s), b, step) == Part(StageCell(y, w, bits, s, p), step)
  {
    hide Mul, Add, Sub, Twiddle, Top, Owner, IsTop;
    var half := Exp2(s);
    CellInWindow(b, bits, s, step);
    CellsOfOwner(b, half);
    assert loaded[0] == Part(y[CellOfStep(b, half, 0)], 0) && loaded[1] == Part(y[CellOfStep(b, half, 1)], 1);
    assert loaded[2] == Part(y[CellOfStep(b, half, 2)], 2) && loaded[3] == Part(y[CellOfStep(b, half, 3)], 3);
    assert Complex(loaded[0], loaded[1]) == y[Top(b, half)];
    assert Complex(loaded[2], loaded[3]) == y[Bottom(b, half)];
  }

  /** A store completes one part of one cell and disturbs no other. */
  lemma StoreKeeps(y: seq<Complex>, now: seq<Complex>, w: Complex, bits: nat, s: nat,
                   next: seq<nat>, regs: seq<Registers>, todo: set<(nat, nat)>, u: nat, p: nat, v: real,
                   next': seq<nat>, r: Registers)
    requires MidStage(y, now, w, bits, s, next, regs, todo)
    requires u < |next| && next[u] < |y| / 2 && LOADS <= regs[u].step
    requires p == CellOfStep(next[u], Exp2(s), regs[u].step) < |now|
    requires v == Part(StageCell(y, w, bits, s, p), regs[u].step)
    requires regs[u].step < ACCESSES - 1 ==> next' == next && r == regs[u].(step := regs[u].step + 1)
    requires regs[u].step == ACCESSES - 1 ==> next' == next[u := next[u] + |next|] && r == Registers(0, [])
    ensures MidStage(y, now[p := WithPart(now[p], regs[u].step, v)], w, bits, s,
                     next', regs[u := r], todo - {(next[u], regs[u].step)})
  {
    hide StageCell, Owner, IsTop, Top, Bottom, CellOfStep, Pending, Done, Strided;
    var half, step := Exp2(s), regs[u].step;
    assert Loaded(regs[u], y, half, next[u]);
    if step < ACCESSES - 1 {
      StepSettles(next, regs, u, r);
    } else {
      LastStepSettles(next, regs, u, r);
    }
    OwnCells(next, regs, u, half, step);
    StoreOfStep(step);
    forall q: nat, part: nat | q < |now| && part < 2
      ensures Stored(next', regs[u := r], half, q, part) <==> Stored(next, regs, half, q, part) || (q == p && part == step % 2)
    {
      if Owner(q, half) == next[u] && StoreOf(q, half, part) == step {
        OneCellPerStore(next[u], half, step, q);
      }
    }
  }

  lemma OneCellPerStore(b: nat, half: nat, step: nat, q: nat)
    requires half > 0 && Owner(q, half) == b && (IsTop(q, half) <==> step / 2 % 2 == 0)
    ensures q == CellOfStep(b, half, step)
  {
    hide Owner, IsTop, Top, Bottom;
    OwnerOfCell(q, half);
  }

  /** Once every unit waits at the barrier, the window is the next stage. */
  lemma StageEnd(y: seq<Complex>, now: seq<Complex>, w: Complex, bits: nat, s: nat,
                 next: seq<nat>, regs: seq<Registers>, todo: set<(nat, nat)>)
    requires MidStage(y, now, w, bits, s, next, regs, todo)
    requires forall u :: 0 <= u < |next| ==> next[u] >= |y| / 2
    ensures now == Stage(y, w, bits, s)
  {
    hide StageCell, Owner, IsTop;
    Barrier(next, |next|, |y| / 2);
    forall p | 0 <= p < |y|
      ensures now[p] == StageCell(y, w, bits, s, p)
    {
      StageCellsInWindow(bits, s, p);
      assert Stored(next, regs, Exp2(s), p, 0) && Stored(next, regs, Exp2(s), p, 1);
    }
  }

  /** One load of a float. */
  method LoadPart(re: array<real>, im: array<real>, i: nat, step: nat) returns (v: real)
    requires re.Length == im.Length && i < re.Length
    ensures v == Part(Window(re, im)[i], step)
  {
    return if step % 2 == 0 then re[i] else im[i];
  }

  /** One store of a float. */
  method StorePart(re: array<real>, im: array<real>, i: nat, step: nat, v: real)
    requires re != im && re.Length == im.Length && i < re.Length
    modifies re, im
    ensures Window(re, im) == old(Window(re, im))[i := WithPart(old(Window(re, im))[i], step, v)]
  {
    if step % 2 == 0 {
      re[i] := v;
    } else {
      im[i] := v;
    }
  }

  /**
   One stage between two barriers. Each unit repeats the eight accesses of a butterfly, one float at a time; the loop lets
   any unit that is short of the barrier take its next access, so the result holds under every interleaving.
   */
  method ButterflyStage(re: array<real>, im: array<real>, w: Complex, bits: nat, s: nat, units: nat)
    requires re != im && re.Length == im.Length == Exp2(bits)
    requires s < bits && units > 0
    modifies re, im
    ensures Window(re, im) == Stage(old(Window(re, im)), w, bits, s)
  {
    hide MidStage, Stage, Strided, Combined, StageCell, Exp2, WithPart, Part, CellOfStep;
    var numButterflies := re.Length / 2;
    var half := Exp2(s);
    var m := 2 * half;
    ghost var y := Window(re, im);

    var next: seq<nat> := Start(units);
    var regs := IdleRegisters(units);
    ghost var todo := StageStart(y, w, bits, s, units);

    while exists u :: 0 <= u < units && next[u] < numButterflies
      invariant |next| == |regs| == units
      invariant MidStage(y, Window(re, im), w, bits, s, next, regs, todo)
      decreases todo
    {
      var u :| 0 <= u < units && next[u] < numButterflies;
      ghost var now := Window(re, im);
      var b, step := next[u], regs[u].step;
      var group := b / half;
      var j := b - group * half;
      var i0 := group * m + j;
      var i1 := i0 + half;
      Unit(y, now, w, bits, s, next, regs, todo, u);
      var i := if step / 2 % 2 == 0 then i0 else i1;
      if step < LOADS {
        var float := LoadPart(re, im, i, step);
        var r := Registers(step + 1, regs[u].loaded + [float]);
        LoadKeeps(y, now, w, bits, s, next, regs, todo, u, r);
        regs := regs[u := r];
      } else {
        var v := Combined(regs[u].loaded, w, re.Length, half, b, step);
        CombinedIsStage(y, regs[u].loaded, w, bits, s, b, step);
        var r, next' := regs[u].(step := step + 1), next;
        if step == ACCESSES - 1 {
          r, next' := Registers(0, []), next[u := b + units];
        }
        StoreKeeps(y, now, w, bits, s, next, regs, todo, u, i, v, next', r);
        StorePart(re, im, i, step, v);
        regs, next := regs[u := r], next';
      }
      todo := todo - {(b, step)};
    }
    StageEnd(y, Window(re, im), w, bits, s, next, regs, todo);
  }

  /** What the invariant says of the unit that moves. */
  lemma Unit(y: seq<Complex>, now: seq<Complex>, w: Complex, bits: nat, s: nat,
             next: seq<nat>, regs: seq<Registers>, todo: set<(nat, nat)>, u: nat)
    requires MidStage(y, now, w, bits, s, next, regs, todo) && u < |next| && next[u] < |y| / 2
    ensures
      var b, half := next[u], Exp2(s);
      var j := b - b / half * half;
      && CellOfStep(b, half, 0) == b / half * (2 * half) + j && CellOfStep(b, half, 2) == CellOfStep(b, half, 0) + half < |y|
      && (forall step: nat :: CellOfStep(b, half, step) == CellOfStep(b, half, if step / 2 % 2 == 0 then 0 else 2))
      && Loaded(regs[u], y, half, b)
    ensures (next[u], regs[u].step) in todo
  {
    hide StageCell, Owner, IsTop, Top, Pending, Stored, Loaded;
    ButterflyIndices(next[u], bits, s);
    OwnStepPending(next, regs, u);
    assert Loaded(regs[u], y, Exp2(s), next[u]);
    StepInRange(regs[u], y, Exp2(s), next[u]);
  }

  lemma StepInRange(r: Registers, y: seq<Complex>, half: nat, b: nat)
    requires half > 0 && Loaded(r, y, half, b)
    ensures r.step < ACCESSES
  {}

  lemma OwnStepPending(next: seq<nat>, regs: seq<Registers>, u: nat)
    requires |regs| == |next| && Strided(next, |next|) && u < |next|
    ensures Pending(next, regs, next[u], regs[u].step)
  {
    assert next[u] % |next| == u;
  }

  /** The kernel's own index arithmetic names the two cells of its butterfly, inside the window. */
  lemma ButterflyIndices(b: nat, bits: nat, s: nat)
    requires s < bits && b < Exp2(bits) / 2
    ensures
      var half := Exp2(s);
      var j := b - b / half * half;
      && j == b % half && b / half * (2 * half) + j == Top(b, half)
      && Top(b, half) + half == Bottom(b, half) < Exp2(bits)
  {
    hide Bottom;
    SplitWindow(bits, s);
    CellsInWindow(b, Exp2(s), Exp2(bits - s - 1));
    CellArithmetic(b, Exp2(s));
  }

  lemma CellArithmetic(b: nat, half: nat)
    requires half > 0
    ensures b - b / half * half == b % half
    ensures b / half * (2 * half) + b % half == Top(b, half)
    ensures Bottom(b, half) == Top(b, half) + half
  {}

  /** All stages, with a barrier after each. */
  method FftButterflyParallel(re: array<real>, im: array<real>, w: Complex, bits: nat, units: nat)
    requires re != im && re.Length == im.Length == Exp2(bits)
    requires units > 0
    modifies re, im
    ensures Window(re, im) == Stages(old(Window(re, im)), w, bits, bits)
  {
    hide Stage;
    for s := 0 to bits
      invariant Window(re, im) == Stages(old(Window(re, im)), w, bits, s)
    {
      ButterflyStage(re, im, w, bits, s, units);
    }
  }
}

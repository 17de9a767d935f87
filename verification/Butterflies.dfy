/** The radix-2 stages on a window held as a sequence, and the theorem that they compute the transform. */
module ButterflyStages {
  import opened BitReversal
  import opened ComplexNumbers
  import opened ComplexSums
  import opened Fourier
  import opened IndexArithmetic
  import opened PowersOfTwo

  // ---- which cells a butterfly touches --------------------------------------

  function Top(b: nat, half: nat): nat
    requires half > 0
  {
    (b / half) * (2 * half) + b % half
  }

  function Bottom(b: nat, half: nat): nat
    requires half > 0
  {
    Top(b, half) + half
  }

  predicate IsTop(p: nat, half: nat)
    requires half > 0
  {
    p % (2 * half) < half
  }

  /** The butterfly that owns cell p. */
  function Owner(p: nat, half: nat): nat
    requires half > 0
  {
    (p / (2 * half)) * half + (if IsTop(p, half) then p % (2 * half) else p % (2 * half) - half)
  }

  /** Butterfly b owns its two cells, one as top and one as bottom. */
  lemma CellsOfOwner(b: nat, half: nat)
    requires half > 0
    ensures Owner(Top(b, half), half) == b && IsTop(Top(b, half), half)
    ensures Owner(Bottom(b, half), half) == b && !IsTop(Bottom(b, half), half)
    ensures Top(b, half) % half == Bottom(b, half) % half == b % half
  {
    CellParts(b / half, b % half, half);
  }

  lemma CellParts(q: int, r: nat, half: nat)
    requires r < half
    ensures
      var top := q * (2 * half) + r;
      && top / (2 * half) == (top + half) / (2 * half) == q
      && top % (2 * half) == r && (top + half) % (2 * half) == r + half
      && top % half == (top + half) % half == r
  {
    var top := q * (2 * half) + r;
    DivModUnique(top, 2 * half, q, r);
    DivModUnique(top + half, 2 * half, q, r + half);
    Associate(q, 2, half);
    Distribute(half, 2 * q, 1);
    DivModUnique(top, half, 2 * q, r);
    DivModUnique(top + half, half, 2 * q + 1, r);
  }

  /** Every cell is a cell of its owner: the butterflies of a stage pair up the whole window. */
  lemma OwnerOfCell(p: nat, half: nat)
    requires half > 0
    ensures p == if IsTop(p, half) then Top(Owner(p, half), half) else Bottom(Owner(p, half), half)
  {
    var q, r := p / (2 * half), p % (2 * half);
    DivModUnique(Owner(p, half), half, q, if r < half then r else r - half);
  }

  lemma CellsInWindow(b: nat, half: nat, groups: nat)
    requires half > 0 && b < groups * half
    ensures Bottom(b, half) < groups * (2 * half)
  {
    CellOf(b, groups, half);
    CellBelow(b / half, b % half + half, groups, 2 * half);
  }

  lemma OwnerInRange(p: nat, half: nat, groups: nat)
    requires half > 0 && p < groups * (2 * half)
    ensures Owner(p, half) < groups * half
  {
    CellOf(p, groups, 2 * half);
    CellBelow(p / (2 * half), Owner(p, half) - (p / (2 * half)) * half, groups, half);
  }

  // ---- one stage ---------------------------------------------------------------

  /**
   cos t + i sin t for the angle t = +-2 pi j / m, where `w` is the point one n-th of a turn along the
   direction of the transform and m divides n.
   */
  function Twiddle(w: Complex, n: nat, j: nat, m: nat): Complex
    requires m > 0
  {
    Pow(w, (n / m) * j)
  }

  lemma FullTurn(w: Complex, n: nat, k: nat)
    requires n > 0
    ensures Twiddle(w, n, k, n) == Pow(w, k)
  {
    hide Pow;
    WholeTurn(n, k);
  }

  lemma WholeTurn(n: nat, k: nat)
    requires n > 0
    ensures (n / n) * k == k
  {
    ModOfMultiple(n, 1);
  }

  /** Cell p after stage s of a window of length 2^bits. */
  function StageCell(y: seq<Complex>, w: Complex, bits: nat, s: nat, p: nat): Complex
    requires s < bits && |y| == Exp2(bits) && p < Exp2(bits)
  {
    var half := Exp2(s);
    var b := Owner(p, half);
    StageCellsInWindow(bits, s, p);
    var t := Mul(Twiddle(w, Exp2(bits), b % half, 2 * half), y[Bottom(b, half)]);
    if IsTop(p, half) then Add(y[Top(b, half)], t) else Sub(y[Top(b, half)], t)
  }

  function Stage(y: seq<Complex>, w: Complex, bits: nat, s: nat): (z: seq<Complex>)
    requires s < bits && |y| == Exp2(bits)
  {
    seq(|y|, p requires 0 <= p < Exp2(bits) => StageCell(y, w, bits, s, p))
  }

  /** The first s stages in sequence. */
  function Stages(y: seq<Complex>, w: Complex, bits: nat, s: nat): (z: seq<Complex>)
    requires s <= bits && |y| == Exp2(bits)
    ensures |z| == |y|
  {
    if s == 0 then y else Stage(Stages(y, w, bits, s - 1), w, bits, s - 1)
  }

  lemma SplitWindow(bits: nat, s: nat)
    requires s < bits
    ensures Exp2(bits) == Exp2(bits - s - 1) * (2 * Exp2(s))
    ensures Exp2(bits) / 2 == Exp2(bits - s - 1) * Exp2(s)
    ensures Exp2(bits) / (2 * Exp2(s)) == Exp2(bits - s - 1)
  {
    Exp2Add(bits - s - 1, s + 1);
    HalfAndQuotient(Exp2(bits), Exp2(bits - s - 1), Exp2(s));
  }

  lemma HalfAndQuotient(n: nat, groups: nat, half: nat)
    requires half > 0 && n == groups * (2 * half)
    ensures n / 2 == groups * half && n / (2 * half) == groups
  {
    Associate(groups, 2, half);
    ModOfMultiple(2 * half, groups);
  }

  lemma StageCellsInWindow(bits: nat, s: nat, p: nat)
    requires s < bits && p < Exp2(bits)
    ensures Bottom(Owner(p, Exp2(s)), Exp2(s)) < Exp2(bits)
    ensures Owner(p, Exp2(s)) < Exp2(bits) / 2
  {
    SplitWindow(bits, s);
    OwnerInRange(p, Exp2(s), Exp2(bits - s - 1));
    CellsInWindow(Owner(p, Exp2(s)), Exp2(s), Exp2(bits - s - 1));
  }

  // ---- the stages compute the transform -----------------------------------

  /** Every d-th sample from o on. */
  function Decimate(x: Signal, o: nat, d: nat): Signal {
    (n: nat) => x(o + d * n)
  }

  /** `y` holds the samples of x at bit-reversed places. */
  predicate BitReversed(y: seq<Complex>, x: Signal, bits: nat) {
    |y| == Exp2(bits) && forall p :: 0 <= p < |y| ==> y[p] == x(BitRev(p, bits))
  }

  /** After s stages, block g holds the transform of one decimated subsequence. */
  ghost function Block(x: Signal, w: Complex, bits: nat, s: nat, g: nat, r: nat): Complex
    requires s <= bits
  {
    var d := Exp2(bits - s);
    Dft(Decimate(x, BitRev(g, bits - s), d), Pow(w, d), Exp2(s), r)
  }

  /** Where offset r of block g lies after s stages. */
  function BlockCell(s: nat, g: nat, r: nat): nat {
    Nonnegative(g, Exp2(s));
    g * Exp2(s) + r
  }

  lemma {:induction false} StageInvariant(y: seq<Complex>, x: Signal, w: Complex, bits: nat, s: nat, g: nat, r: nat)
    requires BitReversed(y, x, bits) && IsRoot(w, bits)
    requires s <= bits && g < Exp2(bits - s) && r < Exp2(s)
    ensures |y| == Exp2(bits) && BlockCell(s, g, r) < Exp2(bits)
    ensures Stages(y, w, bits, s)[BlockCell(s, g, r)] == Block(x, w, bits, s, g, r)
    decreases s
  {
    hide Mul, Add, Sub, Pow, IsRoot, Norm, BitRev, Dft, Block, Stage;
    BlockCellInWindow(bits, s, g, r);
    if s == 0 {
      BlockOfOne(x, w, bits, g);
    } else {
      var half := Exp2(s - 1);
      var k := if r < half then r else r - half;
      assert Exp2(bits - (s - 1)) == 2 * Exp2(bits - s) && Exp2(s) == 2 * half;
      var z := Stages(y, w, bits, s - 1);
      assert |y| == Exp2(bits) && Stages(y, w, bits, s) == Stage(z, w, bits, s - 1);
      assert r == k || r == k + half;
      hide *;
      StageInvariant(y, x, w, bits, s - 1, 2 * g, k);
      StageInvariant(y, x, w, bits, s - 1, 2 * g + 1, k);
      StageJoins(z, x, w, bits, s, g, k);
    }
  }

  lemma BlockCellInWindow(bits: nat, s: nat, g: nat, r: nat)
    requires s <= bits && g < Exp2(bits - s) && r < Exp2(s)
    ensures BlockCell(s, g, r) < Exp2(bits)
  {
    Exp2Add(bits - s, s);
    CellBelow(g, r, Exp2(bits - s), Exp2(s));
  }

  /** A stage joins two neighbouring blocks into one. */
  lemma StageJoins(y: seq<Complex>, x: Signal, w: Complex, bits: nat, s: nat, g: nat, k: nat)
    requires IsRoot(w, bits) && 0 < s <= bits && |y| == Exp2(bits) && g < Exp2(bits - s) && k < Exp2(s - 1)
    requires BlockCell(s - 1, 2 * g, k) < |y| && BlockCell(s - 1, 2 * g + 1, k) < |y|
    requires y[BlockCell(s - 1, 2 * g, k)] == Block(x, w, bits, s - 1, 2 * g, k)
    requires y[BlockCell(s - 1, 2 * g + 1, k)] == Block(x, w, bits, s - 1, 2 * g + 1, k)
    ensures BlockCell(s, g, k) < |y| && BlockCell(s, g, k + Exp2(s - 1)) < |y|
    ensures Stage(y, w, bits, s - 1)[BlockCell(s, g, k)] == Block(x, w, bits, s, g, k)
    ensures Stage(y, w, bits, s - 1)[BlockCell(s, g, k + Exp2(s - 1))] == Block(x, w, bits, s, g, k + Exp2(s - 1))
  {
    hide *;
    JoinBlocks(x, w, bits, s, g, k);
    StageOfBlocks(y, w, bits, s - 1, g, k);
  }

  lemma BlockOfOne(x: Signal, w: Complex, bits: nat, g: nat)
    ensures Block(x, w, bits, 0, g, 0) == x(BitRev(g, bits))
  {
    var d := Exp2(bits);
    var f := Decimate(x, BitRev(g, bits), d);
    var term := DftTerm(f, Pow(w, d), 0);
    assert term(0) == Mul(f(0), Pow(Pow(w, d), 0));
    MulOne(f(0));
    assert Sum(term, 1) == Add(Sum(term, 0), term(0));
  }

  /** Two neighbouring blocks of the previous stage are the even and odd halves of block g. */
  lemma JoinBlocks(x: Signal, w: Complex, bits: nat, s: nat, g: nat, k: nat)
    requires IsRoot(w, bits) && 0 < s <= bits && k < Exp2(s - 1)
    ensures
      var E := Block(x, w, bits, s - 1, 2 * g, k);
      var t := Mul(Pow(Pow(w, Exp2(bits - s)), k), Block(x, w, bits, s - 1, 2 * g + 1, k));
      && Block(x, w, bits, s, g, k) == Add(E, t)
      && Block(x, w, bits, s, g, k + Exp2(s - 1)) == Sub(E, t)
  {
    hide Mul, Add, Sub, Norm, Dft, Pow, Decimate, BitRev;
    var e := bits - s;
    ChildrenReversed(g, e);
    assert Exp2(e + 1) == 2 * Exp2(e) && Exp2(s) == 2 * Exp2(s - 1);
    RootPow(w, bits, e);
    assert Pow(Pow(w, Exp2(e)), Exp2(s - 1)) == MINUS_ONE;
    hide Exp2, IsRoot;
    JoinDecimated(x, w, BitRev(g, e), Exp2(e), Exp2(s - 1), k);
  }

  lemma ChildrenReversed(g: nat, e: nat)
    ensures BitRev(2 * g, e + 1) == BitRev(g, e)
    ensures BitRev(2 * g + 1, e + 1) == Exp2(e) + BitRev(g, e)
  {}

  lemma JoinDecimated(x: Signal, w: Complex, o: nat, d: nat, half: nat, k: nat)
    requires Pow(Pow(w, d), half) == MINUS_ONE
    ensures
      var E := Dft(Decimate(x, o, 2 * d), Pow(w, 2 * d), half, k);
      var t := Mul(Pow(Pow(w, d), k), Dft(Decimate(x, d + o, 2 * d), Pow(w, 2 * d), half, k));
      && Dft(Decimate(x, o, d), Pow(w, d), 2 * half, k) == Add(E, t)
      && Dft(Decimate(x, o, d), Pow(w, d), 2 * half, k + half) == Sub(E, t)
  {
    hide Mul, Add, Sub, Dft, Pow;
    var f, even, odd := Decimate(x, o, d), Decimate(x, o, 2 * d), Decimate(x, d + o, 2 * d);
    forall i: nat | i < half
      ensures even(i) == f(2 * i) && odd(i) == f(2 * i + 1)
    {
      DecimatedTwice(d, i);
    }
    PowAdd(w, d, d);
    Butterfly(f, even, odd, Pow(w, d), half, k);
  }

  lemma DecimatedTwice(d: nat, i: nat)
    ensures d * (2 * i) == (2 * d) * i && d * (2 * i + 1) == d + (2 * d) * i
  {
    Associate(d, 2, i);
    Distribute(d, 2 * i, 1);
  }

  /** What one stage does to offset k of block g, in terms of the two blocks it joins. */
  lemma StageOfBlocks(y: seq<Complex>, w: Complex, bits: nat, s: nat, g: nat, k: nat)
    requires s < bits && |y| == Exp2(bits) && g < Exp2(bits - s - 1) && k < Exp2(s)
    ensures BlockCell(s, 2 * g, k) < |y| && BlockCell(s, 2 * g + 1, k) < |y|
    ensures BlockCell(s + 1, g, k) < |y| && BlockCell(s + 1, g, k + Exp2(s)) < |y|
    ensures
      var t := Mul(Pow(Pow(w, Exp2(bits - s - 1)), k), y[BlockCell(s, 2 * g + 1, k)]);
      && Stage(y, w, bits, s)[BlockCell(s + 1, g, k)] == Add(y[BlockCell(s, 2 * g, k)], t)
      && Stage(y, w, bits, s)[BlockCell(s + 1, g, k + Exp2(s))] == Sub(y[BlockCell(s, 2 * g, k)], t)
  {
    hide Mul, Add, Sub, Pow;
    var half := Exp2(s);
    var b := g * half + k;
    SplitWindow(bits, s);
    CellBelow(g, k, Exp2(bits - s - 1), half);
    CellsInWindow(b, half, Exp2(bits - s - 1));
    CellsOfOwner(b, half);
    Associate(2, g, half);
    Distribute(half, 2 * g, 1);
    assert Top(b, half) == g * (2 * half) + k == (2 * g) * half + k;
    PowPow(w, Exp2(bits - s - 1), k);
  }

  /** Decimation in time: on a bit-reversed window all stages together leave the transform in natural order. */
  lemma StagesComputeDft(y: seq<Complex>, x: Signal, w: Complex, bits: nat, k: nat)
    requires BitReversed(y, x, bits) && IsRoot(w, bits) && k < Exp2(bits)
    ensures Stages(y, w, bits, bits)[k] == Dft(x, w, Exp2(bits), k)
  {
    hide Mul, Add, Sub, IsRoot, Norm, Dft, Pow, Stages;
    StageInvariant(y, x, w, bits, bits, 0, k);
    assert Exp2(0) == 1 && BitRev(0, 0) == 0;
    PowSmall(w);
    DftExt(Decimate(x, 0, 1), x, w, Exp2(bits), k);
  }
}

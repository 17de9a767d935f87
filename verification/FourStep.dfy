/** The four-step transform for windows that do not fit in shared memory: N = N1 * N2. */
module FourStep {
  import opened BatchedTensors
  import opened ButterflyStages
  import opened ComplexNumbers
  import opened ComplexSums
  import opened FftParallel
  import opened Fourier
  import opened IndexArithmetic
  import opened PowersOfTwo
  import opened SharedMemoryKernels
  import opened TensorViews
  import opened UnitSchedule

  // ---- the split ------------------------------------------------------------------

  function TrailingZeros(n: nat): nat
    requires n > 0
  {
    if n % 2 == 1 then 0 else 1 + TrailingZeros(n / 2)
  }

  lemma {:induction false} TrailingZerosOfPower(e: nat)
    ensures TrailingZeros(Exp2(e)) == e
  {
    if e > 0 {
      TrailingZerosOfPower(e - 1);
    }
  }

  datatype Factors = Panic | Factors(bits1: nat, bits2: nat)

  /** `factor_four_step`: the exponents of the two factors, or the failed assertion. */
  function FactorFourStep(n: nat, maxShared: nat): Factors
    requires n > 0 && maxShared > 0
  {
    var bits := TrailingZeros(n);
    var maxBits := TrailingZeros(maxShared);
    var bits1 := bits / 2;
    var bits2 := bits - bits1;
    var (a, b) := if bits2 > maxBits then (bits - maxBits, maxBits) else (bits1, bits2);
    if n == Exp2(bits) && a <= maxBits && b <= maxBits then Factors(a, b) else Panic
  }

  /**
   The split succeeds exactly when half the exponent, rounded up, fits the cap; then it is balanced, within the cap and
   multiplies back. Moving weight to the other factor never rescues a window whose balanced split does not fit.
   */
  lemma FactorsAreBalanced(bits: nat, maxBits: nat)
    ensures
      var f := FactorFourStep(Exp2(bits), Exp2(maxBits));
      && (f.Factors? <==> (bits + 1) / 2 <= maxBits)
      && (f.Factors? ==>
           && Exp2(f.bits1) * Exp2(f.bits2) == Exp2(bits)
           && Exp2(f.bits1) <= Exp2(f.bits2) <= 2 * Exp2(f.bits1)
           && Exp2(f.bits2) <= Exp2(maxBits))
  {
    TrailingZerosOfPower(bits);
    TrailingZerosOfPower(maxBits);
    var f := FactorFourStep(Exp2(bits), Exp2(maxBits));
    if f.Factors? {
      Exp2Add(f.bits1, f.bits2);
      Exp2Monotone(f.bits1, f.bits2);
      Exp2Monotone(f.bits2, f.bits1 + 1);
      Exp2Monotone(f.bits2, maxBits);
    }
  }

  // ---- the algebra ------------------------------------------------------------------

  /** Column j2 transformed over n1 and turned by w^(k1 j2): what the first pass leaves at (k1, j2). */
  function Column(x: Signal, w: Complex, n1: nat, n2: nat, k1: nat, j2: nat): Complex {
    Mul(Pow(w, k1 * j2), Dft(Decimate(x, j2, n2), Pow(w, n2), n1, k1))
  }

  function Columns(x: Signal, w: Complex, n1: nat, n2: nat, k1: nat): Signal {
    (j2: nat) => Column(x, w, n1, n2, k1, j2)
  }

  /** The summand of the whole transform at sample j1 * n2 + j2 and bin k1 + n1 * k2. */
  function Cell(x: Signal, w: Complex, n1: nat, n2: nat, k1: nat, k2: nat): (nat, nat) -> Complex {
    (j1: nat, j2: nat) => Mul(x(j1 * n2 + j2), Pow(w, (k1 + n1 * k2) * (j1 * n2 + j2)))
  }

  lemma CellExponent(n1: nat, n2: nat, k1: nat, k2: nat, j1: nat, j2: nat)
    ensures (k1 + n1 * k2) * (j1 * n2 + j2)
         == (n2 * (k1 * j1) + (k1 * j2 + n1 * (k2 * j2))) + (n1 * n2) * (k2 * j1)
    ensures k1 * j1 >= 0 && k2 * j2 >= 0 && k2 * j1 >= 0 && k1 * j2 >= 0 && n1 * n2 >= 0
  {
    var a, b := j1 * n2, n1 * k2;
    Distribute(k1 + b, a, j2);
    Distribute(a, k1, b);
    Distribute(j2, k1, b);
    Associate(k1, j1, n2);
    assert b * j2 == n1 * (k2 * j2) by { Associate(n1, k2, j2); }
    assert b * a == (n1 * n2) * (k2 * j1);
  }

  /** A cell of the double sum, with its exponent sorted into row, column and twiddle parts. */
  lemma CellSplits(x: Signal, w: Complex, n1: nat, n2: nat, k1: nat, k2: nat, j1: nat, j2: nat)
    requires Pow(w, n1 * n2) == ONE
    ensures Cell(x, w, n1, n2, k1, k2)(j1, j2)
         == Mul(Mul(Pow(w, k1 * j2), Pow(Pow(w, n1), k2 * j2)),
                DftTerm(Decimate(x, j2, n2), Pow(w, n2), k1)(j1))
  {
    hide Mul, Pow;
    var a, b, c, q := n2 * (k1 * j1), k1 * j2, n1 * (k2 * j2), k2 * j1;
    CellExponent(n1, n2, k1, k2, j1, j2);
    PowPeriodic(w, n1 * n2, a + (b + c), q);
    PowAdd(w, a, b + c);
    PowAdd(w, b, c);
    PowPow(w, n1, k2 * j2);
    PowPow(w, n2, k1 * j1);
    var s, p := x(j1 * n2 + j2), Pow(w, b + c);
    MulComm(Pow(w, a), p);
    MulAssoc(s, p, Pow(w, a));
    MulComm(s, p);
    MulAssoc(p, s, Pow(w, a));
  }

  /** Column transforms, twiddles, row transforms: together the transform of the whole window. */
  lemma RowsOfColumns(x: Signal, w: Complex, n1: nat, n2: nat, k1: nat, k2: nat)
    requires Pow(w, n1 * n2) == ONE
    ensures Dft(Columns(x, w, n1, n2, k1), Pow(w, n1), n2, k2) == Dft(x, w, n1 * n2, k1 + n1 * k2)
  {
    hide Mul, Pow, Sum;
    var F := Cell(x, w, n1, n2, k1, k2);
    var rows: Signal := (j1: nat) => Sum(Row(F, j1), n2);
    var cols := DftTerm(Columns(x, w, n1, n2, k1), Pow(w, n1), k2);
    forall j2: nat | j2 < n2
      ensures cols(j2) == Sum(Col(F, j2), n1)
    {
      var term := DftTerm(Decimate(x, j2, n2), Pow(w, n2), k1);
      var t, r := Pow(w, k1 * j2), Pow(Pow(w, n1), k2 * j2);
      forall j1: nat | j1 < n1
        ensures Col(F, j2)(j1) == Mul(Mul(t, r), term(j1))
      {
        CellSplits(x, w, n1, n2, k1, k2, j1, j2);
      }
      SumMul(Col(F, j2), Mul(t, r), term, n1);
      MulAssoc(t, r, Sum(term, n1));
      MulComm(r, Sum(term, n1));
      MulAssoc(t, Sum(term, n1), r);
    }
    SumRowMajor(DftTerm(x, w, k1 + n1 * k2), F, rows, n1, n2);
    SumSwap(F, rows, cols, n1, n2);
  }

  // ---- the passes ---------------------------------------------------------------------

  /** Cell p of the scratch window after the first pass. */
  function Pass1(x: seq<Complex>, w: Complex, n1: nat, n2: nat, p: nat): Complex
    requires n2 > 0
  {
    Column(AsSignal(x), w, n1, n2, p / n2, p % n2)
  }

  /** Cell p of the scratch window after the second pass. */
  function Pass2(x: seq<Complex>, w: Complex, n1: nat, n2: nat, p: nat): Complex
    requires n2 > 0
  {
    Dft(Columns(AsSignal(x), w, n1, n2, p / n2), Pow(w, n1), n2, p % n2)
  }

  /** Column j of an n1-by-n2 scratch window, and its row i. */
  function ColumnView(n1: nat, n2: nat, j: nat): (v: View)
    ensures v.len == n1
  {
    View(j, n2, n1)
  }

  function RowView(n2: nat, i: nat): (v: View)
    ensures v.len == n2
  {
    View(i * n2, 1, n2)
  }

  predicate InColumn(p: nat, n2: nat, j: nat)
    requires n2 > 0
  {
    p % n2 == j
  }

  function RowIndex(p: nat, n2: nat): nat
    requires n2 > 0
  {
    p / n2
  }

  lemma ColumnCells(n1: nat, n2: nat, j: nat)
    requires j < n2
    ensures ColumnView(n1, n2, j).Fits(n1 * n2)
    ensures forall k: nat :: k < n1 ==> ColumnView(n1, n2, j).At(k) == k * n2 + j < n1 * n2
    ensures forall p: nat :: p < n1 * n2 && InColumn(p, n2, j) ==>
      RowIndex(p, n2) < n1 && ColumnView(n1, n2, j).At(RowIndex(p, n2)) == p
    ensures forall p: nat :: !InColumn(p, n2, j) ==> !ColumnView(n1, n2, j).Holds(p)
  {
    var v := ColumnView(n1, n2, j);
    forall k: nat | k < n1
      ensures v.At(k) == k * n2 + j < n1 * n2 && v.At(k) % n2 == j
    {
      CellBelow(k, j, n1, n2);
    }
    forall p: nat | p < n1 * n2
      ensures p / n2 < n1 && p == (p / n2) * n2 + p % n2
    {
      CellOf(p, n1, n2);
    }
    StridedViewFits(v, n1 * n2);
  }

  lemma RowCells(n1: nat, n2: nat, i: nat)
    requires i < n1 && n2 > 0
    ensures RowView(n2, i).Fits(n1 * n2)
    ensures forall k: nat :: k < n2 ==> RowView(n2, i).At(k) == i * n2 + k < n1 * n2
    ensures forall p: nat :: p / n2 == i ==> RowView(n2, i).At(p % n2) == p
    ensures forall p: nat :: p / n2 != i ==> !RowView(n2, i).Holds(p)
  {
    var v := RowView(n2, i);
    forall k: nat | k < n2
      ensures v.At(k) == i * n2 + k < n1 * n2 && v.At(k) / n2 == i
    {
      CellBelow(i, k, n1, n2);
    }
    StridedViewFits(v, n1 * n2);
  }

  lemma RootOfFactor(mode: FftMode, u: Complex, bits: nat, e: nat)
    requires IsRoot(u, bits) && e <= bits
    ensures IsRoot(Pow(u, Exp2(e)), bits - e)
    ensures Root(mode, Pow(u, Exp2(e))) == Pow(Root(mode, u), Exp2(e))
    ensures IsRoot(Root(mode, Pow(u, Exp2(e))), bits - e)
  {
    hide IsRoot;
    RootPow(u, bits, e);
    PowConj(u, Exp2(e));
    RootOfMode(mode, Pow(u, Exp2(e)), bits - e);
  }

  /** The twiddle fused into the first pass: W_N^(k1 j) times the bin. */
  function Turned(w: Complex, n: nat, k1: nat, j: nat, a: Complex): Complex
    requires n > 0
  {
    Mul(Twiddle(w, n, k1 * j, n), a)
  }

  function TurnedBins(bins: seq<Complex>, w: Complex, n: nat, j: nat): (r: seq<Complex>)
    requires n > 0
    ensures |r| == |bins| && forall k: nat :: k < |bins| ==> r[k] == Turned(w, n, k, j, bins[k])
  {
    seq(|bins|, k requires 0 <= k < |bins| && n > 0 => Turned(w, n, k, j, bins[k]))
  }

  /** `cfft_four_step_radix1_kernel`: one cube transforms one column of its window and turns it on the way out. */
  method Radix1Kernel(inRe: array<real>, inIm: array<real>, input: View,
                      scratchRe: array<real>, scratchIm: array<real>, scratch: View,
                      mode: FftMode, u: Complex, bits1: nat, bits2: nat, j: nat, units: nat)
    requires input.InBounds(inRe.Length) && input.InBounds(inIm.Length)
    requires scratchRe != scratchIm && scratchRe.Length == scratchIm.Length && scratch.Fits(scratchRe.Length)
    requires input.len == scratch.len == Exp2(bits1) * Exp2(bits2)
    requires IsRoot(u, bits1 + bits2) && j < Exp2(bits2) && units > 0
    modifies scratchRe, scratchIm
    ensures
      var x := old(ReadOf(inRe[..], inIm[..], input));
      forall p: nat :: p < |x| ==>
        ReadOf(scratchRe[..], scratchIm[..], scratch)[p] ==
        if InColumn(p, Exp2(bits2), j) then Pass1(x, Root(mode, u), Exp2(bits1), Exp2(bits2), p)
        else old(ReadOf(scratchRe[..], scratchIm[..], scratch))[p]
    ensures OnlyWithin(scratch, old(scratchRe[..]), scratchRe[..]) && OnlyWithin(scratch, old(scratchIm[..]), scratchIm[..])
  {
    hide *;
    var n1, n2 := Exp2(bits1), Exp2(bits2);
    var w := Root(mode, u);
    ColumnCells(n1, n2, j);
    RootOfFactor(mode, u, bits1 + bits2, bits2);
    var column := ColumnView(n1, n2, j);
    ghost var x := ReadOf(inRe[..], inIm[..], input);
    ReadWithin(inRe[..], inIm[..], input, column);
    ReadIsReadOf(inRe, inIm, Within(input, column));
    var samples := Read(inRe, inIm, Within(input, column));
    var re, im := TransformShared(samples, Root(mode, Pow(u, n2)), bits1, units);
    var values := TurnedBins(Window(re, im), w, n1 * n2, j);
    ghost var wasRe, wasIm := scratchRe[..], scratchIm[..];
    WithinFits(scratch, column, scratchRe.Length);
    StoreView(values, scratchRe, scratchIm, Within(scratch, column), units);
    StoredOnlyWithin(Within(scratch, column), wasRe, scratchRe[..]);
    StoredOnlyWithin(Within(scratch, column), wasIm, scratchIm[..]);
    ReadIsReadOf(scratchRe, scratchIm, Within(scratch, column));
    ReadWithin(scratchRe[..], scratchIm[..], scratch, column);
    StoredWithin(wasRe, wasIm, scratchRe[..], scratchIm[..], scratch, column);
    ColumnWritten(x, samples, values, ReadOf(wasRe, wasIm, scratch), ReadOf(scratchRe[..], scratchIm[..], scratch), w, n1, n2, j);
  }

  /** A column read, transformed, turned and written back, as the whole window sees it. */
  lemma ColumnWritten(x: seq<Complex>, samples: seq<Complex>, values: seq<Complex>, was: seq<Complex>, now: seq<Complex>,
                      w: Complex, n1: nat, n2: nat, j: nat)
    requires |x| == |was| == |now| == n1 * n2 > 0 && |samples| == |values| == n1 && j < n2
    requires forall k: nat :: k < n1 ==> ColumnView(n1, n2, j).At(k) < |x| && samples[k] == x[ColumnView(n1, n2, j).At(k)]
    requires forall k: nat :: k < n1 ==> values[k] == Turned(w, n1 * n2, k, j, DftOf(samples, Pow(w, n2))[k])
    requires forall k: nat :: k < n1 ==> now[ColumnView(n1, n2, j).At(k)] == values[k]
    requires forall p: nat :: p < |now| && !ColumnView(n1, n2, j).Holds(p) ==> now[p] == was[p]
    ensures forall p: nat :: p < |now| ==> now[p] == if InColumn(p, n2, j) then Pass1(x, w, n1, n2, p) else was[p]
  {
    hide Dft, Turned, Pow, Pass1, ColumnView, View.At, View.Holds, InColumn, RowIndex;
    ColumnCells(n1, n2, j);
    forall p: nat | p < |now|
      ensures now[p] == if InColumn(p, n2, j) then Pass1(x, w, n1, n2, p) else was[p]
    {
      if InColumn(p, n2, j) {
        TurnedBin(x, samples, w, n1, n2, p, j);
        assert now[ColumnView(n1, n2, j).At(RowIndex(p, n2))] == values[RowIndex(p, n2)];
      }
    }
  }

  /** What the kernel writes for bin k1 of column j. */
  lemma TurnedBin(x: seq<Complex>, samples: seq<Complex>, w: Complex, n1: nat, n2: nat, p: nat, j: nat)
    requires |x| == n1 * n2 > 0 && |samples| == n1 && n2 > 0 && InColumn(p, n2, j)
    requires forall i: nat :: i < n1 ==> ColumnView(n1, n2, j).At(i) < |x| && samples[i] == x[ColumnView(n1, n2, j).At(i)]
    ensures Turned(w, |x|, RowIndex(p, n2), j, Dft(AsSignal(samples), Pow(w, n2), n1, RowIndex(p, n2))) == Pass1(x, w, n1, n2, p)
  {
    hide Mul, Pow, Dft;
    var k1 := p / n2;
    FullTurn(w, n1 * n2, k1 * j);
    forall i: nat | i < n1
      ensures AsSignal(samples)(i) == Decimate(AsSignal(x), j, n2)(i)
    {
      assert j + n2 * i == i * n2 + j;
    }
    DftExt(AsSignal(samples), Decimate(AsSignal(x), j, n2), Pow(w, n2), n1, k1);
  }

  /** `cfft_four_step_radix2_kernel`: one cube transforms one row of its window in place. */
  method Radix2Kernel(scratchRe: array<real>, scratchIm: array<real>, scratch: View,
                      mode: FftMode, u: Complex, bits1: nat, bits2: nat, i: nat, units: nat)
    requires scratchRe != scratchIm && scratchRe.Length == scratchIm.Length && scratch.Fits(scratchRe.Length)
    requires scratch.len == Exp2(bits1) * Exp2(bits2)
    requires IsRoot(u, bits1 + bits2) && i < Exp2(bits1) && units > 0
    modifies scratchRe, scratchIm
    ensures
      var y := old(ReadOf(scratchRe[..], scratchIm[..], scratch));
      forall p: nat :: p < |y| ==>
        ReadOf(scratchRe[..], scratchIm[..], scratch)[p] ==
        if p / Exp2(bits2) == i
        then Dft(RowOf(y, Exp2(bits2), i), Pow(Root(mode, u), Exp2(bits1)), Exp2(bits2), p % Exp2(bits2))
        else y[p]
    ensures OnlyWithin(scratch, old(scratchRe[..]), scratchRe[..]) && OnlyWithin(scratch, old(scratchIm[..]), scratchIm[..])
  {
    hide *;
    var n1, n2 := Exp2(bits1), Exp2(bits2);
    RowCells(n1, n2, i);
    RootOfFactor(mode, u, bits1 + bits2, bits1);
    var row := RowView(n2, i);
    ghost var wasRe, wasIm := scratchRe[..], scratchIm[..];
    ReadWithin(wasRe, wasIm, scratch, row);
    ReadIsReadOf(scratchRe, scratchIm, Within(scratch, row));
    var samples := Read(scratchRe, scratchIm, Within(scratch, row));
    var re, im := TransformShared(samples, Root(mode, Pow(u, n1)), bits2, units);
    WithinFits(scratch, row, scratchRe.Length);
    StoreView(Window(re, im), scratchRe, scratchIm, Within(scratch, row), units);
    StoredOnlyWithin(Within(scratch, row), wasRe, scratchRe[..]);
    StoredOnlyWithin(Within(scratch, row), wasIm, scratchIm[..]);
    ReadIsReadOf(scratchRe, scratchIm, Within(scratch, row));
    ReadWithin(scratchRe[..], scratchIm[..], scratch, row);
    StoredWithin(wasRe, wasIm, scratchRe[..], scratchIm[..], scratch, row);
    RowWritten(samples, ReadOf(wasRe, wasIm, scratch), ReadOf(scratchRe[..], scratchIm[..], scratch),
               Pow(Root(mode, u), n1), n1, n2, i);
  }

  /** A row read, transformed and written back, as the whole window sees it. */
  lemma RowWritten(samples: seq<Complex>, was: seq<Complex>, now: seq<Complex>, r: Complex, n1: nat, n2: nat, i: nat)
    requires |was| == |now| == n1 * n2 && |samples| == n2 > 0 && i < n1
    requires forall k: nat :: k < n2 ==> RowView(n2, i).At(k) < |was| && samples[k] == was[RowView(n2, i).At(k)]
    requires forall k: nat :: k < n2 ==> now[RowView(n2, i).At(k)] == DftOf(samples, r)[k]
    requires forall p: nat :: p < |now| && !RowView(n2, i).Holds(p) ==> now[p] == was[p]
    ensures forall p: nat :: p < |now| ==>
      now[p] == if p / n2 == i then Dft(RowOf(was, n2, i), r, n2, p % n2) else was[p]
  {
    hide Dft, RowView, View.At, View.Holds;
    RowCells(n1, n2, i);
    forall k: nat | k < n2
      ensures AsSignal(samples)(k) == RowOf(was, n2, i)(k)
    {
      assert RowView(n2, i).At(k) == i * n2 + k;
    }
    forall p: nat | p < |now| && p / n2 == i
      ensures now[p] == Dft(RowOf(was, n2, i), r, n2, p % n2)
    {
      DftExt(AsSignal(samples), RowOf(was, n2, i), r, n2, p % n2);
      assert now[RowView(n2, i).At(p % n2)] == DftOf(samples, r)[p % n2];
    }
  }

  /** Row i of a window of n2 columns. */
  function RowOf(y: seq<Complex>, n2: nat, i: nat): Signal {
    (j: nat) => if i * n2 + j < |y| then y[i * n2 + j] else ZERO
  }

  lemma RowOfPass1(y: seq<Complex>, x: seq<Complex>, w: Complex, n1: nat, n2: nat, i: nat, p: nat)
    requires |y| == |x| == n1 * n2 && i < n1 && n2 > 0 && p / n2 == i
    requires forall q: nat :: q < |y| && q / n2 == i ==> y[q] == Pass1(x, w, n1, n2, q)
    ensures Dft(RowOf(y, n2, i), Pow(w, n1), n2, p % n2) == Pass2(x, w, n1, n2, p)
  {
    hide Dft, Pow, Column;
    forall j: nat | j < n2
      ensures RowOf(y, n2, i)(j) == Columns(AsSignal(x), w, n1, n2, i)(j)
    {
      CellBelow(i, j, n1, n2);
      assert y[i * n2 + j] == Pass1(x, w, n1, n2, i * n2 + j);
    }
    DftExt(RowOf(y, n2, i), Columns(AsSignal(x), w, n1, n2, i), Pow(w, n1), n2, p % n2);
  }

  /** The transpose reads bin k = k1 + k2 * n1 where the row pass left it, at k1 * n2 + k2. */
  lemma TransposedBin(x: seq<Complex>, w: Complex, n1: nat, n2: nat, k: nat)
    requires |x| == n1 * n2 && k < |x| && n1 > 0 && n2 > 0 && Pow(w, n1 * n2) == ONE
    ensures 0 <= TransposeSource(n1, n2, k) < |x|
    ensures Pass2(x, w, n1, n2, TransposeSource(n1, n2, k)) == Dft(AsSignal(x), w, |x|, k)
  {
    hide Dft, Pow;
    var k2, k1 := k / n1, k % n1;
    CellOf(k, n2, n1);
    CellBelow(k1, k2, n1, n2);
    RowsOfColumns(AsSignal(x), w, n1, n2, k1, k2);
  }

  /** Where `cfft_four_step_transpose_kernel` reads output bin k. */
  function TransposeSource(n1: nat, n2: nat, k: nat): int
    requires n1 > 0
  {
    var k2 := k / n1;
    var k1 := k - k2 * n1;
    k1 * n2 + k2
  }

  // ---- the launches ---------------------------------------------------------------------------------

  /** The windows after the columns of the cubes outside todo: cube w * n2 + j has column j of window w. */
  ghost predicate ColumnsDone(now: seq<seq<Complex>>, x: seq<seq<Complex>>, w: Complex, n1: nat, n2: nat, todo: set<nat>)
    requires n2 > 0
  {
    && |now| == |x| && (forall i :: 0 <= i < |x| ==> |now[i]| == |x[i]| == n1 * n2)
    && forall i: nat, p: nat :: i < |x| && p < n1 * n2 && i * n2 + p % n2 !in todo ==> now[i][p] == Pass1(x[i], w, n1, n2, p)
  }

  lemma ColumnStep(was: seq<seq<Complex>>, now: seq<seq<Complex>>, x: seq<seq<Complex>>, w: Complex,
                   n1: nat, n2: nat, todo: set<nat>, cube: nat)
    requires n2 > 0 && ColumnsDone(was, x, w, n1, n2, todo) && cube < |x| * n2
    requires cube / n2 < |x| && |now| == |x| && now == was[cube / n2 := now[cube / n2]] && |now[cube / n2]| == n1 * n2
    requires forall p: nat :: p < n1 * n2 ==>
      now[cube / n2][p] == if InColumn(p, n2, cube % n2) then Pass1(x[cube / n2], w, n1, n2, p) else was[cube / n2][p]
    ensures ColumnsDone(now, x, w, n1, n2, todo - {cube})
  {
    hide Pass1;
    forall i: nat, p: nat | i < |x| && p < n1 * n2 && i * n2 + p % n2 !in todo - {cube}
      ensures now[i][p] == Pass1(x[i], w, n1, n2, p)
    {
      CellBelow(i, p % n2, |x|, n2);
    }
  }

  lemma NoColumns(now: seq<seq<Complex>>, x: seq<seq<Complex>>, w: Complex, n1: nat, n2: nat)
    requires n2 > 0 && |now| == |x| && forall i :: 0 <= i < |x| ==> |now[i]| == |x[i]| == n1 * n2
    ensures |x| * n2 >= 0 && ColumnsDone(now, x, w, n1, n2, Items(|x| * n2))
  {
    hide Pass1;
    Nonnegative(|x|, n2);
    forall i: nat, p: nat {:trigger now[i][p]} | i < |x| && p < n1 * n2
      ensures i * n2 + p % n2 in Items(|x| * n2)
    {
      CellBelow(i, p % n2, |x|, n2);
    }
  }

  /** The windows after both passes, where the rows of the cubes in todo have only had the first. */
  ghost predicate RowsDone(now: seq<seq<Complex>>, x: seq<seq<Complex>>, w: Complex, n1: nat, n2: nat, todo: set<nat>)
    requires n2 > 0
  {
    && |now| == |x| && (forall i :: 0 <= i < |x| ==> |now[i]| == |x[i]| == n1 * n2)
    && forall i: nat, p: nat :: i < |x| && p < n1 * n2 ==>
      now[i][p] == if RowCube(i, n1, p, n2) in todo then Pass1(x[i], w, n1, n2, p) else Pass2(x[i], w, n1, n2, p)
  }

  /** The cube of the second launch that has cell p of window i. */
  function RowCube(i: nat, n1: nat, p: nat, n2: nat): int
    requires n2 > 0
  {
    i * n1 + p / n2
  }

  lemma FirstPassDone(now: seq<seq<Complex>>, x: seq<seq<Complex>>, w: Complex, n1: nat, n2: nat)
    requires n2 > 0 && ColumnsDone(now, x, w, n1, n2, {})
    ensures |x| * n1 >= 0 && RowsDone(now, x, w, n1, n2, Items(|x| * n1))
  {
    hide Pass1, Pass2;
    Nonnegative(|x|, n1);
    forall i: nat, p: nat | i < |x| && p < n1 * n2
      ensures RowCube(i, n1, p, n2) in Items(|x| * n1) && now[i][p] == Pass1(x[i], w, n1, n2, p)
    {
      CellOf(p, n1, n2);
      DivBounds(p, n2);
      CellBelow(i, p / n2, |x|, n1);
      Nonnegative(i, n2);
      assert i * n2 + p % n2 !in {};
    }
  }

  lemma RowStep(was: seq<seq<Complex>>, now: seq<seq<Complex>>, x: seq<seq<Complex>>, w: Complex,
                n1: nat, n2: nat, todo: set<nat>, cube: nat)
    requires n1 > 0 && n2 > 0 && RowsDone(was, x, w, n1, n2, todo) && cube in todo && cube < |x| * n1
    requires cube / n1 < |x| && |now| == |x| && now == was[cube / n1 := now[cube / n1]] && |now[cube / n1]| == n1 * n2
    requires forall p: nat :: p < n1 * n2 ==>
      now[cube / n1][p] ==
      if p / n2 == cube % n1 then Dft(RowOf(was[cube / n1], n2, cube % n1), Pow(w, n1), n2, p % n2) else was[cube / n1][p]
    ensures RowsDone(now, x, w, n1, n2, todo - {cube})
  {
    hide Pass1, Pass2, Dft, RowOf, Pow;
    var c, r := cube / n1, cube % n1;
    CellOf(cube, |x|, n1);
    forall i: nat, p: nat | i < |x| && p < n1 * n2
      ensures now[i][p] == if RowCube(i, n1, p, n2) in todo - {cube} then Pass1(x[i], w, n1, n2, p) else Pass2(x[i], w, n1, n2, p)
    {
      CellOf(p, n1, n2);
      DivBounds(p, n2);
      CellBelow(i, p / n2, |x|, n1);
      if i == c && p / n2 == r {
        forall q: nat | q < |was[c]| && q / n2 == r
          ensures was[c][q] == Pass1(x[c], w, n1, n2, q)
        {
          assert RowCube(c, n1, q, n2) == cube;
        }
        RowOfPass1(was[c], x[c], w, n1, n2, r, p);
      }
    }
  }

  lemma SecondPassDone(now: seq<seq<Complex>>, x: seq<seq<Complex>>, w: Complex, n1: nat, n2: nat)
    requires n1 > 0 && n2 > 0 && Pow(w, n1 * n2) == ONE && RowsDone(now, x, w, n1, n2, {})
    requires forall k: nat :: k < n1 * n2 ==> 0 <= TransposeSource(n1, n2, k) < n1 * n2
    ensures Transposed(now, n1, n2) == Transforms(x, w)
  {
    hide Pass1, Pass2, Dft, TransposeSource, Pow, Transposed;
    var z := Transposed(now, n1, n2);
    forall i | 0 <= i < |x|
      ensures z[i] == DftOf(x[i], w)
    {
      forall k: nat | k < n1 * n2
        ensures z[i][k] == DftOf(x[i], w)[k]
      {
        TransposedBin(x[i], w, n1, n2, k);
        var p: nat := TransposeSource(n1, n2, k);
        assert now[i][p] == Pass2(x[i], w, n1, n2, p);
      }
    }
  }

  lemma TransposeInWindow(n1: nat, n2: nat)
    requires n1 > 0
    ensures forall k: nat :: k < n1 * n2 ==> 0 <= TransposeSource(n1, n2, k) < n1 * n2
  {
    forall k: nat | k < n1 * n2
      ensures 0 <= TransposeSource(n1, n2, k) < n1 * n2
    {
      CubeOf(k, n2, n1);
      CellBelow(k % n1, k / n1, n1, n2);
    }
  }

  /** A cube of the first launch decodes its window and column and does that column. */
  method ColumnCube(inRe: array<real>, inIm: array<real>, input: Batch, re: array<real>, im: array<real>, scratch: Batch,
                    mode: FftMode, u: Complex, bits1: nat, bits2: nat, units: nat, cube: nat, ghost todo: set<nat>)
    requires input.InBounds(inRe.Length) && input.InBounds(inIm.Length) && scratch.Fits(re.Length)
    requires re != im && re.Length == im.Length && {inRe, inIm} !! {re, im}
    requires input.Count() == scratch.Count() && input.Length() == scratch.Length() == Exp2(bits1) * Exp2(bits2)
    requires IsRoot(u, bits1 + bits2) && units > 0 && cube in todo && cube < input.Count() * Exp2(bits2)
    requires ColumnsDone(ContentsOf(re[..], im[..], scratch), ContentsOf(inRe[..], inIm[..], input), Root(mode, u),
                         Exp2(bits1), Exp2(bits2), todo)
    modifies re, im
    ensures ColumnsDone(ContentsOf(re[..], im[..], scratch), ContentsOf(inRe[..], inIm[..], input), Root(mode, u),
                        Exp2(bits1), Exp2(bits2), todo - {cube})
  {
    hide *;
    var n1, n2 := Exp2(bits1), Exp2(bits2);
    ghost var x, w := ContentsOf(inRe[..], inIm[..], input), Root(mode, u);
    WindowLengths(inRe[..], inIm[..], input);
    WindowLengths(re[..], im[..], scratch);
    var window := cube / n2;
    var j := cube - window * n2;
    CubeOf(cube, |x|, n2);
    WindowInBounds(input, inRe.Length, window);
    WindowInBounds(input, inIm.Length, window);
    WindowFits(scratch, re.Length, window);
    var from := Layout(input, window);
    var to := Layout(scratch, window);
    ghost var wasRe, wasIm := re[..], im[..];
    Radix1Kernel(inRe, inIm, from, re, im, to, mode, u, bits1, bits2, j, units);
    OneWindowChanged(wasRe, wasIm, re[..], im[..], scratch, window);
    ColumnStep(ContentsOf(wasRe, wasIm, scratch), ContentsOf(re[..], im[..], scratch), x, w, n1, n2, todo, cube);
  }

  /** The first launch: one cube per window and column, in any order. */
  method ColumnPass(inRe: array<real>, inIm: array<real>, input: Batch, re: array<real>, im: array<real>, scratch: Batch,
                    mode: FftMode, u: Complex, bits1: nat, bits2: nat, units: nat)
    requires input.InBounds(inRe.Length) && input.InBounds(inIm.Length) && scratch.Fits(re.Length)
    requires re != im && re.Length == im.Length && {inRe, inIm} !! {re, im}
    requires input.Count() == scratch.Count() && input.Length() == scratch.Length() == Exp2(bits1) * Exp2(bits2)
    requires IsRoot(u, bits1 + bits2) && units > 0
    modifies re, im
    ensures ColumnsDone(ContentsOf(re[..], im[..], scratch), ContentsOf(inRe[..], inIm[..], input), Root(mode, u),
                        Exp2(bits1), Exp2(bits2), {})
  {
    hide *;
    ghost var x := ContentsOf(inRe[..], inIm[..], input);
    WindowLengths(inRe[..], inIm[..], input);
    WindowLengths(re[..], im[..], scratch);
    NoColumns(ContentsOf(re[..], im[..], scratch), x, Root(mode, u), Exp2(bits1), Exp2(bits2));
    var todo := Items(input.Count() * Exp2(bits2));
    while todo != {}
      invariant todo <= Items(input.Count() * Exp2(bits2))
      invariant ColumnsDone(ContentsOf(re[..], im[..], scratch), ContentsOf(inRe[..], inIm[..], input), Root(mode, u),
                            Exp2(bits1), Exp2(bits2), todo)
      decreases todo
    {
      var cube :| cube in todo;
      ColumnCube(inRe, inIm, input, re, im, scratch, mode, u, bits1, bits2, units, cube, todo);
      todo := todo - {cube};
    }
  }

  lemma WindowLengths(re: seq<real>, im: seq<real>, b: Batch)
    requires b.InBounds(|re|) && b.InBounds(|im|)
    ensures
      var c := ContentsOf(re, im, b);
      |c| == b.Count() && forall i :: 0 <= i < |c| ==> |c[i]| == b.Length()
  {}

  /** A cube's window and its place in the window, as the kernels decode them. */
  lemma CubeOf(cube: nat, windows: nat, n: nat)
    requires cube < windows * n && n > 0
    ensures 0 <= cube / n < windows && cube - cube / n * n == cube % n < n
  {
    CellOf(cube, windows, n);
    DivBounds(cube, n);
  }

  /** The second launch: one cube per window and row, in place and in any order. */
  method RowPass(ghost x: seq<seq<Complex>>, re: array<real>, im: array<real>, scratch: Batch,
                 mode: FftMode, u: Complex, bits1: nat, bits2: nat, units: nat)
    requires scratch.Fits(re.Length) && re != im && re.Length == im.Length
    requires |x| == scratch.Count() && scratch.Length() == Exp2(bits1) * Exp2(bits2)
    requires IsRoot(u, bits1 + bits2) && units > 0
    requires ColumnsDone(ContentsOf(re[..], im[..], scratch), x, Root(mode, u), Exp2(bits1), Exp2(bits2), {})
    modifies re, im
    ensures RowsDone(ContentsOf(re[..], im[..], scratch), x, Root(mode, u), Exp2(bits1), Exp2(bits2), {})
  {
    hide *;
    var n1, n2 := Exp2(bits1), Exp2(bits2);
    ghost var w := Root(mode, u);
    FirstPassDone(ContentsOf(re[..], im[..], scratch), x, w, n1, n2);
    var todo := Items(scratch.Count() * n1);
    while todo != {}
      invariant todo <= Items(|x| * n1)
      invariant RowsDone(ContentsOf(re[..], im[..], scratch), x, w, n1, n2, todo)
      decreases todo
    {
      var cube :| cube in todo;
      var window := cube / n1;
      var i := cube - window * n1;
      CubeOf(cube, |x|, n1);
      WindowFits(scratch, re.Length, window);
      var v := Layout(scratch, window);
      ghost var wasRe, wasIm := re[..], im[..];
      Radix2Kernel(re, im, v, mode, u, bits1, bits2, i, units);
      OneWindowChanged(wasRe, wasIm, re[..], im[..], scratch, window);
      RowStep(ContentsOf(wasRe, wasIm, scratch), ContentsOf(re[..], im[..], scratch), x, w, n1, n2, todo, cube);
      todo := todo - {cube};
    }
  }

  /** The third launch: one thread per output bin, in any order, each reading the scratch tensor when it runs. */
  method TransposePass(ghost x: seq<seq<Complex>>, re: array<real>, im: array<real>, scratch: Batch,
                       outRe: array<real>, outIm: array<real>, output: Batch, ghost w: Complex, n1: nat, n2: nat)
    requires scratch.InBounds(re.Length) && scratch.InBounds(im.Length) && {re, im} !! {outRe, outIm}
    requires outRe != outIm && output.Fits(outRe.Length) && output.Fits(outIm.Length)
    requires |x| == scratch.Count() == output.Count() && scratch.Length() == output.Length() == n1 * n2 && n1 > 0 && n2 > 0
    requires Pow(w, n1 * n2) == ONE && RowsDone(ContentsOf(re[..], im[..], scratch), x, w, n1, n2, {})
    modifies outRe, outIm
    ensures ContentsOf(outRe[..], outIm[..], output) == Transforms(x, w)
    ensures KeptOutside(output, old(outRe[..]), outRe[..]) && KeptOutside(output, old(outIm[..]), outIm[..])
  {
    hide *;
    var n := n1 * n2;
    ghost var y := ContentsOf(re[..], im[..], scratch);
    TransposeInWindow(n1, n2);
    WindowLengths(re[..], im[..], scratch);
    SecondPassDone(y, x, w, n1, n2);
    ghost var z := Transposed(y, n1, n2);
    IsShaped(z, output);
    AllShaped(outRe[..], outIm[..], output, z);
    NothingFilled(ContentsOf(outRe[..], outIm[..], output), z, n);
    NothingLost(output, outRe[..]);
    NothingLost(output, outIm[..]);
    var todo := Items(scratch.Count() * n);
    while todo != {}
      invariant todo <= Items(|z| * n)
      invariant Filled(ContentsOf(outRe[..], outIm[..], output), z, n, todo)
      invariant KeptOutside(output, old(outRe[..]), outRe[..]) && KeptOutside(output, old(outIm[..]), outIm[..])
      decreases todo
    {
      var pos :| pos in todo;
      CubeOf(pos, |z|, n);
      var inner, window := pos % n, pos / n;
      var k2 := inner / n1;
      var k1 := inner - k2 * n1;
      var src := k1 * n2 + k2;
      SourceIs(n1, n2, inner);
      WindowInBounds(scratch, re.Length, window);
      WindowInBounds(scratch, im.Length, window);
      var from := Layout(scratch, window);
      CellInBounds(from, re.Length, src);
      CellInBounds(from, im.Length, src);
      var value := Complex(re[from.At(src)], im[from.At(src)]);
      ghost var wasRe, wasIm := outRe[..], outIm[..];
      StoreElement(pos, value, outRe, outIm, output, z, todo);
      KeptTwice(output, old(outRe[..]), wasRe, outRe[..]);
      KeptTwice(output, old(outIm[..]), wasIm, outIm[..]);
      todo := todo - {pos};
    }
    AllFilled(ContentsOf(outRe[..], outIm[..], output), z, n);
  }

  lemma SourceIs(n1: nat, n2: nat, k: nat)
    requires n1 > 0
    ensures TransposeSource(n1, n2, k) == (k - k / n1 * n1) * n2 + k / n1
  {}

  /** The transforms of all windows. */
  function Transforms(x: seq<seq<Complex>>, w: Complex): (X: seq<seq<Complex>>)
    ensures |X| == |x| && forall i :: 0 <= i < |x| ==> X[i] == DftOf(x[i], w)
  {
    seq(|x|, i requires 0 <= i < |x| => DftOf(x[i], w))
  }

  /** What the threads of the transpose read, window by window. */
  function Transposed(y: seq<seq<Complex>>, n1: nat, n2: nat): (z: seq<seq<Complex>>)
    requires n1 > 0 && forall i :: 0 <= i < |y| ==> |y[i]| == n1 * n2
    requires forall k: nat :: k < n1 * n2 ==> 0 <= TransposeSource(n1, n2, k) < n1 * n2
    ensures |z| == |y|
    ensures forall i :: 0 <= i < |y| ==>
      |z[i]| == n1 * n2 && forall k: nat :: k < n1 * n2 ==> z[i][k] == y[i][TransposeSource(n1, n2, k)]
  {
    if y == [] then []
    else
      Transposed(y[..|y| - 1], n1, n2) +
      [seq(n1 * n2, k requires 0 <= k < n1 * n2 && 0 <= TransposeSource(n1, n2, k) < |y[|y| - 1]| =>
        y[|y| - 1][TransposeSource(n1, n2, k)])]
  }

  /** `cfft_four_step_launch`: three launches over one scratch tensor, each ending before the next starts. */
  method CfftFourStep(inRe: array<real>, inIm: array<real>, input: Batch,
                      outRe: array<real>, outIm: array<real>, output: Batch,
                      mode: FftMode, u: Complex, bits1: nat, bits2: nat, units1: nat, units2: nat)
    requires input.InBounds(inRe.Length) && input.InBounds(inIm.Length)
    requires outRe != outIm && output.Fits(outRe.Length) && output.Fits(outIm.Length)
    requires SameBatch(input, output) && input.Length() == output.Length() == Exp2(bits1 + bits2)
    requires IsRoot(u, bits1 + bits2) && units1 > 0 && units2 > 0
    modifies outRe, outIm
    ensures ContentsOf(outRe[..], outIm[..], output) == Transforms(old(ContentsOf(inRe[..], inIm[..], input)), Root(mode, u))
    ensures KeptOutside(output, old(outRe[..]), outRe[..]) && KeptOutside(output, old(outIm[..]), outIm[..])
  {
    hide IsRoot, Dft, Pow, Pass1, Pass2, ColumnsDone, RowsDone, ContentsOf, Exp2, Root, KeptOutside;
    Exp2Add(bits1, bits2);
    RootOfMode(mode, u, bits1 + bits2);
    RootCycle(Root(mode, u), bits1 + bits2);
    var scratch := Contiguous(input, input.Length());
    ContiguousFits(input, input.Length());
    SameCount(input, output);
    var scratchRe, scratchIm := new real[scratch.Size()], new real[scratch.Size()];
    ghost var x := ContentsOf(inRe[..], inIm[..], input);
    ColumnPass(inRe, inIm, input, scratchRe, scratchIm, scratch, mode, u, bits1, bits2, units1);
    RowPass(x, scratchRe, scratchIm, scratch, mode, u, bits1, bits2, units2);
    TransposePass(x, scratchRe, scratchIm, scratch, outRe, outIm, output, Root(mode, u), Exp2(bits1), Exp2(bits2));
  }

  /** `threads_per_cube`: half the window, at least one and at most what the device holds. */
  function Clamp(x: nat, high: nat): (r: nat)
    requires high >= 1
    ensures 1 <= r <= high
  {
    if x < 1 then 1 else if x > high then high else x
  }
}

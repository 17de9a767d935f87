/** Large real transforms by the packed-real trick: a window of 2M reals as M complex samples. */
module PackedReal {
  import opened ButterflyStages
  import opened ComplexNumbers
  import opened ComplexSums
  import opened Fourier
  import opened IndexArithmetic
  import opened PowersOfTwo
  import opened SharedMemoryKernels
  import opened TensorViews

  // ---- what the four kernels write ------------------------------------------------

  /** `rfft_pack_kernel`, element k. */
  function PackCell(x: seq<real>, len: nat, k: nat): Complex
    requires len <= |x|
  {
    Complex(if 2 * k < len then x[2 * k] else 0.0, if 2 * k + 1 < len then x[2 * k + 1] else 0.0)
  }

  /** `rfft_post_kernel`, the general bin: a is Y[k], b the conjugate of Y[M - k], t the twiddle W_N^k. */
  function PostCell(a: Complex, b: Complex, t: Complex): Complex {
    var onePlusS := 1.0 + t.im;
    var oneMinusS := 1.0 - t.im;
    Complex(0.5 * (a.re * onePlusS + a.im * t.re + b.re * oneMinusS - b.im * t.re),
            0.5 * (a.im * onePlusS - a.re * t.re + b.re * t.re + b.im * oneMinusS))
  }

  /** `rfft_post_kernel`, bin k of M + 1. */
  function PostBin(Y: seq<Complex>, w: Complex, k: nat): Complex
    requires 0 < |Y| && k <= |Y|
  {
    var m := |Y|;
    if k == 0 then Complex(Y[0].re + Y[0].im, 0.0)
    else if k == m then Complex(Y[0].re - Y[0].im, 0.0)
    else PostCell(Y[k], Complex(Y[m - k].re, -Y[m - k].im), Twiddle(w, 2 * m, k, 2 * m))
  }

  /** `irfft_pre_kernel`, the general bin: a is X[k], b the conjugate of X[M - k], t the twiddle W_N^-k. */
  function PreCell(a: Complex, b: Complex, t: Complex): Complex {
    var onePlusS := 1.0 + t.im;
    var oneMinusS := 1.0 - t.im;
    Complex(0.5 * (a.re * oneMinusS - a.im * t.re + b.re * onePlusS + b.im * t.re),
            0.5 * (a.im * oneMinusS + a.re * t.re - b.re * t.re + b.im * onePlusS))
  }

  /** A stored bin, zero from `bins` on. */
  function Bin(X: seq<Complex>, bins: nat, k: nat): Complex
    requires bins <= |X|
  {
    if k < bins then X[k] else ZERO
  }

  /** `irfft_pre_kernel`, packed bin k of M. */
  function PreBin(X: seq<Complex>, bins: nat, u: Complex, m: nat, k: nat): Complex
    requires 1 <= bins <= |X| && k < m
  {
    if k == 0 then
      var x0, xm := X[0].re, Bin(X, bins, m).re;
      Complex(0.5 * (x0 + xm), 0.5 * (x0 - xm))
    else
      var mirror := Bin(X, bins, m - k);
      PreCell(Bin(X, bins, k), Complex(mirror.re, -mirror.im), Twiddle(u, 2 * m, k, 2 * m))
  }

  /** `irfft_unpack_kernel`, sample i of 2M. */
  function UnpackedSample(y: seq<Complex>, i: nat): real
    requires i < 2 * |y|
  {
    (if i % 2 == 0 then y[i / 2].re else y[i / 2].im) * (1.0 / |y| as real)
  }

  // ---- the kernels' formulas in complex terms ------------------------------------

  function Half(a: Complex): Complex {
    Scale(0.5, a)
  }

  lemma PostCellMeaning(a: Complex, b: Complex, t: Complex)
    ensures PostCell(a, b, t) == Add(Half(Add(a, b)), Mul(t, Mul(Complex(0.0, -1.0), Half(Sub(a, b)))))
  {
    hide Mul;
    MinusI(Half(Sub(a, b)));
    ProductWithDifference(t, a, b);
  }

  lemma PreCellMeaning(a: Complex, b: Complex, t: Complex)
    ensures PreCell(a, b, t) == Add(Half(Add(a, b)), Mul(I, Mul(t, Half(Sub(a, b)))))
  {
    hide Mul;
    TimesI(Mul(t, Half(Sub(a, b))));
    ProductWithDifference(t, a, b);
  }

  lemma TimesI(a: Complex)
    ensures Mul(I, a) == Complex(-a.im, a.re)
  {}

  lemma MinusI(a: Complex)
    ensures Mul(Complex(0.0, -1.0), a) == Complex(a.im, -a.re)
  {}

  lemma ProductWithDifference(t: Complex, a: Complex, b: Complex)
    ensures
      var h := Half(Sub(a, b));
      && Mul(t, h) == Complex(0.5 * (t.re * a.re - t.im * a.im) - 0.5 * (t.re * b.re - t.im * b.im),
                              0.5 * (t.re * a.im + t.im * a.re) - 0.5 * (t.re * b.im + t.im * b.re))
      && Mul(t, Complex(h.im, -h.re))
         == Complex(0.5 * (t.re * a.im + t.im * a.re) - 0.5 * (t.re * b.im + t.im * b.re),
                    0.5 * (t.im * a.im - t.re * a.re) - 0.5 * (t.im * b.im - t.re * b.re))
  {
    HalfDifference(t.re, a.re, b.re);
    HalfDifference(t.re, a.im, b.im);
    HalfDifference(t.im, a.re, b.re);
    HalfDifference(t.im, a.im, b.im);
  }

  lemma HalfDifference(t: real, a: real, b: real)
    ensures t * (0.5 * (a - b)) == 0.5 * (t * a) - 0.5 * (t * b)
  {}

  /** Separating two spectra that were packed as real and imaginary part. */
  lemma Separate(e: Complex, o: Complex)
    ensures
      var a, b := Add(e, Mul(I, o)), Sub(e, Mul(I, o));
      && Half(Add(a, b)) == e && Mul(Complex(0.0, -1.0), Half(Sub(a, b))) == o
      && Conj(Add(Conj(e), Mul(I, Conj(o)))) == b
  {}

  // ---- forward ------------------------------------------------------------------------

  function RealPart(y: seq<Complex>): Signal {
    (i: nat) => if i < |y| then Complex(y[i].re, 0.0) else ZERO
  }

  function ImaginaryPart(y: seq<Complex>): Signal {
    (i: nat) => if i < |y| then Complex(y[i].im, 0.0) else ZERO
  }

  lemma RealDc(s: Signal, w: Complex, n: nat)
    requires Norm(w) == 1.0 && Pow(w, n) == ONE && RealSignal(s, n)
    ensures Dft(s, w, n, 0).im == 0.0
  {
    hide Mul, Norm, Pow, Dft;
    Hermitian(s, w, n, 0);
    DftPeriodic(s, w, n, 0, n);
  }

  /** A packed transform is the sum of its even transform and i times its odd transform, at k and mirrored. */
  lemma PackedSpectrum(y: seq<Complex>, w: Complex, k: nat)
    requires Norm(w) == 1.0 && Pow(w, |y|) == ONE && k <= |y|
    ensures
      var E := Dft(RealPart(y), w, |y|, k);
      var O := Dft(ImaginaryPart(y), w, |y|, k);
      && Dft(AsSignal(y), w, |y|, k) == Add(E, Mul(I, O))
      && Conj(Dft(AsSignal(y), w, |y|, |y| - k)) == Sub(E, Mul(I, O))
  {
    hide Norm, Pow, Dft;
    var n := |y|;
    forall i: nat | i < n
      ensures AsSignal(y)(i) == Add(RealPart(y)(i), Mul(I, ImaginaryPart(y)(i)))
    {}
    DftLinear(AsSignal(y), RealPart(y), I, ImaginaryPart(y), w, n, k);
    DftLinear(AsSignal(y), RealPart(y), I, ImaginaryPart(y), w, n, n - k);
    Hermitian(RealPart(y), w, n, k);
    Hermitian(ImaginaryPart(y), w, n, k);
    Separate(Dft(RealPart(y), w, n, k), Dft(ImaginaryPart(y), w, n, k));
  }

  /** Pack, length-M transform, post: bin k of the length-2M transform of the zero-extended signal. */
  lemma PostComputesRfft(x: seq<real>, len: nat, y: seq<Complex>, u: Complex, bits: nat, k: nat)
    requires bits > 0 && IsRoot(u, bits) && len <= |x| && len <= Exp2(bits)
    requires |y| == Exp2(bits - 1) && k <= |y|
    requires forall i: nat :: i < |y| ==> y[i] == PackCell(x, len, i)
    ensures PostBin(DftOf(y, Root(Forward, Mul(u, u))), Root(Forward, u), k)
         == Dft(Padded(x, len), Root(Forward, u), Exp2(bits), k)
  {
    hide Norm, Pow, Dft, Mul, Add, Sub, PostCell, PackCell;
    var m, w, s := |y|, Root(Forward, u), Padded(x, len);
    var w2 := Mul(w, w);
    RootOfMode(Forward, u, bits);
    RootSquare(w, bits);
    RootCycle(w2, bits - 1);
    ConjMul(u, u);
    forall i: nat | i < m
      ensures RealPart(y)(i) == s(2 * i) && ImaginaryPart(y)(i) == s(2 * i + 1)
    {
      PackedPair(x, len, i);
    }
    var j := if k == m then 0 else k;
    Butterfly(s, RealPart(y), ImaginaryPart(y), w, m, j);
    PackedSpectrum(y, w2, j);
    var E, O := Dft(RealPart(y), w2, m, j), Dft(ImaginaryPart(y), w2, m, j);
    if j == 0 {
      RealDc(RealPart(y), w2, m);
      RealDc(ImaginaryPart(y), w2, m);
      PackedDc(E, O, w);
    } else {
      Separate(E, O);
      var b := Sub(E, Mul(I, O));
      PostCellMeaning(Add(E, Mul(I, O)), b, Pow(w, k));
      FullTurn(w, 2 * m, k);
      ConjBack(Dft(AsSignal(y), w2, m, m - k), b);
    }
  }

  lemma PackedPair(x: seq<real>, len: nat, i: nat)
    requires len <= |x|
    ensures Complex(PackCell(x, len, i).re, 0.0) == Padded(x, len)(2 * i)
    ensures Complex(PackCell(x, len, i).im, 0.0) == Padded(x, len)(2 * i + 1)
  {}

  lemma PackedDc(E: Complex, O: Complex, w: Complex)
    requires E.im == 0.0 && O.im == 0.0
    ensures
      var y := Add(E, Mul(I, O));
      && Complex(y.re + y.im, 0.0) == Add(E, Mul(Pow(w, 0), O))
      && Complex(y.re - y.im, 0.0) == Sub(E, Mul(Pow(w, 0), O))
  {
    MulOne(O);
  }

  lemma ConjBack(a: Complex, b: Complex)
    requires Conj(a) == b
    ensures Complex(a.re, -a.im) == b
  {}

  // ---- inverse -------------------------------------------------------------------------

  /** The full spectrum with the two self-conjugate bins, DC and Nyquist, made real. */
  function Symmetric(X: seq<Complex>, bins: nat, m: nat): Signal
    requires bins <= |X|
  {
    (k: nat) =>
      if k >= 2 * m then ZERO
      else if k == 0 || k == m then Complex(ExtendedBin(X, bins, 2 * m, k).re, 0.0)
      else ExtendedBin(X, bins, 2 * m, k)
  }

  lemma {:induction false} SumRealParts(f: Signal, g: Signal, n: nat)
    requires forall i: nat | i < n :: f(i).re == g(i).re
    ensures Sum(f, n).re == Sum(g, n).re
  {
    if n > 0 {
      SumRealParts(f, g, n - 1);
    }
  }

  /** The imaginary parts of DC and Nyquist never reach the real part of a sample. */
  lemma ImaginaryDcAndNyquistIgnored(X: seq<Complex>, bins: nat, u: Complex, m: nat, i: nat)
    requires bins <= |X| && m > 0 && Pow(u, m) == MINUS_ONE
    ensures Dft(Extended(X, bins, 2 * m), u, 2 * m, i).re == Dft(Symmetric(X, bins, m), u, 2 * m, i).re
  {
    hide Pow, ExtendedBin, Mul;
    var f, g := DftTerm(Extended(X, bins, 2 * m), u, i), DftTerm(Symmetric(X, bins, m), u, i);
    forall k: nat | k < 2 * m
      ensures f(k).re == g(k).re
    {
      if k == 0 {
        assert i * 0 == 0;
        PowZero(u);
      } else if k == m {
        PowOfMinusOne(u, m, i);
        assert i * m == m * i;
      }
      RealPointKeepsReal(Extended(X, bins, 2 * m)(k), Pow(u, i * k));
    }
    SumRealParts(f, g, 2 * m);
  }

  lemma RealPointKeepsReal(a: Complex, p: Complex)
    ensures p.im == 0.0 ==> Mul(a, p).re == Mul(Complex(a.re, 0.0), p).re
  {}

  lemma PowZero(u: Complex)
    ensures Pow(u, 0) == ONE
  {}

  // ---- the symmetric spectrum transforms to a real signal

  lemma {:induction false} SumReverse(f: Signal, g: Signal, n: nat)
    requires forall i: nat | i < n :: g(i) == f(n - 1 - i)
    ensures Sum(g, n) == Sum(f, n)
  {
    if n > 0 {
      var tail: Signal := (i: nat) => f(i + 1);
      var one: Signal := (i: nat) => f(0);
      SumReverse(tail, g, n - 1);
      SumSplit(f, tail, 1, n - 1);
      assert Sum(f, 1) == Add(ZERO, f(0));
      AddComm(Sum(tail, n - 1), f(0));
    }
  }

  lemma AddComm(a: Complex, b: Complex)
    ensures Add(a, b) == Add(b, a) && Add(ZERO, a) == a
  {}

  /** A signal whose k-th term is the conjugate of its mirror image sums to a real number. */
  lemma SumOfMirrored(f: Signal, n: nat)
    requires n > 0 && f(0).im == 0.0
    requires forall j: nat, k: nat | 0 < j && 0 < k && j + k == n :: f(j) == Conj(f(k))
    ensures Sum(f, n).im == 0.0
  {
    var tail: Signal := (i: nat) => f(i + 1);
    SumSplit(f, tail, 1, n - 1);
    MirroredTail(f, tail, n);
    assert Sum(f, 1) == Add(ZERO, f(0));
  }

  lemma MirroredTail(f: Signal, tail: Signal, n: nat)
    requires n > 0 && forall i: nat :: tail(i) == f(i + 1)
    requires forall j: nat, k: nat | 0 < j && 0 < k && j + k == n :: f(j) == Conj(f(k))
    ensures Sum(tail, n - 1).im == 0.0
  {
    hide Sum;
    var conj: Signal := (i: nat) => Conj(tail(i));
    forall i: nat | i < n - 1
      ensures conj(i) == tail(n - 2 - i)
    {
      assert tail(n - 2 - i) == f(n - 1 - i);
    }
    SumReverse(tail, conj, n - 1);
    SumConj(conj, tail, n - 1);
  }

  lemma SymmetricIsMirrored(X: seq<Complex>, bins: nat, m: nat, k: nat)
    requires bins <= |X| && 0 < k < 2 * m
    ensures Symmetric(X, bins, m)(2 * m - k) == Conj(Symmetric(X, bins, m)(k))
  {}

  lemma SymmetricGivesReal(X: seq<Complex>, bins: nat, u: Complex, m: nat, i: nat)
    requires bins <= |X| && m > 0 && Norm(u) == 1.0 && Pow(u, 2 * m) == ONE
    ensures Dft(Symmetric(X, bins, m), u, 2 * m, i).im == 0.0
  {
    hide Pow, ExtendedBin, Norm, Symmetric, Mul;
    var n, S := 2 * m, Symmetric(X, bins, m);
    var f := DftTerm(S, u, i);
    forall j: nat, k: nat | 0 < j && 0 < k && j + k == n
      ensures f(j) == Conj(f(k))
    {
      SymmetricIsMirrored(X, bins, m, k);
      Distribute(i, n - k, k);
      MirrorPower(u, n, k, i);
      ConjMul(S(k), Pow(u, i * k));
    }
    assert f(0).im == 0.0 by {
      assert i * 0 == 0;
      PowZero(u);
      MulOne(S(0));
      SymmetricDcIsReal(X, bins, m);
    }
    SumOfMirrored(f, n);
  }

  lemma SymmetricDcIsReal(X: seq<Complex>, bins: nat, m: nat)
    requires bins <= |X| && m > 0
    ensures Symmetric(X, bins, m)(0).im == 0.0
  {}

  // ---- forward after inverse

  /**
   Forward after inverse returns the stored spectrum, zero from `bins` on, with the imaginary parts of DC and Nyquist
   dropped: no real signal has any.
   */
  lemma RfftOfIrfft(X: seq<Complex>, bins: nat, u: Complex, bits: nat, k: nat)
    requires bits > 0 && IsRoot(u, bits) && bins <= |X| && k <= Exp2(bits - 1)
    ensures Rfft(Irfft(X, bins, u, bits), Exp2(bits), u, bits)[k] ==
            if k >= bins then ZERO else if k == 0 || k == Exp2(bits - 1) then Complex(X[k].re, 0.0) else X[k]
  {
    hide *;
    StoredBin(X, bins, Exp2(bits - 1), k);
    RfftIsSymmetric(X, bins, u, bits, k);
  }

  lemma RfftIsSymmetric(X: seq<Complex>, bins: nat, u: Complex, bits: nat, k: nat)
    requires bits > 0 && IsRoot(u, bits) && bins <= |X| && k <= Exp2(bits - 1)
    ensures Exp2(bits) / 2 == Exp2(bits - 1)
    ensures Rfft(Irfft(X, bins, u, bits), Exp2(bits), u, bits)[k] == Symmetric(X, bins, Exp2(bits - 1))(k)
  {
    hide Pow, Dft, Mul, Norm, Symmetric, Extended;
    var n, m := Exp2(bits), Exp2(bits - 1);
    var x, S := Irfft(X, bins, u, bits), Symmetric(X, bins, m);
    var s := DftSignal(S, u, n);
    var r := 1.0 / n as real;
    var none: Signal := (i: nat) => ZERO;
    RootCycle(u, bits);
    forall i: nat | i < n
      ensures Padded(x, n)(i) == Add(none(i), Mul(Complex(r, 0.0), s(i)))
    {
      ImaginaryDcAndNyquistIgnored(X, bins, u, m, i);
      SymmetricGivesReal(X, bins, u, m, i);
      RealFactor(r, s(i));
    }
    DftLinear(Padded(x, n), none, Complex(r, 0.0), s, Conj(u), n, k);
    DftOfZero(none, Conj(u), n, k);
    Inversion(S, u, bits, k);
    RealFactor(r, Scale(n as real, S(k)));
    RescaledAway(r, n as real, S(k));
    assert Root(Forward, u) == Conj(u);
  }

  lemma RealFactor(r: real, a: Complex)
    ensures Add(ZERO, Mul(Complex(r, 0.0), a)) == Complex(a.re * r, a.im * r)
  {}

  lemma RescaledAway(r: real, n: real, a: Complex)
    requires r * n == 1.0
    ensures (n * a.re) * r == a.re && (n * a.im) * r == a.im
  {}

  lemma StoredBin(X: seq<Complex>, bins: nat, m: nat, k: nat)
    requires bins <= |X| && k <= m && m > 0
    ensures Symmetric(X, bins, m)(k) ==
            if k >= bins then ZERO else if k == 0 || k == m then Complex(X[k].re, 0.0) else X[k]
  {}

  /** So the two directions undo each other in this order exactly on spectra that are real at DC and Nyquist. */
  lemma RfftUndoesIrfftIff(X: seq<Complex>, u: Complex, bits: nat)
    requires bits > 0 && IsRoot(u, bits) && |X| == Exp2(bits - 1) + 1
    ensures Rfft(Irfft(X, |X|, u, bits), Exp2(bits), u, bits) == X
       <==> X[0].im == 0.0 && X[Exp2(bits - 1)].im == 0.0
  {
    hide IsRoot, Symmetric, Dft;
    var m := Exp2(bits - 1);
    var Y := Rfft(Irfft(X, |X|, u, bits), Exp2(bits), u, bits);
    forall k: nat | k <= m
      ensures Y[k] == if k == 0 || k == m then Complex(X[k].re, 0.0) else X[k]
    {
      RfftOfIrfft(X, |X|, u, bits, k);
    }
    if X[0].im == 0.0 && X[m].im == 0.0 {
      assert forall k: nat :: k <= m ==> Y[k] == X[k];
      assert Y == X;
    } else {
      assert Y[0] != X[0] || Y[m] != X[m];
    }
  }

  // ---- pre, length-M inverse transform, unpack

  /** Transforming with the squared root reads the even bins. */
  lemma EvenBins(x: Signal, u: Complex, m: nat, j: nat)
    ensures Dft(x, Mul(u, u), m, j) == Dft(x, u, m, 2 * j)
  {
    hide Mul, Pow;
    PowSmall(u);
    forall i: nat | i < m
      ensures DftTerm(x, Mul(u, u), j)(i) == DftTerm(x, u, 2 * j)(i)
    {
      Associate(2, j, i);
      PowPow(u, 2, j * i);
    }
    SumExt(DftTerm(x, Mul(u, u), j), DftTerm(x, u, 2 * j), m);
  }

  /** Turning sample i by u^i first reads the odd ones. */
  lemma OddBins(q: Signal, x: Signal, u: Complex, m: nat, j: nat)
    requires forall i: nat | i < m :: q(i) == Mul(Pow(u, i), x(i))
    ensures Dft(q, Mul(u, u), m, j) == Dft(x, u, m, 2 * j + 1)
  {
    hide Mul, Pow;
    EvenBins(q, u, m, j);
    forall i: nat | i < m
      ensures DftTerm(q, u, 2 * j)(i) == DftTerm(x, u, 2 * j + 1)(i)
    {
      Distribute(i, 2 * j, 1);
      PowAdd(u, i, 2 * j * i);
      MulComm(Pow(u, i), x(i));
      MulAssoc(x(i), Pow(u, i), Pow(u, 2 * j * i));
    }
    SumExt(DftTerm(q, u, 2 * j), DftTerm(x, u, 2 * j + 1), m);
  }

  function Shifted(S: Signal, m: nat): Signal {
    (k: nat) => S(k + m)
  }

  function Paired(S: Signal, T: Signal, plus: bool): Signal {
    (k: nat) => if plus then Add(S(k), T(k)) else Sub(S(k), T(k))
  }

  function Halved(S: Signal): Signal {
    (k: nat) => Half(S(k))
  }

  /** Half the sum, or half the difference, of a spectrum and itself half a turn on. */
  function Folded(S: Signal, m: nat, plus: bool): Signal {
    Halved(Paired(S, Shifted(S, m), plus))
  }

  lemma FoldedBins(S: Signal, u: Complex, m: nat, k: nat)
    requires Pow(u, m) == MINUS_ONE
    ensures Dft(Folded(S, m, k % 2 == 0), u, m, k) == Half(Dft(S, u, 2 * m, k))
  {
    hide Pow, Dft, Half;
    var s := Paired(S, Shifted(S, m), k % 2 == 0);
    HalvesOfInput(S, u, m, k, s);
    DftHalf(Halved(s), s, u, m, k);
  }

  lemma DftHalf(h: Signal, s: Signal, u: Complex, m: nat, k: nat)
    requires forall i: nat | i < m :: h(i) == Half(s(i))
    ensures Dft(h, u, m, k) == Half(Dft(s, u, m, k))
  {
    hide Pow, Dft, Half, Mul, Add;
    var none: Signal := (i: nat) => ZERO;
    forall i: nat | i < m
      ensures h(i) == Add(none(i), Mul(Complex(0.5, 0.0), s(i)))
    {
      HalfIsProduct(s(i));
    }
    DftLinear(h, none, Complex(0.5, 0.0), s, u, m, k);
    DftOfZero(none, u, m, k);
    HalfIsProduct(Dft(s, u, m, k));
  }

  lemma HalfIsProduct(a: Complex)
    ensures Half(a) == Mul(Complex(0.5, 0.0), a) == Add(ZERO, Mul(Complex(0.5, 0.0), a))
  {}

  lemma DftOfZero(x: Signal, u: Complex, m: nat, k: nat)
    requires forall i: nat | i < m :: x(i) == ZERO
    ensures Dft(x, u, m, k) == ZERO
  {
    hide Mul, Pow;
    forall i: nat | i < m
      ensures DftTerm(x, u, k)(i) == ZERO
    {
      MulZero(Pow(u, k * i));
    }
    SumZero(DftTerm(x, u, k), m);
  }

  /** What `irfft_pre_kernel` writes, in terms of the symmetric spectrum. */
  lemma PreBinMeaning(X: seq<Complex>, bins: nat, u: Complex, m: nat, k: nat)
    requires 1 <= bins <= |X| && k < m
    ensures
      var S := Symmetric(X, bins, m);
      PreBin(X, bins, u, m, k) == Add(Folded(S, m, true)(k), Mul(I, Mul(Pow(u, k), Folded(S, m, false)(k))))
  {
    hide Pow, Mul, PreCell, Half, Symmetric, Bin, Twiddle, Add, Sub;
    var S := Symmetric(X, bins, m);
    MirrorBin(X, bins, m, k);
    if k == 0 {
      PowZero(u);
      MulOne(Folded(S, m, false)(0));
      PreDc(S(0), S(m));
    } else {
      FullTurn(u, 2 * m, k);
      PreCellMeaning(S(k), S(k + m), Pow(u, k));
    }
  }

  lemma PreDc(a: Complex, b: Complex)
    requires a.im == 0.0 && b.im == 0.0
    ensures Complex(0.5 * (a.re + b.re), 0.5 * (a.re - b.re)) == Add(Half(Add(a, b)), Mul(I, Half(Sub(a, b))))
  {}

  lemma MirrorBin(X: seq<Complex>, bins: nat, m: nat, k: nat)
    requires 1 <= bins <= |X| && k < m
    ensures
      var S := Symmetric(X, bins, m);
      if k == 0 then S(0) == Complex(X[0].re, 0.0) && S(m) == Complex(Bin(X, bins, m).re, 0.0)
      else S(k) == Bin(X, bins, k) && S(k + m) == Complex(Bin(X, bins, m - k).re, -Bin(X, bins, m - k).im)
  {}

  /** The packed inverse samples are the even and odd samples of the direct inverse transform. */
  lemma PackedInverse(X: seq<Complex>, bins: nat, Y: seq<Complex>, u: Complex, m: nat, j: nat)
    requires 1 <= bins <= |X| && |Y| == m > 0 && Norm(u) == 1.0 && Pow(u, m) == MINUS_ONE && Pow(u, 2 * m) == ONE
    requires forall k: nat :: k < m ==> Y[k] == PreBin(X, bins, u, m, k)
    ensures
      var S := Symmetric(X, bins, m);
      Dft(AsSignal(Y), Mul(u, u), m, j)
      == Complex(0.5 * Dft(S, u, 2 * m, 2 * j).re, 0.5 * Dft(S, u, 2 * m, 2 * j + 1).re)
  {
    hide Pow, Dft, Mul, Norm, PreBin, Symmetric, Folded;
    var S := Symmetric(X, bins, m);
    var even, odd := Folded(S, m, true), Folded(S, m, false);
    var turned: Signal := (k: nat) => Mul(Pow(u, k), odd(k));
    forall k: nat | k < m
      ensures AsSignal(Y)(k) == Add(even(k), Mul(I, turned(k)))
    {
      PreBinMeaning(X, bins, u, m, k);
    }
    DftLinear(AsSignal(Y), even, I, turned, Mul(u, u), m, j);
    EvenBins(even, u, m, j);
    OddBins(turned, odd, u, m, j);
    FoldedBins(S, u, m, 2 * j);
    FoldedBins(S, u, m, 2 * j + 1);
    SymmetricGivesReal(X, bins, u, m, 2 * j);
    SymmetricGivesReal(X, bins, u, m, 2 * j + 1);
    RealPair(Dft(S, u, 2 * m, 2 * j), Dft(S, u, 2 * m, 2 * j + 1));
  }

  lemma RealPair(a: Complex, b: Complex)
    requires a.im == 0.0 && b.im == 0.0
    ensures Add(Half(a), Mul(I, Half(b))) == Complex(0.5 * a.re, 0.5 * b.re)
  {}

  /** Pre, length-M transform, unpack: sample i of the direct inverse, whatever the spectrum and its truncation. */
  lemma UnpackComputesIrfft(X: seq<Complex>, bins: nat, Y: seq<Complex>, u: Complex, bits: nat, i: nat)
    requires bits > 0 && IsRoot(u, bits) && 1 <= bins <= |X| && |Y| == Exp2(bits - 1) && i < Exp2(bits)
    requires forall k: nat :: k < |Y| ==> Y[k] == PreBin(X, bins, u, |Y|, k)
    ensures UnpackedSample(DftOf(Y, Root(Inverse, Mul(u, u))), i) == Irfft(X, bins, u, bits)[i]
  {
    hide Pow, Dft, Mul, Norm, PreBin, Symmetric, Extended;
    var m := |Y|;
    RootCycle(u, bits);
    PackedInverse(X, bins, Y, u, m, i / 2);
    ImaginaryDcAndNyquistIgnored(X, bins, u, m, i);
    HalfOfHalfLength(Dft(Symmetric(X, bins, m), u, 2 * m, i).re, m);
  }

  lemma HalfOfHalfLength(a: real, m: nat)
    requires m > 0
    ensures (0.5 * a) * (1.0 / m as real) == a * (1.0 / (2 * m) as real)
  {
    assert (2 * m) as real == 2.0 * m as real;
  }

  // ---- pre undoes post -----------------------------------------------------------------

  /** `irfft_pre_kernel` undoes `rfft_post_kernel` on every packed spectrum, whether or not any signal has it. */
  lemma PreUndoesPost(Y: seq<Complex>, X: seq<Complex>, u: Complex, k: nat)
    requires |Y| > 0 && k < |Y| && Norm(u) == 1.0 && Pow(u, |Y|) == MINUS_ONE
    requires |X| == |Y| + 1 && forall j: nat :: j <= |Y| ==> X[j] == PostBin(Y, Conj(u), j)
    ensures PreBin(X, |Y| + 1, u, |Y|, k) == Y[k]
  {
    hide Pow, Mul, Norm, PreCell, PostCell;
    var m := |Y|;
    if k > 0 {
      var a, b := Y[k], Complex(Y[m - k].re, -Y[m - k].im);
      var t, w := Pow(Conj(u), k), Pow(u, k);
      FullTurn(u, 2 * m, k);
      FullTurn(Conj(u), 2 * m, k);
      FullTurn(Conj(u), 2 * m, m - k);
      PowConj(u, k);
      PowNorm(u, k);
      MirroredTwiddle(u, m, k);
      PostThenPre(a, b, w);
    }
  }

  /** conj(u)^(m-k) is minus u^k when u^m is minus one. */
  lemma MirroredTwiddle(u: Complex, m: nat, k: nat)
    requires Norm(u) == 1.0 && Pow(u, m) == MINUS_ONE && k <= m
    ensures Pow(Conj(u), m - k) == Complex(-Pow(u, k).re, -Pow(u, k).im)
  {
    hide Pow, Mul, Norm;
    PowUnit(u, m - k);
    PowAdd(u, k, m - k);
    var p, q := Pow(u, k), Pow(Conj(u), m - k);
    MulAssoc(p, Pow(u, m - k), q);
    MulOne(p);
    NegatedPoint(q, p);
  }

  lemma NegatedPoint(q: Complex, p: Complex)
    requires Mul(MINUS_ONE, q) == p
    ensures q == Complex(-p.re, -p.im)
  {}

  /** On one mirrored pair of bins the two formulas are inverse for every unit twiddle. */
  lemma PostThenPre(a: Complex, b: Complex, w: Complex)
    requires Norm(w) == 1.0
    ensures
      var x := PostCell(a, b, Conj(w));
      var mirror := PostCell(Conj(b), Conj(a), Complex(-w.re, -w.im));
      PreCell(x, Conj(mirror), w) == a
  {}
}

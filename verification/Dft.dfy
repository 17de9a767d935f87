/** Powers of two. */
module PowersOfTwo {

  function Exp2(e: nat): (r: nat)
    ensures r >= 1
  {
    if e == 0 then 1 else 2 * Exp2(e - 1)
  }

  function Log2Floor(n: nat): (e: nat)
    requires n > 0
    ensures Exp2(e) <= n < Exp2(e + 1)
  {
    if n == 1 then 0 else 1 + Log2Floor(n / 2)
  }

  lemma TwiceProduct(a: int, b: int)
    ensures 2 * (a * b) == (2 * a) * b
  {}

  lemma {:induction false} Exp2Add(a: nat, b: nat)
    ensures Exp2(a + b) == Exp2(a) * Exp2(b)
  {
    if a > 0 {
      Exp2Add(a - 1, b);
      TwiceProduct(Exp2(a - 1), Exp2(b));
    }
  }

  lemma {:induction false} Exp2Monotone(a: nat, b: nat)
    requires a <= b
    ensures Exp2(a) <= Exp2(b)
  {
    if a > 0 {
      Exp2Monotone(a - 1, b - 1);
    }
  }
}

/**
 The discrete Fourier transform every kernel of the crate must compute, and its theory: the even/odd split, the
 frequency split, orthogonality, inversion, conjugate symmetry and the N = N1 * N2 factorisation.
 */
module Fourier {
  import opened ComplexNumbers
  import opened ComplexSums
  import opened IndexArithmetic
  import opened PowersOfTwo

  // ---- roots of unity -----------------------------------------------------

  /** `w` is a point of the unit circle whose 2^e-th power closes the circle and no earlier power of two does. */
  predicate IsRoot(w: Complex, e: nat) {
    Norm(w) == 1.0 && if e == 0 then w == ONE else Pow(w, Exp2(e - 1)) == MINUS_ONE
  }

  lemma RootCycle(w: Complex, e: nat)
    requires IsRoot(w, e)
    ensures Pow(w, Exp2(e)) == ONE
  {
    hide Mul, Norm;
    if e == 0 {
      PowSmall(w);
    } else {
      PowAdd(w, Exp2(e - 1), Exp2(e - 1));
      MinusOneSquared();
    }
  }

  lemma MinusOneSquared()
    ensures Mul(MINUS_ONE, MINUS_ONE) == ONE
  {}

  lemma RootSquare(w: Complex, e: nat)
    requires IsRoot(w, e) && e > 0
    ensures IsRoot(Mul(w, w), e - 1)
  {
    hide Mul, Norm;
    NormMul(w, w);
    PowSmall(w);
    if e == 1 {
      MinusOneSquared();
    } else {
      PowPow(w, 2, Exp2(e - 2));
    }
  }

  /**
   Halving the angle of a root gives the next one, so two square roots a step are all it takes to reach any window
   length: minus one is a root for length two.
   */
  lemma HalfAngle(w: Complex, e: nat, c: real, s: real)
    requires IsRoot(w, e) && e > 0
    requires c >= 0.0 && c * c == (1.0 + w.re) / 2.0
    requires s >= 0.0 && s * s == (1.0 - w.re) / 2.0
    ensures IsRoot(Complex(c, if w.im >= 0.0 then s else -s), e + 1)
  {
    var u := Complex(c, if w.im >= 0.0 then s else -s);
    DoubleAngle(w, c, s);
    hide Mul, Norm;
    PowSmall(u);
    PowPow(u, 2, Exp2(e - 1));
  }

  lemma DoubleAngle(w: Complex, c: real, s: real)
    requires Norm(w) == 1.0
    requires c >= 0.0 && c * c == (1.0 + w.re) / 2.0
    requires s >= 0.0 && s * s == (1.0 - w.re) / 2.0
    ensures
      var u := Complex(c, if w.im >= 0.0 then s else -s);
      Norm(u) == 1.0 && Mul(u, u) == w
  {
    var im := if w.im >= 0.0 then w.im else -w.im;
    SquareOfProduct(2.0 * c, s);
    SameSquares(2.0 * c * s, im);
    SignedProduct(c, s);
  }

  lemma SignedProduct(c: real, s: real)
    ensures c * -s == -(c * s) && -s * c == -(c * s) && -s * -s == s * s
  {}

  lemma SquareOfProduct(a: real, b: real)
    ensures (a * b) * (a * b) == (a * a) * (b * b)
  {}

  lemma SameSquares(a: real, b: real)
    requires a >= 0.0 && b >= 0.0 && a * a == b * b
    ensures a == b
  {
    if a < b {
      LargerSquare(a, b);
    } else if b < a {
      LargerSquare(b, a);
    }
  }

  lemma PositiveProduct(a: real, b: real)
    requires a > 0.0 && b > 0.0
    ensures a * b > 0.0
  {}

  lemma LargerSquare(a: real, b: real)
    requires 0.0 <= a < b
    ensures a * a < b * b
  {
    PositiveProduct(b - a, b + a);
    assert (b - a) * (b + a) == b * b - a * a;
  }

  lemma {:induction false} RootPow(w: Complex, e: nat, t: nat)
    requires IsRoot(w, e) && t <= e
    ensures IsRoot(Pow(w, Exp2(t)), e - t)
  {
    hide Mul, Norm;
    if t == 0 {
      PowSmall(w);
    } else {
      RootPow(w, e, t - 1);
      RootSquare(Pow(w, Exp2(t - 1)), e - t + 1);
      PowAdd(w, Exp2(t - 1), Exp2(t - 1));
    }
  }

  lemma RootConj(w: Complex, e: nat)
    requires IsRoot(w, e)
    ensures IsRoot(Conj(w), e)
  {
    hide Mul, Norm;
    NormConj(w);
    if e > 0 {
      PowConj(w, Exp2(e - 1));
    }
  }

  lemma {:induction false} PowCycles(w: Complex, n: nat, q: nat)
    requires Pow(w, n) == ONE
    ensures Pow(w, n * q) == ONE
  {
    hide Mul;
    PowPow(w, n, q);
    PowOne(q);
  }

  /** Exponents count modulo the period. */
  lemma PowPeriodic(w: Complex, n: nat, a: nat, q: nat)
    requires Pow(w, n) == ONE
    ensures Pow(w, a + n * q) == Pow(w, a)
  {
    hide Mul;
    PowCycles(w, n, q);
    PowAdd(w, a, n * q);
    MulOne(Pow(w, a));
  }

  /** w^a is undone by the a-th power of the conjugate. */
  lemma PowUnit(w: Complex, a: nat)
    requires Norm(w) == 1.0
    ensures Mul(Pow(w, a), Pow(Conj(w), a)) == ONE
  {
    hide Mul, Norm;
    PowConj(w, a);
    PowNorm(w, a);
    UnitConj(Pow(w, a));
  }

  /** Walking back b steps from a cycle of length n is conjugation. */
  lemma PowMirror(w: Complex, n: nat, b: nat)
    requires Norm(w) == 1.0 && Pow(w, n) == ONE && b <= n
    ensures Pow(w, n - b) == Pow(Conj(w), b) == Conj(Pow(w, b))
  {
    hide Mul, Norm;
    PowAdd(w, n - b, b);
    PowUnit(w, b);
    PowConj(w, b);
    MulAssoc(Pow(w, n - b), Pow(w, b), Pow(Conj(w), b));
    MulOne(Pow(Conj(w), b));
    MulOne(Pow(w, n - b));
  }

  // ---- the transform --------------------------------------------------------

  function DftTerm(x: Signal, w: Complex, k: nat): Signal {
    (n: nat) => Mul(x(n), Pow(w, k * n))
  }

  /** Bin `k` of the length-`n` transform of `x` with root `w`. */
  function Dft(x: Signal, w: Complex, n: nat, k: nat): Complex {
    Sum(DftTerm(x, w, k), n)
  }

  lemma DftExt(x: Signal, y: Signal, w: Complex, n: nat, k: nat)
    requires forall i: nat | i < n :: x(i) == y(i)
    ensures Dft(x, w, n, k) == Dft(y, w, n, k)
  {
    hide Mul;
    SumExt(DftTerm(x, w, k), DftTerm(y, w, k), n);
  }

  lemma DftLinear(z: Signal, x: Signal, c: Complex, y: Signal, w: Complex, n: nat, k: nat)
    requires forall i: nat | i < n :: z(i) == Add(x(i), Mul(c, y(i)))
    ensures Dft(z, w, n, k) == Add(Dft(x, w, n, k), Mul(c, Dft(y, w, n, k)))
  {
    hide Mul, Add;
    var ty := DftTerm(y, w, k);
    var cy: Signal := (i: nat) => Mul(c, ty(i));
    forall i: nat | i < n
      ensures DftTerm(z, w, k)(i) == Add(DftTerm(x, w, k)(i), cy(i))
    {
      var p := Pow(w, k * i);
      MulAdd(p, x(i), Mul(c, y(i)));
      MulAssoc(c, y(i), p);
      assert cy(i) == Mul(c, Mul(y(i), p));
    }
    SumAdd(DftTerm(z, w, k), DftTerm(x, w, k), cy, n);
    SumMul(cy, c, DftTerm(y, w, k), n);
  }

  /** Bins repeat with the period of the root. */
  lemma DftPeriodic(x: Signal, w: Complex, n: nat, k: nat, p: nat)
    requires Pow(w, p) == ONE
    ensures Dft(x, w, n, k + p) == Dft(x, w, n, k)
  {
    hide Mul;
    forall i: nat | i < n
      ensures DftTerm(x, w, k + p)(i) == DftTerm(x, w, k)(i)
    {
      assert (k + p) * i == k * i + p * i;
      PowPeriodic(w, p, k * i, i);
    }
    SumExt(DftTerm(x, w, k + p), DftTerm(x, w, k), n);
  }

  /** Even/odd split: one radix-2 butterfly joins the transforms of the two decimated halves. */
  lemma Butterfly(x: Signal, e: Signal, o: Signal, w: Complex, m: nat, k: nat)
    requires Pow(w, m) == MINUS_ONE
    requires forall i: nat | i < m :: e(i) == x(2 * i) && o(i) == x(2 * i + 1)
    ensures
      var E := Dft(e, Mul(w, w), m, k);
      var t := Mul(Pow(w, k), Dft(o, Mul(w, w), m, k));
      Dft(x, w, 2 * m, k) == Add(E, t) && Dft(x, w, 2 * m, k + m) == Sub(E, t)
  {
    hide Mul, Add, Sub;
    var w2 := Mul(w, w);
    var E, O := Dft(e, w2, m, k), Dft(o, w2, m, k);
    ButterflyHalf(x, e, o, w, m, k);
    ButterflyHalf(x, e, o, w, m, k + m);
    PowSmall(w);
    PowPow(w, 2, m);
    PowAdd(w, m, m);
    MinusOneSquared();
    DftPeriodic(e, w2, m, k, m);
    DftPeriodic(o, w2, m, k, m);
    PowAdd(w, k, m);
    MulMinusOne(Pow(w, k), O);
    AddNegated(E, Mul(Pow(w, k), O));
  }

  lemma AddNegated(a: Complex, b: Complex)
    ensures Add(a, Sub(ZERO, b)) == Sub(a, b)
  {}

  lemma ButterflyHalf(x: Signal, e: Signal, o: Signal, w: Complex, m: nat, k: nat)
    requires forall i: nat | i < m :: e(i) == x(2 * i) && o(i) == x(2 * i + 1)
    ensures Dft(x, w, 2 * m, k) == Add(Dft(e, Mul(w, w), m, k), Mul(Pow(w, k), Dft(o, Mul(w, w), m, k)))
  {
    hide Mul, Add;
    var w2 := Mul(w, w);
    var to := DftTerm(o, w2, k);
    var odd: Signal := (i: nat) => Mul(Pow(w, k), to(i));
    forall i: nat | i < m
      ensures DftTerm(e, w2, k)(i) == DftTerm(x, w, k)(2 * i)
      ensures odd(i) == DftTerm(x, w, k)(2 * i + 1)
    {
      assert k * (2 * i) == 2 * (k * i) && k * (2 * i + 1) == 2 * (k * i) + k by {
        Associate(k, 2, i);
        Distribute(k, 2 * i, 1);
      }
      OddTerm(o(i), w, k, k * i);
    }
    SumEvenOdd(DftTerm(x, w, k), DftTerm(e, w2, k), odd, m);
    SumMul(odd, Pow(w, k), DftTerm(o, w2, k), m);
  }

  lemma OddTerm(a: Complex, w: Complex, k: nat, t: nat)
    ensures Pow(Mul(w, w), t) == Pow(w, 2 * t)
    ensures Mul(Pow(w, k), Mul(a, Pow(Mul(w, w), t))) == Mul(a, Pow(w, 2 * t + k))
  {
    hide Mul;
    PowSmall(w);
    PowPow(w, 2, t);
    PowAdd(w, k, 2 * t);
    MulAssoc(a, Pow(w, k), Pow(w, 2 * t));
    MulComm(a, Pow(w, k));
    MulAssoc(Pow(w, k), a, Pow(w, 2 * t));
  }

  // ---- orthogonality and inversion ---------------------------------------

  function PowerTerm(w: Complex, d: nat): Signal {
    (n: nat) => Pow(w, d * n)
  }

  function PowerSum(d: nat, n: nat): Complex
    requires n > 0
  {
    if d % n == 0 then Complex(n as real, 0.0) else ZERO
  }

  /** The powers w^(d n) add up to N when N divides d and cancel otherwise. */
  lemma {:induction false} Orthogonality(w: Complex, e: nat, d: nat)
    requires IsRoot(w, e)
    ensures Sum(PowerTerm(w, d), Exp2(e)) == PowerSum(d, Exp2(e))
    decreases e
  {
    hide Mul, Norm, PowerSum;
    if e == 0 {
      PowerSumOfOne(w, d);
    } else {
      var m := Exp2(e - 1);
      if d % 2 == 1 {
        OddPowersCancel(w, m, d);
        PowerSumOdd(d, m);
      } else {
        RootSquare(w, e);
        Orthogonality(Mul(w, w), e - 1, d / 2);
        EvenPowersDouble(w, m, d);
        PowerSumEven(d, m);
      }
    }
  }

  lemma PowerSumOfOne(w: Complex, d: nat)
    ensures Sum(PowerTerm(w, d), 1) == PowerSum(d, 1)
  {
    assert PowerTerm(w, d)(0) == Pow(w, 0) == ONE;
    assert Sum(PowerTerm(w, d), 1) == Add(ZERO, ONE);
  }

  lemma PowerSumOdd(d: nat, m: nat)
    requires d % 2 == 1 && m > 0
    ensures PowerSum(d, 2 * m) == ZERO
  {
    OddIsNoMultiple(d, m);
  }

  lemma PowerSumEven(d: nat, m: nat)
    requires d % 2 == 0 && m > 0
    ensures PowerSum(d, 2 * m) == Add(PowerSum(d / 2, m), PowerSum(d / 2, m))
  {
    HalveModulus(d, m);
    assert (2 * m) as real == m as real + m as real;
  }

  lemma OddIsNoMultiple(d: nat, m: nat)
    requires d % 2 == 1 && m > 0
    ensures d % (2 * m) != 0
  {
    var q, r := d / (2 * m), d % (2 * m);
    assert d == (2 * m) * q + r;
    Associate(2, m, q);
  }

  lemma HalveModulus(d: nat, m: nat)
    requires d % 2 == 0 && m > 0
    ensures d % (2 * m) == 0 <==> (d / 2) % m == 0
  {
    var q, r := (d / 2) / m, (d / 2) % m;
    assert d == q * (2 * m) + 2 * r by {
      Associate(2, q, m);
    }
    DivModUnique(d, 2 * m, q, 2 * r);
  }

  lemma OddPowersCancel(w: Complex, m: nat, d: nat)
    requires Pow(w, m) == MINUS_ONE && d % 2 == 1
    ensures Sum(PowerTerm(w, d), 2 * m) == ZERO
  {
    hide Mul;
    var f := PowerTerm(w, d);
    var g: Signal := (i: nat) => Mul(MINUS_ONE, f(i));
    assert Pow(w, 2 * m) == ONE by {
      PowAdd(w, m, m);
      MinusOneSquared();
    }
    forall i: nat | i < m
      ensures g(i) == f(m + i)
    {
      OddExponent(d, m, i);
      PowPeriodic(w, 2 * m, d * i + m, d / 2);
      PowAdd(w, d * i, m);
      MulComm(f(i), MINUS_ONE);
    }
    SumSplit(f, g, m, m);
    SumMul(g, MINUS_ONE, f, m);
    CancelNegated(Sum(f, m));
  }

  lemma OddExponent(d: nat, m: nat, i: nat)
    requires d % 2 == 1
    ensures d * (m + i) == (d * i + m) + (2 * m) * (d / 2)
  {
    var h := d / 2;
    Distribute(d, m, i);
    Distribute(m, 2 * h, 1);
    Associate(2, m, h);
  }

  lemma CancelNegated(a: Complex)
    ensures Add(a, Mul(MINUS_ONE, a)) == ZERO
  {}

  lemma EvenPowersDouble(w: Complex, m: nat, d: nat)
    requires Pow(w, m) == MINUS_ONE && d % 2 == 0
    ensures
      var half := Sum(PowerTerm(Mul(w, w), d / 2), m);
      Sum(PowerTerm(w, d), 2 * m) == Add(half, half)
  {
    hide Mul;
    var f, g := PowerTerm(w, d), PowerTerm(Mul(w, w), d / 2);
    PowSmall(w);
    assert Pow(w, 2 * m) == ONE by {
      PowAdd(w, m, m);
      MinusOneSquared();
    }
    forall i: nat | i < m
      ensures g(i) == f(i) == f(m + i)
    {
      EvenExponent(d, m, i);
      PowPow(w, 2, (d / 2) * i);
      PowPeriodic(w, 2 * m, d * i, d / 2);
    }
    SumSplit(f, g, m, m);
    SumExt(f, g, m);
  }

  lemma EvenExponent(d: nat, m: nat, i: nat)
    requires d % 2 == 0
    ensures 2 * ((d / 2) * i) == d * i
    ensures d * (m + i) == d * i + (2 * m) * (d / 2)
  {
    var h := d / 2;
    Distribute(d, m, i);
    Associate(2, h, i);
    Associate(2, m, h);
  }

  /** A transform as a signal, to be transformed again. */
  function DftSignal(x: Signal, w: Complex, n: nat): Signal {
    (k: nat) => Dft(x, w, n, k)
  }

  /** The summand of the double transform: x[j] w^(kj) conj(w)^(ik). */
  function InverseCell(x: Signal, w: Complex, i: nat): (nat, nat) -> Complex {
    (k: nat, j: nat) => Mul(Mul(x(j), Pow(w, k * j)), Pow(Conj(w), i * k))
  }

  /** Transforming back with the conjugate root recovers every sample, N-fold: the two directions are inverse. */
  lemma Inversion(x: Signal, w: Complex, e: nat, i: nat)
    requires IsRoot(w, e) && i < Exp2(e)
    ensures Dft(DftSignal(x, w, Exp2(e)), Conj(w), Exp2(e), i) == Scale(Exp2(e) as real, x(i))
  {
    hide Mul, Norm, IsRoot;
    var n := Exp2(e);
    var F := InverseCell(x, w, i);
    var rows := DftTerm(DftSignal(x, w, n), Conj(w), i);
    var cols: Signal := (j: nat) => if j == i then Scale(n as real, x(i)) else ZERO;
    forall k: nat | k < n
      ensures rows(k) == Sum(Row(F, k), n)
    {
      var p := Pow(Conj(w), i * k);
      forall j: nat | j < n
        ensures Row(F, k)(j) == Mul(p, DftTerm(x, w, k)(j))
      {
        MulComm(DftTerm(x, w, k)(j), p);
      }
      SumMul(Row(F, k), p, DftTerm(x, w, k), n);
      MulComm(p, Dft(x, w, n, k));
    }
    forall j: nat | j < n
      ensures cols(j) == Sum(Col(F, j), n)
    {
      InversionColumn(x, w, e, i, j);
    }
    SumSwap(F, rows, cols, n, n);
    SumSingle(cols, i, n);
  }

  /** How far index j lies past index i, walking up around a circle of n. */
  function Past(j: nat, i: nat, n: nat): nat
    requires i < n && j < n
  {
    if j >= i then j - i else j + n - i
  }

  lemma InversionColumn(x: Signal, w: Complex, e: nat, i: nat, j: nat)
    requires IsRoot(w, e) && i < Exp2(e) && j < Exp2(e)
    ensures Sum(Col(InverseCell(x, w, i), j), Exp2(e)) == if j == i then Scale(Exp2(e) as real, x(i)) else ZERO
  {
    hide Mul, Norm, Pow, PowerSum, Sum;
    var n := Exp2(e);
    RootCycle(w, e);
    var d := Past(j, i, n);
    var col := Col(InverseCell(x, w, i), j);
    forall k: nat | k < n
      ensures col(k) == Mul(x(j), PowerTerm(w, d)(k))
    {
      InversionTerm(x, w, n, i, j, k);
    }
    SumMul(col, x(j), PowerTerm(w, d), n);
    Orthogonality(w, e, d);
    PowerSumPast(j, i, n);
    MulRealIsScale(x(i), n as real);
    MulZero(x(j));
  }

  lemma PowerSumPast(j: nat, i: nat, n: nat)
    requires i < n && j < n
    ensures PowerSum(Past(j, i, n), n) == if j == i then Complex(n as real, 0.0) else ZERO
  {}

  lemma MulRealIsScale(a: Complex, r: real)
    ensures Mul(a, Complex(r, 0.0)) == Scale(r, a)
  {}

  lemma InversionTerm(x: Signal, w: Complex, n: nat, i: nat, j: nat, k: nat)
    requires Norm(w) == 1.0 && Pow(w, n) == ONE && i < n && j < n
    ensures InverseCell(x, w, i)(k, j) == Mul(x(j), PowerTerm(w, Past(j, i, n))(k))
  {
    hide Mul, Norm, Pow;
    var q := if j >= i then 0 else k;
    DifferenceExponent(n, k, j, i);
    assert Past(j, i, n) * k + i * k == k * j + n * q;
    PowDifference(x(j), w, n, k * j, i * k, Past(j, i, n) * k, q);
  }

  /** w^a conj(w)^b is the power of w by the exponent difference, taken around the circle. */
  lemma PowDifference(x: Complex, w: Complex, n: nat, a: nat, b: nat, c: nat, q: nat)
    requires Norm(w) == 1.0 && Pow(w, n) == ONE && c + b == a + n * q
    ensures Mul(Mul(x, Pow(w, a)), Pow(Conj(w), b)) == Mul(x, Pow(w, c))
  {
    hide Mul, Norm, Pow;
    PowPeriodic(w, n, a, q);
    PowAdd(w, c, b);
    MulAssoc(Pow(w, c), Pow(w, b), Pow(Conj(w), b));
    PowUnit(w, b);
    MulOne(Pow(w, c));
    MulAssoc(x, Pow(w, a), Pow(Conj(w), b));
  }

  lemma DifferenceExponent(n: nat, k: nat, j: nat, i: nat)
    requires i < n && j < n
    ensures j >= i ==> (j - i) * k + i * k == k * j
    ensures j < i ==> (j + n - i) * k + i * k == k * j + n * k
  {
    if j >= i {
      Distribute(k, j - i, i);
    } else {
      Distribute(k, j + n - i, i);
      Distribute(k, j, n);
    }
  }

  // ---- conjugate symmetry ---------------------------------------------------

  /** The transform of a conjugated signal is the conjugated transform with the conjugate root. */
  lemma DftConj(x: Signal, y: Signal, w: Complex, n: nat, k: nat)
    requires forall i: nat | i < n :: y(i) == Conj(x(i))
    ensures Dft(y, Conj(w), n, k) == Conj(Dft(x, w, n, k))
  {
    hide Mul;
    forall i: nat | i < n
      ensures DftTerm(y, Conj(w), k)(i) == Conj(DftTerm(x, w, k)(i))
    {
      PowConj(w, k * i);
      ConjMul(x(i), Pow(w, k * i));
    }
    SumConj(DftTerm(y, Conj(w), k), DftTerm(x, w, k), n);
  }

  /** Bin n - k is bin k of the conjugate root: mirroring the frequency conjugates the root. */
  lemma DftMirror(x: Signal, w: Complex, n: nat, k: nat)
    requires Norm(w) == 1.0 && Pow(w, n) == ONE && k <= n
    ensures Dft(x, w, n, n - k) == Dft(x, Conj(w), n, k)
  {
    hide Mul, Norm, Pow;
    forall i: nat | i < n
      ensures DftTerm(x, w, n - k)(i) == DftTerm(x, Conj(w), k)(i)
    {
      MirrorPower(w, n, k, i);
    }
    SumExt(DftTerm(x, w, n - k), DftTerm(x, Conj(w), k), n);
  }

  lemma MirrorPower(w: Complex, n: nat, k: nat, i: nat)
    requires Norm(w) == 1.0 && Pow(w, n) == ONE && k <= n
    ensures (n - k) * i >= 0 && k * i >= 0
    ensures Pow(w, (n - k) * i) == Pow(Conj(w), k * i) == Conj(Pow(w, k * i))
  {
    hide Mul, Norm, Pow, Conj;
    MirrorExponent(n, k, i);
    PowCycles(w, n, i);
    PowMirror(w, n * i, k * i);
  }

  lemma MirrorExponent(n: nat, k: nat, i: nat)
    requires k <= n
    ensures (n - k) * i >= 0 && 0 <= k * i <= n * i && (n - k) * i == n * i - k * i
  {
    Distribute(i, n - k, k);
    Nonnegative(n - k, i);
    Nonnegative(k, i);
  }

  predicate RealSignal(x: Signal, n: nat) {
    forall i: nat | i < n :: x(i).im == 0.0
  }

  /** The spectrum of a real signal is Hermitian: the stored half determines the rest. */
  lemma Hermitian(x: Signal, w: Complex, n: nat, k: nat)
    requires Norm(w) == 1.0 && Pow(w, n) == ONE && k <= n
    requires RealSignal(x, n)
    ensures Dft(x, w, n, n - k) == Conj(Dft(x, w, n, k))
  {
    hide Mul, Norm;
    DftMirror(x, w, n, k);
    DftConj(x, x, w, n, k);
  }

  // ---- splitting the frequencies --------------------------------------------

  /** Splitting a transform over its first and second half of inputs: the decimation-in-frequency form. */
  lemma HalvesOfInput(x: Signal, w: Complex, m: nat, k: nat, s: Signal)
    requires Pow(w, m) == MINUS_ONE
    requires forall i: nat {:trigger s(i)} | i < m ::
      s(i) == if k % 2 == 0 then Add(x(i), x(i + m)) else Sub(x(i), x(i + m))
    ensures Dft(x, w, 2 * m, k) == Dft(s, w, m, k)
  {
    hide Mul, Add, Sub, Pow, Sum;
    var f := DftTerm(x, w, k);
    var upper: Signal := (i: nat) => f(m + i);
    SumSplit(f, upper, m, m);
    forall i: nat | i < m
      ensures DftTerm(s, w, k)(i) == Add(f(i), upper(i))
    {
      HalvesOfInputTerm(x, w, m, k, s, i);
    }
    SumAdd(DftTerm(s, w, k), f, upper, m);
  }

  lemma HalvesOfInputTerm(x: Signal, w: Complex, m: nat, k: nat, s: Signal, i: nat)
    requires Pow(w, m) == MINUS_ONE
    requires s(i) == if k % 2 == 0 then Add(x(i), x(i + m)) else Sub(x(i), x(i + m))
    ensures DftTerm(s, w, k)(i) == Add(DftTerm(x, w, k)(i), DftTerm(x, w, k)(m + i))
  {
    hide Mul, Add, Sub, Pow;
    assert k * (m + i) == k * i + m * k && m * k >= 0 by {
      Distribute(k, m, i);
    }
    JoinHalves(x(i), x(i + m), w, m, k, k * i);
  }

  lemma JoinHalves(a: Complex, b: Complex, w: Complex, m: nat, k: nat, t: nat)
    requires Pow(w, m) == MINUS_ONE
    ensures m * k >= 0
    ensures Mul(if k % 2 == 0 then Add(a, b) else Sub(a, b), Pow(w, t))
         == Add(Mul(a, Pow(w, t)), Mul(b, Pow(w, t + m * k)))
  {
    hide Mul, Add, Sub;
    var p := Pow(w, t);
    PowAdd(w, t, m * k);
    PowOfMinusOne(w, m, k);
    MulAdd(p, a, b);
    MulOne(p);
    MulComm(p, MINUS_ONE);
    SubMul(a, b, p);
  }

  lemma SubMul(a: Complex, b: Complex, p: Complex)
    ensures Mul(Sub(a, b), p) == Add(Mul(a, p), Mul(b, Mul(MINUS_ONE, p)))
  {}

  lemma PowOfMinusOne(w: Complex, m: nat, k: nat)
    requires Pow(w, m) == MINUS_ONE
    ensures Pow(w, m * k) == if k % 2 == 0 then ONE else MINUS_ONE
  {
    hide Mul;
    PowPow(w, m, k);
    SignPower(k);
  }

  lemma {:induction false} SignPower(k: nat)
    ensures Pow(MINUS_ONE, k) == if k % 2 == 0 then ONE else MINUS_ONE
  {
    hide Mul;
    MinusOneSquared();
    MulOne(MINUS_ONE);
    if k > 0 {
      SignPower(k - 1);
    }
  }
}

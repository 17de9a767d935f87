/** Exact complex arithmetic: the pairs of floats the kernels carry, over `real`. */
module ComplexNumbers {

  datatype Complex = Complex(re: real, im: real)

  const ZERO := Complex(0.0, 0.0)
  const ONE := Complex(1.0, 0.0)
  const MINUS_ONE := Complex(-1.0, 0.0)
  const I := Complex(0.0, 1.0)

  function Add(a: Complex, b: Complex): Complex {
    Complex(a.re + b.re, a.im + b.im)
  }

  function Sub(a: Complex, b: Complex): Complex {
    Complex(a.re - b.re, a.im - b.im)
  }

  function Mul(a: Complex, b: Complex): Complex {
    Complex(a.re * b.re - a.im * b.im, a.re * b.im + a.im * b.re)
  }

  function Conj(a: Complex): Complex {
    Complex(a.re, -a.im)
  }

  function Scale(r: real, a: Complex): Complex {
    Complex(r * a.re, r * a.im)
  }

  /** The squared modulus. */
  function Norm(a: Complex): real {
    a.re * a.re + a.im * a.im
  }

  function Pow(a: Complex, n: nat): Complex {
    if n == 0 then ONE else Mul(a, Pow(a, n - 1))
  }

  // ---- ring laws -------------------------------------------------------

  lemma MulAssoc(a: Complex, b: Complex, c: Complex)
    ensures Mul(Mul(a, b), c) == Mul(a, Mul(b, c))
  {}

  lemma MulComm(a: Complex, b: Complex)
    ensures Mul(a, b) == Mul(b, a)
  {}

  lemma MulAdd(a: Complex, b: Complex, c: Complex)
    ensures Mul(a, Add(b, c)) == Add(Mul(a, b), Mul(a, c))
    ensures Mul(Add(b, c), a) == Add(Mul(b, a), Mul(c, a))
  {}

  lemma MulOne(a: Complex)
    ensures Mul(a, ONE) == a && Mul(ONE, a) == a
  {}

  lemma MulZero(a: Complex)
    ensures Mul(a, ZERO) == ZERO && Mul(ZERO, a) == ZERO
  {}

  lemma MulMinusOne(a: Complex, b: Complex)
    ensures Mul(a, MINUS_ONE) == Sub(ZERO, a)
    ensures Mul(Mul(a, MINUS_ONE), b) == Sub(ZERO, Mul(a, b))
  {}

  lemma ConjMul(a: Complex, b: Complex)
    ensures Conj(Mul(a, b)) == Mul(Conj(a), Conj(b))
  {}

  /** (ab)(cd) = (ac)(bd) */
  lemma MulSwap(a: Complex, b: Complex, c: Complex, d: Complex)
    ensures Mul(Mul(a, b), Mul(c, d)) == Mul(Mul(a, c), Mul(b, d))
  {
    hide Mul;
    MulAssoc(a, b, Mul(c, d));
    MulAssoc(b, c, d);
    MulComm(b, c);
    MulAssoc(c, b, d);
    MulAssoc(a, c, Mul(b, d));
  }

  lemma NormMul(a: Complex, b: Complex)
    ensures Norm(Mul(a, b)) == Norm(a) * Norm(b)
  {
    var ab := Mul(a, b);
    assert ab.re * ab.re + ab.im * ab.im
        == (a.re * a.re) * (b.re * b.re) + (a.im * a.im) * (b.im * b.im)
         + (a.re * a.re) * (b.im * b.im) + (a.im * a.im) * (b.re * b.re);
  }

  // ---- powers ----------------------------------------------------------

  lemma {:induction false} PowAdd(a: Complex, m: nat, n: nat)
    ensures Pow(a, m + n) == Mul(Pow(a, m), Pow(a, n))
  {
    hide Mul;
    if m == 0 {
      MulOne(Pow(a, n));
    } else {
      PowAdd(a, m - 1, n);
      MulAssoc(a, Pow(a, m - 1), Pow(a, n));
    }
  }

  lemma {:induction false} PowOne(n: nat)
    ensures Pow(ONE, n) == ONE
  {
    hide Mul;
    MulOne(ONE);
    if n > 0 {
      PowOne(n - 1);
    }
  }

  lemma {:induction false} PowBase(a: Complex, b: Complex, n: nat)
    ensures Pow(Mul(a, b), n) == Mul(Pow(a, n), Pow(b, n))
  {
    hide Mul;
    if n == 0 {
      MulOne(ONE);
    } else {
      PowBase(a, b, n - 1);
      MulSwap(a, b, Pow(a, n - 1), Pow(b, n - 1));
    }
  }

  lemma {:induction false} PowPow(a: Complex, m: nat, n: nat)
    ensures Pow(Pow(a, m), n) == Pow(a, m * n)
  {
    hide Mul;
    if n == 0 {
    } else {
      PowPow(a, m, n - 1);
      assert m * n == m + m * (n - 1);
      PowAdd(a, m, m * (n - 1));
    }
  }

  lemma {:induction false} PowConj(a: Complex, n: nat)
    ensures Pow(Conj(a), n) == Conj(Pow(a, n))
  {
    hide Mul;
    if n > 0 {
      PowConj(a, n - 1);
      ConjMul(a, Pow(a, n - 1));
    }
  }

  lemma {:induction false} PowNorm(a: Complex, n: nat)
    requires Norm(a) == 1.0
    ensures Norm(Pow(a, n)) == 1.0
  {
    hide Mul, Norm;
    if n == 0 {
      NormOne();
    } else {
      PowNorm(a, n - 1);
      NormMul(a, Pow(a, n - 1));
    }
  }

  lemma NormConj(a: Complex)
    ensures Norm(Conj(a)) == Norm(a)
  {}

  lemma NormOne()
    ensures Norm(ONE) == 1.0
  {}

  /** A point of the unit circle times its conjugate is one. */
  lemma UnitConj(a: Complex)
    requires Norm(a) == 1.0
    ensures Mul(a, Conj(a)) == ONE && Mul(Conj(a), a) == ONE
    ensures Norm(Conj(a)) == 1.0
  {}

  lemma PowSmall(a: Complex)
    ensures Pow(a, 1) == a && Pow(a, 2) == Mul(a, a)
  {
    hide Mul;
    MulOne(a);
    assert Pow(a, 1) == Mul(a, Pow(a, 0));
    assert Pow(a, 2) == Mul(a, Pow(a, 1));
  }
}

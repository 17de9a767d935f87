/** Finite sums of complex-valued index functions. Laws are stated pointwise, so no two closures are compared. */
module ComplexSums {
  import opened ComplexNumbers
  import opened IndexArithmetic

  type Signal = nat -> Complex

  function Sum(f: Signal, n: nat): Complex {
    if n == 0 then ZERO else Add(Sum(f, n - 1), f(n - 1))
  }

  lemma {:induction false} SumExt(f: Signal, g: Signal, n: nat)
    requires forall i: nat | i < n :: f(i) == g(i)
    ensures Sum(f, n) == Sum(g, n)
  {
    if n > 0 {
      SumExt(f, g, n - 1);
    }
  }

  lemma {:induction false} SumAdd(h: Signal, f: Signal, g: Signal, n: nat)
    requires forall i: nat | i < n :: h(i) == Add(f(i), g(i))
    ensures Sum(h, n) == Add(Sum(f, n), Sum(g, n))
  {
    if n > 0 {
      SumAdd(h, f, g, n - 1);
    }
  }

  lemma {:induction false} SumMul(h: Signal, c: Complex, f: Signal, n: nat)
    requires forall i: nat | i < n :: h(i) == Mul(c, f(i))
    ensures Sum(h, n) == Mul(c, Sum(f, n))
  {
    hide Mul, Add;
    if n == 0 {
      MulZero(c);
    } else {
      SumMul(h, c, f, n - 1);
      MulAdd(c, Sum(f, n - 1), f(n - 1));
    }
  }

  lemma {:induction false} SumConj(h: Signal, f: Signal, n: nat)
    requires forall i: nat | i < n :: h(i) == Conj(f(i))
    ensures Sum(h, n) == Conj(Sum(f, n))
  {
    if n > 0 {
      SumConj(h, f, n - 1);
    }
  }

  lemma {:induction false} SumZero(f: Signal, n: nat)
    requires forall i: nat | i < n :: f(i) == ZERO
    ensures Sum(f, n) == ZERO
  {
    if n > 0 {
      SumZero(f, n - 1);
    }
  }

  lemma {:induction false} SumConst(f: Signal, c: Complex, n: nat)
    requires forall i: nat | i < n :: f(i) == c
    ensures Sum(f, n) == Scale(n as real, c)
  {
    if n > 0 {
      SumConst(f, c, n - 1);
      assert n as real == (n - 1) as real + 1.0;
      ScaleSucc((n - 1) as real, c);
    }
  }

  lemma ScaleSucc(r: real, c: Complex)
    ensures Scale(r + 1.0, c) == Add(Scale(r, c), c)
  {}

  /** Only the term at `k` is nonzero. */
  lemma {:induction false} SumSingle(f: Signal, k: nat, n: nat)
    requires k < n
    requires forall i: nat | i < n && i != k :: f(i) == ZERO
    ensures Sum(f, n) == f(k)
  {
    if k == n - 1 {
      SumZero(f, n - 1);
    } else {
      SumSingle(f, k, n - 1);
    }
  }

  lemma {:induction false} SumSplit(f: Signal, g: Signal, m: nat, n: nat)
    requires forall i: nat | i < n :: g(i) == f(m + i)
    ensures Sum(f, m + n) == Add(Sum(f, m), Sum(g, n))
  {
    if n > 0 {
      SumSplit(f, g, m, n - 1);
    }
  }

  lemma {:induction false} SumEvenOdd(f: Signal, e: Signal, o: Signal, m: nat)
    requires forall i: nat | i < m :: e(i) == f(2 * i) && o(i) == f(2 * i + 1)
    ensures Sum(f, 2 * m) == Add(Sum(e, m), Sum(o, m))
  {
    hide Add;
    AddZero();
    if m > 0 {
      SumEvenOdd(f, e, o, m - 1);
      assert Sum(f, 2 * m) == Add(Add(Sum(f, 2 * (m - 1)), f(2 * (m - 1))), f(2 * (m - 1) + 1));
      AddPairs(Sum(e, m - 1), Sum(o, m - 1), e(m - 1), o(m - 1));
    }
  }

  lemma AddZero()
    ensures Add(ZERO, ZERO) == ZERO
  {}

  lemma AddPairs(a: Complex, b: Complex, c: Complex, d: Complex)
    ensures Add(Add(Add(a, b), c), d) == Add(Add(a, c), Add(b, d))
  {}

  // ---- double sums ------------------------------------------------------

  function Row(F: (nat, nat) -> Complex, i: nat): Signal {
    (j: nat) => F(i, j)
  }

  function Col(F: (nat, nat) -> Complex, j: nat): Signal {
    (i: nat) => F(i, j)
  }

  /** Exchange of the two summations. */
  lemma {:induction false} SumSwap(F: (nat, nat) -> Complex, rows: Signal, cols: Signal, m: nat, n: nat)
    requires forall i: nat | i < m :: rows(i) == Sum(Row(F, i), n)
    requires forall j: nat | j < n :: cols(j) == Sum(Col(F, j), m)
    ensures Sum(rows, m) == Sum(cols, n)
  {
    if m == 0 {
      SumZero(cols, n);
    } else {
      var shorter: Signal := (j: nat) => Sum(Col(F, j), m - 1);
      SumSwap(F, rows, shorter, m - 1, n);
      SumAdd(cols, shorter, Row(F, m - 1), n);
    }
  }

  /** A sum over `m * n` cells, row by row. */
  lemma {:induction false} SumRowMajor(f: Signal, F: (nat, nat) -> Complex, rows: Signal, m: nat, n: nat)
    requires forall i: nat, j: nat {:trigger F(i, j)} | i < m && j < n :: F(i, j) == f(i * n + j)
    requires forall i: nat | i < m :: rows(i) == Sum(Row(F, i), n)
    ensures Sum(f, m * n) == Sum(rows, m)
  {
    hide Add;
    if m > 0 {
      var p := (m - 1) * n;
      assert m * n == p + n && p >= 0 by {
        Distribute(n, m - 1, 1);
        Nonnegative(m - 1, n);
      }
      SumRowMajor(f, F, rows, m - 1, n);
      SumSplit(f, Row(F, m - 1), p, n);
    }
  }
}

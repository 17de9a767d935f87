/** The few facts of nonlinear integer arithmetic the index computations rest on. */
module IndexArithmetic {

  lemma Distribute(a: int, b: int, c: int)
    ensures a * (b + c) == a * b + a * c
    ensures (b + c) * a == b * a + c * a
  {}

  lemma Associate(a: int, b: int, c: int)
    ensures a * (b * c) == (a * b) * c == b * (a * c)
  {}

  lemma {:induction false} Nonnegative(a: nat, b: nat)
    ensures a * b >= 0
  {}

  lemma Monotone(a: int, b: int, c: nat)
    requires a <= b
    ensures a * c <= b * c && c * a <= c * b
  {}

  /** Quotient and remainder are the only way to write x as q * d + r with 0 <= r < d. */
  lemma DivModUnique(x: int, d: int, q: int, r: int)
    requires x == q * d + r && 0 <= r < d
    ensures x / d == q && x % d == r
  {
    var p := x / d - q;
    assert p * d == r - x % d by {
      assert x == (x / d) * d + x % d;
      Distribute(d, x / d, -q);
    }
    if p > 0 {
      Monotone(1, p, d);
      assert false;
    } else if p < 0 {
      Monotone(p, -1, d);
      assert false;
    }
  }

  lemma DivBounds(a: nat, d: nat)
    requires d > 0
    ensures 0 <= a / d <= a
  {
    var q := a / d;
    Monotone(1, d, q);
  }

  lemma ModOfMultiple(m: int, q: int)
    requires m > 0
    ensures (m * q) % m == 0 && (m * q) / m == q
  {
    DivModUnique(m * q, m, q, 0);
  }

  /** A cell of an m-by-n row-major box. */
  lemma CellBelow(i: nat, j: nat, m: nat, n: nat)
    requires i < m && j < n
    ensures 0 <= i * n + j < m * n
    ensures (i * n + j) / n == i && (i * n + j) % n == j
  {
    Monotone(i + 1, m, n);
    Distribute(n, i, 1);
    DivModUnique(i * n + j, n, i, j);
  }

  lemma CellOf(x: nat, m: nat, n: nat)
    requires x < m * n && n > 0
    ensures x / n < m && x % n < n && x == (x / n) * n + x % n
  {
    if x / n >= m {
      Monotone(m, x / n, n);
      assert false;
    }
  }

  function DivCeil(a: nat, b: nat): nat
    requires b > 0
  {
    if a % b == 0 then a / b else a / b + 1
  }

  lemma DivCeilCovers(a: nat, b: nat)
    requires b > 0
    ensures DivCeil(a, b) * b >= a
    ensures forall c: nat :: c * b >= a ==> c >= DivCeil(a, b)
  {
    Distribute(b, a / b, 1);
    forall c: nat | c * b >= a
      ensures c >= DivCeil(a, b)
    {
      CoversLeast(a, b, a / b, a % b, c);
    }
  }

  lemma CoversLeast(a: nat, b: nat, q: int, r: nat, c: nat)
    requires b > 0 && a == q * b + r && c * b >= a
    ensures c >= q && (r > 0 ==> c > q)
  {
    if c < q {
      Monotone(c + 1, q, b);
      Distribute(b, c, 1);
    }
  }

  function Min(a: nat, b: nat): nat {
    if a <= b then a else b
  }

  function Max(a: nat, b: nat): nat {
    if a >= b then a else b
  }
}

/** Spreading a cube count over the three grid dimensions a device limits separately. */
module CubeCount {
  import opened IndexArithmetic
  import opened PowersOfTwo

  // ---- halving with rounding up ------------------------------------------------------------------

  /** Rounding up twice is rounding up once. */
  lemma DivCeilTwice(n: nat, a: nat, b: nat)
    requires a > 0 && b > 0
    ensures a * b > 0 && DivCeil(DivCeil(n, a), b) == DivCeil(n, a * b)
  {
    hide DivCeil;
    Monotone(1, a, b);
    TwiceIsEnough(n, a, b, DivCeil(n, a), DivCeil(DivCeil(n, a), b));
    OnceIsEnough(n, a, b, DivCeil(n, a * b));
  }

  lemma TwiceIsEnough(n: nat, a: nat, b: nat, once: nat, twice: nat)
    requires a > 0 && b > 0 && a * b > 0 && once == DivCeil(n, a) && twice == DivCeil(once, b)
    ensures twice >= DivCeil(n, a * b)
  {
    hide DivCeil;
    DivCeilCovers(n, a);
    DivCeilCovers(once, b);
    DivCeilCovers(n, a * b);
    Monotone(once, twice * b, a);
    Associate(twice, a, b);
  }

  lemma OnceIsEnough(n: nat, a: nat, b: nat, whole: nat)
    requires a > 0 && b > 0 && a * b > 0 && whole == DivCeil(n, a * b)
    ensures whole >= DivCeil(DivCeil(n, a), b)
  {
    hide DivCeil;
    DivCeilCovers(n, a * b);
    Associate(whole, a, b);
    Nonnegative(whole, b);
    Reaches(n, a, whole * b);
    Reaches(DivCeil(n, a), b, whole);
  }

  lemma Reaches(n: nat, a: nat, c: nat)
    requires a > 0 && c * a >= n
    ensures c >= DivCeil(n, a)
  {
    DivCeilCovers(n, a);
  }

  lemma Undivided(n: nat)
    ensures DivCeil(n, 1) == n
  {}

  /** What the halving loop needs in order to end: some room, or nothing to do. */
  predicate Reachable(n: nat, limit: nat) {
    n <= limit || limit > 0
  }

  /** Halvings until n is within the limit. */
  function Halvings(n: nat, limit: nat): (t: nat)
    requires Reachable(n, limit)
    decreases n
  {
    if n <= limit then 0 else 1 + Halvings(DivCeil(n, 2), limit)
  }

  /** These are the fewest halvings that bring n, rounded up, within the limit. */
  lemma {:induction false} HalvingsAreFewest(n: nat, limit: nat, t: nat)
    requires Reachable(n, limit)
    ensures DivCeil(n, Exp2(t)) <= limit <==> Halvings(n, limit) <= t
    decreases t
  {
    if n <= limit {
      hide Exp2, DivCeil;
      DivCeilCovers(n, Exp2(t));
      Monotone(1, Exp2(t), n);
    } else if t > 0 {
      HalvingsAreFewest(DivCeil(n, 2), limit, t - 1);
      DivCeilTwice(n, 2, Exp2(t - 1));
    } else {
      Undivided(n);
    }
  }

  /** Some number of halvings brings n within the limit. */
  ghost predicate Ends(n: nat, limit: nat) {
    exists t: nat :: DivCeil(n, Exp2(t)) <= limit
  }

  /** Rounding up never loses the last cube: under a limit of zero the loop goes on for ever. */
  lemma EndsIff(n: nat, limit: nat)
    ensures Ends(n, limit) <==> Reachable(n, limit)
  {
    hide DivCeil, Exp2;
    if Reachable(n, limit) {
      HalvingsAreFewest(n, limit, Halvings(n, limit));
    } else {
      forall t: nat
        ensures DivCeil(n, Exp2(t)) > limit
      {
        DivCeilCovers(n, Exp2(t));
      }
    }
  }

  /** Both loops of the spread end, the second being run on what the first has moved over. */
  ghost predicate SpreadEnds(n: nat, limit0: nat, limit1: nat) {
    && Ends(n, limit0)
    && (n > limit0 ==> exists t: nat :: DivCeil(n, Exp2(t)) <= limit0 && Ends(Exp2(t), limit1))
  }

  predicate Spreadable(n: nat, limit0: nat, limit1: nat) {
    n <= limit0 || (limit0 > 0 && limit1 > 0)
  }

  lemma SpreadEndsIff(n: nat, limit0: nat, limit1: nat)
    ensures SpreadEnds(n, limit0, limit1) <==> Spreadable(n, limit0, limit1)
  {
    hide DivCeil, Exp2, Ends;
    EndsIff(n, limit0);
    forall t: nat
      ensures Ends(Exp2(t), limit1) <==> limit1 > 0
    {
      EndsIff(Exp2(t), limit1);
    }
    if n > limit0 && limit0 > 0 {
      HalvingsAreFewest(n, limit0, Halvings(n, limit0));
    }
  }

  /** One cube under a first limit of zero, and two cubes under (1, 0): neither spread ends. */
  lemma ZeroLimitsNeverEnd()
    ensures !SpreadEnds(1, 0, 1) && !SpreadEnds(2, 1, 0)
  {
    SpreadEndsIff(1, 0, 1);
    SpreadEndsIff(2, 1, 0);
  }

  // ---- how many cubes a spread launches ----------------------------------------------------------

  /** n rounded up to the power of two its first extent was halved by. */
  function Launched(n: nat, limit: nat): (cubes: nat)
    requires Reachable(n, limit)
  {
    var p := Exp2(Halvings(n, limit));
    Nonnegative(DivCeil(n, p), p);
    DivCeil(n, p) * p
  }

  /** Never fewer cubes than asked for, never twice as many, and exactly as many when the halvings lose nothing. */
  lemma LaunchedCovers(n: nat, limit: nat)
    requires Reachable(n, limit)
    ensures n <= Launched(n, limit)
    ensures n > 0 ==> Launched(n, limit) < 2 * n
    ensures Launched(n, limit) == n <==> n % Exp2(Halvings(n, limit)) == 0
  {
    var t := Halvings(n, limit);
    RoundedUp(n, Exp2(t));
    if n > 0 && t > 0 {
      HalvingsAreFewest(n, limit, t - 1);
      assert Exp2(t) == Exp2(t - 1) * 2;
      hide Halvings, Exp2;
      DivCeilTwice(n, Exp2(t - 1), 2);
      RoundedUp(n, Exp2(t - 1));
      HalfFilled(n, Exp2(t - 1), DivCeil(n, Exp2(t - 1)));
    }
  }

  lemma RoundedUp(n: nat, p: nat)
    requires p > 0
    ensures n <= DivCeil(n, p) * p < n + p
    ensures DivCeil(n, p) * p == n <==> n % p == 0
  {
    Distribute(p, n / p, 1);
  }

  lemma HalfFilled(n: nat, p: nat, k: nat)
    requires k > 1 && k * p < n + p
    ensures DivCeil(k, 2) * (p * 2) < 2 * n
  {
    Monotone(DivCeil(k, 2), k - 1, p);
    Distribute(p, k, -1);
    Associate(DivCeil(k, 2), p, 2);
  }

  // ---- the third extent -----------------------------------------------------------------------------

  /** Doublings that end up in the third extent. */
  function Spilled(n: nat, limit0: nat, limit1: nat): nat
    requires Spreadable(n, limit0, limit1)
  {
    if n <= limit0 then 0 else Halvings(Exp2(Halvings(n, limit0)), limit1)
  }

  /** Whether all three extents of the spread are within their limits, in terms of the call alone. */
  predicate WithinLimits(n: nat, limit0: nat, limit1: nat, limit2: nat)
    requires Spreadable(n, limit0, limit1)
  {
    limit2 > 0 && (n <= limit0 || n <= limit0 * Exp2(Log2Floor(limit1) + Log2Floor(limit2)))
  }

  /** The third extent is within its limit exactly when the powers of two in the other limits leave enough room. */
  lemma ThirdFitsIff(n: nat, limit0: nat, limit1: nat, limit2: nat)
    requires Spreadable(n, limit0, limit1)
    ensures Exp2(Spilled(n, limit0, limit1)) <= limit2 <==> WithinLimits(n, limit0, limit1, limit2)
  {
    if n <= limit0 {
      assert Exp2(0) == 1;
    } else if limit2 > 0 {
      hide DivCeil, Exp2, Log2Floor, Halvings;
      var t := Halvings(n, limit0);
      var s := Halvings(Exp2(t), limit1);
      var a, b := Log2Floor(limit1), Log2Floor(limit2);
      PowerWithin(s, limit2);
      HalvingsAreFewest(Exp2(t), limit1, b);
      PowerQuotient(t, b);
      PowerWithin(if t < b then 0 else t - b, limit1);
      HalvingsAreFewest(n, limit0, a + b);
      CeilingWithin(n, Exp2(a + b), limit0);
    }
  }

  lemma PowerWithin(s: nat, limit: nat)
    requires limit > 0
    ensures Exp2(s) <= limit <==> s <= Log2Floor(limit)
  {
    hide Exp2, Log2Floor;
    var e := Log2Floor(limit);
    if s <= e {
      Exp2Monotone(s, e);
    } else {
      Exp2Monotone(e + 1, s);
    }
  }

  lemma PowerQuotient(t: nat, b: nat)
    ensures DivCeil(Exp2(t), Exp2(b)) == Exp2(if t < b then 0 else t - b)
  {
    hide Exp2;
    assert Exp2(0) == 1 by { One(); }
    if t < b {
      Exp2Monotone(t + 1, b);
      Exp2Add(t, 1);
      SmallCeiling(Exp2(t), Exp2(b));
    } else {
      Exp2Add(b, t - b);
      ModOfMultiple(Exp2(b), Exp2(t - b));
    }
  }

  lemma One()
    ensures Exp2(0) == 1 && Exp2(1) == 2
  {}

  lemma SmallCeiling(a: nat, b: nat)
    requires 0 < a <= b
    ensures DivCeil(a, b) == 1
  {
    hide DivCeil;
    DivCeilCovers(a, b);
    assert 1 * b >= a;
  }

  lemma CeilingWithin(n: nat, p: nat, limit: nat)
    requires p > 0
    ensures DivCeil(n, p) <= limit <==> n <= limit * p
  {
    hide DivCeil;
    DivCeilCovers(n, p);
    if DivCeil(n, p) <= limit {
      Monotone(DivCeil(n, p), limit, p);
    }
  }

  /** Five cubes under limits (1, 1, 4): the third extent comes out at eight. */
  lemma ThirdExceedsItsLimit()
    ensures Spreadable(5, 1, 1) && !WithinLimits(5, 1, 1, 4) && Exp2(Spilled(5, 1, 1)) == 8
  {
    assert Halvings(5, 1) == 1 + Halvings(3, 1) && Halvings(3, 1) == 1 + Halvings(2, 1) && Halvings(2, 1) == 1;
    assert Exp2(3) == 2 * Exp2(2) && Exp2(2) == 2 * Exp2(1);
    assert Halvings(8, 1) == 1 + Halvings(4, 1) && Halvings(4, 1) == 1 + Halvings(2, 1);
    assert Spreadable(5, 1, 1) && Spilled(5, 1, 1) == 3;
    hide *;
    ThirdFitsIff(5, 1, 1, 4);
  }

  // ---- the spread ---------------------------------------------------------------------------------

  /** One extent halved until it is within its limit, the next doubled as often. */
  method ReduceCount(num: array<nat>, limit: nat, i: nat) returns (within: bool)
    requires i + 1 < num.Length && Reachable(num[i], limit)
    modifies num
    ensures within <==> old(num[i]) <= limit
    ensures num[i] == DivCeil(old(num[i]), Exp2(Halvings(old(num[i]), limit))) <= limit
    ensures num[i + 1] == old(num[i + 1]) * Exp2(Halvings(old(num[i]), limit))
    ensures forall k :: 0 <= k < num.Length && k != i && k != i + 1 ==> num[k] == old(num[k])
  {
    if num[i] <= limit {
      assert Exp2(0) == 1;
      return true;
    }
    ghost var n, t := num[i], 0;
    while true
      invariant num[i] > limit
      invariant t <= Halvings(n, limit) && num[i] == DivCeil(n, Exp2(t))
      invariant num[i + 1] == old(num[i + 1]) * Exp2(t)
      invariant forall k :: 0 <= k < num.Length && k != i && k != i + 1 ==> num[k] == old(num[k])
      decreases num[i]
    {
      DivCeilTwice(n, Exp2(t), 2);
      HalvingsAreFewest(n, limit, t);
      HalvingsAreFewest(n, limit, t + 1);
      assert Exp2(t + 1) == Exp2(t) * 2;
      Associate(old(num[i + 1]), Exp2(t), 2);
      num[i] := DivCeil(num[i], 2);
      num[i + 1] := num[i + 1] * 2;
      t := t + 1;
      if num[i] <= limit {
        return false;
      }
    }
  }

  /** A power of two takes whole halvings to come within any positive limit. */
  lemma {:induction false} HalvingsOfPower(t: nat, limit: nat)
    requires limit > 0
    ensures Halvings(Exp2(t), limit) <= t
    ensures DivCeil(Exp2(t), Exp2(Halvings(Exp2(t), limit))) == Exp2(t - Halvings(Exp2(t), limit))
  {
    if t > 0 && Exp2(t) > limit {
      assert DivCeil(Exp2(t), 2) == Exp2(t - 1);
      HalvingsOfPower(t - 1, limit);
      var s := Halvings(Exp2(t - 1), limit);
      assert Halvings(Exp2(t), limit) == s + 1;
      DivCeilTwice(Exp2(t), 2, Exp2(s));
    } else {
      Undivided(Exp2(t));
    }
  }

  /** The cubes of a three-dimensional grid. */
  function Product(x: nat, y: nat, z: nat): nat {
    Nonnegative(x, y);
    Nonnegative(x * y, z);
    x * y * z
  }

  /** The fewest halvings of the count, and of what they move over the fewest that bring the second extent within its limit. */
  predicate Spreads(n: nat, limit0: nat, limit1: nat, x: nat, y: nat, z: nat)
    requires Spreadable(n, limit0, limit1)
  {
    var t, s := Halvings(n, limit0), Spilled(n, limit0, limit1);
    x == DivCeil(n, Exp2(t)) && s <= t && y == Exp2(t - s) && z == Exp2(s)
  }

  lemma SpreadLimits(n: nat, limit0: nat, limit1: nat, limit2: nat, x: nat, y: nat, z: nat)
    requires Spreadable(n, limit0, limit1) && Spreads(n, limit0, limit1, x, y, z)
    ensures x <= limit0
    ensures y <= limit1 <==> n > limit0 || limit1 > 0
    ensures z <= limit2 <==> WithinLimits(n, limit0, limit1, limit2)
    ensures Product(x, y, z) == Launched(n, limit0)
  {
    hide DivCeil, Halvings, WithinLimits;
    var t, s := Halvings(n, limit0), Spilled(n, limit0, limit1);
    ThirdFitsIff(n, limit0, limit1, limit2);
    HalvingsAreFewest(n, limit0, t);
    HalvingsAreFewest(n, limit0, 0);
    Undivided(n);
    if n > limit0 {
      HalvingsOfPower(t, limit1);
      HalvingsAreFewest(Exp2(t), limit1, s);
    } else {
      assert Exp2(0) == 1;
    }
    Exp2Add(t - s, s);
    Associate(x, y, z);
  }

  /**
   `cube_count_spread`: the first extent is halved into the second and, when that outgrows its limit, the second into the
   third. Both ends of the trade are least, and the product is the count rounded up to what the halvings need. The third
   extent is never held against its limit, so whether it is within is up to the count.
   */
  method CubeCountSpread(maxCubeCount: (nat, nat, nat), numCubes: nat) returns (num: array<nat>)
    requires Spreadable(numCubes, maxCubeCount.0, maxCubeCount.1)
    ensures fresh(num) && num.Length == 3
    ensures Spreads(numCubes, maxCubeCount.0, maxCubeCount.1, num[0], num[1], num[2])
    ensures num[0] <= maxCubeCount.0
    ensures num[1] <= maxCubeCount.1 <==> numCubes > maxCubeCount.0 || maxCubeCount.1 > 0
    ensures num[2] <= maxCubeCount.2 <==> WithinLimits(numCubes, maxCubeCount.0, maxCubeCount.1, maxCubeCount.2)
    ensures Product(num[0], num[1], num[2]) == Launched(numCubes, maxCubeCount.0)
  {
    hide DivCeil, Halvings, WithinLimits, Exp2, Launched, Product;
    num := new nat[3];
    num[0], num[1], num[2] := numCubes, 1, 1;
    ghost var t := Halvings(numCubes, maxCubeCount.0);
    ghost var s := Spilled(numCubes, maxCubeCount.0, maxCubeCount.1);
    SpreadStages(numCubes, maxCubeCount.0, maxCubeCount.1);
    var limits := [maxCubeCount.0, maxCubeCount.1, maxCubeCount.2];
    var i := 0;
    while i < 2
      invariant 0 <= i <= 2
      invariant i > 0 ==> numCubes > maxCubeCount.0
      invariant i == 0 ==> num[0] == numCubes && num[1] == num[2] == 1
      invariant i > 0 ==> num[0] == DivCeil(numCubes, Exp2(t))
      invariant i == 1 ==> num[1] == Exp2(t) && num[2] == 1
      invariant i == 2 ==> num[1] == Exp2(t - s) && num[2] == Exp2(s)
    {
      var within := ReduceCount(num, limits[i], i);
      if within {
        break;
      }
      i := i + 1;
    }
    SpreadLimits(numCubes, maxCubeCount.0, maxCubeCount.1, maxCubeCount.2, num[0], num[1], num[2]);
  }

  /** What the two loops compute, whichever of them have anything to do. */
  lemma SpreadStages(n: nat, limit0: nat, limit1: nat)
    requires Spreadable(n, limit0, limit1)
    ensures Exp2(0) == 1
    ensures n <= limit0 ==> Halvings(n, limit0) == Spilled(n, limit0, limit1) == 0 && DivCeil(n, 1) == n
    ensures n > limit0 ==>
      var t, s := Halvings(n, limit0), Spilled(n, limit0, limit1);
      && s == Halvings(Exp2(t), limit1) <= t
      && DivCeil(Exp2(t), Exp2(s)) == Exp2(t - s)
      && (Exp2(t) <= limit1 ==> s == 0)
  {
    hide DivCeil;
    Undivided(n);
    if n > limit0 {
      HalvingsOfPower(Halvings(n, limit0), limit1);
    }
  }
}

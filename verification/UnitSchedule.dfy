/**
 Unit-strided loops between two barriers. Unit u handles the items u, u + units, u + 2 * units, ...; between
 barriers any unit may take its next turn at any time. `next[u]` is the item unit u takes next.
 */
module UnitSchedule {
  import opened IndexArithmetic

  predicate Strided(next: seq<nat>, units: nat) {
    units > 0 && |next| == units && forall u :: 0 <= u < units ==> next[u] % units == u
  }

  /** Item b has been handled, by the one unit that owns it. */
  predicate Done(next: seq<nat>, b: nat)
    requires |next| > 0
  {
    b < next[b % |next|]
  }

  /** The items 0 .. n - 1. */
  function Items(n: nat): (items: set<nat>)
    ensures forall b: nat :: b in items <==> b < n
  {
    if n == 0 then {} else Items(n - 1) + {n - 1}
  }

  function Start(units: nat): (next: seq<nat>) {
    seq(units, u => u)
  }

  lemma StartIsStrided(units: nat)
    requires units > 0
    ensures Strided(Start(units), units)
    ensures forall b: nat :: !Done(Start(units), b)
  {
    var next := Start(units);
    forall u | 0 <= u < units
      ensures next[u] % units == u
    {
      DivModUnique(u, units, 0, u);
    }
    forall b: nat
      ensures !Done(next, b)
    {
      assert next[b % units] == b % units;
      assert b == (b / units) * units + b % units;
      Nonnegative(b / units, units);
    }
  }

  /** Two items of one unit less than a stride apart are the same item. */
  lemma SameItem(b: nat, c: nat, units: nat)
    requires units > 0 && b % units == c % units && c <= b < c + units
    ensures b == c
  {
    var p := b / units - c / units;
    assert b - c == p * units by {
      Distribute(units, b / units, -(c / units));
    }
    if p > 0 {
      Monotone(1, p, units);
      assert false;
    } else if p < 0 {
      Monotone(p, -1, units);
      assert false;
    }
  }

  lemma StrideKeepsOwner(b: nat, units: nat)
    requires units > 0
    ensures (b + units) % units == b % units
  {
    Distribute(units, b / units, 1);
    DivModUnique(b + units, units, b / units + 1, b % units);
  }

  /** A turn of unit u handles exactly the item next[u], which nobody had handled. */
  lemma Turn(next: seq<nat>, units: nat, u: nat)
    requires Strided(next, units) && u < units
    ensures Strided(next[u := next[u] + units], units)
    ensures !Done(next, next[u])
    ensures forall b: nat :: Done(next[u := next[u] + units], b) <==> Done(next, b) || b == next[u]
  {
    var after := next[u := next[u] + units];
    StrideKeepsOwner(next[u], units);
    forall b: nat
      ensures Done(after, b) <==> Done(next, b) || b == next[u]
    {
      if b % units == u && next[u] <= b < next[u] + units {
        SameItem(b, next[u], units);
      }
    }
  }

  /** At the barrier every unit has run past the end, so every item has been handled. */
  lemma Barrier(next: seq<nat>, units: nat, n: nat)
    requires Strided(next, units)
    requires forall u :: 0 <= u < units ==> next[u] >= n
    ensures forall b: nat :: b < n ==> Done(next, b)
  {}
}

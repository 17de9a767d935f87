/** Reversal of the low bits of an index, the order in which every kernel loads its window. */
module BitReversal {
  import opened IndexArithmetic
  import opened PowersOfTwo

  /** The lowest bit becomes the highest of `bits`, the rest follows reversed. */
  function BitRev(i: nat, bits: nat): nat {
    if bits == 0 then 0 else (i % 2) * Exp2(bits - 1) + BitRev(i / 2, bits - 1)
  }

  lemma TopBit(bit: nat, p: nat)
    requires bit < 2
    ensures 0 <= bit * p <= p
  {}

  lemma {:induction false} BitRevBound(i: nat, bits: nat)
    ensures BitRev(i, bits) < Exp2(bits)
  {
    if bits > 0 {
      BitRevBound(i / 2, bits - 1);
      TopBit(i % 2, Exp2(bits - 1));
    }
  }

  lemma DivDiv(i: nat, p: nat)
    requires p > 0
    ensures (i / 2) / p == i / (2 * p)
  {
    var q, r := (i / 2) / p, (i / 2) % p;
    assert i == q * (2 * p) + (2 * r + i % 2) by {
      Associate(2, q, p);
    }
    DivModUnique(i, 2 * p, q, 2 * r + i % 2);
  }

  /** The same reversal read from the other end: bit `bits` of i becomes the lowest. */
  lemma {:induction false} BitRevLast(i: nat, bits: nat)
    ensures BitRev(i, bits + 1) == 2 * BitRev(i, bits) + (i / Exp2(bits)) % 2
  {
    if bits == 0 {
      assert BitRev(i, 1) == (i % 2) * Exp2(0) + BitRev(i / 2, 0);
    } else {
      BitRevLast(i / 2, bits - 1);
      DivDiv(i, Exp2(bits - 1));
      assert BitRev(i, bits + 1) == (i % 2) * Exp2(bits) + BitRev(i / 2, bits);
      assert Exp2(bits) == 2 * Exp2(bits - 1);
      Associate(2, i % 2, Exp2(bits - 1));
    }
  }

  /** Bits above the reversed ones do not matter. */
  lemma {:induction false} BitRevHigh(b: nat, r: nat, bits: nat)
    ensures BitRev(b * Exp2(bits) + r, bits) == BitRev(r, bits)
  {
    if bits > 0 {
      var p := Exp2(bits - 1);
      Associate(2, b, p);
      assert b * Exp2(bits) + r == 2 * (b * p) + r;
      assert (2 * (b * p) + r) / 2 == b * p + r / 2;
      BitRevHigh(b, r / 2, bits - 1);
    }
  }

  /** The highest bit of an index becomes the lowest. */
  lemma HighBitFirst(b: nat, p: nat, r: nat, bits: nat)
    requires b < 2 && p == Exp2(bits) && r < p
    ensures b * p + r >= 0 && BitRev(b * p + r, bits + 1) == 2 * BitRev(r, bits) + b
  {
    hide BitRev, Exp2;
    TopBit(b, p);
    BitRevHigh(b, r, bits);
    BitRevLast(b * p + r, bits);
    DivModUnique(b * p + r, p, b, r);
  }

  lemma {:induction false} BitRevInvolution(i: nat, bits: nat)
    requires i < Exp2(bits)
    ensures BitRev(i, bits) < Exp2(bits)
    ensures BitRev(BitRev(i, bits), bits) == i
  {
    BitRevBound(i, bits);
    if bits > 0 {
      var p := Exp2(bits - 1);
      var r := BitRev(i / 2, bits - 1);
      assert BitRev(i, bits) == (i % 2) * p + r && Exp2(bits) == 2 * p;
      hide BitRev, Exp2;
      BitRevInvolution(i / 2, bits - 1);
      HighBitFirst(i % 2, p, r, bits - 1);
    }
  }

  /** `bit_reverse`: shift bits out of x and into j. */
  method BitReverse(i: nat, bits: nat) returns (j: nat)
    ensures j == BitRev(i, bits)
  {
    j := 0;
    var x := i;
    for t := 0 to bits
      invariant j == BitRev(i, t)
      invariant x == i / Exp2(t)
    {
      BitRevLast(i, t);
      DivTwice(i, Exp2(t));
      j := 2 * j + x % 2;
      x := x / 2;
    }
  }

  lemma DivTwice(i: nat, p: nat)
    requires p > 0
    ensures (i / p) / 2 == i / (2 * p)
  {
    var q, r := i / p, i % p;
    assert i == (q / 2) * (2 * p) + ((q % 2) * p + r) by {
      Distribute(p, 2 * (q / 2), q % 2);
      Associate(2, q / 2, p);
    }
    DivModUnique(i, 2 * p, q / 2, (q % 2) * p + r);
  }
}

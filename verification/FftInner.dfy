/** `fft_inner_compute`: the sequential twin, bit reversal by running counter and stages with a running twiddle. */
module FftInner {
  import opened BitReversal
  import opened ButterflyStages
  import opened ComplexNumbers
  import opened FftParallel
  import opened Fourier
  import opened IndexArithmetic
  import opened PowersOfTwo
  import opened SharedMemoryKernels
  import opened TensorViews

  // ---- the permutation ---------------------------------------------------------------

  method Swap(view: array<real>, i: nat, j: nat)
    requires i < view.Length && j < view.Length
    modifies view
    ensures view[..] == old(view[..])[i := old(view[j])][j := old(view[i])]
  {
    var tmp := view[i];
    view[i] := view[j];
    view[j] := tmp;
  }

  lemma LowestBitFirst(i: nat, bits: nat)
    requires bits > 0
    ensures Exp2(bits) / 2 == Exp2(bits - 1)
    ensures BitRev(i, bits) == (if i % 2 == 1 then Exp2(bits - 1) else 0) + BitRev(i / 2, bits - 1)
  {}

  /** Adding one to the unreversed index: a leading one is cleared and the carry moves on, a leading zero is set. */
  lemma ReversedIncrement(i: nat, bits: nat)
    requires bits > 0
    ensures
      var j, m := BitRev(i, bits), Exp2(bits) / 2;
      && m >= 1
      && (j >= m ==> i % 2 == 1 && j - m == BitRev(i / 2, bits - 1) && BitRev(i + 1, bits) == BitRev(i / 2 + 1, bits - 1))
      && (j < m ==> BitRev(i + 1, bits) == j + m)
  {
    BitRevBound(i / 2, bits - 1);
    LowestBitFirst(i, bits);
    LowestBitFirst(i + 1, bits);
    hide BitRev, Exp2;
    if i % 2 == 1 {
      assert (i + 1) % 2 == 0 && (i + 1) / 2 == i / 2 + 1;
    } else {
      assert (i + 1) % 2 == 1 && (i + 1) / 2 == i / 2;
    }
  }

  /** One step of the running counter: from the reversal of i to the reversal of i + 1. */
  method NextReversed(ghost i: nat, j0: nat, bits: nat) returns (j: nat)
    requires j0 == BitRev(i, bits)
    ensures j == BitRev(i + 1, bits)
  {
    j := j0;
    var m := Exp2(bits) / 2;
    ghost var rest, left := i, bits;
    while m >= 1 && j >= m
      invariant j == BitRev(rest, left) && m == Exp2(left) / 2
      invariant BitRev(i + 1, bits) == BitRev(rest + 1, left)
      decreases left
    {
      ReversedIncrement(rest, left);
      j := j - m;
      m := m / 2;
      rest, left := rest / 2, left - 1;
    }
    if left > 0 {
      ReversedIncrement(rest, left);
    }
    j := j + m;
  }

  /** The pair {p, reversal of p} has been exchanged once the counter has passed its smaller member. */
  predicate Exchanged(p: nat, i: nat, bits: nat) {
    p < i || BitRev(p, bits) < i
  }

  /** What is left to do when the counter reaches i, in place of the cell p. */
  function HalfReversed(y: seq<Complex>, i: nat, bits: nat, p: nat): Complex
    requires |y| == Exp2(bits) && p < |y|
  {
    BitRevBound(p, bits);
    if Exchanged(p, i, bits) then y[BitRev(p, bits)] else y[p]
  }

  lemma ExchangeStep(y: seq<Complex>, now: seq<Complex>, next: seq<Complex>, i: nat, bits: nat)
    requires |y| == |now| == |next| == Exp2(bits) && i < |y|
    requires forall p: nat :: p < |y| ==> now[p] == HalfReversed(y, i, bits, p)
    requires BitRev(i, bits) < |y|
    requires next == if i < BitRev(i, bits) then now[i := now[BitRev(i, bits)]][BitRev(i, bits) := now[i]] else now
    ensures forall p: nat :: p < |y| ==> next[p] == HalfReversed(y, i + 1, bits, p)
  {
    hide BitRev, Exp2;
    forall p: nat | p < |y|
      ensures next[p] == HalfReversed(y, i + 1, bits, p)
    {
      BitRevInvolution(p, bits);
      BitRevInvolution(i, bits);
      ExchangedNext(p, BitRev(p, bits), i, BitRev(i, bits), bits);
      hide Exchanged;
    }
  }

  /** Step i exchanges the pair of i, once, and no other. */
  lemma ExchangedNext(p: nat, q: nat, i: nat, j: nat, bits: nat)
    requires q == BitRev(p, bits) && p == BitRev(q, bits) && j == BitRev(i, bits) && i == BitRev(j, bits)
    ensures Exchanged(p, i + 1, bits) <==> Exchanged(p, i, bits) || p == i || p == j
    ensures p == i || p == j ==> (Exchanged(p, i, bits) <==> j < i)
  {
    hide BitRev;
  }

  /** `bit_reverse_permutation`: every pair is exchanged exactly once. */
  method BitReversePermutation(re: array<real>, im: array<real>, bits: nat)
    requires re != im && re.Length == im.Length == Exp2(bits)
    modifies re, im
    ensures BitReversed(Window(re, im), AsSignal(old(Window(re, im))), bits)
  {
    hide BitRev, HalfReversed;
    var n := re.Length;
    ghost var y := Window(re, im);
    var j := 0;
    Untouched(y, bits);
    for i := 0 to n
      invariant j == BitRev(i, bits)
      invariant forall p: nat :: p < n ==> Window(re, im)[p] == HalfReversed(y, i, bits, p)
    {
      ghost var now := Window(re, im);
      BitRevBound(i, bits);
      if i < j {
        Swap(re, i, j);
        Swap(im, i, j);
        assert Window(re, im) == now[i := now[j]][j := now[i]];
      } else {
        assert Window(re, im) == now;
      }
      ExchangeStep(y, now, Window(re, im), i, bits);
      j := NextReversed(i, j, bits);
    }
    AllExchanged(y, bits);
  }

  lemma Untouched(y: seq<Complex>, bits: nat)
    requires |y| == Exp2(bits)
    ensures BitRev(0, bits) == 0
    ensures forall p: nat :: p < |y| ==> HalfReversed(y, 0, bits, p) == y[p]
  {
    BitRevOfZero(bits);
  }

  lemma {:induction false} BitRevOfZero(bits: nat)
    ensures BitRev(0, bits) == 0
  {
    if bits > 0 {
      BitRevOfZero(bits - 1);
    }
  }

  lemma AllExchanged(y: seq<Complex>, bits: nat)
    requires |y| == Exp2(bits)
    ensures forall p: nat :: p < |y| ==> HalfReversed(y, |y|, bits, p) == AsSignal(y)(BitRev(p, bits))
  {
    hide BitRev;
    forall p: nat | p < |y|
      ensures HalfReversed(y, |y|, bits, p) == AsSignal(y)(BitRev(p, bits))
    {
      BitRevBound(p, bits);
    }
  }

  // ---- the stages --------------------------------------------------------------------------

  /** Stage s with the butterflies below b done, in the order the loops visit them. */
  ghost predicate StageUpTo(now: seq<Complex>, y: seq<Complex>, w: Complex, bits: nat, s: nat, b: nat)
    requires s < bits && |y| == Exp2(bits)
  {
    |now| == |y| && forall p :: 0 <= p < |y| ==>
      now[p] == if Owner(p, Exp2(s)) < b then StageCell(y, w, bits, s, p) else y[p]
  }

  /** No cell but the butterfly's own two has it as owner. */
  lemma OwnCellsOnly(n: nat, half: nat, b: nat)
    requires half > 0
    ensures forall p: nat :: p < n && Owner(p, half) == b ==> p == if IsTop(p, half) then Top(b, half) else Bottom(b, half)
  {
    forall p: nat | p < n && Owner(p, half) == b
      ensures p == if IsTop(p, half) then Top(b, half) else Bottom(b, half)
    {
      OwnerOfCell(p, half);
    }
  }

  lemma NextButterfly(now: seq<Complex>, y: seq<Complex>, w: Complex, bits: nat, s: nat, b: nat, t: Complex)
    requires s < bits && |y| == Exp2(bits) && StageUpTo(now, y, w, bits, s, b) && b < |y| / 2
    requires Bottom(b, Exp2(s)) < |y|
    requires t == Mul(Twiddle(w, |y|, b % Exp2(s), 2 * Exp2(s)), now[Bottom(b, Exp2(s))])
    ensures
      var top, bottom := Top(b, Exp2(s)), Bottom(b, Exp2(s));
      StageUpTo(now[top := Add(now[top], t)][bottom := Sub(now[top], t)], y, w, bits, s, b + 1)
  {
    hide Mul, Twiddle, Owner, IsTop, Add, Sub, Top;
    CellsOfOwner(b, Exp2(s));
    OwnCellsOnly(|y|, Exp2(s), b);
  }

  lemma StageFinished(now: seq<Complex>, y: seq<Complex>, w: Complex, bits: nat, s: nat)
    requires s < bits && |y| == Exp2(bits) && StageUpTo(now, y, w, bits, s, |y| / 2)
    ensures now == Stage(y, w, bits, s)
  {
    hide StageCell, Owner;
    forall p | 0 <= p < |y|
      ensures now[p] == StageCell(y, w, bits, s, p)
    {
      StageCellsInWindow(bits, s, p);
    }
  }

  /** The cell and twiddle index of butterfly j of group g. */
  lemma SequentialIndex(g: nat, j: nat, bits: nat, s: nat)
    requires s < bits && g < Exp2(bits - s - 1) && j < Exp2(s)
    ensures
      var half := Exp2(s);
      var b := g * half + j;
      && b < Exp2(bits) / 2 && b % half == j
      && g * (2 * half) + j == Top(b, half) && Bottom(b, half) < Exp2(bits)
  {
    SplitWindow(bits, s);
    CellBelow(g, j, Exp2(bits - s - 1), Exp2(s));
    CellsInWindow(g * Exp2(s) + j, Exp2(s), Exp2(bits - s - 1));
  }

  /** The running product is the twiddle: the j-th power of the stage's base angle. */
  lemma RunningTwiddle(w: Complex, n: nat, j: nat, m: nat)
    requires m > 0
    ensures Pow(Twiddle(w, n, 1, m), j) == Twiddle(w, n, j, m)
    ensures Mul(Pow(Twiddle(w, n, 1, m), j), Twiddle(w, n, 1, m)) == Pow(Twiddle(w, n, 1, m), j + 1)
  {
    hide Mul;
    PowPow(w, n / m, j);
    MulComm(Pow(Twiddle(w, n, 1, m), j), Twiddle(w, n, 1, m));
  }

  /** One group of a stage: the inner loop over j, with the twiddle multiplied up from one. */
  method ButterflyGroup(re: array<real>, im: array<real>, ghost y: seq<Complex>, w: Complex, bits: nat, s: nat, g: nat)
    requires re != im && re.Length == im.Length == |y| == Exp2(bits) && s < bits && g < Exp2(bits - s - 1)
    requires StageUpTo(Window(re, im), y, w, bits, s, g * Exp2(s))
    modifies re, im
    ensures StageUpTo(Window(re, im), y, w, bits, s, (g + 1) * Exp2(s))
  {
    hide StageUpTo, Mul, Twiddle, Top, Exp2, Add, Sub;
    var half := Exp2(s);
    var m := 2 * half;
    var wm := Twiddle(w, re.Length, 1, m);
    var running := ONE;
    var k := g * m;
    var j := 0;
    while j < half
      invariant 0 <= j <= half && running == Pow(wm, j)
      invariant StageUpTo(Window(re, im), y, w, bits, s, g * half + j)
    {
      SequentialIndex(g, j, bits, s);
      RunningTwiddle(w, re.Length, j, m);
      var i0 := k + j;
      var i1 := i0 + half;
      ghost var now := Window(re, im);
      var a, t := Complex(re[i0], im[i0]), Mul(running, Complex(re[i1], im[i1]));
      NextButterfly(now, y, w, bits, s, g * half + j, t);
      var out0, out1 := Add(a, t), Sub(a, t);
      re[i0], im[i0] := out0.re, out0.im;
      re[i1], im[i1] := out1.re, out1.im;
      assert Window(re, im) == now[i0 := out0][i1 := out1];
      running := Mul(running, wm);
      j := j + 1;
    }
    Distribute(half, g, 1);
  }

  /** `fft_butterfly_stages`. */
  method FftButterflyStages(re: array<real>, im: array<real>, w: Complex, bits: nat)
    requires re != im && re.Length == im.Length == Exp2(bits)
    modifies re, im
    ensures Window(re, im) == Stages(old(Window(re, im)), w, bits, bits)
  {
    hide Stage, StageUpTo;
    for s := 0 to bits
      invariant Window(re, im) == Stages(old(Window(re, im)), w, bits, s)
    {
      ghost var y := Window(re, im);
      StageNotStarted(y, w, bits, s);
      SplitWindow(bits, s);
      for g := 0 to Exp2(bits - s - 1)
        invariant StageUpTo(Window(re, im), y, w, bits, s, g * Exp2(s))
      {
        ButterflyGroup(re, im, y, w, bits, s, g);
      }
      StageFinished(Window(re, im), y, w, bits, s);
    }
  }

  lemma StageNotStarted(y: seq<Complex>, w: Complex, bits: nat, s: nat)
    requires s < bits && |y| == Exp2(bits)
    ensures StageUpTo(y, y, w, bits, s, 0)
  {
    hide StageCell;
  }

  /** `fft_inner_compute`: the same transform as the parallel kernel's. */
  method FftInnerCompute(re: array<real>, im: array<real>, mode: FftMode, u: Complex, bits: nat)
    requires re != im && re.Length == im.Length == Exp2(bits) && IsRoot(u, bits)
    modifies re, im
    ensures Window(re, im) == DftOf(old(Window(re, im)), Root(mode, u))
  {
    hide Stages, IsRoot, Dft;
    ghost var x := AsSignal(Window(re, im));
    RootOfMode(mode, u, bits);
    BitReversePermutation(re, im, bits);
    ghost var y := Window(re, im);
    FftButterflyStages(re, im, Root(mode, u), bits);
    forall k: nat | k < |y|
      ensures Window(re, im)[k] == Dft(x, Root(mode, u), |y|, k)
    {
      StagesComputeDft(y, x, Root(mode, u), bits, k);
    }
  }
}

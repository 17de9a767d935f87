/** Windows of a tensor as the kernels see them, and the strided load and store loops they share. */
module TensorViews {
  import opened BitReversal
  import opened ComplexNumbers
  import opened ComplexSums
  import opened FftParallel
  import opened PowersOfTwo
  import opened UnitSchedule

  /** `len` cells of a buffer, `stride` apart, from `base` on. */
  datatype View = View(base: nat, stride: nat, len: nat) {
    function At(k: nat): nat {
      base + k * stride
    }

    ghost predicate Holds(p: int) {
      exists k: nat :: k < len && At(k) == p
    }

    /** The cells lie in the buffer: the view can be read. */
    ghost predicate InBounds(size: nat) {
      forall k: nat :: k < len ==> At(k) < size
    }

    /** They are also distinct: the view can be written. */
    ghost predicate Fits(size: nat): (fits: bool)
      ensures fits ==> InBounds(size)
    {
      && InBounds(size)
      && (forall j: nat, k: nat :: j < len && k < len && At(j) == At(k) ==> j == k)
    }
  }

  lemma SameFactor(step: nat, j: nat, k: nat)
    requires step > 0 && step * j == step * k
    ensures j == k
  {}

  /** A dense-enough view: positive stride and the last cell in bounds. */
  lemma StridedViewFits(v: View, size: nat)
    requires v.stride > 0 && (v.len > 0 ==> v.At(v.len - 1) < size)
    ensures v.Fits(size)
  {
    forall k: nat | k < v.len
      ensures v.At(k) < size
    {
      assert k * v.stride <= (v.len - 1) * v.stride;
    }
    forall j: nat, k: nat | j < v.len && k < v.len && v.At(j) == v.At(k)
      ensures j == k
    {
      assert v.stride * j == v.stride * k;
      SameFactor(v.stride, j, k);
    }
  }

  /** What the window holds. */
  function Read(re: array<real>, im: array<real>, v: View): (x: seq<Complex>)
    requires v.InBounds(re.Length) && v.InBounds(im.Length)
    reads re, im
    ensures |x| == v.len
    ensures forall k: nat :: k < v.len ==> x[k] == Complex(re[v.At(k)], im[v.At(k)])
  {
    seq(v.len, k requires 0 <= k < v.len reads re, im => Complex(re[v.At(k)], im[v.At(k)]))
  }

  function ReadReal(re: array<real>, v: View): (x: seq<real>)
    requires v.InBounds(re.Length)
    reads re
    ensures |x| == v.len
    ensures forall k: nat :: k < v.len ==> x[k] == re[v.At(k)]
  {
    seq(v.len, k requires 0 <= k < v.len reads re => re[v.At(k)])
  }

  /** A window as a signal, zero past its end. */
  function AsSignal(x: seq<Complex>): Signal {
    (n: nat) => if n < |x| then x[n] else ZERO
  }

  /** The units' load loop: sample i goes to the bit-reversed place in shared memory. */
  method LoadBitReversed(samples: seq<Complex>, re: array<real>, im: array<real>, bits: nat, units: nat)
    requires re != im && re.Length == im.Length == |samples| == Exp2(bits)
    requires units > 0
    modifies re, im
    ensures forall i: nat :: i < |samples| ==> BitRev(i, bits) < |samples|
    ensures forall i: nat :: i < |samples| ==> Window(re, im)[BitRev(i, bits)] == samples[i]
  {
    hide BitRev, Strided, Done;
    ReversalIsInjective(bits);
    var next: seq<nat> := Start(units);
    StartIsStrided(units);
    ghost var todo := Items(|samples|);
    while exists u :: 0 <= u < units && next[u] < |samples|
      invariant |next| == units && Strided(next, units)
      invariant forall i: nat :: i < |samples| && !Done(next, i) ==> i in todo
      invariant forall i: nat :: i < |samples| && Done(next, i) ==>
        Complex(re[BitRev(i, bits)], im[BitRev(i, bits)]) == samples[i]
      decreases todo
    {
      var u :| 0 <= u < units && next[u] < |samples|;
      var i := next[u];
      Turn(next, units, u);
      var j := BitReverse(i, bits);
      re[j], im[j] := samples[i].re, samples[i].im;
      next, todo := next[u := i + units], todo - {i};
    }
    Barrier(next, units, |samples|);
  }

  lemma ReversalIsInjective(bits: nat)
    ensures forall i: nat :: i < Exp2(bits) ==> BitRev(i, bits) < Exp2(bits)
    ensures forall i: nat, j: nat ::
      i < Exp2(bits) && j < Exp2(bits) && BitRev(i, bits) == BitRev(j, bits) ==> i == j
  {
    hide BitRev;
    forall i: nat | i < Exp2(bits)
      ensures BitRev(i, bits) < Exp2(bits) && BitRev(BitRev(i, bits), bits) == i
    {
      BitRevInvolution(i, bits);
    }
    forall i: nat, j: nat | i < Exp2(bits) && j < Exp2(bits) && BitRev(i, bits) == BitRev(j, bits)
      ensures i == j
    {
      assert BitRev(BitRev(i, bits), bits) == i && BitRev(BitRev(j, bits), bits) == j;
    }
  }

  /** The units' store loop: value k goes to cell k of the view, and nothing else is touched. */
  method StoreView(values: seq<Complex>, re: array<real>, im: array<real>, v: View, units: nat)
    requires re != im && re.Length == im.Length && v.Fits(re.Length) && v.len == |values|
    requires units > 0
    modifies re, im
    ensures Read(re, im, v) == values
    ensures forall p :: 0 <= p < re.Length && !v.Holds(p) ==> re[p] == old(re[p]) && im[p] == old(im[p])
  {
    hide Strided, Done, View.At;
    var next: seq<nat> := Start(units);
    StartIsStrided(units);
    ghost var todo := Items(|values|);
    while exists u :: 0 <= u < units && next[u] < |values|
      invariant |next| == units && Strided(next, units)
      invariant forall k: nat :: k < |values| && !Done(next, k) ==> k in todo
      invariant forall k: nat :: k < |values| && Done(next, k) ==> Complex(re[v.At(k)], im[v.At(k)]) == values[k]
      invariant forall p :: 0 <= p < re.Length && !v.Holds(p) ==> re[p] == old(re[p]) && im[p] == old(im[p])
      decreases todo
    {
      var u :| 0 <= u < units && next[u] < |values|;
      var k := next[u];
      Turn(next, units, u);
      re[v.At(k)], im[v.At(k)] := values[k].re, values[k].im;
      next, todo := next[u := k + units], todo - {k};
    }
    Barrier(next, units, |values|);
  }

  /** The same loop for a real output. */
  method StoreReal(values: seq<real>, out: array<real>, v: View, units: nat)
    requires v.Fits(out.Length) && v.len == |values|
    requires units > 0
    modifies out
    ensures ReadReal(out, v) == values
    ensures forall p :: 0 <= p < out.Length && !v.Holds(p) ==> out[p] == old(out[p])
  {
    hide Strided, Done, View.At;
    var next: seq<nat> := Start(units);
    StartIsStrided(units);
    ghost var todo := Items(|values|);
    while exists u :: 0 <= u < units && next[u] < |values|
      invariant |next| == units && Strided(next, units)
      invariant forall k: nat :: k < |values| && !Done(next, k) ==> k in todo
      invariant forall k: nat :: k < |values| && Done(next, k) ==> out[v.At(k)] == values[k]
      invariant forall p :: 0 <= p < out.Length && !v.Holds(p) ==> out[p] == old(out[p])
      decreases todo
    {
      var u :| 0 <= u < units && next[u] < |values|;
      var k := next[u];
      Turn(next, units, u);
      out[v.At(k)] := values[k];
      next, todo := next[u := k + units], todo - {k};
    }
    Barrier(next, units, |values|);
  }
}

/** `cfft_launch_any_size` on a whole tensor: one shared-memory cube a window, or three launches over all windows. */
module BatchedTransform {
  import opened BatchedTensors
  import opened BatchLayout
  import opened ComplexNumbers
  import opened DenseViews
  import opened Fourier
  import opened FourStep
  import opened MixedRadix
  import opened PowersOfTwo
  import opened SharedMemoryKernels
  import opened TensorViews
  import opened UnitSchedule

  /** The windows outside todo are transformed. */
  ghost predicate TransformedBut(now: seq<seq<Complex>>, x: seq<seq<Complex>>, w: Complex, todo: set<nat>) {
    |now| == |x| && forall i: nat :: i < |x| && i !in todo ==> now[i] == DftOf(x[i], w)
  }

  /** The windows of todo are as they were. */
  ghost predicate Untouched<T>(now: seq<T>, was: seq<T>, todo: set<nat>) {
    |now| == |was| && forall i: nat :: i < |was| && i in todo ==> now[i] == was[i]
  }

  /** `cfft_shared_launch`: a cube a window, in any order, also in place. */
  method CfftShared(inRe: array<real>, inIm: array<real>, input: Batch,
                    outRe: array<real>, outIm: array<real>, output: Batch, mode: FftMode, u: Complex, bits: nat, units: nat)
    requires input.InBounds(inRe.Length) && input.InBounds(inIm.Length)
    requires outRe != outIm && outRe.Length == outIm.Length && output.Fits(outRe.Length)
    requires (inRe == outRe && inIm == outIm && input == output) || {inRe, inIm} !! {outRe, outIm}
    requires SameBatch(input, output) && input.Length() == output.Length() == Exp2(bits) && IsRoot(u, bits) && units > 0
    modifies outRe, outIm
    ensures ContentsOf(outRe[..], outIm[..], output) == Transforms(old(ContentsOf(inRe[..], inIm[..], input)), Root(mode, u))
    ensures KeptOutside(output, old(outRe[..]), outRe[..]) && KeptOutside(output, old(outIm[..]), outIm[..])
  {
    hide IsRoot, DftOf, Exp2, Root, Batch.Window, Batch.Fits, Batch.InBounds, Batch.Count, Batch.Valid, Batch.Length,
         ContentsOf, View.Fits, View.InBounds, View.At, View.Holds, KeptOutside, Transforms, ReadOf, SameBatch;
    SameBatchCount(input, inRe.Length, output, outRe.Length);
    ghost var x, w := ContentsOf(inRe[..], inIm[..], input), Root(mode, u);
    var todo := Items(output.Count());
    NothingLost(output, outRe[..]);
    NothingLost(output, outIm[..]);
    while todo != {}
      invariant todo <= Items(|x|)
      invariant Untouched(ContentsOf(inRe[..], inIm[..], input), x, todo)
      invariant TransformedBut(ContentsOf(outRe[..], outIm[..], output), x, w, todo)
      invariant KeptOutside(output, old(outRe[..]), outRe[..]) && KeptOutside(output, old(outIm[..]), outIm[..])
      decreases todo
    {
      var i :| i in todo;
      WindowInBounds(input, inRe.Length, i);
      WindowInBounds(input, inIm.Length, i);
      WindowFits(output, outRe.Length, i);
      var from := Layout(input, i);
      var to := Layout(output, i);
      ghost var wasRe, wasIm := outRe[..], outIm[..];
      ReadIsReadOf(inRe, inIm, from);
      CfftSharedKernel(inRe, inIm, from, outRe, outIm, to, mode, u, bits, units);
      ReadIsReadOf(outRe, outIm, to);
      OneWindowChanged(wasRe, wasIm, outRe[..], outIm[..], output, i);
      WindowIsInside(output, i, old(outRe[..]), wasRe, outRe[..]);
      WindowIsInside(output, i, old(outIm[..]), wasIm, outIm[..]);
      todo := todo - {i};
    }
    AllTransformed(ContentsOf(outRe[..], outIm[..], output), x, w);
  }

  lemma SameBatchCount(a: Batch, n: nat, b: Batch, m: nat)
    requires SameBatch(a, b) && a.InBounds(n) && b.InBounds(m)
    ensures a.Count() == b.Count() && a.WellFormed() && b.WellFormed()
  {
    SameCount(a, b);
  }

  lemma AllTransformed(now: seq<seq<Complex>>, x: seq<seq<Complex>>, w: Complex)
    requires TransformedBut(now, x, w, {})
    ensures now == Transforms(x, w)
  {
    hide DftOf;
    forall i: nat | i < |x|
      ensures now[i] == Transforms(x, w)[i]
    {
      assert i !in {};
    }
  }

  /**
   `cfft_launch_any_size`: every window of the tensor ends up transformed, also in place and in any order of the cubes of
   a launch. An empty batch succeeds at once; otherwise the launch fails, as the source panics, exactly when neither the
   window nor its balanced split fits shared memory.
   */
  method CfftLaunch(inRe: array<real>, inIm: array<real>, input: Batch, outRe: array<real>, outIm: array<real>, output: Batch,
                    mode: FftMode, u: Complex, bits: nat, maxBits: nat, maxUnits: nat)
    returns (ok: bool)
    requires input.InBounds(inRe.Length) && input.InBounds(inIm.Length)
    requires outRe != outIm && outRe.Length == outIm.Length && output.Fits(outRe.Length)
    requires (inRe == outRe && inIm == outIm && input == output) || {inRe, inIm} !! {outRe, outIm}
    requires SameBatch(input, output) && input.Length() == output.Length() == Exp2(bits)
    requires bits > 0 && IsRoot(u, bits) && maxUnits > 0
    modifies outRe, outIm
    ensures ok <==> input.Count() == 0 || (bits + 1) / 2 <= maxBits
    ensures ok ==>
      ContentsOf(outRe[..], outIm[..], output) == Transforms(old(ContentsOf(inRe[..], inIm[..], input)), Root(mode, u))
    ensures !ok ==> outRe[..] == old(outRe[..]) && outIm[..] == old(outIm[..])
    ensures KeptOutside(output, old(outRe[..]), outRe[..]) && KeptOutside(output, old(outIm[..]), outIm[..])
  {
    hide IsRoot, DftOf, ContentsOf, Batch.Fits, Batch.InBounds, SameBatch, Batch.Length, Root, Transforms;
    SameBatchCount(input, inRe.Length, output, outRe.Length);
    var count := CountWindows(input.shape, input.strides, input.dim);
    if count == 0 {
      return true;
    }
    Exp2Order(bits, maxBits);
    FactorsAreBalanced(bits, maxBits);
    if Exp2(bits) <= Exp2(maxBits) {
      CfftShared(inRe, inIm, input, outRe, outIm, output, mode, u, bits, Clamp(Exp2(bits) / 2, maxUnits));
      return true;
    }
    match FactorFourStep(Exp2(bits), Exp2(maxBits))
    case Panic => return false;
    case Factors(bits1, bits2) =>
      SplitAdds(bits, maxBits);
      CfftFourStep(inRe, inIm, input, outRe, outIm, output, mode, u, bits1, bits2,
                   Clamp(Exp2(bits1) / 2, maxUnits), Clamp(Exp2(bits2) / 2, maxUnits));
      return true;
  }

  lemma SplitAdds(bits: nat, maxBits: nat)
    requires FactorFourStep(Exp2(bits), Exp2(maxBits)).Factors?
    ensures
      var f := FactorFourStep(Exp2(bits), Exp2(maxBits));
      f.bits1 + f.bits2 == bits
  {
    TrailingZerosOfPower(bits);
  }

  lemma Exp2Order(a: nat, b: nat)
    ensures Exp2(a) > Exp2(b) <==> a > b
  {
    if a > b {
      Exp2Monotone(b + 1, a);
    } else {
      Exp2Monotone(a, b);
    }
  }

  /** The number of windows, as the launch computes it. */
  method CountWindows(shape: seq<nat>, strides: seq<nat>, dim: nat) returns (count: nat)
    requires |shape| == |strides| && dim < |shape|
    ensures count == Windows(Dims(shape, strides), dim)
  {
    count := 1;
    ghost var dims := Dims(shape, strides);
    var i := |shape|;
    while i > 0
      invariant 0 <= i <= |shape| && count == Windows(dims[i..], dim - i)
    {
      i := i - 1;
      assert dims[i..][1..] == dims[i + 1..];
      PastDim(dims[i + 1..], dim - i - 1);
      if i != dim {
        count := shape[i] * count;
      }
    }
    assert dims[0..] == dims;
  }

  lemma {:induction false} PastDim(dims: seq<Dim>, dim: int)
    ensures dim < 0 ==> Windows(dims, dim) == Windows(dims, -1)
  {
    if dims != [] && dim < 0 {
      PastDim(dims[1..], dim - 1);
      PastDim(dims[1..], -2);
    }
  }
}

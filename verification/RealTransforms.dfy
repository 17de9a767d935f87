/** `rfft_launch_padded` and `irfft_launch_padded` on whole tensors: direct kernel or packed pipeline, one specification. */
module RealTransforms {
  import opened BatchedTensors
  import opened BatchedTransform
  import opened ComplexNumbers
  import opened Fourier
  import opened FourStep
  import opened PackedReal
  import opened PowersOfTwo
  import opened SharedMemoryKernels
  import opened TensorViews
  import opened UnitSchedule

  lemma HalfLength(bits: nat)
    requires bits > 0
    ensures Exp2(bits) / 2 == Exp2(bits - 1) && Exp2(bits) == 2 * Exp2(bits - 1)
  {}

  lemma PackedRoot(u: Complex, bits: nat)
    requires IsRoot(u, bits) && bits > 0
    ensures IsRoot(Mul(u, u), bits - 1)
  {
    hide IsRoot;
    RootSquare(u, bits);
  }

  // ---- what the launches compute, window by window ---------------------------------------------------

  /** The half spectra of all windows. */
  function Rffts(x: seq<seq<real>>, len: nat, u: Complex, bits: nat): (X: seq<seq<Complex>>)
    requires forall i :: 0 <= i < |x| ==> len <= |x[i]|
    ensures |X| == |x| && forall i :: 0 <= i < |x| ==> X[i] == Rfft(x[i], len, u, bits)
  {
    seq(|x|, i requires 0 <= i < |x| && len <= |x[i]| => Rfft(x[i], len, u, bits))
  }

  /** The real signals of all half spectra. */
  function Irffts(X: seq<seq<Complex>>, bins: nat, u: Complex, bits: nat): (x: seq<seq<real>>)
    requires forall i :: 0 <= i < |X| ==> bins <= |X[i]|
    ensures |x| == |X| && forall i :: 0 <= i < |X| ==> x[i] == Irfft(X[i], bins, u, bits)
  {
    seq(|X|, i requires 0 <= i < |X| && bins <= |X[i]| => Irfft(X[i], bins, u, bits))
  }

  lemma SampleLengths(x: seq<real>, b: Batch)
    requires b.InBounds(|x|)
    ensures
      var c := SamplesOf(x, b);
      |c| == b.Count() && forall i :: 0 <= i < |c| ==> |c[i]| == b.Length()
  {}

  // ---- the direct kernels over a batch ----------------------------------------------------------------

  ghost predicate RfftsBut(now: seq<seq<Complex>>, x: seq<seq<real>>, len: nat, u: Complex, bits: nat, todo: set<nat>)
    requires forall i :: 0 <= i < |x| ==> len <= |x[i]|
  {
    |now| == |x| && forall i: nat :: i < |x| && i !in todo ==> now[i] == Rfft(x[i], len, u, bits)
  }

  /** `rfft_kernel` over its launch: a cube a window, in any order. */
  method RfftShared(signal: array<real>, input: Batch, specRe: array<real>, specIm: array<real>, output: Batch,
                    signalLen: nat, u: Complex, bits: nat, units: nat)
    requires input.InBounds(signal.Length) && signalLen <= input.Length() && signalLen <= Exp2(bits)
    requires specRe != specIm && specRe.Length == specIm.Length && output.Fits(specRe.Length)
    requires signal != specRe && signal != specIm && SameBatch(input, output)
    requires bits > 0 && output.Length() == Exp2(bits) / 2 + 1 && IsRoot(u, bits) && units > 0
    modifies specRe, specIm
    ensures ContentsOf(specRe[..], specIm[..], output) == RfftsOf(signal[..], input, signalLen, u, bits)
    ensures KeptOutside(output, old(specRe[..]), specRe[..]) && KeptOutside(output, old(specIm[..]), specIm[..])
  {
    hide IsRoot, Rfft, Exp2, Batch.Window, Batch.Fits, Batch.InBounds, Batch.Count, Batch.Valid, Batch.Length,
         ContentsOf, SamplesOf, View.Fits, View.InBounds, View.At, View.Holds, KeptOutside, ReadOf, ReadRealOf,
         SameBatch, RfftsOf;
    SameBatchCount(input, signal.Length, output, specRe.Length);
    SampleLengths(signal[..], input);
    ghost var x := SamplesOf(signal[..], input);
    var todo := Items(output.Count());
    NothingLost(output, specRe[..]);
    NothingLost(output, specIm[..]);
    while todo != {}
      invariant todo <= Items(|x|)
      invariant RfftsBut(ContentsOf(specRe[..], specIm[..], output), x, signalLen, u, bits, todo)
      invariant KeptOutside(output, old(specRe[..]), specRe[..]) && KeptOutside(output, old(specIm[..]), specIm[..])
      decreases todo
    {
      var i :| i in todo;
      WindowInBounds(input, signal.Length, i);
      WindowFits(output, specRe.Length, i);
      var from := Layout(input, i);
      var to := Layout(output, i);
      ghost var wasRe, wasIm := specRe[..], specIm[..];
      ReadRealIsReadRealOf(signal, from);
      RfftKernel(signal, from, specRe, specIm, to, signalLen, u, bits, units);
      ReadIsReadOf(specRe, specIm, to);
      OneWindowChanged(wasRe, wasIm, specRe[..], specIm[..], output, i);
      WindowIsInside(output, i, old(specRe[..]), wasRe, specRe[..]);
      WindowIsInside(output, i, old(specIm[..]), wasIm, specIm[..]);
      todo := todo - {i};
    }
    AllRffts(ContentsOf(specRe[..], specIm[..], output), signal[..], input, signalLen, u, bits);
  }

  /** The half spectra of a batch of signals. */
  ghost function RfftsOf(signal: seq<real>, input: Batch, len: nat, u: Complex, bits: nat): (X: seq<seq<Complex>>)
    requires input.InBounds(|signal|) && len <= input.Length()
  {
    Rffts(SamplesOf(signal, input), len, u, bits)
  }

  lemma AllRffts(now: seq<seq<Complex>>, signal: seq<real>, input: Batch, len: nat, u: Complex, bits: nat)
    requires input.InBounds(|signal|) && len <= input.Length()
    requires RfftsBut(now, SamplesOf(signal, input), len, u, bits, {})
    ensures now == RfftsOf(signal, input, len, u, bits)
  {
    hide Rfft, SamplesOf;
    var x := SamplesOf(signal, input);
    SampleLengths(signal, input);
    forall i: nat | i < |x|
      ensures now[i] == Rffts(x, len, u, bits)[i]
    {
      assert i !in {};
    }
  }

  lemma ReadRealIsReadRealOf(x: array<real>, v: View)
    requires v.InBounds(x.Length)
    ensures ReadReal(x, v) == ReadRealOf(x[..], v)
  {
    hide View.At, View.Fits, View.InBounds;
    forall k: nat | k < v.len
      ensures ReadReal(x, v)[k] == ReadRealOf(x[..], v)[k]
    {
      CellInBounds(v, x.Length, k);
    }
  }

  ghost predicate IrfftsBut(now: seq<seq<real>>, X: seq<seq<Complex>>, bins: nat, u: Complex, bits: nat, todo: set<nat>)
    requires forall i :: 0 <= i < |X| ==> bins <= |X[i]|
  {
    |now| == |X| && forall i: nat :: i < |X| && i !in todo ==> now[i] == Irfft(X[i], bins, u, bits)
  }

  /** The signals of a batch of half spectra. */
  ghost function IrfftsOf(re: seq<real>, im: seq<real>, input: Batch, bins: nat, u: Complex, bits: nat): (x: seq<seq<real>>)
    requires input.InBounds(|re|) && input.InBounds(|im|) && bins <= input.Length()
  {
    Irffts(ContentsOf(re, im, input), bins, u, bits)
  }

  lemma AllIrffts(now: seq<seq<real>>, re: seq<real>, im: seq<real>, input: Batch, bins: nat, u: Complex, bits: nat)
    requires input.InBounds(|re|) && input.InBounds(|im|) && bins <= input.Length()
    requires IrfftsBut(now, ContentsOf(re, im, input), bins, u, bits, {})
    ensures now == IrfftsOf(re, im, input, bins, u, bits)
  {
    hide Irfft, ContentsOf;
    var X := ContentsOf(re, im, input);
    WindowLengths(re, im, input);
    forall i: nat | i < |X|
      ensures now[i] == Irffts(X, bins, u, bits)[i]
    {
      assert i !in {};
    }
  }

  /** `irfft_kernel` over its launch: a cube a window, in any order. */
  method IrfftShared(specRe: array<real>, specIm: array<real>, input: Batch, signal: array<real>, output: Batch,
                     specBins: nat, u: Complex, bits: nat, units: nat)
    requires input.InBounds(specRe.Length) && input.InBounds(specIm.Length)
    requires 1 <= specBins <= input.Length() && specBins <= Exp2(bits) / 2 + 1
    requires output.Fits(signal.Length) && output.Length() == Exp2(bits) && SameBatch(input, output)
    requires signal != specRe && signal != specIm && bits > 0 && IsRoot(u, bits) && units > 0
    modifies signal
    ensures SamplesOf(signal[..], output) == IrfftsOf(specRe[..], specIm[..], input, specBins, u, bits)
    ensures KeptOutside(output, old(signal[..]), signal[..])
  {
    hide IsRoot, Irfft, Exp2, Batch.Window, Batch.Fits, Batch.InBounds, Batch.Count, Batch.Valid, Batch.Length,
         ContentsOf, SamplesOf, View.Fits, View.InBounds, View.At, View.Holds, KeptOutside, ReadOf, ReadRealOf,
         SameBatch, IrfftsOf;
    SameBatchCount(input, specRe.Length, output, signal.Length);
    WindowLengths(specRe[..], specIm[..], input);
    ghost var X := ContentsOf(specRe[..], specIm[..], input);
    var todo := Items(output.Count());
    NothingLost(output, signal[..]);
    while todo != {}
      invariant todo <= Items(|X|)
      invariant IrfftsBut(SamplesOf(signal[..], output), X, specBins, u, bits, todo)
      invariant KeptOutside(output, old(signal[..]), signal[..])
      decreases todo
    {
      var i :| i in todo;
      WindowInBounds(input, specRe.Length, i);
      WindowInBounds(input, specIm.Length, i);
      WindowFits(output, signal.Length, i);
      var from := Layout(input, i);
      var to := Layout(output, i);
      ghost var was := signal[..];
      ReadIsReadOf(specRe, specIm, from);
      IrfftKernel(specRe, specIm, from, signal, to, specBins, u, bits, units);
      ReadRealIsReadRealOf(signal, to);
      OneRealWindowChanged(was, signal[..], output, i);
      WindowIsInside(output, i, old(signal[..]), was, signal[..]);
      todo := todo - {i};
    }
    AllIrffts(SamplesOf(signal[..], output), specRe[..], specIm[..], input, specBins, u, bits);
  }

  // ---- the packed pipelines ------------------------------------------------------------------------------

  /** What the threads of `rfft_pack_kernel` write. */
  function Packed(x: seq<seq<real>>, len: nat, m: nat): (y: seq<seq<Complex>>)
    requires forall i :: 0 <= i < |x| ==> len <= |x[i]|
    ensures |y| == |x|
    ensures forall i :: 0 <= i < |x| ==> |y[i]| == m && forall k: nat :: k < m ==> y[i][k] == PackCell(x[i], len, k)
  {
    if x == [] then [] else
      var last := x[|x| - 1];
      Packed(x[..|x| - 1], len, m) + [seq(m, k requires k >= 0 && len <= |last| => PackCell(last, len, k))]
  }

  /** What the threads of `rfft_post_kernel` write. */
  function PostBins(Y: seq<seq<Complex>>, w: Complex, m: nat): (X: seq<seq<Complex>>)
    requires m > 0 && forall i :: 0 <= i < |Y| ==> |Y[i]| == m
    ensures |X| == |Y|
    ensures forall i :: 0 <= i < |Y| ==> |X[i]| == m + 1 && forall k: nat :: k <= m ==> X[i][k] == PostBin(Y[i], w, k)
  {
    if Y == [] then [] else
      var last := Y[|Y| - 1];
      PostBins(Y[..|Y| - 1], w, m) + [seq(m + 1, k requires 0 <= k <= m == |last| => PostBin(last, w, k))]
  }

  /** `rfft_large_launch`: pack, transform half the length in place, post. Fails only when the inner transform does. */
  method RfftLarge(signal: array<real>, input: Batch, specRe: array<real>, specIm: array<real>, output: Batch,
                   signalLen: nat, u: Complex, bits: nat, maxBits: nat, maxUnits: nat)
    returns (ok: bool)
    requires input.InBounds(signal.Length) && signalLen <= input.Length() && signalLen <= Exp2(bits)
    requires specRe != specIm && specRe.Length == specIm.Length && output.Fits(specRe.Length)
    requires signal != specRe && signal != specIm && SameBatch(input, output)
    requires bits >= 2 && output.Length() == Exp2(bits) / 2 + 1 && IsRoot(u, bits) && maxUnits > 0
    modifies specRe, specIm
    ensures ok <==> input.Count() == 0 || bits / 2 <= maxBits
    ensures ok ==> ContentsOf(specRe[..], specIm[..], output) == RfftsOf(signal[..], input, signalLen, u, bits)
    ensures !ok ==> specRe[..] == old(specRe[..]) && specIm[..] == old(specIm[..])
    ensures KeptOutside(output, old(specRe[..]), specRe[..]) && KeptOutside(output, old(specIm[..]), specIm[..])
  {
    hide IsRoot, Dft, Mul, PackCell, PostBin, ContentsOf, SamplesOf, Batch.Fits, Batch.InBounds, SameBatch,
         Batch.Count, Batch.Length, KeptOutside, Root, Exp2, RfftsOf, Transforms, DftOf, Packed, PostBins;
    HalfLength(bits);
    PackedRoot(u, bits);
    var m := Exp2(bits - 1);
    SameBatchCount(input, signal.Length, output, specRe.Length);
    SampleLengths(signal[..], input);
    NothingLost(output, specRe[..]);
    NothingLost(output, specIm[..]);
    var x := SamplesOf(signal[..], input);
    var packed := Contiguous(input, m);
    ContiguousFits(input, m);
    var packedRe, packedIm := new real[packed.Size()], new real[packed.Size()];
    StoreElements(Packed(x, signalLen, m), packedRe, packedIm, packed);
    SelfBatch(packed);
    ok := CfftLaunch(packedRe, packedIm, packed, packedRe, packedIm, packed, Forward, Mul(u, u), bits - 1, maxBits, maxUnits);
    if !ok {
      return;
    }
    WindowLengths(packedRe[..], packedIm[..], packed);
    var Y := ContentsOf(packedRe[..], packedIm[..], packed);
    StoreElements(PostBins(Y, Root(Forward, u), m), specRe, specIm, output);
    PipelineComputesRffts(signal[..], input, signalLen, Y, u, bits);
  }

  lemma PipelineComputesRffts(signal: seq<real>, input: Batch, len: nat, Y: seq<seq<Complex>>, u: Complex, bits: nat)
    requires bits > 0 && IsRoot(u, bits) && input.InBounds(|signal|) && len <= input.Length() && len <= Exp2(bits)
    requires forall i :: 0 <= i < |SamplesOf(signal, input)| ==> len <= |SamplesOf(signal, input)[i]|
    requires Y == Transforms(Packed(SamplesOf(signal, input), len, Exp2(bits - 1)), Root(Forward, Mul(u, u)))
    ensures PostBins(Y, Root(Forward, u), Exp2(bits - 1)) == RfftsOf(signal, input, len, u, bits)
  {
    hide IsRoot, Dft, Mul, PackCell, PostBin, SamplesOf, Root, DftOf, Packed, PostBins;
    HalfLength(bits);
    var m := Exp2(bits - 1);
    var x := SamplesOf(signal, input);
    var packed, X := Packed(x, len, m), PostBins(Y, Root(Forward, u), m);
    forall i | 0 <= i < |x|
      ensures X[i] == Rffts(x, len, u, bits)[i]
    {
      forall k: nat | k <= m
        ensures X[i][k] == Rfft(x[i], len, u, bits)[k]
      {
        PostComputesRfft(x[i], len, packed[i], u, bits, k);
      }
    }
  }

  /** What the threads of `irfft_pre_kernel` write. */
  function PreBins(X: seq<seq<Complex>>, bins: nat, u: Complex, m: nat): (Y: seq<seq<Complex>>)
    requires 1 <= bins && forall i :: 0 <= i < |X| ==> bins <= |X[i]|
    ensures |Y| == |X|
    ensures forall i :: 0 <= i < |X| ==> |Y[i]| == m && forall k: nat :: k < m ==> Y[i][k] == PreBin(X[i], bins, u, m, k)
  {
    if X == [] then [] else
      var last := X[|X| - 1];
      PreBins(X[..|X| - 1], bins, u, m) + [seq(m, k requires 0 <= k < m && 1 <= bins <= |last| => PreBin(last, bins, u, m, k))]
  }

  /** What the threads of `irfft_unpack_kernel` write. */
  function Unpacked(y: seq<seq<Complex>>, m: nat): (x: seq<seq<real>>)
    requires forall i :: 0 <= i < |y| ==> |y[i]| == m
    ensures |x| == |y|
    ensures forall i :: 0 <= i < |y| ==> |x[i]| == 2 * m && forall k: nat :: k < 2 * m ==> x[i][k] == UnpackedSample(y[i], k)
  {
    if y == [] then [] else
      var last := y[|y| - 1];
      Unpacked(y[..|y| - 1], m) + [seq(2 * m, k requires 0 <= k < 2 * |last| => UnpackedSample(last, k))]
  }

  /** `irfft_large_launch`: pre, inverse transform of half the length into a second buffer, unpack. */
  method IrfftLarge(specRe: array<real>, specIm: array<real>, input: Batch, signal: array<real>, output: Batch,
                    specBins: nat, u: Complex, bits: nat, maxBits: nat, maxUnits: nat)
    returns (ok: bool)
    requires input.InBounds(specRe.Length) && input.InBounds(specIm.Length)
    requires 1 <= specBins <= input.Length() && specBins <= Exp2(bits) / 2 + 1
    requires output.Fits(signal.Length) && output.Length() == Exp2(bits) && SameBatch(input, output)
    requires signal != specRe && signal != specIm && bits >= 2 && IsRoot(u, bits) && maxUnits > 0
    modifies signal
    ensures ok <==> output.Count() == 0 || bits / 2 <= maxBits
    ensures ok ==> SamplesOf(signal[..], output) == IrfftsOf(specRe[..], specIm[..], input, specBins, u, bits)
    ensures !ok ==> signal[..] == old(signal[..])
    ensures KeptOutside(output, old(signal[..]), signal[..])
  {
    hide IsRoot, Dft, Mul, PreBin, UnpackedSample, ContentsOf, SamplesOf, Batch.Fits, Batch.InBounds, SameBatch,
         Batch.Count, Batch.Length, KeptOutside, Root, Exp2, IrfftsOf, Transforms, DftOf, PreBins, Unpacked;
    HalfLength(bits);
    PackedRoot(u, bits);
    var m := Exp2(bits - 1);
    SameBatchCount(input, specRe.Length, output, signal.Length);
    WindowLengths(specRe[..], specIm[..], input);
    NothingLost(output, signal[..]);
    var X := ContentsOf(specRe[..], specIm[..], input);
    var packed := Contiguous(output, m);
    ContiguousFits(output, m);
    var n := packed.Size();
    var inRe, inIm, outRe, outIm := new real[n], new real[n], new real[n], new real[n];
    StoreElements(PreBins(X, specBins, u, m), inRe, inIm, packed);
    SelfBatch(packed);
    ok := CfftLaunch(inRe, inIm, packed, outRe, outIm, packed, Inverse, Mul(u, u), bits - 1, maxBits, maxUnits);
    if !ok {
      return;
    }
    WindowLengths(outRe[..], outIm[..], packed);
    var y := ContentsOf(outRe[..], outIm[..], packed);
    StoreRealElements(Unpacked(y, m), signal, output);
    PipelineComputesIrffts(specRe[..], specIm[..], input, specBins, y, u, bits);
  }

  lemma SelfBatch(b: Batch)
    ensures SameBatch(b, b)
  {}

  lemma PipelineComputesIrffts(re: seq<real>, im: seq<real>, input: Batch, bins: nat, y: seq<seq<Complex>>, u: Complex, bits: nat)
    requires bits > 0 && IsRoot(u, bits) && input.InBounds(|re|) && input.InBounds(|im|) && 1 <= bins <= input.Length()
    requires forall i :: 0 <= i < |ContentsOf(re, im, input)| ==> bins <= |ContentsOf(re, im, input)[i]|
    requires y == Transforms(PreBins(ContentsOf(re, im, input), bins, u, Exp2(bits - 1)), Root(Inverse, Mul(u, u)))
    ensures Unpacked(y, Exp2(bits - 1)) == IrfftsOf(re, im, input, bins, u, bits)
  {
    hide IsRoot, Dft, Mul, PreBin, UnpackedSample, ContentsOf, Root, DftOf, PreBins, Unpacked;
    HalfLength(bits);
    var m := Exp2(bits - 1);
    var X := ContentsOf(re, im, input);
    var Y, x := PreBins(X, bins, u, m), Unpacked(y, m);
    forall i | 0 <= i < |X|
      ensures x[i] == Irffts(X, bins, u, bits)[i]
    {
      forall k: nat | k < 2 * m
        ensures x[i][k] == Irfft(X[i], bins, u, bits)[k]
      {
        UnpackComputesIrfft(X[i], bins, Y[i], u, bits, k);
      }
    }
  }

  // ---- the launches -----------------------------------------------------------------------------------------

  /** `rfft_launch_padded`: the same bins whichever path the device's shared memory selects. */
  method RfftLaunch(signal: array<real>, input: Batch, specRe: array<real>, specIm: array<real>, output: Batch,
                    signalLen: nat, u: Complex, bits: nat, maxBits: nat, maxUnits: nat)
    returns (ok: bool)
    requires input.InBounds(signal.Length) && signalLen <= input.Length() && signalLen <= Exp2(bits)
    requires specRe != specIm && specRe.Length == specIm.Length && output.Fits(specRe.Length)
    requires signal != specRe && signal != specIm && SameBatch(input, output)
    requires bits >= 1 && output.Length() == Exp2(bits) / 2 + 1 && IsRoot(u, bits) && maxUnits > 0
    modifies specRe, specIm
    ensures ok <==> input.Count() == 0 || bits <= maxBits || (bits >= 2 && bits / 2 <= maxBits)
    ensures ok ==> ContentsOf(specRe[..], specIm[..], output) == RfftsOf(signal[..], input, signalLen, u, bits)
    ensures !ok ==> specRe[..] == old(specRe[..]) && specIm[..] == old(specIm[..])
    ensures KeptOutside(output, old(specRe[..]), specRe[..]) && KeptOutside(output, old(specIm[..]), specIm[..])
  {
    hide IsRoot, Rfft, ContentsOf, SamplesOf, Batch.Fits, Batch.InBounds, SameBatch, Batch.Length, Exp2;
    SameBatchCount(input, signal.Length, output, specRe.Length);
    SampleLengths(signal[..], input);
    var count := CountWindows(input.shape, input.strides, input.dim);
    if count == 0 {
      return true;
    }
    Exp2Order(bits, maxBits);
    if Exp2(bits) > Exp2(maxBits) {
      if bits < 2 {
        return false;
      }
      ok := RfftLarge(signal, input, specRe, specIm, output, signalLen, u, bits, maxBits, maxUnits);
    } else {
      RfftShared(signal, input, specRe, specIm, output, signalLen, u, bits, Clamp(Exp2(bits) / 2, maxUnits));
      ok := true;
    }
  }

  /** `irfft_launch_padded`: the same samples whichever path the device's shared memory selects. */
  method IrfftLaunch(specRe: array<real>, specIm: array<real>, input: Batch, signal: array<real>, output: Batch,
                     specBins: nat, u: Complex, bits: nat, maxBits: nat, maxUnits: nat)
    returns (ok: bool)
    requires input.InBounds(specRe.Length) && input.InBounds(specIm.Length)
    requires 1 <= specBins <= input.Length() && specBins <= Exp2(bits) / 2 + 1
    requires output.Fits(signal.Length) && output.Length() == Exp2(bits) && SameBatch(input, output)
    requires signal != specRe && signal != specIm && bits >= 1 && IsRoot(u, bits) && maxUnits > 0
    modifies signal
    ensures ok <==> output.Count() == 0 || bits <= maxBits || (bits >= 2 && bits / 2 <= maxBits)
    ensures ok ==> SamplesOf(signal[..], output) == IrfftsOf(specRe[..], specIm[..], input, specBins, u, bits)
    ensures !ok ==> signal[..] == old(signal[..])
    ensures KeptOutside(output, old(signal[..]), signal[..])
  {
    hide IsRoot, Irfft, ContentsOf, SamplesOf, Batch.Fits, Batch.InBounds, SameBatch, Batch.Length, Exp2;
    SameBatchCount(input, specRe.Length, output, signal.Length);
    WindowLengths(specRe[..], specIm[..], input);
    var count := CountWindows(output.shape, output.strides, output.dim);
    if count == 0 {
      return true;
    }
    Exp2Order(bits, maxBits);
    if Exp2(bits) > Exp2(maxBits) {
      if bits < 2 {
        return false;
      }
      ok := IrfftLarge(specRe, specIm, input, signal, output, specBins, u, bits, maxBits, maxUnits);
    } else {
      IrfftShared(specRe, specIm, input, signal, output, specBins, u, bits, Clamp(Exp2(bits) / 2, maxUnits));
      ok := true;
    }
  }

  /** A real tensor transformed and transformed back is what it was, whatever path either launch takes. */
  lemma LaunchesUndoEachOther(signal: seq<real>, b: Batch, re: seq<real>, im: seq<real>, half: Batch, u: Complex, bits: nat)
    requires bits > 0 && IsRoot(u, bits) && b.InBounds(|signal|) && b.Length() == Exp2(bits)
    requires half.InBounds(|re|) && half.InBounds(|im|) && half.Length() == Exp2(bits) / 2 + 1
    requires ContentsOf(re, im, half) == RfftsOf(signal, b, Exp2(bits), u, bits)
    ensures IrfftsOf(re, im, half, Exp2(bits) / 2 + 1, u, bits) == SamplesOf(signal, b)
  {
    hide IsRoot, Rfft, Irfft, ContentsOf, SamplesOf, Exp2;
    var x := SamplesOf(signal, b);
    SampleLengths(signal, b);
    WindowLengths(re, im, half);
    forall i | 0 <= i < |x|
      ensures IrfftsOf(re, im, half, Exp2(bits) / 2 + 1, u, bits)[i] == x[i]
    {
      IrfftUndoesRfft(x[i], u, bits);
    }
  }
}

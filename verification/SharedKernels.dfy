/** The kernels that transform one window in shared memory: complex, real forward, real inverse. */
module SharedMemoryKernels {
  import opened BitReversal
  import opened ButterflyStages
  import opened ComplexNumbers
  import opened ComplexSums
  import opened FftParallel
  import opened Fourier
  import opened PowersOfTwo
  import opened TensorViews

  datatype FftMode = Forward | Inverse

  /** The point the mode's angles step by: `u` is one n-th of a turn, forward transforms run clockwise. */
  function Root(mode: FftMode, u: Complex): Complex {
    if mode.Forward? then Conj(u) else u
  }

  lemma RootOfMode(mode: FftMode, u: Complex, bits: nat)
    requires IsRoot(u, bits)
    ensures IsRoot(Root(mode, u), bits)
  {
    hide IsRoot;
    RootConj(u, bits);
  }

  /** The transform of a whole window. */
  function DftOf(x: seq<Complex>, w: Complex): (X: seq<Complex>)
    ensures |X| == |x|
  {
    seq(|x|, k requires 0 <= k < |x| => Dft(AsSignal(x), w, |x|, k))
  }

  /** Load, barrier, stages: after the last barrier shared memory holds the transform of the samples. */
  method TransformShared(samples: seq<Complex>, w: Complex, bits: nat, units: nat)
    returns (re: array<real>, im: array<real>)
    requires |samples| == Exp2(bits) && IsRoot(w, bits) && units > 0
    ensures fresh(re) && fresh(im) && re.Length == im.Length == Exp2(bits)
    ensures Window(re, im) == DftOf(samples, w)
  {
    hide Stages, IsRoot, Dft;
    re, im := new real[Exp2(bits)], new real[Exp2(bits)];
    LoadBitReversed(samples, re, im, bits, units);
    ghost var y := Window(re, im);
    LoadedIsBitReversed(y, samples, bits);
    FftButterflyParallel(re, im, w, bits, units);
    forall k: nat | k < |y|
      ensures Window(re, im)[k] == Dft(AsSignal(samples), w, |y|, k)
    {
      StagesComputeDft(y, AsSignal(samples), w, bits, k);
    }
  }

  lemma LoadedIsBitReversed(y: seq<Complex>, samples: seq<Complex>, bits: nat)
    requires |y| == |samples| == Exp2(bits)
    requires forall i: nat :: i < |samples| ==> BitRev(i, bits) < |samples| && y[BitRev(i, bits)] == samples[i]
    ensures BitReversed(y, AsSignal(samples), bits)
  {
    hide BitRev;
    forall p | 0 <= p < |y|
      ensures y[p] == AsSignal(samples)(BitRev(p, bits))
    {
      BitRevInvolution(p, bits);
    }
  }

  /** `cfft_shared_kernel` on one window; input and output may be the same buffers. */
  method CfftSharedKernel(inRe: array<real>, inIm: array<real>, input: View,
                          outRe: array<real>, outIm: array<real>, output: View,
                          mode: FftMode, u: Complex, bits: nat, units: nat)
    requires input.InBounds(inRe.Length) && input.InBounds(inIm.Length)
    requires outRe != outIm && outRe.Length == outIm.Length && output.Fits(outRe.Length)
    requires input.len == output.len == Exp2(bits) && IsRoot(u, bits) && units > 0
    modifies outRe, outIm
    ensures Read(outRe, outIm, output) == DftOf(old(Read(inRe, inIm, input)), Root(mode, u))
    ensures forall p :: 0 <= p < outRe.Length && !output.Holds(p) ==>
      outRe[p] == old(outRe[p]) && outIm[p] == old(outIm[p])
  {
    hide IsRoot, Dft;
    RootOfMode(mode, u, bits);
    var re, im := TransformShared(Read(inRe, inIm, input), Root(mode, u), bits, units);
    StoreView(Window(re, im), outRe, outIm, output, units);
  }

  // ---- real forward ------------------------------------------------------------

  /** The first `len` samples as a complex signal, zero from there on. */
  function Padded(x: seq<real>, len: nat): Signal
    requires len <= |x|
  {
    (i: nat) => if i < len then Complex(x[i], 0.0) else ZERO
  }

  /** The specification of the real forward transform: bins 0 .. n/2 of the zero-extended signal. */
  function Rfft(x: seq<real>, len: nat, u: Complex, bits: nat): (X: seq<Complex>)
    requires len <= |x|
    ensures |X| == Exp2(bits) / 2 + 1
  {
    seq(Exp2(bits) / 2 + 1, k requires k >= 0 => Dft(Padded(x, len), Root(Forward, u), Exp2(bits), k))
  }

  /** A sample turned clockwise by k of the angle's steps for each place it is in. */
  function Turned(x: seq<Complex>, u: Complex, k: nat): Signal {
    (i: nat) => if i < |x| then Mul(x[i], Pow(Conj(u), k * i)) else ZERO
  }

  /** Bin k of the forward transform is the sum of the turned samples. */
  lemma ForwardIsSum(x: seq<Complex>, u: Complex, k: nat)
    requires k < |x|
    ensures DftOf(x, Root(Forward, u))[k] == Sum(Turned(x, u, k), |x|)
  {
    hide Mul, Pow, Conj;
    SumExt(DftTerm(AsSignal(x), Conj(u), k), Turned(x, u, k), |x|);
  }

  /** Bin k of the real forward transform is the sum over the samples of the signal alone. */
  lemma RfftIsSum(x: seq<real>, len: nat, u: Complex, bits: nat, k: nat)
    requires len <= |x| && len <= Exp2(bits) && k <= Exp2(bits) / 2
    ensures Rfft(x, len, u, bits)[k] == Sum(Turned(seq(len, i requires 0 <= i < len => Complex(x[i], 0.0)), u, k), len)
  {
    hide Mul, Pow, Conj;
    var y := seq(len, i requires 0 <= i < len => Complex(x[i], 0.0));
    var terms := DftTerm(Padded(x, len), Conj(u), k);
    forall i: nat | len <= i < Exp2(bits)
      ensures terms(i) == ZERO
    {
      ZeroTurned(Pow(Conj(u), k * i));
    }
    SumTail(terms, len, Exp2(bits));
    SumExt(terms, Turned(y, u, k), len);
  }

  lemma ZeroTurned(a: Complex)
    ensures Mul(ZERO, a) == ZERO
  {}

  /** Zeros at the end of a sum can go. */
  lemma {:induction false} SumTail(f: Signal, len: nat, n: nat)
    requires len <= n && forall i: nat | len <= i < n :: f(i) == ZERO
    ensures Sum(f, n) == Sum(f, len)
  {
    if len < n {
      SumTail(f, len, n - 1);
    }
  }

  /** `rfft_kernel` on one window. */
  method RfftKernel(signal: array<real>, input: View, specRe: array<real>, specIm: array<real>, output: View,
                    signalLen: nat, u: Complex, bits: nat, units: nat)
    requires input.InBounds(signal.Length) && signalLen <= input.len && signalLen <= Exp2(bits)
    requires specRe != specIm && specRe.Length == specIm.Length && output.Fits(specRe.Length)
    requires bits > 0 && output.len == Exp2(bits) / 2 + 1 && IsRoot(u, bits) && units > 0
    modifies specRe, specIm
    ensures Read(specRe, specIm, output) == Rfft(old(ReadReal(signal, input)), signalLen, u, bits)
    ensures forall p :: 0 <= p < specRe.Length && !output.Holds(p) ==>
      specRe[p] == old(specRe[p]) && specIm[p] == old(specIm[p])
  {
    hide IsRoot, Dft;
    RootOfMode(Forward, u, bits);
    var x := ReadReal(signal, input);
    var samples := seq(Exp2(bits), i requires i >= 0 => if i < signalLen then Complex(x[i], 0.0) else ZERO);
    var re, im := TransformShared(samples, Root(Forward, u), bits, units);
    StoreView(Window(re, im)[..Exp2(bits) / 2 + 1], specRe, specIm, output, units);
    forall k: nat | k <= Exp2(bits) / 2
      ensures DftOf(samples, Root(Forward, u))[k] == Rfft(x, signalLen, u, bits)[k]
    {
      DftExt(AsSignal(samples), Padded(x, signalLen), Root(Forward, u), Exp2(bits), k);
    }
  }

  // ---- real inverse ------------------------------------------------------------

  /** Bin k of the full spectrum: the stored half, truncated at `bins`, and its conjugate mirror. */
  function ExtendedBin(X: seq<Complex>, bins: nat, n: nat, k: nat): Complex
    requires bins <= |X| && k < n
  {
    var src := if k < n / 2 + 1 then k else n - k;
    var sign := if k < n / 2 + 1 then 1.0 else -1.0;
    if src < bins then Complex(X[src].re, X[src].im * sign) else ZERO
  }

  function Extended(X: seq<Complex>, bins: nat, n: nat): Signal
    requires bins <= |X|
  {
    (k: nat) => if k < n then ExtendedBin(X, bins, n, k) else ZERO
  }

  /** The specification of the real inverse transform. */
  function Irfft(X: seq<Complex>, bins: nat, u: Complex, bits: nat): (x: seq<real>)
    requires bins <= |X|
    ensures |x| == Exp2(bits)
  {
    seq(Exp2(bits), i requires i >= 0 =>
      Dft(Extended(X, bins, Exp2(bits)), Root(Inverse, u), Exp2(bits), i).re * (1.0 / Exp2(bits) as real))
  }

  /** Truncating a spectrum is storing zeros in its place. */
  lemma TruncatedIsZeroed(X: seq<Complex>, bins: nat, u: Complex, bits: nat)
    requires bins <= |X| && bins <= Exp2(bits) / 2 + 1
    ensures Irfft(X, bins, u, bits)
         == Irfft(X[..bins] + seq(Exp2(bits) / 2 + 1 - bins, _ => ZERO), Exp2(bits) / 2 + 1, u, bits)
  {
    hide Dft, Root;
    var n := Exp2(bits);
    var full := X[..bins] + seq(n / 2 + 1 - bins, _ => ZERO);
    forall i: nat | i < n
      ensures Irfft(X, bins, u, bits)[i] == Irfft(full, n / 2 + 1, u, bits)[i]
    {
      DftExt(Extended(X, bins, n), Extended(full, n / 2 + 1, n), Root(Inverse, u), n, i);
    }
  }

  /** `irfft_kernel` on one window. */
  method IrfftKernel(specRe: array<real>, specIm: array<real>, input: View, signal: array<real>, output: View,
                     specBins: nat, u: Complex, bits: nat, units: nat)
    requires input.InBounds(specRe.Length) && input.InBounds(specIm.Length)
    requires 1 <= specBins <= input.len && specBins <= Exp2(bits) / 2 + 1
    requires output.Fits(signal.Length) && output.len == Exp2(bits)
    requires bits > 0 && IsRoot(u, bits) && units > 0
    modifies signal
    ensures ReadReal(signal, output) == Irfft(old(Read(specRe, specIm, input)), specBins, u, bits)
    ensures forall p :: 0 <= p < signal.Length && !output.Holds(p) ==> signal[p] == old(signal[p])
  {
    hide IsRoot, Dft;
    var n := Exp2(bits);
    var X := Read(specRe, specIm, input);
    var samples := seq(n, k requires 0 <= k < n => ExtendedBin(X, specBins, n, k));
    var re, im := TransformShared(samples, Root(Inverse, u), bits, units);
    var scale := 1.0 / n as real;
    StoreReal(seq(n, i requires 0 <= i < n reads re, im => re[i] * scale), signal, output, units);
    forall i: nat | i < n
      ensures ReadReal(signal, output)[i] == Irfft(X, specBins, u, bits)[i]
    {
      assert Complex(re[i], im[i]) == DftOf(samples, Root(Inverse, u))[i];
      DftExt(AsSignal(samples), Extended(X, specBins, n), Root(Inverse, u), n, i);
    }
  }

  // ---- the two directions undo each other ------------------------------------

  /** The stored half of a real signal's spectrum, extended by conjugation, is its whole spectrum. */
  lemma ExtendedSpectrum(x: seq<real>, u: Complex, bits: nat, k: nat)
    requires |x| == Exp2(bits) && bits > 0 && IsRoot(u, bits) && k < Exp2(bits)
    ensures ExtendedBin(Rfft(x, |x|, u, bits), Exp2(bits) / 2 + 1, Exp2(bits), k)
         == Dft(Padded(x, |x|), Root(Forward, u), Exp2(bits), k)
  {
    hide Dft;
    var n := Exp2(bits);
    RootOfMode(Forward, u, bits);
    RootCycle(Root(Forward, u), bits);
    if k > n / 2 {
      Hermitian(Padded(x, |x|), Root(Forward, u), n, n - k);
    }
  }

  /** Inverse after forward is the identity on every real window. */
  lemma IrfftUndoesRfft(x: seq<real>, u: Complex, bits: nat)
    requires |x| == Exp2(bits) && bits > 0 && IsRoot(u, bits)
    ensures Irfft(Rfft(x, |x|, u, bits), Exp2(bits) / 2 + 1, u, bits) == x
  {
    hide Dft, IsRoot, ExtendedBin, Rfft;
    var n := Exp2(bits);
    var X, s := Rfft(x, n, u, bits), Padded(x, n);
    var w := Root(Forward, u);
    RootOfMode(Forward, u, bits);
    forall i: nat | i < n
      ensures Irfft(X, n / 2 + 1, u, bits)[i] == x[i]
    {
      forall k: nat | k < n
        ensures Extended(X, n / 2 + 1, n)(k) == DftSignal(s, w, n)(k)
      {
        ExtendedSpectrum(x, u, bits, k);
      }
      DftExt(Extended(X, n / 2 + 1, n), DftSignal(s, w, n), u, n, i);
      ConjConj(u);
      Inversion(s, w, bits, i);
      Unscale(n as real, x[i]);
    }
  }

  lemma ConjConj(a: Complex)
    ensures Conj(Conj(a)) == a
  {}

  lemma Unscale(r: real, a: real)
    requires r > 0.0
    ensures (r * a) * (1.0 / r) == a
  {}
}

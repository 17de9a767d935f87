/** The recursive reference the kernels are compared with. */
module CpuReference {
  import opened BatchedTensors
  import opened BatchedTransform
  import opened BatchLayout
  import opened ButterflyStages
  import opened ComplexNumbers
  import opened ComplexSums
  import opened DenseViews
  import opened Fourier
  import opened FourStep
  import opened HostOrder
  import opened IndexArithmetic
  import opened MixedRadix
  import opened PowersOfTwo
  import opened RealTransforms
  import opened SharedMemoryKernels
  import opened TensorViews

  /** `fft_recursive`: copy out the even and odd samples, transform both, join them in place. */
  method FftRecursive(x: array<Complex>, mode: FftMode, u: Complex, bits: nat)
    requires x.Length == Exp2(bits) && IsRoot(u, bits)
    modifies x
    ensures x[..] == DftOf(old(x[..]), Root(mode, u))
    decreases bits
  {
    hide IsRoot, Dft, Mul, Add, Sub;
    var n := x.Length;
    ghost var samples := x[..];
    if n <= 1 {
      SingleSample(samples, Root(mode, u));
      return;
    }
    var m := n / 2;
    var even := new Complex[m](i requires 0 <= i < m reads x => x[2 * i]);
    var odd := new Complex[m](i requires 0 <= i < m reads x => x[2 * i + 1]);
    ghost var evens, odds := even[..], odd[..];
    RootSquare(u, bits);
    FftRecursive(even, mode, Mul(u, u), bits - 1);
    FftRecursive(odd, mode, Mul(u, u), bits - 1);
    forall k: nat | k < m
      ensures Joined(DftOf(samples, Root(mode, u)), even[..], odd[..], Root(mode, u), k)
    {
      JoinHalves(samples, evens, odds, mode, u, bits, k);
    }
    JoinInPlace(x, even, odd, Root(mode, u), DftOf(samples, Root(mode, u)));
  }

  /** Bins k and k + m of a transform, out of bin k of its even and odd halves. */
  ghost predicate Joined(X: seq<Complex>, even: seq<Complex>, odd: seq<Complex>, w: Complex, k: nat)
    requires |X| == |even| + |odd| && |even| == |odd| && k < |even|
  {
    var t := Mul(Twiddle(w, |X|, k, |X|), odd[k]);
    X[k] == Add(even[k], t) && X[k + |even|] == Sub(even[k], t)
  }

  /** The joining loop. */
  method JoinInPlace(x: array<Complex>, even: array<Complex>, odd: array<Complex>, w: Complex, ghost X: seq<Complex>)
    requires x != even && x != odd && even.Length == odd.Length && x.Length == |X| == 2 * even.Length
    requires forall k: nat :: k < even.Length ==> Joined(X, even[..], odd[..], w, k)
    modifies x
    ensures x[..] == X
  {
    hide Mul, Add, Sub, Twiddle;
    var n, m := x.Length, even.Length;
    for k := 0 to m
      invariant x[..k] == X[..k] && x[m..m + k] == X[m..m + k]
    {
      assert Joined(X, even[..], odd[..], w, k);
      var t := Mul(Twiddle(w, n, k, n), odd[k]);
      x[k], x[k + m] := Add(even[k], t), Sub(even[k], t);
      assert x[..k] == X[..k] && x[m..m + k] == X[m..m + k];
    }
    assert x[..] == x[..m] + x[m..m + m] && X == X[..m] + X[m..m + m];
  }

  lemma SingleSample(x: seq<Complex>, w: Complex)
    requires |x| == 1
    ensures DftOf(x, w) == x
  {
    var term := DftTerm(AsSignal(x), w, 0);
    assert term(0) == Mul(x[0], Pow(w, 0));
    MulOne(x[0]);
    assert Sum(term, 1) == Add(Sum(term, 0), term(0));
  }

  lemma JoinHalves(x: seq<Complex>, even: seq<Complex>, odd: seq<Complex>, mode: FftMode, u: Complex, bits: nat, k: nat)
    requires bits > 0 && IsRoot(u, bits) && |x| == Exp2(bits) && |even| == |odd| == Exp2(bits - 1) && k < |even|
    requires forall i: nat :: i < |even| ==> even[i] == x[2 * i] && odd[i] == x[2 * i + 1]
    ensures Joined(DftOf(x, Root(mode, u)), DftOf(even, Root(mode, Mul(u, u))), DftOf(odd, Root(mode, Mul(u, u))),
                   Root(mode, u), k)
  {
    hide Dft, Mul, Add, Sub, Norm, Pow;
    var w := Root(mode, u);
    RootOfMode(mode, u, bits);
    ConjMul(u, u);
    FullTurn(w, |x|, k);
    Butterfly(AsSignal(x), AsSignal(even), AsSignal(odd), w, |even|, k);
  }

  /** The body of `rfft_ref`'s loop: one window. */
  method RfftWindow(signal: seq<real>, u: Complex, bits: nat) returns (X: seq<Complex>)
    requires |signal| == Exp2(bits) && IsRoot(u, bits)
    ensures X == Rfft(signal, |signal|, u, bits)
  {
    hide IsRoot, Dft;
    var n := |signal|;
    var spectrum := new Complex[n](i requires 0 <= i < n => Complex(signal[i], 0.0));
    ghost var samples := spectrum[..];
    FftRecursive(spectrum, Forward, u, bits);
    X := spectrum[..n / 2 + 1];
    forall k: nat | k < n / 2 + 1
      ensures X[k] == Rfft(signal, n, u, bits)[k]
    {
      assert spectrum[..][k] == DftOf(samples, Root(Forward, u))[k];
      DftExt(AsSignal(samples), Padded(signal, n), Root(Forward, u), n, k);
    }
  }

  /** The first half of `irfft_ref`: store the given bins, then mirror them by conjugation. */
  method MirrorSpectrum(X: seq<Complex>, n: nat) returns (spectrum: array<Complex>)
    requires |X| >= 2 && n == 2 * (|X| - 1)
    ensures fresh(spectrum) && spectrum.Length == n
    ensures forall k: nat :: k < n ==> spectrum[k] == ExtendedBin(X, |X|, n, k)
  {
    hide *;
    spectrum := new Complex[n](_ => ZERO);
    for k := 0 to |X|
      invariant forall i {:trigger spectrum[i]} :: 0 <= i < k ==> spectrum[i] == X[i]
    {
      spectrum[k] := X[k];
    }
    for k := 1 to |X| - 1
      invariant forall i {:trigger spectrum[i]} :: 0 <= i < |X| ==> spectrum[i] == X[i]
      invariant forall i {:trigger spectrum[i]} :: n - k < i < n ==> spectrum[i] == Conj(X[n - i])
    {
      spectrum[n - k] := Conj(spectrum[k]);
    }
    forall k: nat | k < n
      ensures spectrum[k] == ExtendedBin(X, |X|, n, k)
    {
      StoredOrMirrored(X, n, k);
    }
  }

  /** The body of `irfft_ref`'s loop: mirror the stored half by conjugation, transform back, divide by n. */
  method IrfftWindow(X: seq<Complex>, u: Complex, bits: nat) returns (x: seq<real>)
    requires bits > 0 && |X| == Exp2(bits) / 2 + 1 && IsRoot(u, bits)
    ensures x == Irfft(X, |X|, u, bits)
  {
    BinsOfWindow(|X|, bits);
    hide *;
    var n := (|X| - 1) * 2;
    var spectrum := MirrorSpectrum(X, n);
    ghost var samples := spectrum[..];
    FftRecursive(spectrum, Inverse, u, bits);
    x := seq(n, i requires 0 <= i < n reads spectrum => PerSample(spectrum[i].re, n));
    MirroredSamples(samples, spectrum[..], x, X, u, bits);
  }

  lemma BinsOfWindow(bins: nat, bits: nat)
    requires bits > 0 && bins == Exp2(bits) / 2 + 1
    ensures bins >= 2 && (bins - 1) * 2 == Exp2(bits)
  {}

  /** The unnormalised inverse divided by the window length. */
  function PerSample(a: real, n: nat): (r: real)
    requires n > 0
    ensures r == a * (1.0 / n as real)
  {
    DivideByProduct(a, n as real);
    a / n as real
  }

  lemma StoredOrMirrored(X: seq<Complex>, n: nat, k: nat)
    requires |X| == n / 2 + 1 && n % 2 == 0 && k < n
    ensures ExtendedBin(X, |X|, n, k) == if k < |X| then X[k] else Conj(X[n - k])
  {}

  lemma MirroredSamples(samples: seq<Complex>, back: seq<Complex>, x: seq<real>, X: seq<Complex>, u: Complex, bits: nat)
    requires bits > 0 && |X| == Exp2(bits) / 2 + 1 && |samples| == |back| == |x| == Exp2(bits)
    requires forall k: nat :: k < |samples| ==> samples[k] == ExtendedBin(X, |X|, |samples|, k)
    requires back == DftOf(samples, Root(Inverse, u))
    requires forall i: nat :: i < |x| ==> x[i] == PerSample(back[i].re, |x|)
    ensures x == Irfft(X, |X|, u, bits)
  {
    hide Dft, ExtendedBin, PerSample;
    forall i: nat | i < |x|
      ensures x[i] == Irfft(X, |X|, u, bits)[i]
    {
      DftExt(AsSignal(samples), Extended(X, |X|, |samples|), Root(Inverse, u), |samples|, i);
    }
  }

  lemma DivideByProduct(a: real, n: real)
    requires n > 0.0
    ensures a / n == a * (1.0 / n)
  {}

  // ---- whole tensors ----------------------------------------------------------------------------

  /** The coordinates of a lane, whatever stands at the transformed dimension. */
  ghost predicate LaneCoords(coords: seq<nat>, b: Batch, lane: nat) {
    && b.Valid() && Host(b).Valid() && lane < Host(b).Count() && |coords| == |b.shape|
    && Reversed(coords[b.dim := 0]) == Coordinates(Dims(Host(b).shape, Host(b).strides), Host(b).dim, lane, 0)
  }

  lemma LaneCell(b: Batch, lane: nat, coords: seq<nat>, k: nat, size: nat)
    requires b.InBounds(size) && LaneCoords(coords, b, lane) && k < b.Length() && coords[b.dim] == k
    ensures Position(coords, Dims(b.shape, b.strides)) == Host(b).Window(lane).At(k) < size
  {
    hide Position, Reversed;
    HostInBounds(b, size);
    HostCell(b, lane, coords[b.dim := 0], k);
    assert coords[b.dim := 0][b.dim := k] == coords;
    WindowInBounds(Host(b), size, lane);
    CellInBounds(Host(b).Window(lane), size, k);
  }

  lemma SameLane(a: Batch, b: Batch, coords: seq<nat>, lane: nat)
    requires LaneCoords(coords, a, lane) && b.Valid() && Host(b).Valid() && SameBatch(a, b) && lane < Host(b).Count()
    ensures LaneCoords(coords, b, lane)
  {
    hide Reversed, Coordinates;
    HostDims(a);
    HostDims(b);
    SameCoordinates(Dims(Host(a).shape, Host(a).strides), Dims(Host(b).shape, Host(b).strides), Host(a).dim, lane, 0);
  }

  /** Reading a lane, element by element, at the coordinates' cell. */
  method ReadLane(data: seq<real>, b: Batch, coords: array<nat>, ghost lane: nat) returns (x: seq<real>)
    requires b.InBounds(|data|) && LaneCoords(coords[..], b, lane)
    modifies coords
    ensures LaneCoords(coords[..], b, lane)
    ensures Host(b).Window(lane).InBounds(|data|) && x == ReadRealOf(data, Host(b).Window(lane))
  {
    hide Position, Reversed, View.At, View.Fits, View.InBounds, ReadRealOf;
    x := [];
    for i := 0 to b.Length()
      invariant LaneCoords(coords[..], b, lane)
      invariant |x| == i && forall k: nat :: k < i ==>
        Host(b).Window(lane).At(k) < |data| && x[k] == data[Host(b).Window(lane).At(k)]
    {
      ghost var was := coords[..];
      coords[b.dim] := i;
      assert coords[..][b.dim := 0] == was[b.dim := 0];
      LaneCell(b, lane, coords[..], i, |data|);
      x := x + [data[Position(coords[..], Dims(b.shape, b.strides))]];
    }
    HostInBounds(b, |data|);
    WindowInBounds(Host(b), |data|, lane);
  }

  /** Writing a lane of a complex result. */
  method WriteLane(values: seq<Complex>, re: array<real>, im: array<real>, b: Batch, coords: array<nat>, ghost lane: nat)
    requires re != im && re.Length == im.Length && b.Fits(re.Length) && LaneCoords(coords[..], b, lane) && |values| == b.Length()
    modifies re, im, coords
    ensures Host(b).Window(lane).Fits(re.Length) && ReadOf(re[..], im[..], Host(b).Window(lane)) == values
    ensures OnlyWithin(Host(b).Window(lane), old(re[..]), re[..]) && OnlyWithin(Host(b).Window(lane), old(im[..]), im[..])
  {
    hide Position, Reversed, View.At, ReadOf;
    ghost var v := Host(b).Window(lane);
    HostFits(b, re.Length);
    WindowFits(Host(b), re.Length, lane);
    for i := 0 to |values|
      invariant LaneCoords(coords[..], b, lane)
      invariant forall k: nat :: k < i ==> Complex(re[v.At(k)], im[v.At(k)]) == values[k]
      invariant OnlyWithin(v, old(re[..]), re[..]) && OnlyWithin(v, old(im[..]), im[..])
    {
      ghost var was := coords[..];
      coords[b.dim] := i;
      assert coords[..][b.dim := 0] == was[b.dim := 0];
      LaneCell(b, lane, coords[..], i, re.Length);
      var flat := Position(coords[..], Dims(b.shape, b.strides));
      assert v.Holds(flat);
      re[flat], im[flat] := values[i].re, values[i].im;
    }
  }

  /** Writing a lane of a real result. */
  method WriteRealLane(values: seq<real>, x: array<real>, b: Batch, coords: array<nat>, ghost lane: nat)
    requires b.Fits(x.Length) && LaneCoords(coords[..], b, lane) && |values| == b.Length()
    modifies x, coords
    ensures Host(b).Window(lane).Fits(x.Length) && ReadRealOf(x[..], Host(b).Window(lane)) == values
    ensures OnlyWithin(Host(b).Window(lane), old(x[..]), x[..])
  {
    hide Position, Reversed, View.At, ReadRealOf;
    ghost var v := Host(b).Window(lane);
    HostFits(b, x.Length);
    WindowFits(Host(b), x.Length, lane);
    for i := 0 to |values|
      invariant LaneCoords(coords[..], b, lane)
      invariant forall k: nat :: k < i ==> x[v.At(k)] == values[k]
      invariant OnlyWithin(v, old(x[..]), x[..])
    {
      ghost var was := coords[..];
      coords[b.dim] := i;
      assert coords[..][b.dim := 0] == was[b.dim := 0];
      LaneCell(b, lane, coords[..], i, x.Length);
      var flat := Position(coords[..], Dims(b.shape, b.strides));
      assert v.Holds(flat);
      x[flat] := values[i];
    }
  }

  /** The coordinates `get_coords` gives belong to the lane in every tensor of the batch. */
  lemma LaneStarts(coords: seq<nat>, b: Batch, size: nat, lane: nat)
    requires b.InBounds(size) && lane < b.Count() && |coords| == |b.shape|
    requires b.Valid() && Reversed(coords) == Coordinates(Reversed(Dims(b.shape, b.strides)), |b.shape| - 1 - b.dim, lane, 0)
    ensures LaneCoords(coords, b, lane)
  {
    hide Coordinates;
    HostForm(b);
    HostIsValid(b);
    HostDims(b);
    CoordinateAtDim(Dims(Host(b).shape, Host(b).strides), Host(b).dim, lane, 0);
    assert coords[b.dim] == Reversed(coords)[Host(b).dim] == 0;
    assert coords[b.dim := 0] == coords;
  }

  /** A result that is right lane by lane is right window by window. */
  lemma HostComputesRffts(re: seq<real>, im: seq<real>, output: Batch, signal: seq<real>, input: Batch, len: nat,
                          u: Complex, bits: nat)
    requires output.InBounds(|re|) && output.InBounds(|im|) && input.InBounds(|signal|)
    requires SameBatch(input, output) && len <= input.Length() && len <= Host(input).Length()
    requires Host(output).InBounds(|re|) && Host(output).InBounds(|im|) && Host(input).InBounds(|signal|)
    requires ContentsOf(re, im, Host(output)) == RfftsOf(signal, Host(input), len, u, bits)
    ensures ContentsOf(re, im, output) == RfftsOf(signal, input, len, u, bits)
  {
    hide Rfft, ReadOf, ReadRealOf, Host, Batch.Window, ContentsOf, SamplesOf, Batch.Length;
    SameBatchCount(input, |signal|, output, |re|);
    SampleLengths(signal, input);
    SampleLengths(signal, Host(input));
    forall w: nat | w < output.Count()
      ensures ContentsOf(re, im, output)[w] == RfftsOf(signal, input, len, u, bits)[w]
    {
      WindowInBounds(input, |signal|, w);
      WindowInBounds(output, |re|, w);
      var lane := LaneOf(input, output, w);
      assert ContentsOf(re, im, Host(output))[lane] == Rffts(SamplesOf(signal, Host(input)), len, u, bits)[lane] by {
        assert lane < |SamplesOf(signal, Host(input))|;
      }
    }
  }

  lemma HostComputesIrffts(x: seq<real>, output: Batch, re: seq<real>, im: seq<real>, input: Batch, bins: nat,
                           u: Complex, bits: nat)
    requires output.InBounds(|x|) && input.InBounds(|re|) && input.InBounds(|im|)
    requires SameBatch(input, output) && bins <= input.Length() && bins <= Host(input).Length()
    requires Host(output).InBounds(|x|) && Host(input).InBounds(|re|) && Host(input).InBounds(|im|)
    requires SamplesOf(x, Host(output)) == IrfftsOf(re, im, Host(input), bins, u, bits)
    ensures SamplesOf(x, output) == IrfftsOf(re, im, input, bins, u, bits)
  {
    hide Irfft, ReadOf, ReadRealOf, Host, Batch.Window, ContentsOf, SamplesOf, Batch.Length;
    SameBatchCount(input, |re|, output, |x|);
    WindowLengths(re, im, input);
    WindowLengths(re, im, Host(input));
    forall w: nat | w < output.Count()
      ensures SamplesOf(x, output)[w] == IrfftsOf(re, im, input, bins, u, bits)[w]
    {
      WindowInBounds(input, |re|, w);
      WindowInBounds(input, |im|, w);
      WindowInBounds(output, |x|, w);
      var lane := LaneOf(input, output, w);
      assert SamplesOf(x, Host(output))[lane] == Irffts(ContentsOf(re, im, Host(input)), bins, u, bits)[lane] by {
        assert lane < |ContentsOf(re, im, Host(input))|;
      }
    }
  }

  /** The host counts elements over window length. */
  lemma HostCount(b: Batch, size: nat)
    requires b.InBounds(size)
    ensures b.Length() > 0 && b.Size() / b.Length() == b.Count()
  {
    hide Cells, Windows;
    CellsAreWindows(Dims(b.shape, b.strides), b.dim);
    DivModUnique(b.Size(), b.Length(), b.Count(), 0);
  }

  ghost predicate LanesDone<T>(now: seq<T>, spec: seq<T>, l: nat) {
    |now| == |spec| && forall i: nat :: i < l && i < |spec| ==> now[i] == spec[i]
  }

  /** The loop of `rfft_ref`: one lane, from its coordinates to its bins. */
  method RfftLane(signal: seq<real>, input: Batch, re: array<real>, im: array<real>, output: Batch, u: Complex, bits: nat, l: nat)
    requires input.InBounds(|signal|) && Host(input).InBounds(|signal|) && Host(input).Count() == input.Count()
    requires re != im && re.Length == im.Length && output.Fits(re.Length) && Host(output).Fits(re.Length)
    requires output.Count() == Host(output).Count() == input.Count() && SameBatch(input, output) && l < input.Count()
    requires input.Length() == Host(input).Length() == Exp2(bits) && output.Length() == Exp2(bits) / 2 + 1 && IsRoot(u, bits)
    modifies re, im
    ensures |SamplesOf(signal, Host(input))[l]| == Exp2(bits)
    ensures ContentsOf(re[..], im[..], Host(output)) ==
      old(ContentsOf(re[..], im[..], Host(output)))[l := Rfft(SamplesOf(signal, Host(input))[l], Exp2(bits), u, bits)]
  {
    hide IsRoot, Rfft, Reversed, Position, Exp2, Batch.Window, Batch.Valid, Batch.Count, Batch.Fits, Batch.InBounds,
         Batch.Length, Batch.Size, ContentsOf, SamplesOf, Coordinates, LaneCoords, ReadOf, ReadRealOf, View.Fits,
         View.InBounds, OnlyWithin, SameBatch, Host, RfftsOf;
    Starting(input, |signal|, output, re.Length, l);
    SampleLengths(signal, Host(input));
    var coords := GetCoords(l, input.shape, input.strides, input.dim);
    LaneStarts(coords[..], input, |signal|, l);
    var samples := ReadLane(signal, input, coords, l);
    var X := RfftWindow(samples, u, bits);
    SameLane(input, output, coords[..], l);
    ghost var wasRe, wasIm := re[..], im[..];
    WriteLane(X, re, im, output, coords, l);
    OneWindowChanged(wasRe, wasIm, re[..], im[..], Host(output), l);
  }

  /** `rfft_ref`: the half spectra of every window, lane by lane. */
  method RfftRef(signal: seq<real>, input: Batch, u: Complex, bits: nat) returns (re: array<real>, im: array<real>)
    requires input.InBounds(|signal|) && input.Length() == Exp2(bits) && IsRoot(u, bits)
    ensures fresh(re) && fresh(im)
    ensures
      var output := Contiguous(input, Exp2(bits) / 2 + 1);
      && output.Fits(re.Length) && output.Fits(im.Length)
      && ContentsOf(re[..], im[..], output) == RfftsOf(signal, input, Exp2(bits), u, bits)
  {
    hide IsRoot, Rfft, Reversed, Position, Exp2, Batch.Window, Batch.Valid, Batch.Count, Batch.Fits, Batch.InBounds,
         Batch.Length, Batch.Size, ContentsOf, SamplesOf, Coordinates, LaneCoords, ReadOf, ReadRealOf, View.Fits,
         View.InBounds, OnlyWithin, SameBatch, Host, RfftsOf;
    InBoundsForm(input, |signal|);
    var n := Exp2(bits);
    var output := Contiguous(input, n / 2 + 1);
    ContiguousFits(input, n / 2 + 1);
    re, im := new real[output.Size()], new real[output.Size()];
    HostInBounds(input, |signal|);
    HostFits(output, re.Length);
    HostCount(input, |signal|);
    SampleLengths(signal, Host(input));
    ghost var spec := Rffts(SamplesOf(signal, Host(input)), n, u, bits);
    var numWindows := input.Size() / input.Length();
    for l := 0 to numWindows
      invariant LanesDone(ContentsOf(re[..], im[..], Host(output)), spec, l)
    {
      RfftLane(signal, input, re, im, output, u, bits, l);
    }
    assert ContentsOf(re[..], im[..], Host(output)) == spec;
    assert spec == RfftsOf(signal, Host(input), n, u, bits) by { SpecIsRffts(signal, Host(input), n, u, bits); }
    HostComputesRffts(re[..], im[..], output, signal, input, n, u, bits);
  }

  lemma InBoundsForm(b: Batch, size: nat)
    requires b.InBounds(size)
    ensures b.WellFormed()
  {}

  lemma SpecIsRffts(signal: seq<real>, b: Batch, n: nat, u: Complex, bits: nat)
    requires b.InBounds(|signal|) && n <= b.Length()
    requires forall i :: 0 <= i < |SamplesOf(signal, b)| ==> n <= |SamplesOf(signal, b)[i]|
    ensures Rffts(SamplesOf(signal, b), n, u, bits) == RfftsOf(signal, b, n, u, bits)
  {}

  lemma SpecIsIrffts(re: seq<real>, im: seq<real>, b: Batch, bins: nat, u: Complex, bits: nat)
    requires b.InBounds(|re|) && b.InBounds(|im|) && bins <= b.Length()
    requires forall i :: 0 <= i < |ContentsOf(re, im, b)| ==> bins <= |ContentsOf(re, im, b)[i]|
    ensures Irffts(ContentsOf(re, im, b), bins, u, bits) == IrfftsOf(re, im, b, bins, u, bits)
  {}

  lemma Starting(a: Batch, n: nat, b: Batch, m: nat, l: nat)
    requires a.InBounds(n) && b.InBounds(m) && SameBatch(a, b) && l < a.Count() && b.Count() == a.Count()
    requires Host(a).InBounds(n) && Host(b).InBounds(m) && Host(a).Count() == a.Count() && Host(b).Count() == b.Count()
    ensures a.Valid() && b.Valid() && Host(a).Valid() && Host(b).Valid()
    ensures |a.shape| == |a.strides| && a.dim < |a.shape| && forall i :: 0 <= i < |a.shape| ==> a.shape[i] >= 1
  {
    CountIsPositive(a);
    CountIsPositive(b);
    CountIsPositive(Host(a));
    CountIsPositive(Host(b));
  }

  /** The loop of `irfft_ref`: one lane, from its coordinates to its samples. */
  method IrfftLane(re: seq<real>, im: seq<real>, input: Batch, x: array<real>, output: Batch, u: Complex, bits: nat, l: nat)
    requires input.InBounds(|re|) && input.InBounds(|im|) && Host(input).InBounds(|re|) && Host(input).InBounds(|im|)
    requires output.Fits(x.Length) && Host(output).Fits(x.Length) && Host(input).Count() == input.Count()
    requires output.Count() == Host(output).Count() == input.Count() && SameBatch(input, output) && l < input.Count()
    requires bits > 0 && input.Length() == Host(input).Length() == Exp2(bits) / 2 + 1 && output.Length() == Exp2(bits)
    requires IsRoot(u, bits)
    modifies x
    ensures |ContentsOf(re, im, Host(input))[l]| == input.Length()
    ensures SamplesOf(x[..], Host(output)) ==
      old(SamplesOf(x[..], Host(output)))[l := Irfft(ContentsOf(re, im, Host(input))[l], input.Length(), u, bits)]
  {
    hide IsRoot, Irfft, Reversed, Position, Exp2, Batch.Window, Batch.Valid, Batch.Count, Batch.Fits, Batch.InBounds,
         Batch.Length, Batch.Size, ContentsOf, SamplesOf, Coordinates, LaneCoords, ReadOf, ReadRealOf, View.Fits,
         View.InBounds, OnlyWithin, SameBatch, Host, IrfftsOf;
    Starting(input, |re|, output, x.Length, l);
    WindowLengths(re, im, Host(input));
    var coords := GetCoords(l, input.shape, input.strides, input.dim);
    LaneStarts(coords[..], input, |re|, l);
    var r := ReadLane(re, input, coords, l);
    var i := ReadLane(im, input, coords, l);
    var X := Zipped(r, i);
    ZippedIsRead(re, im, Host(input).Window(l));
    var samples := IrfftWindow(X, u, bits);
    SameLane(input, output, coords[..], l);
    ghost var was := x[..];
    WriteRealLane(samples, x, output, coords, l);
    OneRealWindowChanged(was, x[..], Host(output), l);
  }

  /** `irfft_ref`: the signals of every half spectrum, lane by lane. */
  method IrfftRef(re: seq<real>, im: seq<real>, input: Batch, u: Complex, bits: nat) returns (x: array<real>)
    requires input.InBounds(|re|) && input.InBounds(|im|) && bits > 0 && input.Length() == Exp2(bits) / 2 + 1 && IsRoot(u, bits)
    ensures fresh(x)
    ensures
      var output := Contiguous(input, Exp2(bits));
      && output.Fits(x.Length)
      && SamplesOf(x[..], output) == IrfftsOf(re, im, input, input.Length(), u, bits)
  {
    hide IsRoot, Irfft, Reversed, Position, Exp2, Batch.Window, Batch.Valid, Batch.Count, Batch.Fits, Batch.InBounds,
         Batch.Length, Batch.Size, ContentsOf, SamplesOf, Coordinates, LaneCoords, ReadOf, ReadRealOf, View.Fits,
         View.InBounds, OnlyWithin, SameBatch, Host, IrfftsOf;
    BinsOfWindow(input.Length(), bits);
    InBoundsForm(input, |re|);
    var bins := input.Length();
    var output := Contiguous(input, (bins - 1) * 2);
    ContiguousFits(input, (bins - 1) * 2);
    x := new real[output.Size()];
    HostInBounds(input, |re|);
    HostInBounds(input, |im|);
    HostFits(output, x.Length);
    HostCount(input, |re|);
    WindowLengths(re, im, Host(input));
    ghost var spec := Irffts(ContentsOf(re, im, Host(input)), bins, u, bits);
    var numWindows := input.Size() / bins;
    for l := 0 to numWindows
      invariant LanesDone(SamplesOf(x[..], Host(output)), spec, l)
    {
      IrfftLane(re, im, input, x, output, u, bits, l);
    }
    assert SamplesOf(x[..], Host(output)) == spec;
    assert spec == IrfftsOf(re, im, Host(input), bins, u, bits) by { SpecIsIrffts(re, im, Host(input), bins, u, bits); }
    HostComputesIrffts(x[..], output, re, im, input, bins, u, bits);
  }

  function Zipped(r: seq<real>, i: seq<real>): (X: seq<Complex>)
    requires |r| == |i|
    ensures |X| == |r| && forall k :: 0 <= k < |r| ==> X[k] == Complex(r[k], i[k])
  {
    seq(|r|, k requires 0 <= k < |r| && |r| == |i| => Complex(r[k], i[k]))
  }

  lemma ZippedIsRead(re: seq<real>, im: seq<real>, v: View)
    requires v.InBounds(|re|) && v.InBounds(|im|)
    ensures Zipped(ReadRealOf(re, v), ReadRealOf(im, v)) == ReadOf(re, im, v)
  {}

  // ---- the device against the host ----------------------------------------------------------------

  /**
   What an evaluation of the forward transform runs, on any tensor it can read: whichever path the launch takes, if it
   succeeds the device's windows and the host's hold the same bins.
   */
  method RfftAgrees(signal: array<real>, input: Batch, specRe: array<real>, specIm: array<real>, output: Batch,
                    u: Complex, bits: nat, maxBits: nat, maxUnits: nat)
    returns (ok: bool, hostRe: array<real>, hostIm: array<real>, host: Batch)
    requires input.InBounds(signal.Length) && input.Length() == Exp2(bits)
    requires specRe != specIm && specRe.Length == specIm.Length && output.Fits(specRe.Length)
    requires signal != specRe && signal != specIm && SameBatch(input, output)
    requires bits >= 1 && output.Length() == Exp2(bits) / 2 + 1 && IsRoot(u, bits) && maxUnits > 0
    modifies specRe, specIm
    ensures ok <==> input.Count() == 0 || bits <= maxBits || (bits >= 2 && bits / 2 <= maxBits)
    ensures input.dim < |input.shape| && host == Contiguous(input, Exp2(bits) / 2 + 1)
    ensures fresh(hostRe) && fresh(hostIm) && host.InBounds(hostRe.Length) && host.InBounds(hostIm.Length)
    ensures ok ==> ContentsOf(specRe[..], specIm[..], output) == ContentsOf(hostRe[..], hostIm[..], host)
  {
    hide *;
    hostRe, hostIm := RfftRef(signal[..], input, u, bits);
    InBoundsForm(input, signal.Length);
    host := Contiguous(input, Exp2(bits) / 2 + 1);
    ok := RfftLaunch(signal, input, specRe, specIm, output, Exp2(bits), u, bits, maxBits, maxUnits);
  }

  /** The same for the inverse transform. */
  method IrfftAgrees(specRe: array<real>, specIm: array<real>, input: Batch, signal: array<real>, output: Batch,
                     u: Complex, bits: nat, maxBits: nat, maxUnits: nat)
    returns (ok: bool, hostSignal: array<real>, host: Batch)
    requires input.InBounds(specRe.Length) && input.InBounds(specIm.Length) && input.Length() == Exp2(bits) / 2 + 1
    requires output.Fits(signal.Length) && output.Length() == Exp2(bits) && SameBatch(input, output)
    requires signal != specRe && signal != specIm && bits >= 1 && IsRoot(u, bits) && maxUnits > 0
    modifies signal
    ensures ok <==> output.Count() == 0 || bits <= maxBits || (bits >= 2 && bits / 2 <= maxBits)
    ensures input.dim < |input.shape| && host == Contiguous(input, Exp2(bits))
    ensures fresh(hostSignal) && host.InBounds(hostSignal.Length)
    ensures ok ==> SamplesOf(signal[..], output) == SamplesOf(hostSignal[..], host)
  {
    hide *;
    BinsOfWindow(input.Length(), bits);
    hostSignal := IrfftRef(specRe[..], specIm[..], input, u, bits);
    InBoundsForm(input, specRe.Length);
    host := Contiguous(input, Exp2(bits));
    ok := IrfftLaunch(specRe, specIm, input, signal, output, input.Length(), u, bits, maxBits, maxUnits);
  }
}

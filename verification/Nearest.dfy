/** Nearest interpolation: the forward coordinate map, the backward gather windows, and their adjointness. */
module NearestInterpolation {
  import opened IndexArithmetic

  datatype NearestMode = Exact | Floor

  /** `get_transform` for the two nearest modes: scale and offset as fractions. */
  datatype Transform = Transform(scaleNum: nat, scaleDen: nat, offsetNum: int, offsetDen: nat)

  function GetTransform(inputSize: nat, outputSize: nat, mode: NearestMode): Transform {
    match mode
    case Exact => Transform(inputSize, outputSize, inputSize, 2 * outputSize)
    case Floor => Transform(inputSize, outputSize, 0, 1)
  }

  function Gcd(a: nat, b: nat): nat
    decreases b
  {
    if b == 0 then Max(a, 1) else Gcd(b, a % b)
  }

  function Abs(x: int): nat {
    if x < 0 then -x else x
  }

  /** `Rational::of`: one coordinate (g * scale + offset) / divisor, in lowest terms. */
  datatype Rational = Rational(scale: nat, offset: int, divisor: nat)

  function RationalOf(t: Transform): Rational
    requires t.offsetDen > 0
  {
    Nonnegative(t.scaleNum, t.offsetDen);
    Nonnegative(t.scaleDen, t.offsetDen);
    Lowest(t.scaleNum * t.offsetDen, t.offsetNum * t.scaleDen, t.scaleDen * t.offsetDen)
  }

  function Lowest(scale: nat, offset: int, divisor: nat): Rational {
    var common := Gcd(Gcd(scale, divisor), Abs(offset));
    GcdPositive(Gcd(scale, divisor), Abs(offset));
    DivBounds(scale, common);
    DivBounds(divisor, common);
    Rational(scale / common, offset / common, divisor / common)
  }

  lemma {:induction false} GcdPositive(a: nat, b: nat)
    ensures Gcd(a, b) >= 1
    decreases b
  {
    if b > 0 {
      GcdPositive(b, a % b);
    }
  }

  /** The input index that output index g reads. */
  function Forward(g: nat, inputSize: nat, outputSize: nat, mode: NearestMode): int
    requires inputSize > 0 && outputSize > 0
  {
    var r := RationalOf(GetTransform(inputSize, outputSize, mode));
    LowestTerms(inputSize, outputSize, mode);
    (g * r.scale + r.offset) / r.divisor
  }

  // ---- lowest terms change nothing ----------------------------------------------------------

  predicate Multiple(a: int, d: nat)
    requires d > 0
  {
    a % d == 0
  }

  lemma MultipleSum(a: int, b: int, k: int, d: nat)
    requires d > 0 && Multiple(a, d) && Multiple(b, d)
    ensures Multiple(a + b * k, d)
  {
    FromQuotients(a, b, d, a / d, b / d, k);
  }

  lemma FromQuotients(a: int, b: int, d: nat, p: int, q: int, k: int)
    requires d > 0 && a == d * p && b == d * q
    ensures (a + b * k) % d == 0
  {
    Associate(d, q, k);
    Distribute(d, p, q * k);
    ModOfMultiple(d, p + q * k);
  }

  lemma {:induction false} GcdCommon(a: nat, b: nat)
    ensures Gcd(a, b) >= 1 && Multiple(a, Gcd(a, b)) && Multiple(b, Gcd(a, b))
    decreases b
  {
    hide Multiple;
    if b == 0 {
      MultipleOfSelf(Max(a, 1));
    } else {
      GcdCommon(b, a % b);
      MultipleSum(a % b, b, a / b, Gcd(a, b));
      assert a == a % b + b * (a / b);
    }
  }

  lemma MultipleOfSelf(d: nat)
    requires d > 0
    ensures Multiple(d, d) && Multiple(0, d)
  {
    ModOfMultiple(d, 1);
    ModOfMultiple(d, 0);
  }

  lemma MultipleOfMultiple(a: int, b: nat, d: nat)
    requires b > 0 && d > 0 && Multiple(a, b) && Multiple(b, d)
    ensures Multiple(a, d)
  {
    MultipleOfSelf(d);
    MultipleSum(0, b, a / b, d);
    assert a == b * (a / b);
  }

  lemma LowestTerms(inputSize: nat, outputSize: nat, mode: NearestMode)
    requires inputSize > 0 && outputSize > 0
    ensures
      var t := GetTransform(inputSize, outputSize, mode);
      var r := RationalOf(t);
      exists common: nat :: Reduces(t, r, common)
  {
    var t := GetTransform(inputSize, outputSize, mode);
    Nonnegative(t.scaleNum, t.offsetDen);
    Monotone(1, t.scaleDen, t.offsetDen);
    var common := LowestReduces(t.scaleNum * t.offsetDen, t.offsetNum * t.scaleDen, t.scaleDen * t.offsetDen);
    assert Reduces(t, RationalOf(t), common);
  }

  lemma LowestReduces(scale: nat, offset: int, divisor: nat) returns (common: nat)
    requires divisor > 0
    ensures
      var r := Lowest(scale, offset, divisor);
      common > 0 && r.divisor > 0 && scale == r.scale * common && offset == r.offset * common && divisor == r.divisor * common
  {
    hide Multiple;
    var inner := Gcd(scale, divisor);
    GcdCommon(scale, divisor);
    GcdCommon(inner, Abs(offset));
    common := Gcd(inner, Abs(offset));
    MultipleOfMultiple(scale, inner, common);
    MultipleOfMultiple(divisor, inner, common);
    NegativeMultiple(offset, common);
    MultipleIsProduct(scale, common);
    MultipleIsProduct(offset, common);
    MultipleIsProduct(divisor, common);
  }

  lemma MultipleIsProduct(a: int, d: nat)
    requires d > 0 && Multiple(a, d)
    ensures a == (a / d) * d
  {}

  lemma NegativeMultiple(x: int, d: nat)
    requires d > 0 && Multiple(Abs(x), d)
    ensures Multiple(x, d)
  {
    if x < 0 {
      DivModUnique(x, d, -(Abs(x) / d), 0);
    }
  }

  /** r is t's coordinate with `common` cancelled. */
  predicate Reduces(t: Transform, r: Rational, common: nat) {
    && t.offsetDen > 0 && common > 0 && r.divisor > 0
    && t.scaleNum * t.offsetDen == r.scale * common
    && t.offsetNum * t.scaleDen == r.offset * common
    && t.scaleDen * t.offsetDen == r.divisor * common
  }

  lemma CancelDivision(a: int, d: nat, c: nat)
    requires d > 0 && c > 0
    ensures d * c > 0 && (a * c) / (d * c) == a / d
  {
    Monotone(1, d, c);
    var q, r := a / d, a % d;
    Distribute(c, q * d, r);
    Associate(q, d, c);
    Monotone(r + 1, d, c);
    Distribute(c, r, 1);
    Nonnegative(r, c);
    DivModUnique(a * c, d * c, q, r * c);
  }

  /** Input index i is read exactly by the output indices whose coordinate lies in [i, i + 1). */
  lemma ForwardIs(g: nat, i: int, inputSize: nat, outputSize: nat, mode: NearestMode)
    requires inputSize > 0 && outputSize > 0
    ensures Forward(g, inputSize, outputSize, mode) == i <==>
      match mode
      case Floor => i * outputSize <= g * inputSize < (i + 1) * outputSize
      case Exact => i * (2 * outputSize) <= (2 * g + 1) * inputSize < (i + 1) * (2 * outputSize)
  {
    var t := GetTransform(inputSize, outputSize, mode);
    var r := RationalOf(t);
    LowestTerms(inputSize, outputSize, mode);
    var c: nat :| Reduces(t, r, c);
    CancelDivision(g * r.scale + r.offset, r.divisor, c);
    Distribute(c, g * r.scale, r.offset);
    Associate(g, r.scale, c);
    match mode
    case Floor =>
      assert (g * r.scale + r.offset) * c == g * inputSize && r.divisor * c == outputSize;
      QuotientIs(g * inputSize, outputSize, i);
    case Exact =>
      Associate(g, inputSize, 2 * outputSize);
      Associate(outputSize, 2, outputSize);
      var n := (2 * g + 1) * inputSize;
      assert (g * r.scale + r.offset) * c == n * outputSize by {
        Distribute(outputSize, 2 * g * inputSize, inputSize);
        Distribute(inputSize, 2 * g, 1);
        Associate(2 * g, inputSize, outputSize);
        Associate(g, 2, inputSize * outputSize);
        Associate(inputSize, 2, outputSize);
      }
      CancelDivision(n, 2 * outputSize, outputSize);
      QuotientIs(n, 2 * outputSize, i);
  }

  lemma QuotientIs(a: int, d: nat, i: int)
    requires d > 0
    ensures a / d == i <==> i * d <= a < (i + 1) * d
  {
    Distribute(d, i, 1);
    if i * d <= a < (i + 1) * d {
      DivModUnique(a, d, i, a - i * d);
    }
  }

  // ---- the gather windows --------------------------------------------------------------------

  function Ceil(x: real): int {
    -((-x).Floor)
  }

  /** `start_index`, in exact arithmetic. */
  function StartIndex(i: nat, outputSize: nat, inputSize: nat, mode: NearestMode): int
    requires inputSize > 0
  {
    var ratio := (i * outputSize) as real / inputSize as real;
    match mode
    case Floor => Ceil(ratio)
    case Exact =>
      var div := ratio - 0.5;
      var mask := if div >= 0.0 then 1 else 0;
      Ceil(div) * mask
  }

  /** `end_index`. */
  function EndIndex(i: nat, outputSize: nat, inputSize: nat, mode: NearestMode): int
    requires inputSize > 0
  {
    StartIndex(i + 1, outputSize, inputSize, mode)
  }

  lemma CeilIs(x: real, g: int)
    ensures g >= Ceil(x) <==> g as real >= x
  {}

  /** A real quotient compared without dividing. */
  lemma QuotientBound(a: int, d: nat, x: real)
    requires d > 0
    ensures x >= a as real / d as real <==> x * d as real >= a as real
  {
    var q := a as real / d as real;
    assert q * d as real == a as real;
    if x >= q {
      assert (x - q) * d as real >= 0.0;
    } else {
      assert (q - x) * d as real > 0.0;
    }
  }

  /** An output index is past the start of window i exactly when its coordinate is at least i. */
  lemma PastStart(g: nat, i: nat, outputSize: nat, inputSize: nat, mode: NearestMode)
    requires inputSize > 0
    ensures g >= StartIndex(i, outputSize, inputSize, mode) <==>
      match mode
      case Floor => i * outputSize <= g * inputSize
      case Exact => i * (2 * outputSize) <= (2 * g + 1) * inputSize
  {
    match mode
    case Floor => PastFloorStart(g, i, outputSize, inputSize);
    case Exact => PastExactStart(g, i, outputSize, inputSize);
  }

  lemma PastFloorStart(g: nat, i: nat, outputSize: nat, inputSize: nat)
    requires inputSize > 0
    ensures g >= StartIndex(i, outputSize, inputSize, Floor) <==> i * outputSize <= g * inputSize
  {
    hide Ceil;
    var a := i * outputSize;
    CeilIs(a as real / inputSize as real, g);
    QuotientBound(a, inputSize, g as real);
    assert g as real * inputSize as real == (g * inputSize) as real;
  }

  lemma PastExactStart(g: nat, i: nat, outputSize: nat, inputSize: nat)
    requires inputSize > 0
    ensures g >= StartIndex(i, outputSize, inputSize, Exact) <==> i * (2 * outputSize) <= (2 * g + 1) * inputSize
  {
    hide Ceil;
    var a := i * outputSize;
    var div := a as real / inputSize as real - 0.5;
    Associate(i, 2, outputSize);
    CeilIs(div, g);
    PastHalf(g, a, inputSize);
    if div < 0.0 {
      PastHalf(0, a, inputSize);
      Distribute(inputSize, 2 * g, 1);
      Nonnegative(2 * g, inputSize);
    }
  }

  /** Half a step past g in real terms, doubled into integers. */
  lemma PastHalf(g: nat, a: int, n: nat)
    requires n > 0
    ensures g as real >= a as real / n as real - 0.5 <==> 2 * a <= (2 * g + 1) * n
  {
    QuotientBound(a, n, g as real + 0.5);
    HalfStep(g, n);
    var b := (2 * g + 1) * n;
    assert b as real / 2.0 >= a as real <==> b >= 2 * a;
  }

  lemma HalfStep(g: nat, n: nat)
    ensures (g as real + 0.5) * n as real == ((2 * g + 1) * n) as real / 2.0
  {
    assert ((2 * g + 1) * n) as real == (2 * g + 1) as real * n as real;
  }

  /** The gather window of input index i is exactly the set of output indices that read i: nearest backward's fibre. */
  lemma WindowIsFibre(g: nat, i: nat, outputSize: nat, inputSize: nat, mode: NearestMode)
    requires inputSize > 0 && outputSize > 0
    ensures StartIndex(i, outputSize, inputSize, mode) <= g < EndIndex(i, outputSize, inputSize, mode)
       <==> Forward(g, inputSize, outputSize, mode) == i
  {
    hide StartIndex, Forward;
    ForwardIs(g, i, inputSize, outputSize, mode);
    PastStart(g, i, outputSize, inputSize, mode);
    PastStart(g, i + 1, outputSize, inputSize, mode);
  }

  /** The windows start at zero, ascend, and end at the gradient's extent: nothing is gathered past it. */
  lemma WindowsTelescope(i: nat, outputSize: nat, inputSize: nat, mode: NearestMode)
    requires inputSize > 0
    ensures StartIndex(0, outputSize, inputSize, mode) == 0
    ensures StartIndex(inputSize, outputSize, inputSize, mode) == outputSize
    ensures 0 <= StartIndex(i, outputSize, inputSize, mode) <= EndIndex(i, outputSize, inputSize, mode)
  {
    hide StartIndex;
    StartNonnegative(0, outputSize, inputSize, mode);
    StartNonnegative(i, outputSize, inputSize, mode);
    StartNonnegative(i + 1, outputSize, inputSize, mode);
    PastStart(0, 0, outputSize, inputSize, mode);
    var end := StartIndex(inputSize, outputSize, inputSize, mode);
    StartNonnegative(inputSize, outputSize, inputSize, mode);
    PastStart(outputSize, inputSize, outputSize, inputSize, mode);
    LastWindow(inputSize, outputSize);
    if end < outputSize {
      PastStart(outputSize - 1, inputSize, outputSize, inputSize, mode);
    }
    var e := EndIndex(i, outputSize, inputSize, mode);
    PastStart(e, i, outputSize, inputSize, mode);
    PastStart(e, i + 1, outputSize, inputSize, mode);
    Distribute(outputSize, i, 1);
    Distribute(2 * outputSize, i, 1);
  }

  lemma LastWindow(n: nat, m: nat)
    requires n > 0
    ensures n * (2 * m) <= (2 * m + 1) * n && n * m <= m * n
    ensures m > 0 ==> n * (2 * m) > (2 * (m - 1) + 1) * n && n * m > (m - 1) * n
  {
    Distribute(n, 2 * m, 1);
    Distribute(n, 2 * m, -1);
    Distribute(n, m, -1);
  }

  lemma StartNonnegative(i: nat, outputSize: nat, inputSize: nat, mode: NearestMode)
    requires inputSize > 0
    ensures StartIndex(i, outputSize, inputSize, mode) >= 0
  {
    var ratio := (i * outputSize) as real / inputSize as real;
    Nonnegative(i, outputSize);
    QuotientBound(i * outputSize, inputSize, -1.0);
    CeilIs(ratio, -1);
  }
}

/** The backward gather kernel and its relation to the forward map. */
module NearestBackward {
  import opened DenseViews
  import opened IndexArithmetic
  import opened MixedRadix
  import opened NearestInterpolation
  import opened UnitSchedule

  /** f(lo) + ... + f(hi - 1). */
  function SumOver(f: int -> real, lo: int, hi: int): real
    decreases hi - lo
  {
    if lo >= hi then 0.0 else SumOver(f, lo, hi - 1) + f(hi - 1)
  }

  lemma {:induction false} SumExtensional(f: int -> real, g: int -> real, lo: int, hi: int)
    requires forall i :: lo <= i < hi ==> f(i) == g(i)
    ensures SumOver(f, lo, hi) == SumOver(g, lo, hi)
    decreases hi - lo
  {
    if lo < hi {
      SumExtensional(f, g, lo, hi - 1);
    }
  }

  lemma {:induction false} SumConcat(f: int -> real, lo: int, mid: int, hi: int)
    requires lo <= mid <= hi
    ensures SumOver(f, lo, hi) == SumOver(f, lo, mid) + SumOver(f, mid, hi)
    decreases hi - mid
  {
    if mid < hi {
      SumConcat(f, lo, mid, hi - 1);
    }
  }

  lemma {:induction false} SumScaled(h: int -> real, c: real, f: int -> real, lo: int, hi: int)
    requires forall i :: lo <= i < hi ==> h(i) == c * f(i)
    ensures SumOver(h, lo, hi) == c * SumOver(f, lo, hi)
    decreases hi - lo
  {
    if lo < hi {
      SumScaled(h, c, f, lo, hi - 1);
    }
  }

  lemma {:induction false} SumPlus(h: int -> real, f: int -> real, g: int -> real, lo: int, hi: int)
    requires forall i :: lo <= i < hi ==> h(i) == f(i) + g(i)
    ensures SumOver(h, lo, hi) == SumOver(f, lo, hi) + SumOver(g, lo, hi)
    decreases hi - lo
  {
    if lo < hi {
      SumPlus(h, f, g, lo, hi - 1);
    }
  }

  function Along(F: (int, int) -> real, i: int): int -> real {
    j => F(i, j)
  }

  function Across(F: (int, int) -> real, j: int): int -> real {
    i => F(i, j)
  }

  lemma {:induction false} SumExchange(F: (int, int) -> real, rows: int -> real, cols: int -> real,
                                       m: int, n: int, lo: int, hi: int)
    requires m <= n
    requires forall i :: m <= i < n ==> rows(i) == SumOver(Along(F, i), lo, hi)
    requires forall j :: lo <= j < hi ==> cols(j) == SumOver(Across(F, j), m, n)
    ensures SumOver(rows, m, n) == SumOver(cols, lo, hi)
    decreases n - m
  {
    if m == n {
      SumScaled(cols, 0.0, cols, lo, hi);
    } else {
      var shorter := j => SumOver(Across(F, j), m, n - 1);
      SumExchange(F, rows, shorter, m, n - 1, lo, hi);
      SumPlus(cols, shorter, Along(F, n - 1), lo, hi);
    }
  }

  // ---- one axis -----------------------------------------------------------------------------

  /** The extents of one axis and the mode: everything the windows depend on. */
  datatype Axis = Axis(gradSize: nat, inputSize: nat, mode: NearestMode) {
    predicate Valid() {
      gradSize > 0 && inputSize > 0
    }

    function Begin(i: nat): int
      requires Valid()
    {
      StartIndex(i, gradSize, inputSize, mode)
    }

    function Source(g: nat): int
      requires Valid()
    {
      Forward(g, inputSize, gradSize, mode)
    }
  }

  /** h summed over every window with its own input index is h summed over every gradient index with its source. */
  lemma {:induction false} Regroup(axis: Axis, h: (int, int) -> real, windows: int -> real, all: int -> real, n: nat)
    requires axis.Valid()
    requires forall i: nat :: i < n ==> windows(i) == SumOver(Along(h, i), axis.Begin(i), axis.Begin(i + 1))
    requires forall g: nat :: g < axis.gradSize ==> all(g) == h(axis.Source(g), g)
    requires n <= axis.inputSize
    ensures 0 <= axis.Begin(n) <= axis.gradSize
    ensures SumOver(windows, 0, n) == SumOver(all, 0, axis.Begin(n))
  {
    hide Forward, StartIndex;
    BeginBounds(axis, n);
    if n > 0 {
      Regroup(axis, h, windows, all, n - 1);
      var lo, hi := axis.Begin(n - 1), axis.Begin(n);
      WindowsTelescope(n - 1, axis.gradSize, axis.inputSize, axis.mode);
      forall g | lo <= g < hi
        ensures all(g) == Along(h, n - 1)(g)
      {
        WindowIsFibre(g, n - 1, axis.gradSize, axis.inputSize, axis.mode);
      }
      SumExtensional(all, Along(h, n - 1), lo, hi);
      SumConcat(all, 0, lo, hi);
    } else {
      WindowsTelescope(0, axis.gradSize, axis.inputSize, axis.mode);
    }
  }

  lemma {:induction false} BeginBounds(axis: Axis, n: nat)
    requires axis.Valid() && n <= axis.inputSize
    ensures 0 <= axis.Begin(n) <= axis.gradSize
    decreases axis.inputSize - n
  {
    hide StartIndex;
    WindowsTelescope(n, axis.gradSize, axis.inputSize, axis.mode);
    if n < axis.inputSize {
      BeginBounds(axis, n + 1);
    }
  }

  lemma WindowBounds(axis: Axis, i: nat)
    requires axis.Valid() && i < axis.inputSize
    ensures 0 <= axis.Begin(i) <= axis.Begin(i + 1) <= axis.gradSize
  {
    hide StartIndex;
    WindowsTelescope(i, axis.gradSize, axis.inputSize, axis.mode);
    BeginBounds(axis, i);
    BeginBounds(axis, i + 1);
  }

  lemma SourceInRange(axis: Axis, g: nat)
    requires axis.Valid() && g < axis.gradSize
    ensures 0 <= axis.Source(g) < axis.inputSize
  {
    hide Forward;
    var n, m := axis.inputSize, axis.gradSize;
    ForwardIs(g, axis.Source(g), n, m, axis.mode);
    var s := axis.Source(g);
    Nonnegative(g, n);
    Nonnegative(2 * g + 1, n);
    Monotone(g + 1, m, n);
    Monotone(2 * g + 1, 2 * m - 1, n);
    Distribute(n, 2 * m, -1);
    Distribute(n, g, 1);
    if s < 0 {
      Monotone(s + 1, 0, m);
      Monotone(s + 1, 0, 2 * m);
      assert false;
    }
    if s >= n {
      Monotone(n, s, m);
      Monotone(n, s, 2 * m);
      assert false;
    }
  }

  /** A window's sum is the sum over all indices of the axis that read input index i. */
  lemma FibreSum(axis: Axis, i: nat, h: int -> real, picked: int -> real)
    requires axis.Valid() && i < axis.inputSize
    requires forall g: nat :: g < axis.gradSize ==> picked(g) == if axis.Source(g) == i then h(g) else 0.0
    ensures SumOver(picked, 0, axis.gradSize) == SumOver(h, axis.Begin(i), axis.Begin(i + 1))
  {
    hide StartIndex, Forward, SumOver;
    WindowBounds(axis, i);
    var lo, hi := axis.Begin(i), axis.Begin(i + 1);
    forall g: nat | g < axis.gradSize
      ensures picked(g) == if lo <= g < hi then h(g) else 0.0
    {
      WindowIsFibre(g, i, axis.gradSize, axis.inputSize, axis.mode);
    }
    SumConcat(picked, 0, lo, axis.gradSize);
    SumConcat(picked, lo, hi, axis.gradSize);
    SumOfZeros(picked, 0, lo);
    SumOfZeros(picked, hi, axis.gradSize);
    SumExtensional(picked, h, lo, hi);
  }

  lemma {:induction false} SumOfZeros(f: int -> real, lo: int, hi: int)
    requires forall i :: lo <= i < hi ==> f(i) == 0.0
    ensures SumOver(f, lo, hi) == 0.0
    decreases hi - lo
  {
    if lo < hi {
      SumOfZeros(f, lo, hi - 1);
    }
  }

  // ---- the gradient of one pixel ---------------------------------------------------------------

  /** The gradient rows of a window, each summed over the window's columns. */
  function RowSum(grad: (int, int) -> real, x: Axis, i: nat): int -> real
    requires x.Valid()
  {
    gy => SumOver(Along(grad, gy), x.Begin(i), x.Begin(i + 1))
  }

  /** What backward gathers for input pixel (iy, ix). */
  function Gathered(grad: (int, int) -> real, y: Axis, x: Axis, iy: nat, ix: nat): real
    requires y.Valid() && x.Valid()
  {
    SumOver(RowSum(grad, x, ix), y.Begin(iy), y.Begin(iy + 1))
  }

  // ---- images with their channels last -----------------------------------------------------------

  /** The input gradient, numbered row-major: element ((b * height + y) * width + x) * channels + c. */
  datatype Extents = Extents(batches: nat, height: nat, width: nat, channels: nat) {
    function Size(): int {
      ((batches * height) * width) * channels
    }

    function Index(p: Pixel): int {
      ((p.b * height + p.y) * width + p.x) * channels + p.c
    }

    /** The same as a strided box: row-major, the channels last. */
    function Box(): (dims: seq<Dim>)
      ensures |dims| == 4 && RowMajor(dims)
      ensures dims[0].extent == batches && dims[1].extent == height && dims[2].extent == width && dims[3].extent == channels
    {
      Nonnegative(width, channels);
      Nonnegative(height, width * channels);
      var row := [Dim(width, channels), Dim(channels, 1)];
      assert row[1..] == [Dim(channels, 1)] && Cells([Dim(channels, 1)]) == channels && RowMajor(row);
      var image := [Dim(height, width * channels)] + row;
      assert image[1..] == row && Cells(row) == width * channels && RowMajor(image);
      var dims := [Dim(batches, height * (width * channels))] + image;
      assert dims[1..] == image && Cells(image) == height * (width * channels);
      dims
    }

    predicate Holds(p: Pixel) {
      p.b < batches && p.y < height && p.x < width && p.c < channels
    }

    /** The divisions of the kernel. */
    function PixelOf(i: nat): (p: Pixel)
      requires i < Size()
      ensures Holds(p) && Index(p) == i
    {
      Nonnegative(batches, height);
      Nonnegative(batches * height, width);
      PositiveFactor((batches * height) * width, channels);
      CellOf(i, (batches * height) * width, channels);
      DivBounds(i, channels);
      var rem := i / channels;
      PositiveFactor(batches * height, width);
      CellOf(rem, batches * height, width);
      DivBounds(rem, width);
      PositiveFactor(batches, height);
      CellOf(rem / width, batches, height);
      DivBounds(rem / width, height);
      Pixel(rem / width / height, (rem / width) % height, rem % width, i % channels)
    }
  }

  datatype Pixel = Pixel(b: nat, y: nat, x: nat, c: nat)

  lemma PositiveFactor(a: nat, b: nat)
    ensures a * b > 0 ==> a > 0 && b > 0
  {}

  /** The kernel's divisions recover every pixel from its number. */
  lemma PixelOfIndex(e: Extents, p: Pixel)
    requires e.Holds(p)
    ensures 0 <= e.Index(p) < e.Size() && e.PixelOf(e.Index(p)) == p
  {
    CellBelow(p.b, p.y, e.batches, e.height);
    CellBelow(p.b * e.height + p.y, p.x, e.batches * e.height, e.width);
    CellBelow((p.b * e.height + p.y) * e.width + p.x, p.c, (e.batches * e.height) * e.width, e.channels);
  }

  /** The number of a pixel is its place in the row-major box. */
  lemma IndexIsPosition(e: Extents, p: Pixel)
    ensures Position([p.b, p.y, p.x, p.c], e.Box()) == e.Index(p)
  {
    PositionOfFour(p.b, p.y, p.x, p.c, e.Box());
    NestedIndex(p.b, p.y, p.x, p.c, e.height, e.width, e.channels);
  }

  lemma NestedIndex(b: int, y: int, x: int, c: int, height: int, width: int, channels: int)
    ensures ((b * height + y) * width + x) * channels + c ==
            b * (height * (width * channels)) + y * (width * channels) + x * channels + c
  {
    Distribute(channels, (b * height + y) * width, x);
    Associate(b * height + y, width, channels);
    Distribute(width * channels, b * height, y);
    Associate(b, height, width * channels);
  }

  /** The gradient: where its pixels lie, in elements, and how many of its channels a vector holds. */
  datatype Gradient = Gradient(height: nat, width: nat, strides: seq<nat>, vectorSize: nat) {
    predicate Valid() {
      && |strides| == 4 && vectorSize > 0
      && (vectorSize > 1 ==>
            strides[3] == 1 && forall k :: 0 <= k < 3 ==> strides[k] % vectorSize == 0)
    }

    function Offset(p: Pixel): nat
      requires Valid()
    {
      Nonnegative(p.b, strides[0]);
      Nonnegative(p.y, strides[1]);
      Nonnegative(p.x, strides[2]);
      Nonnegative(p.c, strides[3]);
      p.b * strides[0] + p.c * strides[3] + p.y * strides[1] + p.x * strides[2]
    }

    /** The gradient's dimensions: the input's batches and channels, its own rows and columns. */
    function Box(e: Extents): (dims: seq<Dim>)
      requires Valid()
      ensures |dims| == 4
    {
      Dims([e.batches, height, width, e.channels], strides)
    }

    /** Every element of the gradient lies in its buffer. */
    ghost predicate Within(e: Extents, length: nat)
      requires Valid()
    {
      forall c: seq<nat> :: InBox(c, Box(e)) ==> Position(c, Box(e)) < length
    }
  }

  lemma OffsetIsPosition(g: Gradient, e: Extents, p: Pixel)
    requires g.Valid()
    ensures Position([p.b, p.y, p.x, p.c], g.Box(e)) == g.Offset(p)
  {
    PositionOfFour(p.b, p.y, p.x, p.c, g.Box(e));
  }

  lemma PositionOfFour(a: nat, b: nat, c: nat, d: nat, dims: seq<Dim>)
    requires |dims| == 4
    ensures Position([a, b, c, d], dims) == a * dims[0].stride + b * dims[1].stride + c * dims[2].stride + d * dims[3].stride
  {
    assert [a, b, c, d][1..] == [b, c, d] && [b, c, d][1..] == [c, d] && [c, d][1..] == [d];
    assert dims[1..][1..] == dims[2..] && dims[2..][1..] == dims[3..];
    assert Position([d], dims[3..]) == d * dims[3].stride;
    assert Position([c, d], dims[2..]) == c * dims[2].stride + Position([d], dims[3..]);
    assert Position([b, c, d], dims[1..]) == b * dims[1].stride + Position([c, d], dims[2..]);
  }

  lemma OffsetWithin(g: Gradient, e: Extents, p: Pixel, length: nat)
    requires g.Valid() && g.Within(e, length) && p.b < e.batches && p.y < g.height && p.x < g.width && p.c < e.channels
    ensures g.Offset(p) < length
  {
    OffsetIsPosition(g, e, p);
    assert InBox([p.b, p.y, p.x, p.c], g.Box(e));
  }

  /** One channel of one image of the gradient as a function, zero outside. */
  function Plane(grad: seq<real>, g: Gradient, b: nat, c: nat): (int, int) -> real
    requires g.Valid()
  {
    (y, x) =>
      if 0 <= y < g.height && 0 <= x < g.width && g.Offset(Pixel(b, y, x, c)) < |grad|
      then grad[g.Offset(Pixel(b, y, x, c))] else 0.0
  }

  /** What backward gathers for an element of the input gradient. */
  function Wanted(grad: seq<real>, g: Gradient, e: Extents, mode: NearestMode, p: Pixel): real
    requires g.Valid() && e.Holds(p) && g.height > 0 && g.width > 0
  {
    Gathered(Plane(grad, g, p.b, p.c), Axis(g.height, e.height, mode), Axis(g.width, e.width, mode), p.y, p.x)
  }

  /** Element (b, gy, gx, c) of the gradient where output index (gy, gx) reads pixel p of the input, zero elsewhere. */
  function ReadFrom(grad: seq<real>, g: Gradient, e: Extents, mode: NearestMode, p: Pixel): (int, int) -> real
    requires g.Valid() && e.Holds(p) && g.height > 0 && g.width > 0 && g.Within(e, |grad|)
  {
    (gy, gx) =>
      if 0 <= gy < g.height && 0 <= gx < g.width &&
         Forward(gy, e.height, g.height, mode) == p.y && Forward(gx, e.width, g.width, mode) == p.x
      then
        assert InBox([p.b, gy, gx, p.c], g.Box(e));
        grad[Position([p.b, gy, gx, p.c], g.Box(e))]
      else 0.0
  }

  function RowTotals(f: (int, int) -> real, width: nat): int -> real {
    gy => SumOver(Along(f, gy), 0, width)
  }

  /** The sum of the elements of the gradient whose output index reads pixel p of the input. */
  function Pulled(grad: seq<real>, g: Gradient, e: Extents, mode: NearestMode, p: Pixel): real
    requires g.Valid() && e.Holds(p) && g.height > 0 && g.width > 0 && g.Within(e, |grad|)
  {
    SumOver(RowTotals(ReadFrom(grad, g, e, mode, p), g.width), 0, g.height)
  }

  /** What the windows gather is the whole pull back of the forward map. */
  lemma WantedIsPulled(grad: seq<real>, g: Gradient, e: Extents, mode: NearestMode, p: Pixel)
    requires g.Valid() && e.Holds(p) && g.height > 0 && g.width > 0 && g.Within(e, |grad|)
    ensures Wanted(grad, g, e, mode, p) == Pulled(grad, g, e, mode, p)
  {
    hide StartIndex, Forward, SumOver, Position, InBox, Gradient.Within, Gradient.Offset;
    var y, x := Axis(g.height, e.height, mode), Axis(g.width, e.width, mode);
    var plane, read := Plane(grad, g, p.b, p.c), ReadFrom(grad, g, e, mode, p);
    forall gy: nat | gy < g.height
      ensures RowTotals(read, g.width)(gy) == if y.Source(gy) == p.y then RowSum(plane, x, p.x)(gy) else 0.0
    {
      forall gx: nat | gx < g.width
        ensures read(gy, gx) == if y.Source(gy) == p.y && x.Source(gx) == p.x then plane(gy, gx) else 0.0
      {
        OffsetIsPosition(g, e, Pixel(p.b, gy, gx, p.c));
        OffsetWithin(g, e, Pixel(p.b, gy, gx, p.c), |grad|);
      }
      if y.Source(gy) == p.y {
        FibreSum(x, p.x, Along(plane, gy), Along(read, gy));
      } else {
        SumOfZeros(Along(read, gy), 0, g.width);
      }
    }
    FibreSum(y, p.y, RowSum(plane, x, p.x), RowTotals(read, g.width));
  }

  /** A vector of the gradient starts at a whole vector, and its lanes are the next channels. */
  lemma LaneOffset(g: Gradient, p: Pixel, lane: nat)
    requires g.Valid() && p.c % g.vectorSize == 0 && lane < g.vectorSize
    ensures g.Offset(p) / g.vectorSize >= 0
    ensures (g.Offset(p) / g.vectorSize) * g.vectorSize + lane == g.Offset(p.(c := p.c + lane))
  {
    DivBounds(g.Offset(p), g.vectorSize);
    if g.vectorSize > 1 {
      FourMultiples(p.b, g.strides[0], p.c, p.y, g.strides[1], p.x, g.strides[2], g.vectorSize);
      NextChannel(g, p, lane);
      assert g.Offset(p) % g.vectorSize == 0;
      hide Gradient.Offset;
    } else {
      assert p.(c := p.c + lane) == p;
      hide Gradient.Offset;
    }
  }

  lemma NextChannel(g: Gradient, p: Pixel, lane: nat)
    requires g.Valid() && g.strides[3] == 1
    ensures g.Offset(p.(c := p.c + lane)) == g.Offset(p) + lane
    ensures g.Offset(p) == p.b * g.strides[0] + p.c + p.y * g.strides[1] + p.x * g.strides[2]
  {}

  lemma FourMultiples(b: nat, s0: nat, c: nat, y: nat, s1: nat, x: nat, s2: nat, v: nat)
    requires v > 0 && s0 % v == 0 && s1 % v == 0 && s2 % v == 0 && c % v == 0
    ensures (b * s0 + c + y * s1 + x * s2) % v == 0
  {
    Associate(b, s0 / v, v);
    Associate(y, s1 / v, v);
    Associate(x, s2 / v, v);
    var q := b * (s0 / v) + c / v + y * (s1 / v) + x * (s2 / v);
    assert b * s0 + c + y * s1 + x * s2 == v * q by {
      FourTerms(v, b * (s0 / v), c / v, y * (s1 / v), x * (s2 / v));
    }
    ModOfMultiple(v, q);
  }

  lemma FourTerms(v: int, a: int, b: int, c: int, d: int)
    ensures v * (a + b + c + d) == a * v + b * v + c * v + d * v
  {}

  /** The elements of one vector of the input gradient are consecutive channels of one pixel. */
  lemma LanesShareImage(e: Extents, v: nat, pos: nat, lane: nat)
    requires v > 0 && e.channels % v == 0 && lane < v && pos * v + lane < e.Size()
    ensures pos * v >= 0
    ensures
      var p := e.PixelOf(pos * v);
      p.c % v == 0 && p.c + lane < e.channels && e.PixelOf(pos * v + lane) == p.(c := p.c + lane)
  {
    Nonnegative(pos, v);
    hide Extents.Size;
    var p := e.PixelOf(pos * v);
    hide Extents.PixelOf, Extents.Index;
    VectorOfPixel(e, p, v, pos, lane);
    PixelOfIndex(e, p.(c := p.c + lane));
  }

  lemma VectorOfPixel(e: Extents, p: Pixel, v: nat, pos: nat, lane: nat)
    requires v > 0 && e.channels % v == 0 && lane < v && e.Holds(p) && e.Index(p) == pos * v
    ensures p.c % v == 0 && p.c + lane < e.channels
    ensures e.Index(p.(c := p.c + lane)) == pos * v + lane
  {
    VectorInRow(pos, v, (p.b * e.height + p.y) * e.width + p.x, e.channels, p.c, lane);
  }

  lemma VectorInRow(pos: nat, v: nat, row: int, channels: nat, c: nat, lane: nat)
    requires v > 0 && channels % v == 0 && lane < v && pos * v == row * channels + c && c < channels
    ensures c % v == 0 && c + lane < channels
  {
    var q := pos - row * (channels / v);
    Associate(row, channels / v, v);
    Distribute(v, pos, -(row * (channels / v)));
    ModOfMultiple(v, q);
    assert c == v * q;
    if q >= channels / v {
      Monotone(channels / v, q, v);
    } else {
      Monotone(q + 1, channels / v, v);
      Distribute(v, q, 1);
    }
  }

  // ---- the kernel ----------------------------------------------------------------------------------

  function AddLanes(a: seq<real>, b: seq<real>): (r: seq<real>)
    requires |a| == |b|
    ensures |r| == |a| && forall k :: 0 <= k < |a| ==> r[k] == a[k] + b[k]
  {
    seq(|a|, k requires 0 <= k < |a| => a[k] + b[k])
  }

  lemma VectorWithin(pos: nat, n: nat, v: nat)
    requires pos < n
    ensures 0 <= pos * v && (pos + 1) * v <= n * v
  {
    Monotone(pos + 1, n, v);
    Nonnegative(pos, v);
  }

  /** The lanes hold what the elements of that vector should. */
  predicate VectorWanted(values: seq<real>, grad: seq<real>, g: Gradient, e: Extents, mode: NearestMode, units: nat, pos: nat)
    requires g.Valid() && g.height > 0 && g.width > 0 && |values| == g.vectorSize
    requires units * g.vectorSize == e.Size() && pos < units
  {
    forall lane: nat :: lane < g.vectorSize ==> LaneWanted(values, grad, g, e, mode, units, pos, lane)
  }

  predicate LaneWanted(values: seq<real>, grad: seq<real>, g: Gradient, e: Extents, mode: NearestMode, units: nat,
                       pos: nat, lane: nat)
    requires g.Valid() && g.height > 0 && g.width > 0 && |values| == g.vectorSize
    requires units * g.vectorSize == e.Size() && pos < units && lane < g.vectorSize
  {
    VectorWithin(pos, units, g.vectorSize);
    Distribute(g.vectorSize, pos, 1);
    values[lane] == Wanted(grad, g, e, mode, e.PixelOf(pos * g.vectorSize + lane))
  }

  /** The plane a lane of a pixel's vector gathers from. */
  function LanePlane(grad: seq<real>, g: Gradient, p: Pixel, lane: nat): (int, int) -> real
    requires g.Valid()
  {
    Plane(grad, g, p.b, p.c + lane)
  }

  /** The first element of the vector the kernel loads. */
  ghost function LoadAt(g: Gradient, e: Extents, p: Pixel, gradY: nat, gradX: nat, length: nat): (at: nat)
    requires g.Valid() && g.Within(e, length) && gradY < g.height && gradX < g.width
    requires p.b < e.batches && p.c % g.vectorSize == 0 && p.c + g.vectorSize - 1 < e.channels
    ensures at + g.vectorSize <= length
  {
    var q := p.(y := gradY, x := gradX);
    DivBounds(g.Offset(q), g.vectorSize);
    LaneOffset(g, q, g.vectorSize - 1);
    OffsetWithin(g, e, q.(c := p.c + g.vectorSize - 1), length);
    Nonnegative(g.Offset(q) / g.vectorSize, g.vectorSize);
    (g.Offset(q) / g.vectorSize) * g.vectorSize
  }

  lemma ReadsPlanes(grad: seq<real>, g: Gradient, e: Extents, p: Pixel, gradY: nat, gradX: nat)
    requires g.Valid() && g.Within(e, |grad|) && gradY < g.height && gradX < g.width
    requires p.b < e.batches && p.c % g.vectorSize == 0 && p.c + g.vectorSize - 1 < e.channels
    ensures forall lane: nat :: lane < g.vectorSize ==>
      grad[LoadAt(g, e, p, gradY, gradX, |grad|) + lane] == LanePlane(grad, g, p, lane)(gradY, gradX)
  {
    forall lane: nat | lane < g.vectorSize
      ensures grad[LoadAt(g, e, p, gradY, gradX, |grad|) + lane] == LanePlane(grad, g, p, lane)(gradY, gradX)
    {
      LaneOffset(g, p.(y := gradY, x := gradX), lane);
    }
  }

  /** The pixel a unit gathers for: the first of its channels. */
  predicate Gathers(g: Gradient, e: Extents, p: Pixel) {
    g.Valid() && p.b < e.batches && p.c % g.vectorSize == 0 && p.c + g.vectorSize - 1 < e.channels
  }

  /** The inner loop of the kernel, over one row of the window. */
  method GatherRow(grad: array<real>, g: Gradient, e: Extents, p: Pixel, gradY: nat, start: nat, end: nat, sum: seq<real>)
    returns (r: seq<real>)
    requires Gathers(g, e, p) && g.Within(e, grad.Length) && |sum| == g.vectorSize
    requires gradY < g.height && start <= end <= g.width
    ensures |r| == g.vectorSize
    ensures forall lane: nat :: lane < g.vectorSize ==>
      r[lane] == sum[lane] + SumOver(Along(LanePlane(grad[..], g, p, lane), gradY), start, end)
  {
    hide LanePlane;
    r := sum;
    for gradX := start to end
      invariant |r| == g.vectorSize
      invariant forall lane: nat :: lane < g.vectorSize ==>
        r[lane] == sum[lane] + SumOver(Along(LanePlane(grad[..], g, p, lane), gradY), start, gradX)
    {
      var at := (g.Offset(p.(y := gradY, x := gradX)) / g.vectorSize) * g.vectorSize;
      assert at == LoadAt(g, e, p, gradY, gradX, grad.Length);
      ReadsPlanes(grad[..], g, e, p, gradY, gradX);
      hide *;
      r := AddLanes(r, grad[at..at + g.vectorSize]);
    }
  }

  /** The two nested loops of the kernel, on one vector of channels. */
  method GatherPixel(grad: array<real>, g: Gradient, e: Extents, mode: NearestMode, units: nat, pos: nat)
    returns (sum: seq<real>)
    requires g.Valid() && g.height > 0 && g.width > 0 && e.channels % g.vectorSize == 0
    requires g.Within(e, grad.Length) && units * g.vectorSize == e.Size() && pos < units
    ensures |sum| == g.vectorSize && VectorWanted(sum, grad[..], g, e, mode, units, pos)
  {
    VectorWithin(pos, units, g.vectorSize);
    Distribute(g.vectorSize, pos, 1);
    var p := e.PixelOf(pos * g.vectorSize);
    var y, x := Axis(g.height, e.height, mode), Axis(g.width, e.width, mode);
    WindowBounds(y, p.y);
    WindowBounds(x, p.x);
    LanesShareImage(e, g.vectorSize, pos, g.vectorSize - 1);
    sum := seq(g.vectorSize, _ => 0.0);
    var gradYStart, gradYEnd := y.Begin(p.y), y.Begin(p.y + 1);
    var gradXStart, gradXEnd := x.Begin(p.x), x.Begin(p.x + 1);
    assert Gathers(g, e, p);
    hide StartIndex, LanePlane, Gathers, Extents.PixelOf, Extents.Size, VectorWanted, Gradient.Within, Gradient.Valid;
    for gradY := gradYStart to gradYEnd
      invariant |sum| == g.vectorSize
      invariant forall lane: nat :: lane < g.vectorSize ==>
        sum[lane] == SumOver(RowSum(LanePlane(grad[..], g, p, lane), x, p.x), gradYStart, gradY)
    {
      sum := GatherRow(grad, g, e, p, gradY, gradXStart, gradXEnd, sum);
    }
    WantsGathered(sum, grad[..], g, e, mode, units, pos);
  }

  /** The kernel's sums are what its elements should hold. */
  lemma WantsGathered(sum: seq<real>, grad: seq<real>, g: Gradient, e: Extents, mode: NearestMode, units: nat, pos: nat)
    requires g.Valid() && g.height > 0 && g.width > 0 && e.channels % g.vectorSize == 0
    requires units * g.vectorSize == e.Size() && pos < units && 0 <= pos * g.vectorSize < e.Size()
    requires |sum| == g.vectorSize
    requires
      var p := e.PixelOf(pos * g.vectorSize);
      forall lane: nat :: lane < g.vectorSize ==>
        sum[lane] == Gathered(LanePlane(grad, g, p, lane), Axis(g.height, e.height, mode), Axis(g.width, e.width, mode),
                              p.y, p.x)
    ensures VectorWanted(sum, grad, g, e, mode, units, pos)
  {
    hide Gathered;
    VectorWithin(pos, units, g.vectorSize);
    Distribute(g.vectorSize, pos, 1);
    forall lane: nat | lane < g.vectorSize
      ensures LaneWanted(sum, grad, g, e, mode, units, pos, lane)
    {
      LanesShareImage(e, g.vectorSize, pos, lane);
      hide Extents.PixelOf, Extents.Size;
    }
  }

  /** Where the vectors of the input gradient are stored: each in its own place. */
  predicate Placed(place: seq<nat>, e: Extents, v: nat, length: nat) {
    && v > 0 && e.channels % v == 0
    && |place| * v == e.Size()
    && (forall pos, other :: 0 <= pos < other < |place| ==> place[pos] != place[other])
    && (forall pos :: 0 <= pos < |place| ==> InRoom(place[pos], v, length))
  }

  predicate InRoom(at: nat, v: nat, length: nat) {
    0 <= at * v && (at + 1) * v <= length
  }

  lemma PlacesApart(at: nat, other: nat, v: nat)
    requires at != other
    ensures (at + 1) * v <= other * v || (other + 1) * v <= at * v
  {
    if at < other {
      Monotone(at + 1, other, v);
    } else {
      Monotone(other + 1, at, v);
    }
  }

  /** The vector at a position holds what its elements should. */
  predicate Stored(cells: seq<real>, grad: seq<real>, g: Gradient, e: Extents, mode: NearestMode, place: seq<nat>, pos: nat)
    requires g.Valid() && g.height > 0 && g.width > 0
    requires Placed(place, e, g.vectorSize, |cells|) && pos < |place|
  {
    forall lane: nat :: lane < g.vectorSize ==> LaneStored(cells, grad, g, e, mode, place, pos, lane)
  }

  predicate LaneStored(cells: seq<real>, grad: seq<real>, g: Gradient, e: Extents, mode: NearestMode, place: seq<nat>,
                       pos: nat, lane: nat)
    requires g.Valid() && g.height > 0 && g.width > 0
    requires Placed(place, e, g.vectorSize, |cells|) && pos < |place| && lane < g.vectorSize
  {
    VectorWithin(pos, |place|, g.vectorSize);
    Distribute(g.vectorSize, pos, 1);
    Distribute(g.vectorSize, place[pos], 1);
    assert InRoom(place[pos], g.vectorSize, |cells|);
    cells[place[pos] * g.vectorSize + lane] == Wanted(grad, g, e, mode, e.PixelOf(pos * g.vectorSize + lane))
  }

  /** No vector of the input gradient is stored over the cell. */
  predicate Kept(place: seq<nat>, v: nat, cell: nat) {
    forall pos :: 0 <= pos < |place| ==> cell < place[pos] * v || (place[pos] + 1) * v <= cell
  }

  method StoreVector(a: array<real>, at: nat, values: seq<real>)
    requires InRoom(at, |values|, a.Length)
    modifies a
    ensures a[..] == old(a[..at * |values|]) + values + old(a[(at + 1) * |values|..])
  {
    Distribute(|values|, at, 1);
    var from := at * |values|;
    forall lane | 0 <= lane < |values| {
      a[from + lane] := values[lane];
    }
  }

  /** Storing one vector settles it and leaves the others as they were. */
  lemma StoreSettles(before: seq<real>, cells: seq<real>, values: seq<real>, grad: seq<real>, g: Gradient, e: Extents,
                     mode: NearestMode, place: seq<nat>, pos: nat, other: nat)
    requires g.Valid() && g.height > 0 && g.width > 0 && |before| == |cells| && |values| == g.vectorSize
    requires Placed(place, e, g.vectorSize, |cells|) && pos < |place| && other < |place|
    requires InRoom(place[pos], g.vectorSize, |cells|)
    requires cells == before[..place[pos] * g.vectorSize] + values + before[(place[pos] + 1) * g.vectorSize..]
    requires other != pos ==> Stored(before, grad, g, e, mode, place, other)
    requires VectorWanted(values, grad, g, e, mode, |place|, pos)
    ensures Stored(cells, grad, g, e, mode, place, other)
  {
    hide Wanted, Extents.PixelOf, Extents.Size;
    var v := g.vectorSize;
    Distribute(v, place[pos], 1);
    assert InRoom(place[other], v, |cells|);
    Distribute(v, place[other], 1);
    forall lane: nat | lane < v
      ensures LaneStored(cells, grad, g, e, mode, place, other, lane)
    {
      if other == pos {
        assert LaneWanted(values, grad, g, e, mode, |place|, pos, lane);
      } else {
        assert LaneStored(before, grad, g, e, mode, place, other, lane);
        PlacesApart(place[pos], place[other], v);
      }
    }
  }

  /**
   A channel of a pixel, numbered row-major, holds the sum of the gradient's elements in the same image and channel whose
   output index reads that pixel.
   */
  ghost predicate PixelHolds(cells: seq<real>, grad: seq<real>, g: Gradient, e: Extents, mode: NearestMode, place: seq<nat>,
                             p: Pixel)
    requires g.Valid() && g.height > 0 && g.width > 0 && e.Holds(p) && g.Within(e, |grad|)
  {
    var i, v := Position([p.b, p.y, p.x, p.c], e.Box()), g.vectorSize;
    && 0 <= i / v < |place|
    && 0 <= place[i / v] * v + i % v < |cells|
    && cells[place[i / v] * v + i % v] == Pulled(grad, g, e, mode, p)
  }

  /** Where every vector holds what its elements should, every channel of every pixel does. */
  lemma PixelStored(cells: seq<real>, grad: seq<real>, g: Gradient, e: Extents, mode: NearestMode, place: seq<nat>, p: Pixel)
    requires g.Valid() && g.height > 0 && g.width > 0 && e.Holds(p) && g.Within(e, |grad|)
    requires Placed(place, e, g.vectorSize, |cells|)
    requires forall pos: nat :: pos < |place| ==> Stored(cells, grad, g, e, mode, place, pos)
    ensures PixelHolds(cells, grad, g, e, mode, place, p)
  {
    hide Pulled, Wanted, Extents.Index, Extents.PixelOf, Extents.Size, Extents.Box, Gradient.Within, Position;
    var i, v := e.Index(p), g.vectorSize;
    IndexIsPosition(e, p);
    WantedIsPulled(grad, g, e, mode, p);
    PixelOfIndex(e, p);
    CellOf(i, |place|, v);
    DivBounds(i, v);
    assert InRoom(place[i / v], v, |cells|);
    Distribute(v, place[i / v], 1);
    assert Stored(cells, grad, g, e, mode, place, i / v);
    assert LaneStored(cells, grad, g, e, mode, place, i / v, i % v);
  }

  /** `execute_interpolate_nearest_backward`: one unit per vector of the input gradient, in any order. */
  method Backward(grad: array<real>, g: Gradient, inputGrad: array<real>, e: Extents, place: seq<nat>, mode: NearestMode)
    requires g.Valid() && g.height > 0 && g.width > 0 && g.Within(e, grad.Length)
    requires Placed(place, e, g.vectorSize, inputGrad.Length) && grad != inputGrad
    modifies inputGrad
    ensures forall p: Pixel :: e.Holds(p) ==> PixelHolds(inputGrad[..], grad[..], g, e, mode, place, p)
    ensures forall cell: nat :: cell < inputGrad.Length && Kept(place, g.vectorSize, cell) ==>
      inputGrad[cell] == old(inputGrad[cell])
  {
    hide Wanted, Extents.Size, Extents.PixelOf, PixelHolds;
    var todo := Items(|place|);
    while todo != {}
      invariant todo <= Items(|place|)
      invariant forall pos: nat :: pos < |place| && pos !in todo ==>
        Stored(inputGrad[..], grad[..], g, e, mode, place, pos)
      invariant forall cell: nat :: cell < inputGrad.Length && Kept(place, g.vectorSize, cell) ==>
        inputGrad[cell] == old(inputGrad[cell])
      decreases todo
    {
      var pos :| pos in todo;
      ghost var before := inputGrad[..];
      assert InRoom(place[pos], g.vectorSize, inputGrad.Length);
      var sum := GatherPixel(grad, g, e, mode, |place|, pos);
      StoreVector(inputGrad, place[pos], sum);
      forall other: nat | other < |place| && (other == pos || other !in todo)
        ensures Stored(inputGrad[..], grad[..], g, e, mode, place, other)
      {
        StoreSettles(before, inputGrad[..], sum, grad[..], g, e, mode, place, pos, other);
      }
      todo := todo - {pos};
    }
    forall p: Pixel | e.Holds(p)
      ensures PixelHolds(inputGrad[..], grad[..], g, e, mode, place, p)
    {
      PixelStored(inputGrad[..], grad[..], g, e, mode, place, p);
    }
  }

  // ---- adjointness ------------------------------------------------------------------------------

  function Weighted(img: (int, int) -> real, grad: (int, int) -> real, iy: int, gy: int): (int, int) -> real {
    (ix, gx) => img(iy, ix) * grad(gy, gx)
  }

  /** One gradient row against one image row: window by window, or gradient index by gradient index. */
  lemma RowAdjoint(img: (int, int) -> real, grad: (int, int) -> real, x: Axis, iy: int, gy: int,
                   windows: int -> real, all: int -> real)
    requires x.Valid()
    requires forall ix: nat :: ix < x.inputSize ==> windows(ix) == img(iy, ix) * RowSum(grad, x, ix)(gy)
    requires forall gx: nat :: gx < x.gradSize ==> all(gx) == img(iy, x.Source(gx)) * grad(gy, gx)
    ensures SumOver(windows, 0, x.inputSize) == SumOver(all, 0, x.gradSize)
  {
    hide StartIndex, Forward;
    var h := Weighted(img, grad, iy, gy);
    forall ix: nat | ix < x.inputSize
      ensures windows(ix) == SumOver(Along(h, ix), x.Begin(ix), x.Begin(ix + 1))
    {
      SumScaled(Along(h, ix), img(iy, ix), Along(grad, gy), x.Begin(ix), x.Begin(ix + 1));
    }
    Regroup(x, h, windows, all, x.inputSize);
    WindowsTelescope(0, x.gradSize, x.inputSize, x.mode);
  }

  /** Sum over one image row of pixel times gathered gradient. */
  function ImageRow(img: (int, int) -> real, grad: (int, int) -> real, y: Axis, x: Axis, iy: nat): int -> real
    requires y.Valid() && x.Valid()
  {
    ix => if ix < 0 then 0.0 else img(iy, ix) * Gathered(grad, y, x, iy, ix)
  }

  /** Sum over one gradient row of gradient times the pixel it was read from. */
  function GradRow(img: (int, int) -> real, grad: (int, int) -> real, x: Axis, iy: int, gy: int): int -> real
    requires x.Valid()
  {
    gx => if gx < 0 then 0.0 else img(iy, x.Source(gx)) * grad(gy, gx)
  }

  function GradRowSum(img: (int, int) -> real, grad: (int, int) -> real, x: Axis): (int, int) -> real
    requires x.Valid()
  {
    (iy, gy) => SumOver(GradRow(img, grad, x, iy, gy), 0, x.gradSize)
  }

  /** The cell of the exchange: pixel (iy, ix) against row gy of its window. */
  function PixelRow(img: (int, int) -> real, grad: (int, int) -> real, x: Axis, iy: nat): (int, int) -> real
    requires x.Valid()
  {
    (ix, gy) => if ix < 0 then 0.0 else img(iy, ix) * RowSum(grad, x, ix)(gy)
  }

  lemma ImageRowIsWindow(img: (int, int) -> real, grad: (int, int) -> real, y: Axis, x: Axis, iy: nat)
    requires y.Valid() && x.Valid() && iy < y.inputSize
    ensures SumOver(ImageRow(img, grad, y, x, iy), 0, x.inputSize)
         == SumOver(Along(GradRowSum(img, grad, x), iy), y.Begin(iy), y.Begin(iy + 1))
  {
    hide StartIndex, Forward;
    var F := PixelRow(img, grad, x, iy);
    var rows, cols := ImageRow(img, grad, y, x, iy), Along(GradRowSum(img, grad, x), iy);
    var lo, hi := y.Begin(iy), y.Begin(iy + 1);
    forall ix | 0 <= ix < x.inputSize
      ensures rows(ix) == SumOver(Along(F, ix), lo, hi)
    {
      SumScaled(Along(F, ix), img(iy, ix), RowSum(grad, x, ix), lo, hi);
    }
    forall gy | lo <= gy < hi
      ensures cols(gy) == SumOver(Across(F, gy), 0, x.inputSize)
    {
      RowAdjoint(img, grad, x, iy, gy, Across(F, gy), GradRow(img, grad, x, iy, gy));
    }
    SumExchange(F, rows, cols, 0, x.inputSize, lo, hi);
  }

  /**
   Nearest backward is the exact adjoint of nearest forward: pairing an image with the gathered gradient is pairing its
   forward interpolation with the gradient.
   */
  lemma BackwardIsAdjoint(img: (int, int) -> real, grad: (int, int) -> real, y: Axis, x: Axis,
                          images: int -> real, forwards: int -> real)
    requires y.Valid() && x.Valid()
    requires forall iy: nat :: iy < y.inputSize ==> images(iy) == SumOver(ImageRow(img, grad, y, x, iy), 0, x.inputSize)
    requires forall gy: nat :: gy < y.gradSize ==>
      forwards(gy) == SumOver(GradRow(img, grad, x, y.Source(gy), gy), 0, x.gradSize)
    ensures SumOver(images, 0, y.inputSize) == SumOver(forwards, 0, y.gradSize)
  {
    hide StartIndex, Forward;
    var h := GradRowSum(img, grad, x);
    forall iy: nat | iy < y.inputSize
      ensures images(iy) == SumOver(Along(h, iy), y.Begin(iy), y.Begin(iy + 1))
    {
      ImageRowIsWindow(img, grad, y, x, iy);
    }
    Regroup(y, h, images, forwards, y.inputSize);
    WindowsTelescope(0, y.gradSize, y.inputSize, y.mode);
  }

  /** In particular nothing is lost or counted twice: the gathered gradient adds up to the whole gradient. */
  lemma GradientIsConserved(grad: (int, int) -> real, y: Axis, x: Axis, gathered: int -> real, rows: int -> real)
    requires y.Valid() && x.Valid()
    requires forall iy: nat :: iy < y.inputSize ==>
      gathered(iy) == SumOver(GatheredRow(grad, y, x, iy), 0, x.inputSize)
    requires forall gy: nat :: gy < y.gradSize ==> rows(gy) == SumOver(Along(grad, gy), 0, x.gradSize)
    ensures SumOver(gathered, 0, y.inputSize) == SumOver(rows, 0, y.gradSize)
  {
    hide StartIndex, Forward, Gathered;
    var one := (iy: int, ix: int) => 1.0;
    forall iy: nat | iy < y.inputSize
      ensures gathered(iy) == SumOver(ImageRow(one, grad, y, x, iy), 0, x.inputSize)
    {
      SumExtensional(GatheredRow(grad, y, x, iy), ImageRow(one, grad, y, x, iy), 0, x.inputSize);
    }
    forall gy: nat | gy < y.gradSize
      ensures rows(gy) == SumOver(GradRow(one, grad, x, y.Source(gy), gy), 0, x.gradSize)
    {
      SumExtensional(Along(grad, gy), GradRow(one, grad, x, y.Source(gy), gy), 0, x.gradSize);
    }
    BackwardIsAdjoint(one, grad, y, x, gathered, rows);
  }

  function GatheredRow(grad: (int, int) -> real, y: Axis, x: Axis, iy: nat): int -> real
    requires y.Valid() && x.Valid()
  {
    ix => if ix < 0 then 0.0 else Gathered(grad, y, x, iy, ix)
  }
}

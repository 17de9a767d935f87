/** A tensor seen as a batch of windows along one dimension: its contents window by window, and kernels that fill it. */
module BatchedTensors {
  import opened BatchLayout
  import opened ComplexNumbers
  import opened DenseViews
  import opened IndexArithmetic
  import opened MixedRadix
  import opened TensorViews
  import opened UnitSchedule

  datatype Batch = Batch(shape: seq<nat>, strides: seq<nat>, dim: nat) {
    /** A strided tensor, possibly with empty batch dimensions, and a window length along `dim`. */
    predicate WellFormed() {
      |shape| == |strides| && dim < |shape| && shape[dim] >= 1
    }

    /** Every element lies in the buffer: the tensor can be read. */
    ghost predicate InBounds(size: nat) {
      WellFormed() && forall c: seq<nat> :: InBox(c, Dims(shape, strides)) ==> Position(c, Dims(shape, strides)) < size
    }

    /** No two elements share a cell. */
    ghost predicate Apart() {
      WellFormed() && Injective(Dims(shape, strides))
    }

    /** Both: the tensor can be written. */
    ghost predicate Fits(size: nat): (fits: bool)
      ensures fits ==> InBounds(size) && Apart()
    {
      InBounds(size) && Apart()
    }

    /** Some element lies in cell p. */
    ghost predicate Holds(p: int) {
      |shape| == |strides| && Reached(Dims(shape, strides), p)
    }

    /** No empty dimension. */
    predicate Valid() {
      WellFormed() && forall i :: 0 <= i < |shape| ==> shape[i] >= 1
    }

    /** The number of windows, and their common length. */
    function Count(): nat {
      if |shape| == |strides| then Windows(Dims(shape, strides), dim) else 0
    }

    function Length(): nat {
      if dim < |shape| then shape[dim] else 0
    }

    function Size(): nat {
      if |shape| == |strides| then Cells(Dims(shape, strides)) else 0
    }

    function Window(w: nat): (v: View)
      requires Valid()
      ensures v.len == Length()
    {
      WindowView(Dims(shape, strides), dim, w)
    }
  }

  /** The same batch dimensions, whatever the lengths along `dim` and the strides. */
  ghost predicate SameBatch(a: Batch, b: Batch) {
    a.dim == b.dim && |a.shape| == |b.shape| && forall i :: 0 <= i < |a.shape| && i != a.dim ==> a.shape[i] == b.shape[i]
  }

  lemma SameCount(a: Batch, b: Batch)
    requires SameBatch(a, b) && |a.strides| == |a.shape| && |b.strides| == |b.shape|
    ensures a.Count() == b.Count()
  {
    SameWindows(Dims(a.shape, a.strides), Dims(b.shape, b.strides), a.dim);
  }

  lemma {:induction false} SameWindows(a: seq<Dim>, b: seq<Dim>, dim: int)
    requires |a| == |b| && forall i :: 0 <= i < |a| && i != dim ==> a[i].extent == b[i].extent
    ensures Windows(a, dim) == Windows(b, dim)
  {
    if a != [] {
      SameWindows(a[1..], b[1..], if dim == 0 then -1 else dim - 1);
    }
  }

  /** A batch with any window at all has no empty dimension. */
  lemma CountIsPositive(b: Batch)
    requires b.WellFormed() && b.Count() > 0
    ensures b.Valid()
  {
    WindowsArePositive(Dims(b.shape, b.strides), b.dim);
  }

  lemma {:induction false} WindowsArePositive(dims: seq<Dim>, dim: int)
    requires Windows(dims, dim) > 0
    ensures forall i :: 0 <= i < |dims| && i != dim ==> dims[i].extent >= 1
  {
    if dims != [] {
      WindowsArePositive(dims[1..], if dim == 0 then -1 else dim - 1);
      forall i | 0 <= i < |dims| && i != dim
        ensures dims[i].extent >= 1
      {
        assert i > 0 ==> dims[i] == dims[1..][i - 1];
      }
    }
  }

  lemma WindowInBounds(b: Batch, size: nat, w: nat)
    requires b.InBounds(size) && w < b.Count()
    ensures b.Valid() && b.Window(w).InBounds(size)
    ensures forall p :: b.Window(w).Holds(p) ==> b.Holds(p)
  {
    hide Position, Windows, Coordinates, Offset;
    CountIsPositive(b);
    var v := b.Window(w);
    forall k: nat | k < v.len
      ensures v.At(k) < size && b.Holds(v.At(k))
    {
      WindowCell(Dims(b.shape, b.strides), b.dim, w, k);
    }
  }

  lemma WindowFits(b: Batch, size: nat, w: nat)
    requires b.Fits(size) && w < b.Count()
    ensures b.Valid() && b.Window(w).Fits(size)
  {
    hide Position, Windows, Coordinates, Offset, Injective;
    WindowInBounds(b, size, w);
    WindowsDisjoint(Dims(b.shape, b.strides), b.dim);
  }

  lemma WindowsApart(b: Batch, w: nat, x: nat, p: int)
    requires b.Valid() && b.Apart() && w < b.Count() && x < b.Count()
    requires b.Window(w).Holds(p) && b.Window(x).Holds(p)
    ensures w == x
  {
    hide Injective, Offset, Windows;
    WindowsDisjoint(Dims(b.shape, b.strides), b.dim);
  }

  // ---- contents ---------------------------------------------------------------------------------

  function ReadOf(re: seq<real>, im: seq<real>, v: View): (x: seq<Complex>)
    requires v.InBounds(|re|) && v.InBounds(|im|)
    ensures |x| == v.len
    ensures forall k: nat :: k < v.len ==> x[k] == Complex(re[v.At(k)], im[v.At(k)])
  {
    seq(v.len, k requires 0 <= k < v.len && v.InBounds(|re|) && v.InBounds(|im|) => Complex(re[v.At(k)], im[v.At(k)]))
  }

  function ReadRealOf(x: seq<real>, v: View): (y: seq<real>)
    requires v.InBounds(|x|)
    ensures |y| == v.len
    ensures forall k: nat :: k < v.len ==> y[k] == x[v.At(k)]
  {
    seq(v.len, k requires 0 <= k < v.len && v.InBounds(|x|) => x[v.At(k)])
  }

  /** What the windows of a complex tensor hold. */
  function ContentsOf(re: seq<real>, im: seq<real>, b: Batch): (c: seq<seq<Complex>>)
    requires b.InBounds(|re|) && b.InBounds(|im|)
    ensures |c| == b.Count()
    ensures forall w: nat :: w < |c| ==>
      b.Valid() && b.Window(w).InBounds(|re|) && b.Window(w).InBounds(|im|) && c[w] == ReadOf(re, im, b.Window(w))
  {
    ContentsBelow(re, im, b, b.Count())
  }

  function ContentsBelow(re: seq<real>, im: seq<real>, b: Batch, n: nat): (c: seq<seq<Complex>>)
    requires b.InBounds(|re|) && b.InBounds(|im|) && n <= b.Count()
    ensures |c| == n
    ensures forall w: nat :: w < n ==>
      b.Valid() && b.Window(w).InBounds(|re|) && b.Window(w).InBounds(|im|) && c[w] == ReadOf(re, im, b.Window(w))
  {
    if n == 0 then [] else
      WindowInBounds(b, |re|, n - 1);
      WindowInBounds(b, |im|, n - 1);
      ContentsBelow(re, im, b, n - 1) + [ReadOf(re, im, b.Window(n - 1))]
  }

  /** What the windows of a real tensor hold. */
  function SamplesOf(x: seq<real>, b: Batch): (c: seq<seq<real>>)
    requires b.InBounds(|x|)
    ensures |c| == b.Count()
    ensures forall w: nat :: w < |c| ==> b.Valid() && b.Window(w).InBounds(|x|) && c[w] == ReadRealOf(x, b.Window(w))
  {
    SamplesBelow(x, b, b.Count())
  }

  function SamplesBelow(x: seq<real>, b: Batch, n: nat): (c: seq<seq<real>>)
    requires b.InBounds(|x|) && n <= b.Count()
    ensures |c| == n
    ensures forall w: nat :: w < n ==> b.Valid() && b.Window(w).InBounds(|x|) && c[w] == ReadRealOf(x, b.Window(w))
  {
    if n == 0 then [] else
      WindowInBounds(b, |x|, n - 1);
      SamplesBelow(x, b, n - 1) + [ReadRealOf(x, b.Window(n - 1))]
  }

  /** Nothing changed but inside a view. */
  ghost predicate OnlyWithin(v: View, was: seq<real>, now: seq<real>) {
    |was| == |now| && forall p :: 0 <= p < |was| && !v.Holds(p) ==> now[p] == was[p]
  }

  /** A kernel that writes inside one window replaces that window's contents and no other's. */
  lemma OneWindowChanged(wasRe: seq<real>, wasIm: seq<real>, re: seq<real>, im: seq<real>, b: Batch, w: nat)
    requires b.Fits(|re|) && b.Fits(|im|) && w < b.Count() && b.Valid()
    requires OnlyWithin(b.Window(w), wasRe, re) && OnlyWithin(b.Window(w), wasIm, im)
    ensures b.Window(w).Fits(|re|) && b.Window(w).Fits(|im|)
    ensures ContentsOf(re, im, b) == ContentsOf(wasRe, wasIm, b)[w := ReadOf(re, im, b.Window(w))]
  {
    hide Injective, View.At, View.Fits, View.InBounds, Batch.Window, Batch.Fits, Batch.InBounds, Batch.Count,
         Batch.Valid, Batch.Length, ContentsOf;
    WindowFits(b, |re|, w);
    WindowFits(b, |im|, w);
    var was, now := ContentsOf(wasRe, wasIm, b), ContentsOf(re, im, b);
    forall x: nat | x < |now| && x != w
      ensures now[x] == was[x]
    {
      WindowUntouched(wasRe, re, b, w, x);
      WindowUntouched(wasIm, im, b, w, x);
      assert now[x] == ReadOf(re, im, b.Window(x)) && was[x] == ReadOf(wasRe, wasIm, b.Window(x));
    }
  }

  lemma WindowUntouched(was: seq<real>, now: seq<real>, b: Batch, w: nat, x: nat)
    requires b.Fits(|was|) && w < b.Count() && x < b.Count() && w != x && b.Valid()
    requires OnlyWithin(b.Window(w), was, now)
    ensures b.Window(x).Fits(|was|)
    ensures forall k: nat :: k < b.Length() ==> now[b.Window(x).At(k)] == was[b.Window(x).At(k)]
  {
    hide Injective, View.At, Batch.Window, Batch.Fits, Batch.InBounds, Batch.Apart, Batch.Count, Batch.Valid,
         Batch.Length;
    WindowFits(b, |was|, x);
    forall k: nat | k < b.Length()
      ensures !b.Window(w).Holds(b.Window(x).At(k))
    {
      assert b.Window(x).Holds(b.Window(x).At(k));
      if b.Window(w).Holds(b.Window(x).At(k)) {
        WindowsApart(b, w, x, b.Window(x).At(k));
      }
    }
  }

  lemma OneRealWindowChanged(was: seq<real>, now: seq<real>, b: Batch, w: nat)
    requires b.Fits(|now|) && w < b.Count() && b.Valid() && OnlyWithin(b.Window(w), was, now)
    ensures b.Window(w).Fits(|now|)
    ensures SamplesOf(now, b) == SamplesOf(was, b)[w := ReadRealOf(now, b.Window(w))]
  {
    hide Injective, View.At, View.Fits, View.InBounds, Batch.Window, Batch.Fits, Batch.InBounds, Batch.Count,
         Batch.Valid, Batch.Length, SamplesOf;
    WindowFits(b, |now|, w);
    var before, after := SamplesOf(was, b), SamplesOf(now, b);
    forall x: nat | x < |after| && x != w
      ensures after[x] == before[x]
    {
      WindowUntouched(was, now, b, w, x);
      assert after[x] == ReadRealOf(now, b.Window(x)) && before[x] == ReadRealOf(was, b.Window(x));
    }
  }

  /** The cells that belong to no element of the tensor: padding, and whatever lies around a slice. */
  ghost predicate KeptOutside(b: Batch, was: seq<real>, now: seq<real>) {
    |was| == |now| && forall p :: 0 <= p < |was| && !b.Holds(p) ==> now[p] == was[p]
  }

  lemma NothingLost(b: Batch, x: seq<real>)
    ensures KeptOutside(b, x, x)
  {}

  lemma KeptTwice(b: Batch, was: seq<real>, mid: seq<real>, now: seq<real>)
    requires KeptOutside(b, was, mid) && KeptOutside(b, mid, now)
    ensures KeptOutside(b, was, now)
  {
    hide Batch.Holds;
  }

  lemma WindowIsInside(b: Batch, w: nat, was: seq<real>, mid: seq<real>, now: seq<real>)
    requires b.InBounds(|now|) && w < b.Count() && b.Valid()
    requires KeptOutside(b, was, mid) && OnlyWithin(b.Window(w), mid, now)
    ensures KeptOutside(b, was, now)
  {
    hide View.At, View.Holds, Batch.Window, Batch.Count, Batch.Valid, Batch.Holds, Batch.InBounds;
    WindowInBounds(b, |now|, w);
  }

  // ---- a window inside a window ----------------------------------------------------------------

  /** `inner`, counted in the cells of v. */
  function Within(v: View, inner: View): (r: View)
    ensures r.len == inner.len
  {
    Nonnegative(v.stride, inner.stride);
    View(v.At(inner.base), v.stride * inner.stride, inner.len)
  }

  lemma WithinAt(v: View, inner: View, k: nat)
    ensures Within(v, inner).At(k) == v.At(inner.At(k))
  {
    Associate(k, v.stride, inner.stride);
    Associate(k, inner.stride, v.stride);
    Distribute(v.stride, inner.base, k * inner.stride);
  }

  lemma WithinInBounds(v: View, inner: View, size: nat)
    requires v.InBounds(size) && inner.InBounds(v.len)
    ensures Within(v, inner).InBounds(size)
  {
    hide View.At, Within;
    forall k: nat | k < inner.len
      ensures Within(v, inner).At(k) == v.At(inner.At(k)) && inner.At(k) < v.len
    {
      WithinAt(v, inner, k);
    }
  }

  lemma WithinFits(v: View, inner: View, size: nat)
    requires v.Fits(size) && inner.Fits(v.len)
    ensures Within(v, inner).Fits(size)
    ensures forall p :: Within(v, inner).Holds(p) ==> v.Holds(p)
    ensures forall k: nat :: k < v.len && !inner.Holds(k) ==> !Within(v, inner).Holds(v.At(k))
  {
    hide View.At, Within;
    var r := Within(v, inner);
    forall k: nat | k < inner.len
      ensures r.At(k) == v.At(inner.At(k)) && inner.At(k) < v.len
    {
      WithinAt(v, inner, k);
    }
    forall p | r.Holds(p)
      ensures v.Holds(p)
    {
      var k: nat :| k < r.len && r.At(k) == p;
      assert v.At(inner.At(k)) == p;
    }
    forall k: nat | k < v.len && !inner.Holds(k)
      ensures !r.Holds(v.At(k))
    {
      forall i: nat | i < r.len
        ensures r.At(i) != v.At(k)
      {
        assert inner.Holds(inner.At(i));
      }
    }
  }

  lemma ReadIsReadOf(re: array<real>, im: array<real>, v: View)
    requires v.InBounds(re.Length) && v.InBounds(im.Length)
    ensures Read(re, im, v) == ReadOf(re[..], im[..], v)
  {
    hide View.At, View.InBounds;
    forall k: nat | k < v.len
      ensures Read(re, im, v)[k] == ReadOf(re[..], im[..], v)[k]
    {
      assert v.At(k) < re.Length && v.At(k) < im.Length by {
        CellInBounds(v, re.Length, k);
        CellInBounds(v, im.Length, k);
      }
    }
  }

  lemma CellInBounds(v: View, size: nat, k: nat)
    requires v.InBounds(size) && k < v.len
    ensures v.At(k) < size
  {}

  /** Reading through a window inside a window. */
  lemma ReadWithin(re: seq<real>, im: seq<real>, v: View, inner: View)
    requires v.InBounds(|re|) && v.InBounds(|im|) && inner.InBounds(v.len)
    ensures Within(v, inner).InBounds(|re|) && Within(v, inner).InBounds(|im|)
    ensures forall k: nat :: k < inner.len ==>
      inner.At(k) < v.len && ReadOf(re, im, Within(v, inner))[k] == ReadOf(re, im, v)[inner.At(k)]
  {
    hide View.At, View.InBounds, Within;
    WithinInBounds(v, inner, |re|);
    WithinInBounds(v, inner, |im|);
    forall k: nat | k < inner.len
      ensures inner.At(k) < v.len && ReadOf(re, im, Within(v, inner))[k] == ReadOf(re, im, v)[inner.At(k)]
    {
      CellInBounds(inner, v.len, k);
      CellInBounds(v, |re|, inner.At(k));
      CellInBounds(v, |im|, inner.At(k));
      WithinAt(v, inner, k);
    }
  }

  lemma StoredOnlyWithin(v: View, was: seq<real>, now: seq<real>)
    requires |was| == |now| && forall p :: 0 <= p < |was| && !v.Holds(p) ==> now[p] == was[p]
    ensures OnlyWithin(v, was, now)
  {}

  /** Storing through a window inside a window changes the cells it names and no other. */
  lemma StoredWithin(wasRe: seq<real>, wasIm: seq<real>, re: seq<real>, im: seq<real>, v: View, inner: View)
    requires v.Fits(|re|) && v.Fits(|im|) && inner.Fits(v.len)
    requires OnlyWithin(Within(v, inner), wasRe, re) && OnlyWithin(Within(v, inner), wasIm, im)
    ensures OnlyWithin(v, wasRe, re) && OnlyWithin(v, wasIm, im)
    ensures forall p: nat :: p < v.len && !inner.Holds(p) ==> ReadOf(re, im, v)[p] == ReadOf(wasRe, wasIm, v)[p]
  {
    hide View.At, View.Fits, View.InBounds, View.Holds, Within;
    WithinFits(v, inner, |re|);
    WithinFits(v, inner, |im|);
    forall p: nat | p < v.len && !inner.Holds(p)
      ensures ReadOf(re, im, v)[p] == ReadOf(wasRe, wasIm, v)[p]
    {
      CellInBounds(v, |re|, p);
      CellInBounds(v, |im|, p);
    }
  }

  // ---- one thread per element ---------------------------------------------------------------------

  /** The elements whose threads have run hold their values. */
  ghost predicate Filled<T>(now: seq<seq<T>>, values: seq<seq<T>>, n: nat, todo: set<nat>) {
    && |now| == |values| && (forall w :: 0 <= w < |now| ==> |now[w]| == |values[w]| == n)
    && forall w: nat, k: nat :: w < |now| && k < n && w * n + k !in todo ==> now[w][k] == values[w][k]
  }

  lemma NothingFilled<T>(now: seq<seq<T>>, values: seq<seq<T>>, n: nat)
    requires |now| == |values| && forall w :: 0 <= w < |now| ==> |now[w]| == |values[w]| == n
    ensures |values| * n >= 0
    ensures Filled(now, values, n, Items(|values| * n))
  {
    Nonnegative(|values|, n);
    forall w: nat, k: nat {:trigger now[w][k]} | w < |now| && k < n
      ensures w * n + k in Items(|values| * n)
    {
      CellBelow(w, k, |values|, n);
    }
  }

  lemma FillsOne<T>(was: seq<seq<T>>, now: seq<seq<T>>, values: seq<seq<T>>, n: nat, todo: set<nat>, pos: nat)
    requires Filled(was, values, n, todo) && n > 0 && pos < |values| * n
    ensures 0 <= pos / n < |values| && pos % n < n
    ensures
      now == was[pos / n := was[pos / n][pos % n := values[pos / n][pos % n]]] ==> Filled(now, values, n, todo - {pos})
  {
    CellOf(pos, |values|, n);
    DivBounds(pos, n);
    if now == was[pos / n := was[pos / n][pos % n := values[pos / n][pos % n]]] {
      forall w: nat, k: nat | w < |now| && k < n && w * n + k !in todo - {pos}
        ensures now[w][k] == values[w][k]
      {
        CellBelow(w, k, |values|, n);
      }
    }
  }

  lemma AllFilled<T>(now: seq<seq<T>>, values: seq<seq<T>>, n: nat)
    requires Filled(now, values, n, {})
    ensures now == values
  {
    forall w: nat | w < |now|
      ensures now[w] == values[w]
    {
      forall k: nat | k < n
        ensures now[w][k] == values[w][k]
      {
        Nonnegative(w, n);
        assert w * n + k !in {};
      }
    }
  }

  /** The windows of values have the batch's form. */
  ghost predicate Shaped<T>(values: seq<seq<T>>, b: Batch) {
    |values| == b.Count() && forall w :: 0 <= w < |values| ==> |values[w]| == b.Length()
  }

  /** The layout a cube builds for its window. */
  method Layout(b: Batch, w: nat) returns (v: View)
    requires b.Valid()
    ensures v == b.Window(w)
  {
    v := New(b.shape, b.strides, w, b.dim);
  }

  /** Thread pos of such a kernel writes element pos % n of window pos / n. */
  method StoreElement(pos: nat, value: Complex, re: array<real>, im: array<real>, b: Batch,
                      ghost values: seq<seq<Complex>>, ghost todo: set<nat>)
    requires re != im && b.Fits(re.Length) && b.Fits(im.Length) && Shaped(values, b)
    requires Filled(ContentsOf(re[..], im[..], b), values, b.Length(), todo)
    requires 0 < b.Length() && pos < |values| * b.Length()
    requires 0 <= pos / b.Length() < |values| && value == values[pos / b.Length()][pos % b.Length()]
    modifies re, im
    ensures Filled(ContentsOf(re[..], im[..], b), values, b.Length(), todo - {pos})
    ensures KeptOutside(b, old(re[..]), re[..]) && KeptOutside(b, old(im[..]), im[..])
  {
    hide Injective, View.At, View.Fits, View.InBounds, View.Holds, Batch.Window, Batch.Valid, Batch.Count, Batch.Fits,
         Batch.InBounds, Batch.Holds, ContentsOf, Filled;
    var n := b.Length();
    ghost var wasRe, wasIm := re[..], im[..];
    FillsOne(ContentsOf(wasRe, wasIm, b), ContentsOf(wasRe, wasIm, b), values, n, todo, pos);
    var w, k := pos / n, pos % n;
    WindowHoldsCell(b, re.Length, w, k);
    WindowHoldsCell(b, im.Length, w, k);
    var v := Layout(b, w);
    re[v.At(k)], im[v.At(k)] := value.re, value.im;
    CellChanged(wasRe, wasIm, re[..], im[..], b, w, k);
    FillsOne(ContentsOf(wasRe, wasIm, b), ContentsOf(re[..], im[..], b), values, n, todo, pos);
    NothingLost(b, wasRe);
    NothingLost(b, wasIm);
    WindowIsInside(b, w, wasRe, wasRe, re[..]);
    WindowIsInside(b, w, wasIm, wasIm, im[..]);
  }

  /** A kernel with one thread per element, the threads in any order. */
  method StoreElements(values: seq<seq<Complex>>, re: array<real>, im: array<real>, b: Batch)
    requires re != im && b.Fits(re.Length) && b.Fits(im.Length) && Shaped(values, b)
    modifies re, im
    ensures ContentsOf(re[..], im[..], b) == values
    ensures KeptOutside(b, old(re[..]), re[..]) && KeptOutside(b, old(im[..]), im[..])
  {
    hide Injective, Batch.Window, Batch.Valid, Batch.Count, Batch.Fits, Batch.InBounds, Batch.Holds, ContentsOf,
         Filled;
    var n := b.Length();
    AllShaped(re[..], im[..], b, values);
    NothingFilled(ContentsOf(re[..], im[..], b), values, n);
    var todo := Items(|values| * n);
    while todo != {}
      invariant todo <= Items(|values| * n)
      invariant Filled(ContentsOf(re[..], im[..], b), values, n, todo)
      invariant KeptOutside(b, old(re[..]), re[..]) && KeptOutside(b, old(im[..]), im[..])
      decreases todo
    {
      var pos :| pos in todo;
      FillsOne(ContentsOf(re[..], im[..], b), ContentsOf(re[..], im[..], b), values, n, todo, pos);
      ghost var wasRe, wasIm := re[..], im[..];
      StoreElement(pos, values[pos / n][pos % n], re, im, b, values, todo);
      KeptTwice(b, old(re[..]), wasRe, re[..]);
      KeptTwice(b, old(im[..]), wasIm, im[..]);
      todo := todo - {pos};
    }
    AllFilled(ContentsOf(re[..], im[..], b), values, n);
  }

  lemma IsShaped<T>(values: seq<seq<T>>, b: Batch)
    requires |values| == b.Count() && forall w :: 0 <= w < |values| ==> |values[w]| == b.Length()
    ensures Shaped(values, b)
  {}

  lemma AllShaped(re: seq<real>, im: seq<real>, b: Batch, values: seq<seq<Complex>>)
    requires b.Fits(|re|) && b.Fits(|im|) && Shaped(values, b)
    ensures
      var now := ContentsOf(re, im, b);
      |now| == |values| && forall w :: 0 <= w < |now| ==> |now[w]| == |values[w]| == b.Length()
    ensures b.Length() > 0
  {}

  lemma WindowHoldsCell(b: Batch, size: nat, w: nat, k: nat)
    requires b.Fits(size) && w < b.Count() && k < b.Length()
    ensures b.Valid() && b.Window(w).Fits(size) && b.Window(w).At(k) < size && b.Window(w).Holds(b.Window(w).At(k))
  {
    hide Injective, View.At, Batch.Window;
    WindowFits(b, size, w);
  }

  /** Writing cell k of window w changes that element alone. */
  lemma CellChanged(wasRe: seq<real>, wasIm: seq<real>, re: seq<real>, im: seq<real>, b: Batch, w: nat, k: nat)
    requires b.Fits(|re|) && b.Fits(|im|) && w < b.Count() && k < b.Length() && b.Valid()
    requires b.Window(w).At(k) < |re| == |wasRe| && b.Window(w).At(k) < |im| == |wasIm|
    requires re == wasRe[b.Window(w).At(k) := re[b.Window(w).At(k)]]
    requires im == wasIm[b.Window(w).At(k) := im[b.Window(w).At(k)]]
    ensures
      var was := ContentsOf(wasRe, wasIm, b);
      && w < |was| && k < |was[w]|
      && ContentsOf(re, im, b) == was[w := was[w][k := Complex(re[b.Window(w).At(k)], im[b.Window(w).At(k)])]]
    ensures OnlyWithin(b.Window(w), wasRe, re) && OnlyWithin(b.Window(w), wasIm, im)
  {
    hide Injective, View.At, Batch.Window, Batch.Fits, Batch.InBounds, Batch.Count, Batch.Valid, Batch.Length,
         ContentsOf;
    WindowHoldsCell(b, |re|, w, k);
    WindowHoldsCell(b, |im|, w, k);
    OneWindowChanged(wasRe, wasIm, re, im, b, w);
    var v := b.Window(w);
    forall i: nat | i < v.len && i != k
      ensures v.At(i) != v.At(k)
    {}
    assert ReadOf(re, im, v) == ReadOf(wasRe, wasIm, v)[k := Complex(re[v.At(k)], im[v.At(k)])];
  }

  /** The same kernel for a real tensor. */
  method StoreRealElements(values: seq<seq<real>>, x: array<real>, b: Batch)
    requires b.Fits(x.Length) && Shaped(values, b)
    modifies x
    ensures SamplesOf(x[..], b) == values
    ensures KeptOutside(b, old(x[..]), x[..])
  {
    hide Injective, View.At, View.Fits, View.InBounds, View.Holds, Batch.Window, Batch.Valid, Batch.Count, Batch.Fits,
         Batch.InBounds, SamplesOf, Filled;
    var n := b.Length();
    AllRealShaped(x[..], b, values);
    NothingFilled(SamplesOf(x[..], b), values, n);
    var todo := Items(|values| * n);
    while todo != {}
      invariant todo <= Items(|values| * n)
      invariant Filled(SamplesOf(x[..], b), values, n, todo)
      invariant KeptOutside(b, old(x[..]), x[..])
      decreases todo
    {
      var pos :| pos in todo;
      ghost var was := x[..];
      FillsOne(SamplesOf(was, b), SamplesOf(was, b), values, n, todo, pos);
      var w, k := pos / n, pos % n;
      WindowHoldsCell(b, x.Length, w, k);
      var v := Layout(b, w);
      x[v.At(k)] := values[w][k];
      RealCellChanged(was, x[..], b, w, k);
      FillsOne(SamplesOf(was, b), SamplesOf(x[..], b), values, n, todo, pos);
      WindowIsInside(b, w, old(x[..]), was, x[..]);
      todo := todo - {pos};
    }
    AllFilled(SamplesOf(x[..], b), values, n);
  }

  lemma AllRealShaped(x: seq<real>, b: Batch, values: seq<seq<real>>)
    requires b.Fits(|x|) && Shaped(values, b)
    ensures
      var now := SamplesOf(x, b);
      |now| == |values| && forall w :: 0 <= w < |now| ==> |now[w]| == |values[w]| == b.Length()
    ensures b.Length() > 0
  {}

  lemma RealCellChanged(was: seq<real>, now: seq<real>, b: Batch, w: nat, k: nat)
    requires b.Fits(|now|) && w < b.Count() && k < b.Length() && b.Valid()
    requires b.Window(w).At(k) < |now| == |was| && now == was[b.Window(w).At(k) := now[b.Window(w).At(k)]]
    ensures
      var before := SamplesOf(was, b);
      && w < |before| && k < |before[w]|
      && SamplesOf(now, b) == before[w := before[w][k := now[b.Window(w).At(k)]]]
    ensures OnlyWithin(b.Window(w), was, now)
  {
    hide Injective, View.At, Batch.Window, Batch.Fits, Batch.InBounds, Batch.Count, Batch.Valid, Batch.Length,
         SamplesOf;
    WindowHoldsCell(b, |now|, w, k);
    OneRealWindowChanged(was, now, b, w);
    var v := b.Window(w);
    forall i: nat | i < v.len && i != k
      ensures v.At(i) != v.At(k)
    {}
    assert ReadRealOf(now, v) == ReadRealOf(was, v)[k := now[v.At(k)]];
  }

  // ---- fresh tensors -------------------------------------------------------------------------------

  /** The strides of a freshly allocated contiguous tensor. */
  function ContiguousStrides(shape: seq<nat>): (strides: seq<nat>)
    ensures |strides| == |shape|
  {
    if shape == [] then []
    else [Cells(Dims(shape[1..], ContiguousStrides(shape[1..])))] + ContiguousStrides(shape[1..])
  }

  lemma {:induction false} ContiguousIsRowMajor(shape: seq<nat>)
    ensures RowMajor(Dims(shape, ContiguousStrides(shape)))
  {
    if shape != [] {
      ContiguousIsRowMajor(shape[1..]);
      assert ContiguousStrides(shape)[1..] == ContiguousStrides(shape[1..]);
      assert Dims(shape, ContiguousStrides(shape))[1..] == Dims(shape[1..], ContiguousStrides(shape[1..]));
    }
  }

  /** `TensorHandle::new_contiguous` with a window length n in place of the model tensor's. */
  function Contiguous(like: Batch, n: nat): (b: Batch)
    requires like.dim < |like.shape|
  {
    var shape := like.shape[like.dim := n];
    Batch(shape, ContiguousStrides(shape), like.dim)
  }

  /** Strides that visit each element once keep to the tensor's size. */
  lemma BijectiveFits(b: Batch, size: nat)
    requires b.WellFormed() && Bijective(Dims(b.shape, b.strides)) && b.Size() <= size
    ensures b.Fits(size)
  {}

  lemma ContiguousFits(like: Batch, n: nat)
    requires like.WellFormed() && n >= 1
    ensures
      var b := Contiguous(like, n);
      && b.Fits(b.Size()) && b.Length() == n && SameBatch(like, b) && b.Count() == like.Count()
  {
    var b := Contiguous(like, n);
    ContiguousIsRowMajor(b.shape);
    RowMajorExactlyOnce(Dims(b.shape, b.strides));
    ExactlyOnceIffBijective(Dims(b.shape, b.strides));
    BijectiveFits(b, b.Size());
    SameCount(like, b);
  }
}

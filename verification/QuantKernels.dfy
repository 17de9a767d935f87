/** The packed quantization and dequantization kernels over their whole launches, and what a tensor loses between them. */
module QuantKernels {
  import opened BlockScales
  import opened DenseViews
  import opened IndexArithmetic
  import opened PowersOfTwo
  import opened QuantPacking
  import opened UnitSchedule

  /** A tensor cut into blocks, and the strides of the scales that go with them. */
  datatype Blocks = Blocks(shape: seq<nat>, block: seq<nat>, strides: seq<nat>) {
    ghost predicate Valid() {
      Legal(shape, block) && |strides| == |shape|
    }

    /** The scale slot of the element at pos. */
    function At(pos: nat): nat
      requires Valid()
    {
      Slot(BlockOf(shape, block, pos), strides)
    }

    /** The scales form a buffer of their own: one slot a block. */
    ghost predicate Separates(size: nat) {
      Valid() && var dims := Dims(Grid(shape, block), strides);
      MixedRadix.Bijective(dims) && MixedRadix.Cells(dims) <= size
    }

    /** Every element's slot lies in the buffer. */
    ghost predicate Fits(size: nat)
      requires Valid()
    {
      forall pos: nat :: pos < Cells(shape) ==> At(pos) < size
    }
  }

  lemma SeparatesFits(blocks: Blocks, size: nat, pos: nat)
    requires blocks.Separates(size)
    ensures blocks.At(pos) < size
  {
    var grid, b := Grid(blocks.shape, blocks.block), BlockOf(blocks.shape, blocks.block, pos);
    BlockOfInGrid(blocks.shape, blocks.block, pos);
    SlotIsPosition(b, grid, blocks.strides);
    assert MixedRadix.InBox(b, Dims(grid, blocks.strides));
  }

  /**
   The quantizer's arithmetic: how scales are narrowed on the way in, the tensor's global scale if the scheme has one,
   the rounding to an integer, the range values are clamped to, and the code a device makes of a value over a scale of
   zero, an infinity or no number at all.
   */
  datatype Scheme = Scheme(narrow: real -> real, outer: Global, round: real -> int, lo: int, hi: int, overZero: real -> int)

  datatype Global = OneLevel | TwoLevel(factor: real)

  /** `Scale::effective`: the factor a value is reconstructed with. */
  function Effective(g: Global, inner: real): real {
    match g
    case OneLevel => inner
    case TwoLevel(factor) => factor * inner
  }

  function Clamp(v: int, lo: int, hi: int): int {
    if v < lo then lo else if v > hi then hi else v
  }

  /** The scale stored for the element at pos. */
  function ScaleOf(scheme: Scheme, given: Blocks, scales: seq<real>, pos: nat): real
    requires given.Valid() && given.At(pos) < |scales|
  {
    scheme.narrow(scales[given.At(pos)])
  }

  /** `quantize_symmetric`: divide by the scale, round, clamp. */
  function Quantize(scheme: Scheme, value: real, inner: real): int {
    if Effective(scheme.outer, inner) == 0.0 then scheme.overZero(value)
    else Clamp(scheme.round(value / Effective(scheme.outer, inner)), scheme.lo, scheme.hi)
  }

  /** A quantization run: the tensor, its blocks, the scales calibration gave. */
  ghost predicate Runnable(scheme: Scheme, x: seq<real>, given: Blocks, scales: seq<real>, num: nat) {
    && given.Valid() && WholeGroups(given.shape, given.block, num) && |x| == Cells(given.shape)
    && given.Fits(|scales|)
  }

  /** The integer each element is to be stored as, under the scale of its own block. */
  function CodeOf(scheme: Scheme, x: seq<real>, given: Blocks, scales: seq<real>, num: nat, pos: nat): int
    requires Runnable(scheme, x, given, scales, num) && pos < |x|
  {
    Quantize(scheme, x[pos], ScaleOf(scheme, given, scales, pos))
  }

  /** The codes of the elements of word u. */
  ghost predicate CodesAt(codes: seq<int>, scheme: Scheme, x: seq<real>, given: Blocks, scales: seq<real>, num: nat, u: nat)
    requires Runnable(scheme, x, given, scales, num)
  {
    |codes| == num && forall i: nat :: i < num ==>
      0 <= u * num + i < |x| && codes[i] == CodeOf(scheme, x, given, scales, num, u * num + i)
  }

  /** Word u of the output packs the codes of its own elements. */
  ghost predicate Packs(word: nat, scheme: Scheme, x: seq<real>, given: Blocks, scales: seq<real>, size: nat, num: nat, u: nat)
    requires Runnable(scheme, x, given, scales, num)
  {
    exists codes: seq<int> :: CodesAt(codes, scheme, x, given, scales, num, u) && word == Word(codes, size)
  }

  /** The scales written when the units of todo are still to run. */
  ghost predicate ScalesWritten(out: seq<real>, scheme: Scheme, x: seq<real>, given: Blocks, scales: seq<real>, kept: Blocks,
                                num: nat, todo: set<nat>)
    requires Runnable(scheme, x, given, scales, num) && kept.Separates(|out|)
    requires kept.shape == given.shape && kept.block == given.block
  {
    forall pos: nat :: pos < |x| && Writer(kept.shape, kept.block, num, BlockOf(kept.shape, kept.block, pos)) !in todo ==>
      kept.At(pos) < |out| && out[kept.At(pos)] == ScaleOf(scheme, given, scales, pos)
  }

  /** One unit's scale write: its own block's slot if it is elected, and nothing otherwise. */
  lemma ScaleWriteKeeps(out: seq<real>, scheme: Scheme, x: seq<real>, given: Blocks, scales: seq<real>, kept: Blocks,
                        num: nat, todo: set<nat>, u: nat)
    requires Runnable(scheme, x, given, scales, num) && kept.Separates(|out|)
    requires kept.shape == given.shape && kept.block == given.block
    requires 0 <= u * num < |x|
    requires ScalesWritten(out, scheme, x, given, scales, kept, num, todo)
    ensures kept.Valid() && kept.At(u * num) < |out|
    ensures
      var after :=
        if Starts(kept.shape, kept.block, u * num) then out[kept.At(u * num) := ScaleOf(scheme, given, scales, u * num)]
        else out;
      ScalesWritten(after, scheme, x, given, scales, kept, num, todo - {u})
  {
    hide Slot, BlockOf, Starts, Writer, MixedRadix.Bijective;
    SeparatesFits(kept, |out|, u * num);
    forall pos: nat | pos < |x|
      ensures kept.At(pos) < |out|
      ensures Elected(kept.shape, kept.block, kept.strides, BlockOf(kept.shape, kept.block, pos), u * num)
         <==> u == Writer(kept.shape, kept.block, num, BlockOf(kept.shape, kept.block, pos))
      ensures Elected(kept.shape, kept.block, kept.strides, BlockOf(kept.shape, kept.block, pos), u * num) ==>
        given.At(u * num) == given.At(pos)
    {
      SeparatesFits(kept, |out|, pos);
      ElectedSharesBlock(kept, |out|, num, u, pos);
    }
  }

  /** The unit elected for an element's block is the block's one writer, and holds an element of that block. */
  lemma ElectedSharesBlock(kept: Blocks, size: nat, num: nat, u: nat, pos: nat)
    requires kept.Separates(size) && WholeGroups(kept.shape, kept.block, num)
    requires 0 <= u * num < Cells(kept.shape)
    ensures
      var b := BlockOf(kept.shape, kept.block, pos);
      && (Elected(kept.shape, kept.block, kept.strides, b, u * num) <==> u == Writer(kept.shape, kept.block, num, b))
      && (Elected(kept.shape, kept.block, kept.strides, b, u * num) ==> BlockOf(kept.shape, kept.block, u * num) == b)
  {
    hide Slot, BlockOf, Starts, Writer, MixedRadix.Bijective;
    var b := BlockOf(kept.shape, kept.block, pos);
    BlockOfInGrid(kept.shape, kept.block, pos);
    BlockOfInGrid(kept.shape, kept.block, u * num);
    ExactlyOneWriter(kept.shape, kept.block, kept.strides, num, u, b);
    if Elected(kept.shape, kept.block, kept.strides, b, u * num) {
      SlotsSeparateBlocks(kept.shape, kept.block, kept.strides, BlockOf(kept.shape, kept.block, u * num), b);
    }
  }

  /** The vector a unit quantizes: all its lanes with the one scale it read. */
  method QuantizeLanes(scheme: Scheme, x: seq<real>, given: Blocks, scales: seq<real>, inner: real, num: nat, u: nat)
    returns (codes: seq<int>)
    requires Runnable(scheme, x, given, scales, num) && 0 <= u * num && u * num + num <= |x|
    requires inner == ScaleOf(scheme, given, scales, u * num)
    ensures |codes| == num && CodesAt(codes, scheme, x, given, scales, num, u)
  {
    hide Quantize, BlockOf;
    codes := [];
    for i := 0 to num
      invariant |codes| == i
      invariant forall k: nat :: k < i ==>
        0 <= u * num + k < |x| && codes[k] == CodeOf(scheme, x, given, scales, num, u * num + k)
    {
      LanesShareBlock(given.shape, given.block, num, u, i);
      codes := codes + [Quantize(scheme, x[u * num + i], inner)];
    }
  }

  /** One unit: its scale write, if its first element starts a block, and its word. */
  method QuantizeUnit(scheme: Scheme, x: seq<real>, given: Blocks, scales: seq<real>, kept: Blocks, outScale: array<real>,
                      size: nat, num: nat, ghost todo: set<nat>, u: nat)
    returns (word: nat)
    requires Runnable(scheme, x, given, scales, num) && kept.Separates(outScale.Length)
    requires kept.shape == given.shape && kept.block == given.block
    requires size > 0 && num * size == WORD && 0 <= u * num && u * num + num <= |x|
    requires ScalesWritten(outScale[..], scheme, x, given, scales, kept, num, todo)
    modifies outScale
    ensures ScalesWritten(outScale[..], scheme, x, given, scales, kept, num, todo - {u})
    ensures Packs(word, scheme, x, given, scales, size, num, u)
  {
    hide ScalesWritten, Packs, CodesAt, Slot, BlockOf, Starts, Writer, Blocks.Separates, Word, Exp2;
    ScaleWriteKeeps(outScale[..], scheme, x, given, scales, kept, num, todo, u);
    var source := ToSourcePos(given.shape, given.block, given.strides, 1, u * num);
    assert given.At(u * num) == source < |scales|;
    var inner := scheme.narrow(scales[source]);
    var isStart := IsBlockStart(kept.shape, kept.block, u * num);
    if isStart {
      var slot := ToSourcePos(kept.shape, kept.block, kept.strides, 1, u * num);
      outScale[slot] := inner;
    }
    var codes := QuantizeLanes(scheme, x, given, scales, inner, num, u);
    word := PackQ(codes, size);
    assert Packs(word, scheme, x, given, scales, size, num, u) by {
      PacksCodes(word, codes, scheme, x, given, scales, size, num, u);
    }
  }

  /**
   `quantize_symmetric_packed_kernel` over its launch, the units in any order: every element is stored as its own code,
   and its block's scale lands in its block's slot.
   */
  method QuantizePacked(scheme: Scheme, x: seq<real>, given: Blocks, scales: seq<real>, kept: Blocks, outScale: array<real>,
                        output: array<nat>, size: nat, num: nat, units: nat)
    requires Runnable(scheme, x, given, scales, num) && kept.Separates(outScale.Length)
    requires kept.shape == given.shape && kept.block == given.block
    requires size > 0 && num * size == WORD && output.Length * num == |x| && units >= output.Length
    modifies outScale, output
    ensures forall pos: nat :: pos < |x| ==>
      && kept.At(pos) < outScale.Length && given.At(pos) < |scales|
      && outScale[kept.At(pos)] == scheme.narrow(scales[given.At(pos)])
    ensures forall u: nat :: u < output.Length ==> Packs(output[u], scheme, x, given, scales, size, num, u)
  {
    hide Runnable, ScalesWritten, Packs, Blocks.At, Blocks.Separates;
    var todo := Items(units);
    NoneWritten(outScale[..], scheme, x, given, scales, kept, num, units, output.Length);
    while todo != {}
      invariant todo <= Items(units)
      invariant ScalesWritten(outScale[..], scheme, x, given, scales, kept, num, todo)
      invariant forall u: nat :: u < output.Length && u !in todo ==> Packs(output[u], scheme, x, given, scales, size, num, u)
      decreases todo
    {
      var u :| u in todo;
      if u < output.Length {
        UnitInTensor(scheme, x, given, scales, num, u, output.Length);
        output[u] := QuantizeUnit(scheme, x, given, scales, kept, outScale, size, num, todo, u);
      } else {
        SurplusWritesNothing(outScale[..], scheme, x, given, scales, kept, num, todo, u, output.Length);
      }
      todo := todo - {u};
    }
    AllWritten(outScale[..], scheme, x, given, scales, kept, num);
  }

  /** c is what the source stores for x over the factor s: the rounded quotient, or the end of the range it lies beyond. */
  ghost predicate Encodes(scheme: Scheme, c: int, x: real, s: real) {
    if s == 0.0 then c == scheme.overZero(x)
    else
      var q := scheme.round(x / s);
      && (scheme.lo <= q <= scheme.hi ==> c == q)
      && (q < scheme.lo ==> c == scheme.lo)
      && (q > scheme.hi && scheme.lo <= scheme.hi ==> c == scheme.hi)
  }

  /** Every element's field is the code of its value over the factor of its scheme and block, one level or two. */
  lemma FieldEncodes(words: seq<nat>, scheme: Scheme, x: seq<real>, given: Blocks, scales: seq<real>, size: nat, num: nat,
                     pos: nat)
    requires Runnable(scheme, x, given, scales, num) && size > 0 && num > 0 && |words| * num == |x| && pos < |x|
    requires forall u: nat :: u < |words| ==> Packs(words[u], scheme, x, given, scales, size, num, u)
    ensures given.At(pos) < |scales| && 0 <= pos / num < |words|
    ensures
      var inner := scheme.narrow(scales[given.At(pos)]);
      var c := CodeOf(scheme, x, given, scales, num, pos);
      && Encodes(scheme, c, x[pos], match scheme.outer case OneLevel => inner case TwoLevel(factor) => factor * inner)
      && FieldAt(words[pos / num], pos % num, size) == Code(c, size)
  {
    hide Word, FieldAt, Code, Blocks.At;
    CellOf(pos, |words|, num);
    DivBounds(pos, num);
    FieldOfElement(words[pos / num], scheme, x, given, scales, size, num, pos / num, pos % num, pos);
    hide Runnable;
    CodeEncodes(scheme, x, given, scales, num, pos);
  }

  lemma CodeEncodes(scheme: Scheme, x: seq<real>, given: Blocks, scales: seq<real>, num: nat, pos: nat)
    requires Runnable(scheme, x, given, scales, num) && pos < |x|
    ensures given.Valid() && given.At(pos) < |scales|
    ensures
      var inner := scheme.narrow(scales[given.At(pos)]);
      Encodes(scheme, CodeOf(scheme, x, given, scales, num, pos), x[pos],
              match scheme.outer case OneLevel => inner case TwoLevel(factor) => factor * inner)
  {
    hide Blocks.At;
    assert given.At(pos) < |scales|;
    match scheme.outer
    case OneLevel =>
    case TwoLevel(factor) =>
  }

  lemma FieldOfElement(word: nat, scheme: Scheme, x: seq<real>, given: Blocks, scales: seq<real>, size: nat, num: nat,
                       u: nat, p: nat, pos: nat)
    requires Runnable(scheme, x, given, scales, num) && size > 0 && p < num && pos == u * num + p < |x|
    requires Packs(word, scheme, x, given, scales, size, num, u)
    ensures FieldAt(word, p, size) == Code(CodeOf(scheme, x, given, scales, num, pos), size)
  {
    hide Runnable, Word, FieldAt, Code, CodeOf;
    var codes: seq<int> :| CodesAt(codes, scheme, x, given, scales, num, u) && word == Word(codes, size);
    FieldOfWord(codes, size, p);
  }

  lemma AtIsSlot(blocks: Blocks, pos: nat)
    requires blocks.Valid()
    ensures blocks.At(pos) == Slot(BlockOf(blocks.shape, blocks.block, pos), blocks.strides)
  {}

  lemma PacksCodes(word: nat, codes: seq<int>, scheme: Scheme, x: seq<real>, given: Blocks, scales: seq<real>,
                   size: nat, num: nat, u: nat)
    requires Runnable(scheme, x, given, scales, num)
    requires CodesAt(codes, scheme, x, given, scales, num, u) && word == Word(codes, size)
    ensures Packs(word, scheme, x, given, scales, size, num, u)
  {}

  lemma UnitInTensor(scheme: Scheme, x: seq<real>, given: Blocks, scales: seq<real>, num: nat, u: nat, words: nat)
    requires Runnable(scheme, x, given, scales, num) && words * num == |x| && u < words
    ensures 0 <= u * num && u * num + num <= |x| && num > 0 && given.Valid() && given.At(u * num) < |scales|
  {
    Nonnegative(u, num);
    Monotone(u + 1, words, num);
    Distribute(num, u, 1);
  }

  /** A block's writer is one of the units that have a word to write. */
  lemma WriterHasWord(scheme: Scheme, x: seq<real>, given: Blocks, scales: seq<real>, num: nat, words: nat, pos: nat)
    requires Runnable(scheme, x, given, scales, num) && words * num == |x| && pos < |x|
    ensures Writer(given.shape, given.block, num, BlockOf(given.shape, given.block, pos)) < words
  {
    var b := BlockOf(given.shape, given.block, pos);
    BlockOfInGrid(given.shape, given.block, pos);
    FirstIsStart(given.shape, given.block, b);
    CellOf(FirstOf(given.shape, given.block, b), words, num);
  }

  lemma NoneWritten(out: seq<real>, scheme: Scheme, x: seq<real>, given: Blocks, scales: seq<real>, kept: Blocks,
                    num: nat, units: nat, words: nat)
    requires Runnable(scheme, x, given, scales, num) && kept.Separates(|out|)
    requires kept.shape == given.shape && kept.block == given.block && words * num == |x| && words <= units
    ensures ScalesWritten(out, scheme, x, given, scales, kept, num, Items(units))
  {
    hide Runnable, Writer, BlockOf;
    forall pos: nat | pos < |x|
      ensures Writer(given.shape, given.block, num, BlockOf(given.shape, given.block, pos)) in Items(units)
    {
      WriterHasWord(scheme, x, given, scales, num, words, pos);
    }
  }

  lemma SurplusWritesNothing(out: seq<real>, scheme: Scheme, x: seq<real>, given: Blocks, scales: seq<real>, kept: Blocks,
                             num: nat, todo: set<nat>, u: nat, words: nat)
    requires Runnable(scheme, x, given, scales, num) && kept.Separates(|out|)
    requires kept.shape == given.shape && kept.block == given.block && words * num == |x| && words <= u
    requires ScalesWritten(out, scheme, x, given, scales, kept, num, todo)
    ensures ScalesWritten(out, scheme, x, given, scales, kept, num, todo - {u})
  {
    hide Runnable, Writer, BlockOf;
    forall pos: nat | pos < |x|
      ensures Writer(given.shape, given.block, num, BlockOf(given.shape, given.block, pos)) != u
    {
      WriterHasWord(scheme, x, given, scales, num, words, pos);
    }
  }

  lemma AllWritten(out: seq<real>, scheme: Scheme, x: seq<real>, given: Blocks, scales: seq<real>, kept: Blocks, num: nat)
    requires Runnable(scheme, x, given, scales, num) && kept.Separates(|out|)
    requires kept.shape == given.shape && kept.block == given.block
    requires ScalesWritten(out, scheme, x, given, scales, kept, num, {})
    ensures forall pos: nat :: pos < |x| ==>
      && kept.At(pos) < |out| && given.At(pos) < |scales|
      && out[kept.At(pos)] == scheme.narrow(scales[given.At(pos)])
  {
    hide BlockOf, Slot, Writer;
  }

  // ---- dequantization ---------------------------------------------------------------------------

  /** `dequantize_symmetric`. */
  function Dequantize(code: int, factor: real): real {
    code as real * factor
  }

  /** y is the field times its block's scale, or times the product of the global scale and its block's. */
  ghost predicate DequantizedTo(y: real, field: int, g: Global, inner: real) {
    match g
    case OneLevel => y == field as real * inner
    case TwoLevel(factor) => y == field as real * (factor * inner)
  }

  /** The value the packed words and the stored scales stand for at pos. */
  function Reconstructed(words: seq<nat>, blocks: Blocks, scales: seq<real>, g: Global, size: nat, num: nat, pos: nat): real
    requires blocks.Valid() && size > 0 && num > 0 && pos < |words| * num && blocks.At(pos) < |scales|
  {
    CellOf(pos, |words|, num);
    DivBounds(pos, num);
    Dequantize(SignedField(FieldAt(words[pos / num], pos % num, size), size), Effective(g, scales[blocks.At(pos)]))
  }

  /** The fields of word i of the launch, each with the scale the kernel reads for that word. */
  lemma WordIsReconstructed(words: seq<nat>, blocks: Blocks, scales: seq<real>, g: Global, size: nat, num: nat,
                            word: nat, values: seq<int>, p: nat)
    requires blocks.Valid() && WholeGroups(blocks.shape, blocks.block, num) && |words| * num == Cells(blocks.shape)
    requires blocks.Fits(|scales|) && size > 0 && word < |words| && p < num && |values| == num
    requires values[p] == SignedField(FieldAt(words[word], p, size), size)
    ensures 0 <= word * num + p < |words| * num && 0 <= word * num && blocks.At(word * num) < |scales|
    ensures blocks.At(word * num + p) < |scales|
    ensures Dequantize(values[p], Effective(g, scales[blocks.At(word * num)]))
         == Reconstructed(words, blocks, scales, g, size, num, word * num + p)
  {
    hide BlockOf, Slot, FieldAt, SignedField, Dequantize;
    CellBelow(word, p, |words|, num);
    CellBelow(word, 0, |words|, num);
    LanesShareBlock(blocks.shape, blocks.block, num, word, p);
  }

  /** `dequantize_symmetric_packed_value` for the ith word of a unit, and the unit's store of it. */
  method DequantizeWord(words: seq<nat>, blocks: Blocks, scales: seq<real>, g: Global, output: array<real>,
                        size: nat, num: nat, word: nat, position: nat)
    requires blocks.Valid() && WholeGroups(blocks.shape, blocks.block, num) && |words| * num == Cells(blocks.shape)
    requires blocks.Fits(|scales|) && size > 0 && num * size == WORD && output.Length == |words| * num
    requires word < |words| && words[word] < Exp2(WORD) && position == word * num
    modifies output
    ensures forall pos: nat :: pos < output.Length ==>
      output[pos] == if pos / num == word then Reconstructed(words, blocks, scales, g, size, num, pos) else old(output[pos])
  {
    hide BlockOf, Slot, FieldAt, SignedField, Reconstructed, Dequantize, Blocks.At;
    var values := UnpackQ(words[word], size, num);
    CellBelow(word, 0, |words|, num);
    var slot := ToSourcePos(blocks.shape, blocks.block, blocks.strides, 1, position);
    assert slot == blocks.At(position) by { AtIsSlot(blocks, position); }
    var scale := Effective(g, scales[slot]);
    for p := 0 to num
      invariant forall pos: nat :: pos < output.Length ==>
        output[pos] == if pos / num == word && pos % num < p then Reconstructed(words, blocks, scales, g, size, num, pos)
                       else old(output[pos])
    {
      WordIsReconstructed(words, blocks, scales, g, size, num, word, values, p);
      OneCell(word, p, num, output.Length);
      output[word * num + p] := Dequantize(values[p], scale);
    }
    LanesBelow(num, output.Length);
  }

  lemma OneCell(word: nat, p: nat, num: nat, n: nat)
    requires p < num
    ensures forall pos: nat :: pos < n && pos / num == word && pos % num == p ==> pos == word * num + p
    ensures word * num + p >= 0 && (word * num + p) / num == word && (word * num + p) % num == p
  {
    Nonnegative(word, num);
    DivModUnique(word * num + p, num, word, p);
  }

  lemma LanesBelow(num: nat, n: nat)
    requires num > 0
    ensures forall pos: nat :: pos < n ==> pos % num < num
  {}

  /**
   `dequantize_symmetric_packed_kernel` over its launch, `lanes` words a unit and the units in any order: every element is
   its field times the scale of its own block.
   */
  method DequantizePacked(words: seq<nat>, blocks: Blocks, scales: seq<real>, g: Global, output: array<real>,
                          size: nat, num: nat, lanes: nat, units: nat)
    requires blocks.Valid() && WholeGroups(blocks.shape, blocks.block, num) && |words| * num == Cells(blocks.shape)
    requires blocks.Fits(|scales|) && size > 0 && num * size == WORD && output.Length == |words| * num
    requires forall i :: 0 <= i < |words| ==> words[i] < Exp2(WORD)
    requires lanes > 0 && |words| % lanes == 0 && units >= |words| / lanes
    modifies output
    ensures forall pos: nat :: pos < output.Length ==>
      && 0 <= pos / num < |words| && blocks.At(pos) < |scales|
      && DequantizedTo(output[pos], SignedField(FieldAt(words[pos / num], pos % num, size), size), g, scales[blocks.At(pos)])
  {
    hide BlockOf, Slot, FieldAt, SignedField, Blocks.At, Reconstructed, Exp2;
    DequantizeUnits(words, blocks, scales, g, output, size, num, lanes, units);
    forall pos: nat | pos < output.Length
      ensures 0 <= pos / num < |words| && blocks.At(pos) < |scales|
      ensures DequantizedTo(output[pos], SignedField(FieldAt(words[pos / num], pos % num, size), size), g,
                            scales[blocks.At(pos)])
    {
      ReconstructedIs(words, blocks, scales, g, size, num, pos);
    }
  }

  /** The field times the stored scale, and times the global scale if there is one. */
  lemma ReconstructedIs(words: seq<nat>, blocks: Blocks, scales: seq<real>, g: Global, size: nat, num: nat, pos: nat)
    requires blocks.Valid() && size > 0 && num > 0 && pos < |words| * num && blocks.At(pos) < |scales|
    ensures 0 <= pos / num < |words|
    ensures DequantizedTo(Reconstructed(words, blocks, scales, g, size, num, pos),
                          SignedField(FieldAt(words[pos / num], pos % num, size), size), g, scales[blocks.At(pos)])
  {
    hide BlockOf, Slot, FieldAt, SignedField, Blocks.At;
    CellOf(pos, |words|, num);
    DivBounds(pos, num);
  }

  /** The units of the launch, in any order. */
  method DequantizeUnits(words: seq<nat>, blocks: Blocks, scales: seq<real>, g: Global, output: array<real>,
                         size: nat, num: nat, lanes: nat, units: nat)
    requires blocks.Valid() && WholeGroups(blocks.shape, blocks.block, num) && |words| * num == Cells(blocks.shape)
    requires blocks.Fits(|scales|) && size > 0 && num * size == WORD && output.Length == |words| * num
    requires forall i :: 0 <= i < |words| ==> words[i] < Exp2(WORD)
    requires lanes > 0 && |words| % lanes == 0 && units >= |words| / lanes
    modifies output
    ensures forall pos: nat :: pos < output.Length ==>
      output[pos] == Reconstructed(words, blocks, scales, g, size, num, pos)
  {
    hide Reconstructed, BlockOf, Slot, Blocks.At, Exp2;
    var todo := Items(units);
    DivBounds(|words|, lanes);
    WordsHaveUnits(|words|, num, lanes, units);
    while todo != {}
      invariant todo <= Items(units)
      invariant forall pos: nat {:trigger output[pos]} :: pos < output.Length && pos / num / lanes !in todo ==>
        output[pos] == Reconstructed(words, blocks, scales, g, size, num, pos)
      decreases todo
    {
      var u :| u in todo;
      todo := todo - {u};
      if u < |words| / lanes {
        for i := 0 to lanes
          invariant forall pos: nat {:trigger output[pos]} ::
            pos < output.Length && (pos / num / lanes !in todo + {u} || (pos / num / lanes == u && pos / num % lanes < i)) ==>
            output[pos] == Reconstructed(words, blocks, scales, g, size, num, pos)
        {
          UnitWord(u, i, lanes, num, |words|);
          DequantizeWord(words, blocks, scales, g, output, size, num, u * lanes + i, u * num * lanes + i * num);
          OneWord(u, i, lanes, num, output.Length);
        }
        LanesOfWord(lanes, num, output.Length);
      } else {
        WordsHaveUnits(|words|, num, lanes, u);
      }
    }
  }

  /** The position the kernel computes for a unit's ith word is the word's first element. */
  lemma UnitWord(u: nat, i: nat, lanes: nat, num: nat, words: nat)
    requires i < lanes && words % lanes == 0 && u < words / lanes
    ensures 0 <= u * lanes + i < words
    ensures 0 <= u * num * lanes + i * num == (u * lanes + i) * num
  {
    CellBelow(u, i, words / lanes, lanes);
    Associate(u, num, lanes);
    Associate(u, lanes, num);
    Distribute(num, u * lanes, i);
    Nonnegative(u * lanes + i, num);
  }

  lemma OneWord(u: nat, i: nat, lanes: nat, num: nat, n: nat)
    requires i < lanes && num > 0
    ensures forall pos: nat :: pos < n && pos / num / lanes == u && pos / num % lanes == i ==> pos / num == u * lanes + i
    ensures u * lanes + i >= 0 && (u * lanes + i) / lanes == u && (u * lanes + i) % lanes == i
  {
    Nonnegative(u, lanes);
    DivModUnique(u * lanes + i, lanes, u, i);
  }

  lemma LanesOfWord(lanes: nat, num: nat, n: nat)
    requires lanes > 0 && num > 0
    ensures forall pos: nat {:trigger pos / num} :: pos < n ==> pos / num % lanes < lanes
  {}

  lemma WordsHaveUnits(words: nat, num: nat, lanes: nat, units: nat)
    requires lanes > 0 && num > 0 && words % lanes == 0 && words / lanes <= units
    ensures words / lanes >= 0
    ensures forall pos: nat {:trigger pos / num} :: pos < words * num ==> 0 <= pos / num / lanes < units
  {
    forall pos: nat | pos < words * num
      ensures 0 <= pos / num / lanes < words / lanes
    {
      CellOf(pos, words, num);
      DivBounds(pos, num);
      CellOf(pos / num, words / lanes, lanes);
      DivBounds(pos / num, lanes);
    }
    DivBounds(words, lanes);
  }

  // ---- what is lost -------------------------------------------------------------------------------

  /** Rounding to a nearest integer, whichever way ties go. */
  ghost predicate Nearest(round: real -> int) {
    forall y: real :: -0.5 <= round(y) as real - y <= 0.5
  }

  /** The clamped range fits the field, so packing never cuts a code. */
  ghost predicate RangeFits(scheme: Scheme, size: nat)
    requires size > 0
  {
    scheme.lo <= scheme.hi && InRange(scheme.lo, size) && InRange(scheme.hi, size)
  }

  /** What the packed words give back for an element is its own code, unless its scale is zero. */
  lemma FieldIsCode(word: nat, scheme: Scheme, x: seq<real>, given: Blocks, scales: seq<real>, size: nat, num: nat,
                    u: nat, p: nat, pos: nat)
    requires Runnable(scheme, x, given, scales, num) && size > 0 && RangeFits(scheme, size) && p < num
    requires pos == u * num + p < |x|
    requires given.At(pos) < |scales| && Effective(scheme.outer, ScaleOf(scheme, given, scales, pos)) != 0.0
    requires Packs(word, scheme, x, given, scales, size, num, u)
    ensures SignedField(FieldAt(word, p, size), size) == CodeOf(scheme, x, given, scales, num, pos)
  {
    hide Runnable, Word, FieldAt, SignedField, Effective;
    var codes: seq<int> :| CodesAt(codes, scheme, x, given, scales, num, u) && word == Word(codes, size);
    FieldOfWord(codes, size, p);
    SignedCode(codes[p], size);
  }

  /** y is x within half a step of s, or the end of the range that x lies beyond; zero under a scale of zero. */
  ghost predicate Recovers(scheme: Scheme, y: real, x: real, s: real) {
    if s == 0.0 then y == 0.0
    else
      && (scheme.lo as real - 0.5 <= x / s <= scheme.hi as real + 0.5 ==> Magnitude(y - x) <= Magnitude(s) / 2.0)
      && (x / s < scheme.lo as real - 0.5 ==> y == scheme.lo as real * s)
      && (x / s > scheme.hi as real + 0.5 ==> y == scheme.hi as real * s)
  }

  /** s is the factor of a value whose block has the given scale: that scale, or the tensor's global one times it. */
  ghost predicate IsFactor(s: real, g: Global, inner: real) {
    (g == OneLevel ==> s == inner) && (forall factor: real :: g == TwoLevel(factor) ==> s == factor * inner)
  }

  /** Dequantizing what was quantized: each element comes back within half a step of its own block's factor. */
  lemma RoundTripError(words: seq<nat>, scheme: Scheme, x: seq<real>, given: Blocks, scales: seq<real>, size: nat, num: nat,
                       pos: nat, s: real)
    requires Runnable(scheme, x, given, scales, num) && Nearest(scheme.round) && size > 0 && RangeFits(scheme, size)
    requires |words| * num == |x| && pos < |x| && num > 0 && given.At(pos) < |scales|
    requires IsFactor(s, scheme.outer, scheme.narrow(scales[given.At(pos)]))
    requires forall u: nat :: u < |words| ==> Packs(words[u], scheme, x, given, scales, size, num, u)
    ensures 0 <= pos / num < |words|
    ensures Recovers(scheme, Dequantize(SignedField(FieldAt(words[pos / num], pos % num, size), size), s), x[pos], s)
  {
    hide *;
    RunnableIsValid(scheme, x, given, scales, num);
    FactorIsEffective(s, scheme.outer, scheme.narrow(scales[given.At(pos)]));
    ScaleIsNarrowed(scheme, x, given, scales, num, pos);
    RangeIsOrdered(scheme, size);
    FieldIsClamped(words, scheme, x, given, scales, size, num, pos, s);
    ClampRecovers(scheme, SignedField(FieldAt(words[pos / num], pos % num, size), size), x[pos], s);
  }

  /** The field of an element is its clamped code, unless its factor is zero. */
  lemma FieldIsClamped(words: seq<nat>, scheme: Scheme, x: seq<real>, given: Blocks, scales: seq<real>, size: nat, num: nat,
                       pos: nat, s: real)
    requires Runnable(scheme, x, given, scales, num) && size > 0 && RangeFits(scheme, size)
    requires |words| * num == |x| && pos < |x| && num > 0 && given.At(pos) < |scales|
    requires s == Effective(scheme.outer, ScaleOf(scheme, given, scales, pos))
    requires forall u: nat :: u < |words| ==> Packs(words[u], scheme, x, given, scales, size, num, u)
    ensures 0 <= pos / num < |words|
    ensures s != 0.0 ==>
      SignedField(FieldAt(words[pos / num], pos % num, size), size) == Clamp(scheme.round(x[pos] / s), scheme.lo, scheme.hi)
  {
    CellOf(pos, |words|, num);
    DivBounds(pos, num);
    hide *;
    if s != 0.0 {
      FieldIsCode(words[pos / num], scheme, x, given, scales, size, num, pos / num, pos % num, pos);
      CodeIsClamped(scheme, x, given, scales, num, pos);
    }
  }

  lemma FactorIsEffective(s: real, g: Global, inner: real)
    ensures IsFactor(s, g, inner) <==> s == Effective(g, inner)
  {}

  lemma ClampRecovers(scheme: Scheme, field: int, x: real, s: real)
    requires Nearest(scheme.round) && scheme.lo <= scheme.hi
    requires s != 0.0 ==> field == Clamp(scheme.round(x / s), scheme.lo, scheme.hi)
    ensures Recovers(scheme, Dequantize(field, s), x, s)
  {
    if s != 0.0 {
      ClampedQuotient(scheme, x, s);
    }
  }

  /**
   A tensor quantized and dequantized, the units of both launches in any order: each element comes back within half a step
   of its own block's factor.
   */
  method RoundTrip(scheme: Scheme, x: seq<real>, given: Blocks, scales: seq<real>, kept: Blocks, outScale: array<real>,
                   size: nat, num: nat, words: nat, lanes: nat, units: nat)
    returns (y: array<real>)
    requires Runnable(scheme, x, given, scales, num) && kept.Separates(outScale.Length)
    requires kept.shape == given.shape && kept.block == given.block
    requires size > 0 && num * size == WORD && words * num == |x| && units >= words
    requires lanes > 0 && words % lanes == 0 && Nearest(scheme.round) && RangeFits(scheme, size)
    modifies outScale
    ensures fresh(y) && y.Length == |x|
    ensures forall pos: nat, s: real ::
      pos < |x| && given.At(pos) < |scales| && IsFactor(s, scheme.outer, scheme.narrow(scales[given.At(pos)])) ==>
      Recovers(scheme, y[pos], x[pos], s)
  {
    hide *;
    RunnableIsValid(scheme, x, given, scales, num);
    var output := new nat[words];
    QuantizePacked(scheme, x, given, scales, kept, outScale, output, size, num, units);
    WordsInRange(output[..], scheme, x, given, scales, size, num);
    KeptFits(kept, outScale.Length, scheme, x, given, scales, num);
    y := new real[|x|];
    DivBounds(words, lanes);
    DequantizePacked(output[..], kept, outScale[..], scheme.outer, y, size, num, lanes, units);
    forall pos: nat, s: real |
      pos < |x| && given.At(pos) < |scales| && IsFactor(s, scheme.outer, scheme.narrow(scales[given.At(pos)]))
      ensures Recovers(scheme, y[pos], x[pos], s)
    {
      assert outScale[..][kept.At(pos)] == scheme.narrow(scales[given.At(pos)]);
      ElementComesBack(output[..], y[pos], outScale[..][kept.At(pos)], scheme, x, given, scales, size, num, pos, s);
    }
  }

  lemma ElementComesBack(words: seq<nat>, y: real, stored: real, scheme: Scheme, x: seq<real>, given: Blocks,
                         scales: seq<real>, size: nat, num: nat, pos: nat, s: real)
    requires Runnable(scheme, x, given, scales, num) && Nearest(scheme.round) && size > 0 && RangeFits(scheme, size)
    requires |words| * num == |x| && pos < |x| && num > 0 && given.At(pos) < |scales| && 0 <= pos / num < |words|
    requires stored == scheme.narrow(scales[given.At(pos)]) && IsFactor(s, scheme.outer, stored)
    requires forall u: nat :: u < |words| ==> Packs(words[u], scheme, x, given, scales, size, num, u)
    requires DequantizedTo(y, SignedField(FieldAt(words[pos / num], pos % num, size), size), scheme.outer, stored)
    ensures Recovers(scheme, y, x[pos], s)
  {
    hide *;
    RoundTripError(words, scheme, x, given, scales, size, num, pos, s);
    RecoversRead(scheme, y, SignedField(FieldAt(words[pos / num], pos % num, size), size), stored, x[pos], s);
  }

  lemma RecoversRead(scheme: Scheme, y: real, field: int, inner: real, x: real, s: real)
    requires DequantizedTo(y, field, scheme.outer, inner) && IsFactor(s, scheme.outer, inner)
    requires Recovers(scheme, Dequantize(field, s), x, s)
    ensures Recovers(scheme, y, x, s)
  {
    assert y == Dequantize(field, s) by {
      hide Recovers;
    }
    hide *;
  }

  lemma RunnableIsValid(scheme: Scheme, x: seq<real>, given: Blocks, scales: seq<real>, num: nat)
    requires Runnable(scheme, x, given, scales, num)
    ensures given.Valid()
  {}

  lemma ScaleIsNarrowed(scheme: Scheme, x: seq<real>, given: Blocks, scales: seq<real>, num: nat, pos: nat)
    requires Runnable(scheme, x, given, scales, num) && pos < |x|
    ensures given.Valid() && given.At(pos) < |scales|
    ensures ScaleOf(scheme, given, scales, pos) == scheme.narrow(scales[given.At(pos)])
  {
    hide Blocks.At;
  }

  lemma WordsInRange(words: seq<nat>, scheme: Scheme, x: seq<real>, given: Blocks, scales: seq<real>, size: nat, num: nat)
    requires Runnable(scheme, x, given, scales, num) && num * size == WORD
    requires forall u: nat :: u < |words| ==> Packs(words[u], scheme, x, given, scales, size, num, u)
    ensures forall i :: 0 <= i < |words| ==> words[i] < Exp2(WORD)
  {
    hide Runnable, CodesAt, Word, Exp2;
    forall i | 0 <= i < |words|
      ensures words[i] < Exp2(WORD)
    {
      assert Packs(words[i], scheme, x, given, scales, size, num, i);
      var codes: seq<int> :| CodesAt(codes, scheme, x, given, scales, num, i) && words[i] == Word(codes, size);
      assert |codes| == num by { CodesLength(codes, scheme, x, given, scales, num, i); }
      WordBound(codes, size);
    }
  }

  lemma CodesLength(codes: seq<int>, scheme: Scheme, x: seq<real>, given: Blocks, scales: seq<real>, num: nat, u: nat)
    requires Runnable(scheme, x, given, scales, num) && CodesAt(codes, scheme, x, given, scales, num, u)
    ensures |codes| == num
  {}

  lemma KeptFits(kept: Blocks, size: nat, scheme: Scheme, x: seq<real>, given: Blocks, scales: seq<real>, num: nat)
    requires kept.Separates(size) && Runnable(scheme, x, given, scales, num)
    requires kept.shape == given.shape && kept.block == given.block
    ensures given.Valid() && kept.Valid() && kept.Fits(size)
    ensures WholeGroups(kept.shape, kept.block, num) && |x| == Cells(kept.shape)
  {
    forall pos: nat | pos < Cells(kept.shape)
      ensures kept.At(pos) < size
    {
      SeparatesFits(kept, size, pos);
    }
  }

  lemma RangeIsOrdered(scheme: Scheme, size: nat)
    requires size > 0 && RangeFits(scheme, size)
    ensures scheme.lo <= scheme.hi
  {}

  lemma CodeIsClamped(scheme: Scheme, x: seq<real>, given: Blocks, scales: seq<real>, num: nat, pos: nat)
    requires Runnable(scheme, x, given, scales, num) && pos < |x| && given.At(pos) < |scales|
    requires Effective(scheme.outer, ScaleOf(scheme, given, scales, pos)) != 0.0
    ensures CodeOf(scheme, x, given, scales, num, pos)
         == Clamp(scheme.round(x[pos] / Effective(scheme.outer, ScaleOf(scheme, given, scales, pos))), scheme.lo, scheme.hi)
  {}

  function Magnitude(r: real): real {
    if r < 0.0 then -r else r
  }

  lemma ClampedQuotient(scheme: Scheme, x: real, s: real)
    requires Nearest(scheme.round) && s != 0.0 && scheme.lo <= scheme.hi
    ensures Recovers(scheme, Dequantize(Clamp(scheme.round(x / s), scheme.lo, scheme.hi), s), x, s)
  {
    var q := x / s;
    var c := Clamp(scheme.round(q), scheme.lo, scheme.hi);
    ClampIsNear(scheme.round(q), q, scheme.lo, scheme.hi) by {
      assert -0.5 <= scheme.round(q) as real - q <= 0.5;
    }
    if scheme.lo as real - 0.5 <= q <= scheme.hi as real + 0.5 {
      NearQuotient(c, q, x, s);
    }
  }

  lemma ClampIsNear(r: int, q: real, lo: int, hi: int)
    requires lo <= hi && -0.5 <= r as real - q <= 0.5
    ensures lo as real - 0.5 <= q <= hi as real + 0.5 ==> -0.5 <= Clamp(r, lo, hi) as real - q <= 0.5
    ensures q < lo as real - 0.5 ==> Clamp(r, lo, hi) == lo
    ensures q > hi as real + 0.5 ==> Clamp(r, lo, hi) == hi
  {}

  /** A code within half of the quotient reconstructs within half a step. */
  lemma NearQuotient(c: int, q: real, x: real, s: real)
    requires s != 0.0 && q == x / s && -0.5 <= c as real - q <= 0.5
    ensures Magnitude(Dequantize(c, s) - x) <= Magnitude(s) / 2.0
  {
    hide Magnitude;
    var e := c as real - q;
    ScaledError(e, s);
    Remultiplied(c as real, q, x, s);
    assert Dequantize(c, s) - x == e * s;
  }

  lemma Remultiplied(c: real, q: real, x: real, s: real)
    requires s != 0.0 && q == x / s
    ensures (c - q) * s == c * s - x
  {
    assert q * s == x;
    SubtractFactor(c, q, s);
  }

  lemma SubtractFactor(a: real, b: real, s: real)
    ensures (a - b) * s == a * s - b * s
  {}

  lemma ScaledError(e: real, s: real)
    requires -0.5 <= e <= 0.5
    ensures Magnitude(e * s) <= Magnitude(s) / 2.0
  {
    if s >= 0.0 {
      RealNonnegative(0.5 - e, s);
      RealNonnegative(0.5 + e, s);
    } else {
      RealNonnegative(0.5 - e, -s);
      RealNonnegative(0.5 + e, -s);
    }
    Expand(e, s);
  }

  lemma RealNonnegative(a: real, b: real)
    requires a >= 0.0 && b >= 0.0
    ensures a * b >= 0.0
  {}

  lemma Expand(e: real, s: real)
    ensures (0.5 - e) * s == 0.5 * s - e * s && (0.5 + e) * s == 0.5 * s + e * s
    ensures (0.5 - e) * -s == e * s - 0.5 * s && (0.5 + e) * -s == -(0.5 * s) - e * s
  {}
}

/** Bitwise operations on words, as arithmetic on naturals. */
module Bits {
  import opened IndexArithmetic
  import opened PowersOfTwo

  function And(a: nat, b: nat): nat
    decreases a
  {
    if a == 0 || b == 0 then 0 else (a % 2) * (b % 2) + 2 * And(a / 2, b / 2)
  }

  function Or(a: nat, b: nat): nat
    decreases a
  {
    if a == 0 then b else (if a % 2 == 1 || b % 2 == 1 then 1 else 0) + 2 * Or(a / 2, b / 2)
  }

  lemma HalfMod(a: nat, m: nat)
    requires m > 0
    ensures a % (2 * m) == a % 2 + 2 * ((a / 2) % m)
  {
    var q, r := (a / 2) / m, (a / 2) % m;
    Associate(2, q, m);
    DivModUnique(a, 2 * m, q, a % 2 + 2 * r);
  }

  /** Masking the low bits is the remainder. */
  lemma {:induction false} AndMask(a: nat, bits: nat)
    ensures And(a, Exp2(bits) - 1) == a % Exp2(bits)
  {
    if a == 0 {
      DivModUnique(0, Exp2(bits), 0, 0);
    } else if bits > 0 {
      var m := Exp2(bits - 1);
      assert (2 * m - 1) / 2 == m - 1 && (2 * m - 1) % 2 == 1;
      AndMask(a / 2, bits - 1);
      HalfMod(a, m);
      if m == 1 {
        assert And(a / 2, 0) == 0;
      }
    }
  }

  /** Fields that do not overlap are joined by addition. */
  lemma {:induction false} OrDisjoint(a: nat, c: nat, bits: nat)
    requires a < Exp2(bits)
    ensures Or(a, c * Exp2(bits)) == a + c * Exp2(bits)
  {
    if a > 0 {
      var m := Exp2(bits - 1);
      Associate(2, c, m);
      var b := c * Exp2(bits);
      assert b == 2 * (c * m);
      OrDisjoint(a / 2, c, bits - 1);
    }
  }

  lemma {:induction false} OrFits(a: nat, b: nat, bits: nat)
    requires a < Exp2(bits) && b < Exp2(bits)
    ensures Or(a, b) < Exp2(bits)
  {
    if a > 0 && bits > 0 {
      OrFits(a / 2, b / 2, bits - 1);
    }
  }
}

/** Integer quantization codes packed into 32-bit words: `pack_q`, `unpack_q` and their host twins. */
module QuantPacking {
  import opened Bits
  import opened IndexArithmetic
  import opened PowersOfTwo

  const WORD := 32

  /** The field of a value: its low `size` bits in two's complement. */
  function Code(v: int, size: nat): (c: nat)
    ensures c < Exp2(size)
  {
    v % Exp2(size)
  }

  /** The word that holds the fields, lowest first. */
  function Word(values: seq<int>, size: nat): nat {
    if values == [] then 0
    else Word(values[..|values| - 1], size) + Code(values[|values| - 1], size) * Exp2((|values| - 1) * size)
  }

  lemma {:induction false} WordBound(values: seq<int>, size: nat)
    ensures |values| * size >= 0
    ensures Word(values, size) < Exp2(|values| * size)
  {
    if values != [] {
      var n := |values| - 1;
      Distribute(size, n, 1);
      Nonnegative(n, size);
      WordBound(values[..n], size);
      Exp2Add(n * size, size);
      var p, c := Exp2(n * size), Code(values[n], size);
      Monotone(c + 1, Exp2(size), p);
      Distribute(p, c, 1);
    }
  }

  /** Field p of a word. */
  function FieldAt(word: nat, p: nat, size: nat): nat {
    Nonnegative(p, size);
    (word / Exp2(p * size)) % Exp2(size)
  }

  /** The value a field stands for, as `integer_fields_to_float` computes it: no branch on the sign. */
  function SignedField(raw: nat, size: nat): int
    requires size > 0
  {
    var isNegative := if raw >= Exp2(size - 1) then 1 else 0;
    raw - isNegative * Exp2(size)
  }

  /** What the field width can represent. */
  predicate InRange(v: int, size: nat)
    requires size > 0
  {
    -(Exp2(size - 1) as int) <= v < Exp2(size - 1)
  }

  /** Decoding a value's code returns the value exactly when the field can represent it. */
  lemma SignedCode(v: int, size: nat)
    requires size > 0
    ensures InRange(SignedField(Code(v, size), size), size)
    ensures SignedField(Code(v, size), size) == v <==> InRange(v, size)
  {
    var m := Exp2(size - 1);
    assert Exp2(size) == 2 * m;
    if InRange(v, size) {
      if v >= 0 {
        DivModUnique(v, 2 * m, 0, v);
      } else {
        DivModUnique(v, 2 * m, -1, v + 2 * m);
      }
    }
  }

  lemma CodeOfSigned(raw: nat, size: nat)
    requires size > 0 && raw < Exp2(size)
    ensures Code(SignedField(raw, size), size) == raw
  {
    var m := Exp2(size - 1);
    if raw >= m {
      DivModUnique(raw - 2 * m, 2 * m, -1, raw);
    } else {
      DivModUnique(raw, 2 * m, 0, raw);
    }
  }

  lemma ShiftPosition(p: nat, n: nat, size: nat)
    requires p < n
    ensures p * size >= 0 && p * size + size <= n * size
    ensures Exp2(n * size) == Exp2(p * size) * Exp2(n * size - p * size)
  {
    Monotone(p + 1, n, size);
    Distribute(size, p, 1);
    Nonnegative(p, size);
    Exp2Add(p * size, n * size - p * size);
  }

  /** Field p of the packed word is the code of value p. */
  lemma {:induction false} FieldOfWord(values: seq<int>, size: nat, p: nat)
    requires p < |values|
    ensures FieldAt(Word(values, size), p, size) == Code(values[p], size)
  {
    var n := |values| - 1;
    var init := values[..n];
    var low, top := Word(init, size), Code(values[n], size);
    WordBound(init, size);
    if p == n {
      DivModUnique(low + top * Exp2(n * size), Exp2(n * size), top, low);
      DivModUnique(top, Exp2(size), 0, top);
    } else {
      FieldOfWord(init, size, p);
      ShiftPosition(p, n, size);
      HigherFieldsVanish(low, top, p * size, n * size, size);
    }
  }

  /** Adding a multiple of 2^n leaves the bits from s up to s + size <= n alone. */
  lemma HigherFieldsVanish(low: nat, top: nat, s: nat, n: nat, size: nat)
    requires s + size <= n
    ensures ((low + top * Exp2(n)) / Exp2(s)) % Exp2(size) == (low / Exp2(s)) % Exp2(size)
  {
    hide Exp2;
    Exp2Add(s, n - s);
    Exp2Add(size, n - s - size);
    var d := Exp2(n - s - size);
    Regroup(top, Exp2(s), Exp2(size), d);
    Nonnegative(top, d);
    RemainderAbove(low, top * d, Exp2(s), Exp2(size));
  }

  lemma Regroup(t: int, a: int, b: int, d: int)
    ensures t * (a * (b * d)) == ((t * d) * b) * a
  {
    Associate(a, b, d);
    Associate(t, d, b);
    Associate(t, a, b * d);
    Associate(a, t, b * d);
    Associate(t, b, d);
  }

  lemma RemainderAbove(low: nat, k: nat, a: nat, b: nat)
    requires a > 0 && b > 0
    ensures (k * b) * a >= 0
    ensures ((low + (k * b) * a) / a) % b == (low / a) % b
  {
    Nonnegative(k, b);
    Nonnegative(k * b, a);
    var q, r := low / a, low % a;
    Distribute(a, q, k * b);
    DivModUnique(low + (k * b) * a, a, q + k * b, r);
    Distribute(b, q / b, k);
    DivModUnique(q + k * b, b, q / b + k, q % b);
  }

  // ---- packing ----------------------------------------------------------------------------------

  /** `as u32`: the two's complement word of a 32-bit integer. */
  function AsWord(v: int): (w: nat)
    ensures w < Exp2(WORD)
  {
    v % Exp2(WORD)
  }

  lemma MaskedWord(v: int, size: nat)
    requires size <= WORD
    ensures And(AsWord(v), Exp2(size) - 1) == Code(v, size)
  {
    hide Exp2, And;
    AndMask(AsWord(v), size);
    Exp2Add(size, WORD - size);
    RemainderOfRemainder(v, Exp2(size), Exp2(WORD - size));
  }

  lemma RemainderOfRemainder(v: int, b: nat, c: nat)
    requires b > 0 && c > 0
    ensures b * c > 0 && (v % (b * c)) % b == v % b
  {
    Monotone(1, c, b);
    var q, w := v / (b * c), v % (b * c);
    Associate(q, b, c);
    Associate(q, c, b);
    Distribute(b, q * c, w / b);
    DivModUnique(v, b, q * c + w / b, w % b);
  }

  /** `pack_q` for the integer formats: mask, shift, combine. */
  method PackQ(values: seq<int>, size: nat) returns (packed: nat)
    requires size > 0 && |values| * size == WORD
    ensures packed == Word(values, size) < Exp2(WORD)
  {
    packed := 0;
    var mask: nat := Exp2(size) - 1;
    for position := 0 to |values|
      invariant packed == Word(values[..position], size)
    {
      ShiftPosition(position, |values|, size);
      ghost var before := values[..position];
      WordBound(before, size);
      var offset := position * size;
      MaskedWord(values[position], size);
      var field := And(AsWord(values[position]), mask);
      ShiftFits(field, offset, size);
      var shifted := (field * Exp2(offset)) % Exp2(WORD);
      OrDisjoint(packed, field, offset);
      packed := Or(packed, shifted);
      assert values[..position + 1][..position] == before;
    }
    assert values[..|values|] == values;
    WordBound(values, size);
  }

  /** A field shifted to its place stays inside the word. */
  lemma ShiftFits(field: nat, offset: nat, size: nat)
    requires field < Exp2(size) && offset + size <= WORD
    ensures (field * Exp2(offset)) % Exp2(WORD) == field * Exp2(offset)
  {
    hide Exp2;
    Exp2Add(size, offset);
    Exp2Monotone(size + offset, WORD);
    ScaledRemainder(field, Exp2(offset), Exp2(size), Exp2(WORD));
  }

  lemma ScaledRemainder(a: nat, p: nat, b: nat, w: nat)
    requires a < b && p > 0 && b * p <= w
    ensures (a * p) % w == a * p
  {
    Monotone(a + 1, b, p);
    Distribute(p, a, 1);
    Nonnegative(a, p);
    DivModUnique(a * p, w, 0, a * p);
  }

  function ShiftRight(word: nat, n: nat): nat {
    DivBounds(word, Exp2(n));
    word / Exp2(n)
  }

  /** Shifting a field down and masking it reads it. */
  function ReadField(word: nat, p: nat, size: nat): (raw: nat)
    ensures raw == FieldAt(word, p, size) < Exp2(size)
  {
    Nonnegative(p, size);
    var shifted := ShiftRight(word, p * size);
    AndMask(shifted, size);
    And(shifted, Exp2(size) - 1)
  }

  /** `unpack_q` for the integer formats: shift, mask, decode the sign. */
  method UnpackQ(word: nat, size: nat, num: nat) returns (values: seq<int>)
    requires size > 0 && num * size == WORD && word < Exp2(WORD)
    ensures |values| == num
    ensures forall p: nat :: p < num ==> values[p] == SignedField(FieldAt(word, p, size), size)
  {
    values := [];
    for position := 0 to num
      invariant |values| == position
      invariant forall p: nat :: p < position ==> values[p] == SignedField(FieldAt(word, p, size), size)
    {
      values := values + [SignedField(ReadField(word, position, size), size)];
    }
  }

  /** The values a word unpacks to. */
  function Unpacked(word: nat, size: nat, num: nat): (values: seq<int>)
    requires size > 0
    ensures |values| == num
  {
    seq(num, p requires p >= 0 => SignedField(FieldAt(word, p, size), size))
  }

  /** Pack then unpack returns the values exactly when every one of them fits its field. */
  lemma UnpackPack(values: seq<int>, size: nat)
    requires size > 0
    ensures Unpacked(Word(values, size), size, |values|) == values
       <==> forall p :: 0 <= p < |values| ==> InRange(values[p], size)
  {
    var back := Unpacked(Word(values, size), size, |values|);
    forall p: nat | p < |values|
      ensures back[p] == values[p] <==> InRange(values[p], size)
    {
      FieldOfWord(values, size, p);
      SignedCode(values[p], size);
    }
    if forall p :: 0 <= p < |values| ==> InRange(values[p], size) {
      assert back == values;
    }
  }

  /** Unpack then pack returns every word. */
  lemma {:induction false} PackUnpack(word: nat, size: nat, num: nat)
    requires size > 0
    ensures num * size >= 0
    ensures Word(Unpacked(word, size, num), size) == word % Exp2(num * size)
  {
    Nonnegative(num, size);
    if num == 0 {
      DivModUnique(word, 1, word, 0);
    } else {
      var n := num - 1;
      var values := Unpacked(word, size, num);
      PackUnpack(word, size, n);
      assert values[..n] == Unpacked(word, size, n);
      CodeOfSigned(FieldAt(word, n, size), size);
      Distribute(size, n, 1);
      Exp2Add(n * size, size);
      SplitRemainder(word, Exp2(n * size), Exp2(size));
    }
  }

  lemma SplitRemainder(w: nat, a: nat, b: nat)
    requires a > 0 && b > 0
    ensures w % (a * b) == w % a + ((w / a) % b) * a
  {
    var q, r := w / a, w % a;
    var s, t := q / b, q % b;
    assert w == s * (a * b) + (t * a + r) by {
      Distribute(a, s * b, t);
      Associate(s, b, a);
      assert (s * b) * a == s * (a * b);
    }
    Monotone(t + 1, b, a);
    Distribute(a, t, 1);
    Nonnegative(t, a);
    DivModUnique(w, a * b, s, t * a + r);
  }

  // ---- the host twins -----------------------------------------------------------------------------

  /** Every bit of a word from `size` up. */
  function HighBits(size: nat): nat
    requires size <= WORD
  {
    Exp2Monotone(size, WORD);
    Exp2(WORD) - Exp2(size)
  }

  /** `code_value` for the integer formats: set every bit above a negative field, read as a 32-bit integer. */
  function CodeValue(raw: nat, size: nat): int
    requires 0 < size <= WORD
  {
    var q := if And(raw, Exp2(size - 1)) != 0 then Or(raw, HighBits(size)) else raw;
    if q >= Exp2(WORD - 1) then q - Exp2(WORD) else q
  }

  lemma {:induction false} AndSignBit(raw: nat, bits: nat)
    requires raw < Exp2(bits + 1)
    ensures And(raw, Exp2(bits)) != 0 <==> raw >= Exp2(bits)
  {
    if bits > 0 && raw > 0 {
      AndSignBit(raw / 2, bits - 1);
    }
  }

  /** The two sign decodings, branchless on the device and by mask on the host, agree on every field. */
  lemma HostDecodesTheSame(raw: nat, size: nat)
    requires 0 < size < WORD && raw < Exp2(size)
    ensures CodeValue(raw, size) == SignedField(raw, size)
  {
    hide And, Or, Exp2;
    var m := Exp2(size - 1);
    DoubleExp2(size - 1);
    DoubleExp2(WORD - 1);
    AndSignBit(raw, size - 1);
    SetHighBits(raw, size);
    Exp2Monotone(size, WORD - 1);
  }

  lemma DoubleExp2(e: nat)
    ensures Exp2(e + 1) == 2 * Exp2(e)
  {}

  lemma SetHighBits(raw: nat, size: nat)
    requires size <= WORD && raw < Exp2(size)
    ensures Or(raw, HighBits(size)) == raw + HighBits(size)
  {
    hide Or, Exp2;
    Exp2Add(size, WORD - size);
    Distribute(Exp2(size), Exp2(WORD - size), -1);
    OrDisjoint(raw, Exp2(WORD - size) - 1, size);
  }

  datatype Packed = Panic | Words(words: seq<nat>)

  /** One word for each whole chunk of `num` values. */
  function WordsOf(q: seq<int>, size: nat, num: nat): (words: seq<nat>)
    requires num > 0
  {
    if |q| < num then [] else [Word(q[..num], size)] + WordsOf(q[num..], size, num)
  }

  function ValuesOf(words: seq<nat>, size: nat, num: nat): seq<int>
    requires size > 0
  {
    if words == [] then [] else Unpacked(words[0], size, num) + ValuesOf(words[1..], size, num)
  }

  lemma DropChunk(n: nat, k: nat)
    requires 0 < k <= n
    ensures (n - k) % k == n % k
  {
    Distribute(k, n / k, -1);
    DivModUnique(n - k, k, n / k - 1, n % k);
  }

  lemma RaggedTail(n: nat, k: nat)
    requires k > 0 && n % k == 0 && n < k
    ensures n == 0
  {
    DivModUnique(n, k, 0, n);
  }

  /** `pack_q_values`: whole chunks of values, one word each; a ragged tail is refused. */
  method PackQValues(q: seq<int>, size: nat, num: nat) returns (r: Packed)
    requires size > 0 && num * size == WORD
    ensures r == if |q| % num == 0 then Words(WordsOf(q, size, num)) else Panic
  {
    if |q| % num != 0 {
      return Panic;
    }
    var words, chunks := [], q;
    while |chunks| > 0
      invariant |chunks| % num == 0 && words + WordsOf(chunks, size, num) == WordsOf(q, size, num)
    {
      if |chunks| < num {
        RaggedTail(|chunks|, num);
      }
      DropChunk(|chunks|, num);
      var word := PackQ(chunks[..num], size);
      words, chunks := words + [word], chunks[num..];
    }
    assert words + [] == words;
    return Words(words);
  }

  /** The inner loop of `decode_packed_u32`: the fields of one word. */
  method DecodeWord(word: nat, size: nat, num: nat) returns (values: seq<int>)
    requires 0 < size < WORD
    ensures values == Unpacked(word, size, num)
  {
    hide FieldAt, CodeValue, SignedField, ReadField;
    values := [];
    for p := 0 to num
      invariant values == Unpacked(word, size, num)[..p]
    {
      var raw := ReadField(word, p, size);
      HostDecodesTheSame(raw, size);
      values := values + [CodeValue(raw, size)];
    }
  }

  /** `decode_packed_u32`: every field of every word. */
  method DecodePackedU32(words: seq<nat>, size: nat, num: nat) returns (values: seq<int>)
    requires 0 < size < WORD
    ensures values == ValuesOf(words, size, num)
  {
    hide Unpacked;
    values := [];
    for c := 0 to |words|
      invariant values + ValuesOf(words[c..], size, num) == ValuesOf(words, size, num)
    {
      var decoded := DecodeWord(words[c], size, num);
      assert words[c..][1..] == words[c + 1..];
      values := values + decoded;
    }
    assert words[|words|..] == [] && values + [] == values;
  }

  /** Decoding what was packed returns every value exactly when every value fits its field. */
  lemma {:induction false} HostRoundTrip(q: seq<int>, size: nat, num: nat)
    requires size > 0 && num > 0 && |q| % num == 0
    ensures ValuesOf(WordsOf(q, size, num), size, num) == q <==> forall i :: 0 <= i < |q| ==> InRange(q[i], size)
    decreases |q|
  {
    if |q| < num {
      RaggedTail(|q|, num);
    } else {
      var chunk, rest := q[..num], q[num..];
      DropChunk(|q|, num);
      UnpackPack(chunk, size);
      HostRoundTrip(rest, size, num);
      var words := WordsOf(q, size, num);
      var first, others := Unpacked(words[0], size, num), ValuesOf(WordsOf(rest, size, num), size, num);
      assert words[1..] == WordsOf(rest, size, num);
      assert ValuesOf(words, size, num) == first + others;
      hide *;
      SameParts(first, others, q, num);
      InRangeByParts(q, num, size);
    }
  }

  lemma SameParts(a: seq<int>, b: seq<int>, q: seq<int>, n: nat)
    requires |a| == n <= |q|
    ensures a + b == q <==> a == q[..n] && b == q[n..]
  {
    assert q == q[..n] + q[n..];
    if a + b == q {
      assert (a + b)[..n] == a && (a + b)[n..] == b;
    }
  }

  lemma InRangeByParts(q: seq<int>, n: nat, size: nat)
    requires n <= |q| && size > 0
    ensures (forall i :: 0 <= i < |q| ==> InRange(q[i], size)) <==>
            (forall i :: 0 <= i < n ==> InRange(q[..n][i], size)) &&
            (forall i :: 0 <= i < |q[n..]| ==> InRange(q[n..][i], size))
  {
    hide InRange;
    if forall i :: 0 <= i < |q[n..]| ==> InRange(q[n..][i], size) {
      forall i | n <= i < |q|
        ensures InRange(q[i], size)
      {
        assert q[n..][i - n] == q[i];
      }
    }
    if forall i :: 0 <= i < n ==> InRange(q[..n][i], size) {
      forall i | 0 <= i < n
        ensures InRange(q[i], size)
      {
        assert q[..n][i] == q[i];
      }
    }
  }
}

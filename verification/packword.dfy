/** The 32-bit code word of packWord.c: six fields written into a zero word
    with the bit-field codec,

      a      9 bits unsigned at bit 23
      b      5 bits signed   at bit 18
      c      5 bits signed   at bit 13
      d      5 bits signed   at bit 8
      avgPb  4 bits unsigned at bit 4
      avgPr  4 bits unsigned at bit 0

    which tile bits [0, 32) exactly, and the grid-wide packing and unpacking
    of a grid of quantized blocks. The signed fields are written with the
    checked signed write, so a coefficient outside [-16, 15] is reported as
    Overflow like an oversized unsigned field. */
module PackWord {
  import opened Arith
  import opened Results
  import opened Bitpack
  import opened Image
  import opened Grid

  /** The small powers of two the layout uses. */
  lemma SmallPowers()
    ensures Pow2(4) == 16 && Pow2(5) == 32 && Pow2(9) == 512
  {
  }

  /** A uint32_t or unsigned passed where the codec takes a uint64_t. */
  function AsWord64(x: Word32): Word64 {
    WordInWord64(x);
    x
  }

  /** An int passed where the codec takes an int64_t. */
  function AsInt64(x: Int32): Int64 {
    IntInInt64(x);
    x
  }

  lemma WordInWord64(x: Word32)
    ensures x < Pow2(64)
  {
    Pow2Monotone(32, 64);
  }

  lemma IntInInt64(x: Int32)
    ensures -(Pow2(63) as int) <= x < Pow2(63)
  {
    Pow2Monotone(31, 63);
  }

  /** The inputs that bitpackWord can store: a below 2^9, b, c and d in the
      5-bit signed range, the chroma indices below 2^4. */
  predicate Packable(a: int, b: int, c: int, d: int, avgPb: int, avgPr: int) {
    && 0 <= a < 512
    && -16 <= b < 16 && -16 <= c < 16 && -16 <= d < 16
    && 0 <= avgPb < 16 && 0 <= avgPr < 16
  }

  // ---------------------------------------------------------------------
  // One field of a uint32_t word

  /** `word = Bitpack_newu(word, width, lsb, value)` with word a uint32_t:
      the write stays inside bits [0, 32), so the store into 32 bits keeps
      every bit. */
  function WriteUnsigned(word: Word32, width: nat, lsb: nat, value: Word32): (r: Result<Word32, Error>)
    requires 1 <= width && width + lsb <= 32
    ensures r.Err? <==> value >= Pow2(width)
    ensures r.Ok? ==> Field(r.value, width, lsb) == value
    ensures r.Ok? ==> r.value % Pow2(lsb) == word % Pow2(lsb)
    ensures r.Ok? ==> r.value / Pow2(lsb + width) == word / Pow2(lsb + width)
  {
    var w :- Newu(AsWord64(word), width, lsb, AsWord64(value));
    WriteStaysBelow(word, w, width, lsb, 32);
    Ok(U32(w))
  }

  /** `word = Bitpack_news(word, width, lsb, value)` with word a uint32_t,
      using the checked signed write. */
  function WriteSigned(word: Word32, width: nat, lsb: nat, value: Int32): (r: Result<Word32, Error>)
    requires 1 <= width && width + lsb <= 32
    ensures r.Err? <==> !(-(Pow2(width - 1) as int) <= value < Pow2(width - 1))
    ensures r.Ok? ==> Field(r.value, width, lsb) == value % Pow2(width)
    ensures r.Ok? ==> r.value % Pow2(lsb) == word % Pow2(lsb)
    ensures r.Ok? ==> r.value / Pow2(lsb + width) == word / Pow2(lsb + width)
  {
    var w :- NewsChecked(AsWord64(word), width, lsb, AsInt64(value));
    WriteStaysBelow(word, w, width, lsb, 32);
    Ok(U32(w))
  }

  /** For a value in the field's signed range, the checked write stores
      what `Bitpack_news` as written stores, cut to 32 bits. */
  lemma WriteSignedAgreesWithNews(word: Word32, width: nat, lsb: nat, value: Int32)
    requires 1 <= width && width + lsb <= 32
    requires -(Pow2(width - 1) as int) <= value < Pow2(width - 1)
    ensures FitsS(AsInt64(value), width)
    ensures WriteSigned(word, width, lsb, value) == Ok(U32(News(AsWord64(word), width, lsb, AsInt64(value))))
  {
    NewsCheckedAgreesWithNews(AsWord64(word), width, lsb, AsInt64(value));
  }

  /** `Bitpack_getu(word, width, lsb)` stored into an unsigned. */
  function ReadUnsigned(word: Word32, width: nat, lsb: nat): (r: Word32)
    requires 1 <= width && width + lsb <= 32
    ensures r == Field(word, width, lsb)
    ensures r < Pow2(width)
  {
    var r := Getu(AsWord64(word), width, lsb);
    UnsignedFieldInWord(r, width);
    r
  }

  /** `Bitpack_gets(word, width, lsb)` stored into an int. */
  function ReadSigned(word: Word32, width: nat, lsb: nat): (r: Int32)
    requires 1 <= width && width + lsb <= 32
    ensures -(Pow2(width - 1) as int) <= r < Pow2(width - 1)
    ensures r % Pow2(width) == Field(word, width, lsb)
  {
    var r := Gets(AsWord64(word), width, lsb);
    SignedFieldInInt(r, width);
    r
  }

  /** An unsigned field of at most 32 bits fits a uint32_t. */
  lemma UnsignedFieldInWord(r: int, width: nat)
    requires width <= 32 && r < Pow2(width)
    ensures r < Pow2(32)
  {
    Pow2Monotone(width, 32);
  }

  /** A signed field of at most 32 bits fits an int. */
  lemma SignedFieldInInt(r: int, width: nat)
    requires 1 <= width <= 32 && -(Pow2(width - 1) as int) <= r < Pow2(width - 1)
    ensures -(Pow2(31) as int) <= r < Pow2(31)
  {
    Pow2Monotone(width - 1, 31);
  }

  /** Reading a signed field that holds the low bits of an in-range value
      gives that value. */
  lemma ReadSignedOfField(word: Word32, width: nat, lsb: nat, value: int)
    requires 1 <= width && width + lsb <= 32
    requires -(Pow2(width - 1) as int) <= value < Pow2(width - 1)
    requires Field(word, width, lsb) == value % Pow2(width)
    ensures ReadSigned(word, width, lsb) == value
  {
    GetsOfField(AsWord64(word), width, lsb, value);
  }

  // ---------------------------------------------------------------------
  // The code word

  /** bitpackWord: start from the zero word and write the six fields from the
      top of the word down. */
  function BitpackWord(a: Word32, b: Int32, c: Int32, d: Int32, avgPb: Word32, avgPr: Word32)
    : (r: Result<Word32, Error>)
    ensures r.Ok? <==> Packable(a, b, c, d, avgPb, avgPr)
    ensures r.Ok? ==> UnbitpackWord(r.value) == QuantizedBlock(a, b, c, d, avgPb, avgPr)
  {
    SmallPowers();
    var w1 :- WriteUnsigned(0, 9, 23, a);
    var w2 :- WriteSigned(w1, 5, 18, b);
    var w3 :- WriteSigned(w2, 5, 13, c);
    var w4 :- WriteSigned(w3, 5, 8, d);
    var w5 :- WriteUnsigned(w4, 4, 4, avgPb);
    var w6 :- WriteUnsigned(w5, 4, 0, avgPr);
    WritesReadBack(w1, w2, w3, w4, w5, w6, a, b, c, d, avgPb, avgPr);
    Ok(w6)
  }

  /** The six writes of bitpackWord, each keeping the bits outside its own
      field, leave a word that unpacks to the six written values. */
  lemma WritesReadBack(w1: Word32, w2: Word32, w3: Word32, w4: Word32, w5: Word32, w6: Word32,
                       a: Word32, b: Int32, c: Int32, d: Int32, avgPb: Word32, avgPr: Word32)
    requires Packable(a, b, c, d, avgPb, avgPr)
    requires Field(w1, 9, 23) == a
    requires w2 % Pow2(18) == w1 % Pow2(18) && w2 / Pow2(23) == w1 / Pow2(23)
    requires Field(w2, 5, 18) == b % Pow2(5)
    requires w3 % Pow2(13) == w2 % Pow2(13) && w3 / Pow2(18) == w2 / Pow2(18)
    requires Field(w3, 5, 13) == c % Pow2(5)
    requires w4 % Pow2(8) == w3 % Pow2(8) && w4 / Pow2(13) == w3 / Pow2(13)
    requires Field(w4, 5, 8) == d % Pow2(5)
    requires w5 % Pow2(4) == w4 % Pow2(4) && w5 / Pow2(8) == w4 / Pow2(8)
    requires Field(w5, 4, 4) == avgPb
    requires w6 % Pow2(0) == w5 % Pow2(0) && w6 / Pow2(4) == w5 / Pow2(4)
    requires Field(w6, 4, 0) == avgPr
    ensures UnbitpackWord(w6) == QuantizedBlock(a, b, c, d, avgPb, avgPr)
  {
    LayoutReadsBack(w1, w2, w3, w4, w5, w6);
    UnbitpackFields(w6, a, b, c, d, avgPb, avgPr);
  }

  /** After the six writes, every field holds what was written to it: each
      later write lies wholly below the earlier fields. */
  lemma LayoutReadsBack(w1: nat, w2: nat, w3: nat, w4: nat, w5: nat, w6: nat)
    requires w2 % Pow2(18) == w1 % Pow2(18) && w2 / Pow2(23) == w1 / Pow2(23)
    requires w3 % Pow2(13) == w2 % Pow2(13) && w3 / Pow2(18) == w2 / Pow2(18)
    requires w4 % Pow2(8) == w3 % Pow2(8) && w4 / Pow2(13) == w3 / Pow2(13)
    requires w5 % Pow2(4) == w4 % Pow2(4) && w5 / Pow2(8) == w4 / Pow2(8)
    requires w6 % Pow2(0) == w5 % Pow2(0) && w6 / Pow2(4) == w5 / Pow2(4)
    ensures Field(w6, 9, 23) == Field(w1, 9, 23)
    ensures Field(w6, 5, 18) == Field(w2, 5, 18)
    ensures Field(w6, 5, 13) == Field(w3, 5, 13)
    ensures Field(w6, 5, 8) == Field(w4, 5, 8)
    ensures Field(w6, 4, 4) == Field(w5, 4, 4)
  {
    // a, at bits 23..31, survives the five later writes
    FieldOutsideUnchanged(w2, w1, 5, 18, 9, 23);
    FieldOutsideUnchanged(w3, w2, 5, 13, 9, 23);
    FieldOutsideUnchanged(w4, w3, 5, 8, 9, 23);
    FieldOutsideUnchanged(w5, w4, 4, 4, 9, 23);
    FieldOutsideUnchanged(w6, w5, 4, 0, 9, 23);
    // b survives four
    FieldOutsideUnchanged(w3, w2, 5, 13, 5, 18);
    FieldOutsideUnchanged(w4, w3, 5, 8, 5, 18);
    FieldOutsideUnchanged(w5, w4, 4, 4, 5, 18);
    FieldOutsideUnchanged(w6, w5, 4, 0, 5, 18);
    // c survives three
    FieldOutsideUnchanged(w4, w3, 5, 8, 5, 13);
    FieldOutsideUnchanged(w5, w4, 4, 4, 5, 13);
    FieldOutsideUnchanged(w6, w5, 4, 0, 5, 13);
    // d survives two
    FieldOutsideUnchanged(w5, w4, 4, 4, 5, 8);
    FieldOutsideUnchanged(w6, w5, 4, 0, 5, 8);
    // avgPb survives one
    FieldOutsideUnchanged(w6, w5, 4, 0, 4, 4);
  }

  /** unbitpackWord: read the six fields back. */
  function UnbitpackWord(word: Word32): (q: QuantizedBlock)
    ensures Packable(q.a, q.b, q.c, q.d, q.avgPb, q.avgPr)
  {
    SmallPowers();
    QuantizedBlock(ReadUnsigned(word, 9, 23), ReadSigned(word, 5, 18), ReadSigned(word, 5, 13),
                   ReadSigned(word, 5, 8), ReadUnsigned(word, 4, 4), ReadUnsigned(word, 4, 0))
  }

  /** A word whose fields hold the low bits of packable inputs unpacks to
      those inputs. */
  lemma UnbitpackFields(w: Word32, a: Word32, b: Int32, c: Int32, d: Int32, avgPb: Word32, avgPr: Word32)
    requires Packable(a, b, c, d, avgPb, avgPr)
    requires Field(w, 9, 23) == a && Field(w, 5, 18) == b % Pow2(5)
    requires Field(w, 5, 13) == c % Pow2(5) && Field(w, 5, 8) == d % Pow2(5)
    requires Field(w, 4, 4) == avgPb && Field(w, 4, 0) == avgPr
    ensures UnbitpackWord(w) == QuantizedBlock(a, b, c, d, avgPb, avgPr)
  {
    SmallPowers();
    ReadSignedOfField(w, 5, 18, b);
    ReadSignedOfField(w, 5, 13, c);
    ReadSignedOfField(w, 5, 8, d);
  }

  /** Packing what a word unpacks to gives the word back: every 32-bit word
      is a code word. */
  lemma {:induction false} BitpackUnbitpack(w: Word32)
    ensures var q := UnbitpackWord(w);
      BitpackWord(q.a, q.b, q.c, q.d, q.avgPb, q.avgPr) == Ok(w)
  {
    var q := UnbitpackWord(w);
    var r := BitpackWord(q.a, q.b, q.c, q.d, q.avgPb, q.avgPr);
    var v := r.value;
    assert UnbitpackWord(v) == q;
    FieldsDetermineWord(v, w);
  }

  /** Two 32-bit words with the same six fields are equal. */
  lemma FieldsDetermineWord(x: Word32, y: Word32)
    requires UnbitpackWord(x) == UnbitpackWord(y)
    ensures x == y
  {
    SmallPowers();
    assert Field(x, 5, 18) == Field(y, 5, 18);
    assert Field(x, 5, 13) == Field(y, 5, 13);
    assert Field(x, 5, 8) == Field(y, 5, 8);
    LowBitsGrow(x, y, 4, 0);
    LowBitsGrow(x, y, 4, 4);
    LowBitsGrow(x, y, 5, 8);
    LowBitsGrow(x, y, 5, 13);
    LowBitsGrow(x, y, 5, 18);
    LowBitsGrow(x, y, 9, 23);
    ModReduce(x, Pow2(32));
    ModReduce(y, Pow2(32));
  }

  /** Equal bits below lsb and an equal field at lsb give equal bits below
      lsb + width. */
  lemma LowBitsGrow(x: nat, y: nat, width: nat, lsb: nat)
    requires x % Pow2(lsb) == y % Pow2(lsb)
    requires Field(x, width, lsb) == Field(y, width, lsb)
    ensures x % Pow2(lsb + width) == y % Pow2(lsb + width)
  {
    LowSplit(x, width, lsb);
    LowSplit(y, width, lsb);
  }

  // ---------------------------------------------------------------------
  // Whole grids

  /** The word packWordApply stores for one quantized block. */
  function PackCell(q: QuantizedBlock): Result<Word32, Error> {
    BitpackWord(q.a, q.b, q.c, q.d, q.avgPb, q.avgPr)
  }

  predicate CellPackable(q: QuantizedBlock) {
    Packable(q.a, q.b, q.c, q.d, q.avgPb, q.avgPr)
  }

  predicate AllPackable(g: array2<QuantizedBlock>)
    reads g
  {
    forall col, row :: 0 <= col < g.Length0 && 0 <= row < g.Length1 ==> CellPackable(g[col, row])
  }

  /** packWord: a grid of the same width and height whose every cell is the
      code word of the block at the same position. The Overflow raised by
      the codec for a block that does not fit ends the pass; it is returned
      as an error. */
  method PackWords(original: array2<QuantizedBlock>) returns (r: Result<array2<Word32>, Error>)
    ensures r.Ok? <==> AllPackable(original)
    ensures r.Ok? ==> r.value.Length0 == original.Length0 && r.value.Length1 == original.Length1
    ensures r.Ok? ==> forall col, row :: 0 <= col < original.Length0 && 0 <= row < original.Length1 ==>
                        UnbitpackWord(r.value[col, row]) == original[col, row]
  {
    r := TryMapNew(original, PackCell, 0);
  }

  /** unpackWord: a grid of the same width and height whose every cell is the
      block read from the word at the same position. Packing it again gives
      the words back. */
  method UnpackWords(original: array2<Word32>) returns (destination: array2<QuantizedBlock>)
    ensures destination.Length0 == original.Length0 && destination.Length1 == original.Length1
    ensures forall col, row :: 0 <= col < original.Length0 && 0 <= row < original.Length1 ==>
              destination[col, row] == UnbitpackWord(original[col, row])
    ensures forall col, row :: 0 <= col < original.Length0 && 0 <= row < original.Length1 ==>
              PackCell(destination[col, row]) == Ok(original[col, row])
  {
    destination := MapNew(original, UnbitpackWord, QuantizedBlock(0, 0, 0, 0, 0, 0));
    forall col, row | 0 <= col < original.Length0 && 0 <= row < original.Length1
      ensures PackCell(destination[col, row]) == Ok(original[col, row])
    {
      BitpackUnbitpack(original[col, row]);
    }
  }
}

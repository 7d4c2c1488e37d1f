/** The bit-field codec of bitpack.c: reading and writing unsigned and
    signed fields of a 64-bit word.

    A word is an integer in [0, 2^64) and the C mask-and-shift expressions
    are written as the arithmetic they compute: the mask
    `~0 >> (64 - width) << lsb` has exactly bits [lsb, lsb + width) set, so
    `(word & mask) >> lsb` is `(word / 2^lsb) % 2^width` (Field below), and
    `(word & ~mask) | (value << lsb)` keeps the bits above and below the
    field and puts `value` between them (Replace below). */
module Bitpack {
  import opened Arith
  import opened Results

  /** uint64_t */
  type Word64 = x: int | 0 <= x < Pow2(64)
  /** int64_t */
  type Int64 = x: int | -(Pow2(63) as int) <= x < Pow2(63)

  /** Bitpack_Overflow: a value does not fit the field it is written to. */
  datatype Error = Overflow

  // ---------------------------------------------------------------------
  // Fields of a word, as arithmetic

  /** Bits [lsb, lsb + width) of x, shifted down to bit 0. */
  function Field(x: int, width: nat, lsb: nat): nat {
    (x / Pow2(lsb)) % Pow2(width)
  }

  /** x with bits [lsb, lsb + width) replaced by v: the bits above the field
      (x / 2^(lsb+width)), v, and the bits below the field (x % 2^lsb). */
  function Replace(x: nat, width: nat, lsb: nat, v: nat): int {
    (x / Pow2(lsb + width)) * Pow2(lsb + width) + v * Pow2(lsb) + x % Pow2(lsb)
  }

  /** Every x is its high part, its field and its low part. */
  lemma FieldSplit(x: nat, width: nat, lsb: nat)
    ensures x == (x / Pow2(lsb + width)) * Pow2(lsb + width) + Field(x, width, lsb) * Pow2(lsb) + x % Pow2(lsb)
  {
    Pow2Add(lsb, width);
    SplitAt(x, Pow2(lsb), Pow2(width));
  }

  /** A value assembled from a high part, a field below 2^width and a low part
      below 2^lsb gives those three parts back. */
  lemma FieldCompose(hi: nat, f: nat, lo: nat, width: nat, lsb: nat)
    requires f < Pow2(width) && lo < Pow2(lsb)
    ensures var x := hi * Pow2(lsb + width) + f * Pow2(lsb) + lo;
      && x >= 0
      && x / Pow2(lsb + width) == hi
      && Field(x, width, lsb) == f
      && x % Pow2(lsb) == lo
  {
    Pow2Add(lsb, width);
    ComposeAt(hi, f, lo, Pow2(lsb), Pow2(width));
  }

  /** The bits of x below lsb + width are its field and the bits below lsb. */
  lemma LowSplit(x: nat, width: nat, lsb: nat)
    ensures x % Pow2(lsb + width) == Field(x, width, lsb) * Pow2(lsb) + x % Pow2(lsb)
  {
    FieldSplit(x, width, lsb);
    var m := Pow2(lsb + width);
    assert x == (x / m) * m + x % m;
  }

  /** A field of width at most n is below 2^n. */
  lemma FieldBelow(width: nat, x: nat, lsb: nat, n: nat)
    requires width <= n
    ensures Field(x, width, lsb) < Pow2(n)
  {
    Pow2Monotone(width, n);
  }

  /** Replacing a field of a word below 2^n, inside bits [0, n), stays in [0, 2^n). */
  lemma ReplaceBelow(x: nat, width: nat, lsb: nat, v: nat, n: nat)
    requires x < Pow2(n) && lsb + width <= n && v < Pow2(width)
    ensures 0 <= Replace(x, width, lsb, v) < Pow2(n)
  {
    var l := lsb + width;
    Pow2Add(lsb, width);
    Pow2Add(l, n - l);
    SpliceBound(x, v, Pow2(lsb), Pow2(width), Pow2(n - l));
  }

  /** Replace stores v, and keeps the bits below and above the field. */
  lemma ReplaceSpec(x: nat, width: nat, lsb: nat, v: nat)
    requires v < Pow2(width)
    ensures Replace(x, width, lsb, v) >= 0
    ensures Field(Replace(x, width, lsb, v), width, lsb) == v
    ensures Replace(x, width, lsb, v) % Pow2(lsb) == x % Pow2(lsb)
    ensures Replace(x, width, lsb, v) / Pow2(lsb + width) == x / Pow2(lsb + width)
  {
    DivModRange(x, Pow2(lsb + width));
    DivModRange(x, Pow2(lsb));
    FieldCompose(x / Pow2(lsb + width), v, x % Pow2(lsb), width, lsb);
  }

  /** Writing back a field's own contents leaves the word as it was. */
  lemma ReplaceOwnField(x: nat, width: nat, lsb: nat)
    ensures Replace(x, width, lsb, Field(x, width, lsb)) == x
  {
    FieldSplit(x, width, lsb);
  }

  /** On a word whose bits below lsb + width are all clear, Replace adds v at lsb. */
  lemma ReplaceIntoClear(x: nat, width: nat, lsb: nat, v: nat)
    requires x % Pow2(lsb + width) == 0
    ensures Replace(x, width, lsb, v) == x + v * Pow2(lsb)
  {
    Pow2Add(lsb, width);
    SpliceIntoClear(x, v, Pow2(lsb), Pow2(width));
  }

  // ---------------------------------------------------------------------
  // bitpack.c, as written

  /** Bitpack_fitsu: n <= 2^width - 1. */
  predicate FitsU(n: Word64, width: nat) {
    n <= Pow2(width) - 1
  }

  /** Bitpack_fitss: n <= 2^(width-1) - 1, with no lower bound. For width 0
      the exponent `width - 1` wraps to UINT_MAX, pow returns +inf and every
      n fits. */
  predicate FitsS(n: Int64, width: nat) {
    width == 0 || n <= Pow2(width - 1) - 1
  }

  /** Bitpack_getu. Width 0 would shift a 64-bit value by 64, which C leaves
      undefined, so width >= 1 is required besides the asserted
      width + lsb <= 64. */
  function Getu(word: Word64, width: nat, lsb: nat): (r: Word64)
    requires 1 <= width && width + lsb <= 64
    ensures r < Pow2(width)
  {
    FieldBelow(width, word, lsb, 64);
    Field(word, width, lsb)
  }

  /** `x << n` on uint64_t: bits shifted past bit 63 are lost. */
  function ShiftLeft(x: Word64, n: nat): Word64 {
    (x * Pow2(n)) % Pow2(64)
  }

  /** `(int64_t) x`: the same 64 bits read as two's complement. */
  function AsSigned(x: Word64): Int64 {
    if x < Pow2(63) then x else x - Pow2(64)
  }

  /** `x >> n` on int64_t, an arithmetic shift: the quotient rounded down. */
  function ShiftRightSigned(x: Int64, n: nat): Int64 {
    DivTowardZeroBound(x, Pow2(n));
    x / Pow2(n)
  }

  /** The two's-complement value of a width-bit pattern f. */
  function SignExtend(f: nat, width: nat): int
    requires 1 <= width
  {
    if f < Pow2(width - 1) then f else f - Pow2(width)
  }

  /** Bitpack_gets: shift the field to the top of the word, then shift it
      back down arithmetically. */
  function Gets(word: Word64, width: nat, lsb: nat): (r: Int64)
    requires width + lsb <= 64
    ensures width == 0 ==> r == 0
    ensures width >= 1 ==> -(Pow2(width - 1) as int) <= r <= Pow2(width - 1) - 1
    ensures width >= 1 ==> r % Pow2(width) == Field(word, width, lsb)
  {
    if width == 0 then 0
    else
      GetsSignExtends(word, width, lsb);
      SignExtendSpec(Field(word, width, lsb), width);
      ShiftRightSigned(AsSigned(ShiftLeft(word, 64 - width - lsb)), 64 - width)
  }

  /** A sign-extended width-bit pattern lies in the signed range of the field
      and has the pattern as its remainder modulo 2^width. */
  lemma SignExtendSpec(f: nat, width: nat)
    requires 1 <= width && f < Pow2(width)
    ensures -(Pow2(width - 1) as int) <= SignExtend(f, width) <= Pow2(width - 1) - 1
    ensures SignExtend(f, width) % Pow2(width) == f
  {
    DivModUnique(f, Pow2(width), 0, f);
    ModAddMultiple(-1, Pow2(width), f);
  }

  /** Shifting a word left by 64 - width - lsb leaves the field at the top
      and the bits below the field under it. */
  lemma ShiftFieldToTop(word: Word64, width: nat, lsb: nat)
    requires 1 <= width && width + lsb <= 64
    ensures 0 <= (word % Pow2(lsb)) * Pow2(64 - width - lsb) < Pow2(64 - width)
    ensures ShiftLeft(word, 64 - width - lsb)
            == Field(word, width, lsb) * Pow2(64 - width) + (word % Pow2(lsb)) * Pow2(64 - width - lsb)
  {
    var k := 64 - width - lsb;
    Pow2Add(lsb, width);
    Pow2Add(lsb + width, k);
    Pow2Add(lsb, k);
    ShiftOut(word, Pow2(lsb), Pow2(width), Pow2(k));
  }

  /** Gets reads the field and sign-extends it from bit width - 1. */
  lemma GetsSignExtends(word: Word64, width: nat, lsb: nat)
    requires 1 <= width && width + lsb <= 64
    ensures ShiftRightSigned(AsSigned(ShiftLeft(word, 64 - width - lsb)), 64 - width)
            == SignExtend(Field(word, width, lsb), width)
  {
    var k := 64 - width - lsb;
    var f, e := Field(word, width, lsb), (word % Pow2(lsb)) * Pow2(k);
    ShiftFieldToTop(word, width, lsb);
    SignBitLayout(width);
    FieldBelow(width, word, lsb, width);
    TopFieldSigned(ShiftLeft(word, k), f, e, Pow2(width - 1), Pow2(64 - width), Pow2(63), Pow2(64));
  }

  /** Bit width - 1 of a field ending at bit 63 is bit 63 of the word. */
  lemma SignBitLayout(width: nat)
    requires 1 <= width <= 64
    ensures Pow2(width) == 2 * Pow2(width - 1)
    ensures Pow2(width - 1) * Pow2(64 - width) == Pow2(63)
  {
    Pow2Add(1, width - 1);
    Pow2Add(width - 1, 64 - width);
      }

  /** Bitpack_newu: Overflow when the value does not fit; otherwise the word
      with the field replaced. Width >= 1 as for Getu. */
  function Newu(word: Word64, width: nat, lsb: nat, value: Word64): (r: Result<Word64, Error>)
    requires 1 <= width && width + lsb <= 64
    ensures r.Err? <==> value >= Pow2(width)
    ensures r.Ok? ==> Getu(r.value, width, lsb) == value
    ensures r.Ok? ==> r.value % Pow2(lsb) == word % Pow2(lsb)
    ensures r.Ok? ==> r.value / Pow2(lsb + width) == word / Pow2(lsb + width)
  {
    if !FitsU(value, width) then Err(Overflow)
    else
      ReplaceBelow(word, width, lsb, value, 64);
      ReplaceSpec(word, width, lsb, value);
      Ok(Replace(word, width, lsb, value))
  }

  /** Bitpack_news as written: only the (upper-bound-only) fitss assertion,
      no check of width + lsb, and the mask `((1 << width) - 1) << lsb`
      loses the bits that would lie past bit 63. Width 64 and lsb >= 64
      would shift by 64 or more, which C leaves undefined. */
  function News(word: Word64, width: nat, lsb: nat, value: Int64): (r: Word64)
    requires width < 64 && lsb < 64
    requires FitsS(value, width)
    ensures lsb + width <= 64 ==> Field(r, width, lsb) == value % Pow2(width)
    ensures lsb + width > 64 ==> Field(r, 64 - lsb, lsb) == value % Pow2(64 - lsb)
    ensures r % Pow2(lsb) == word % Pow2(lsb)
    ensures lsb + width <= 64 ==> r / Pow2(lsb + width) == word / Pow2(lsb + width)
  {
    // (uint64_t) value & ((1ULL << width) - 1)
    var uvalue := (value % Pow2(64)) % Pow2(width);
    // the part of the mask that survives the shift by lsb
    var kept := if lsb + width <= 64 then width else 64 - lsb;
    var field := uvalue % Pow2(kept);
    assert field == value % Pow2(kept) by {
      ModPow2Mod(value, width, 64);
      if lsb + width <= 64 {
        DivModUnique(uvalue, Pow2(width), 0, uvalue);
      } else {
        ModPow2Mod(value, kept, width);
      }
    }
    ReplaceBelow(word, kept, lsb, field, 64);
    ReplaceSpec(word, kept, lsb, field);
    Replace(word, kept, lsb, field)
  }

  /** A field holding the low width bits of a value in the field's signed
      range reads back, through Gets, as that value. */
  lemma GetsOfField(r: Word64, width: nat, lsb: nat, value: int)
    requires 1 <= width && width + lsb <= 64
    requires -(Pow2(width - 1) as int) <= value < Pow2(width - 1)
    requires Field(r, width, lsb) == value % Pow2(width)
    ensures Gets(r, width, lsb) == value
  {
    var h: int := Pow2(width - 1);
    var g := Gets(r, width, lsb);
    assert Pow2(width) == 2 * h by { Pow2Add(1, width - 1); }
    assert -h <= g < h;
    ModEqualInWindow(g, value, -h, 2 * h);
  }

  /** News round-trips through Gets for every value in the true signed range
      of the field. */
  lemma NewsRoundTrip(word: Word64, width: nat, lsb: nat, value: Int64)
    requires 1 <= width < 64 && lsb + width <= 64
    requires -(Pow2(width - 1) as int) <= value <= Pow2(width - 1) - 1
    ensures FitsS(value, width)
    ensures Gets(News(word, width, lsb, value), width, lsb) == value
  {
    GetsOfField(News(word, width, lsb, value), width, lsb, value);
  }

  /** Finding, as written: fitss has no lower bound, so news accepts the
      value one below the field's range, -2^(width-1) - 1, and stores its low
      width bits, which read back as the largest positive value of the field
      (for width 3: -5 is stored and reads back as 3). */
  lemma NewsAcceptsTooNegative(word: Word64, width: nat, lsb: nat)
    requires 1 <= width < 64 && lsb + width <= 64
    ensures var value := -(Pow2(width - 1) as int) - 1;
      && -(Pow2(63) as int) <= value
      && FitsS(value, width)
      && Gets(News(word, width, lsb, value), width, lsb) == Pow2(width - 1) - 1
  {
    var h: int := Pow2(width - 1);
    var value := -h - 1;
    SignBitLayout(width);
    Pow2Monotone(width, 63);
    DivModUnique(value, 2 * h, -1, h - 1);
    DivModUnique(h - 1, 2 * h, 0, h - 1);
    GetsOfField(News(word, width, lsb, value), width, lsb, h - 1);
  }

  /** Finding, as written: news does not check width + lsb <= 64, so a field
      reaching past bit 63 keeps only the value's low 64 - lsb bits (an 8-bit
      field at bit 60 holding 127 keeps 15). */
  lemma NewsTruncatesPastBit63(word: Word64, width: nat, lsb: nat, value: Int64)
    requires width < 64 && lsb < 64 && lsb + width > 64
    requires FitsS(value, width)
    ensures Getu(News(word, width, lsb, value), 64 - lsb, lsb) == value % Pow2(64 - lsb)
  {
  }

  /** The instance of the finding: an 8-bit field at bit 60 holding 127
      keeps only 15, the low four bits. */
  lemma NewsTruncatesExample()
    ensures FitsS(127, 8)
    ensures Getu(News(0, 8, 60, 127), 4, 60) == 15
  {
    assert Pow2(4) == 16 && Pow2(7) == 128;
    NewsTruncatesPastBit63(0, 8, 60, 127);
  }

  // ---------------------------------------------------------------------
  // The signed write as intended: both bounds checked, Overflow reported

  /** fits_signed: n lies in [-2^(width-1), 2^(width-1) - 1]. */
  predicate FitsSigned(n: int, width: nat)
    requires 1 <= width
  {
    -(Pow2(width - 1) as int) <= n <= Pow2(width - 1) - 1
  }

  /** Bitpack_news with the lower bound checked and width + lsb <= 64
      required, raising Overflow like Newu does. */
  function NewsChecked(word: Word64, width: nat, lsb: nat, value: Int64): (r: Result<Word64, Error>)
    requires 1 <= width && width + lsb <= 64
    ensures r.Err? <==> !(-(Pow2(width - 1) as int) <= value < Pow2(width - 1))
    ensures r.Ok? ==> Field(r.value, width, lsb) == value % Pow2(width)
    ensures r.Ok? ==> Gets(r.value, width, lsb) == value
    ensures r.Ok? ==> r.value % Pow2(lsb) == word % Pow2(lsb)
    ensures r.Ok? ==> r.value / Pow2(lsb + width) == word / Pow2(lsb + width)
  {
    if !FitsSigned(value, width) then Err(Overflow)
    else
      var f := value % Pow2(width);
      ReplaceBelow(word, width, lsb, f, 64);
      ReplaceSpec(word, width, lsb, f);
      var r := Replace(word, width, lsb, f);
      GetsOfField(r, width, lsb, value);
      Ok(r)
  }

  /** Where the source's news is well behaved (value in range, field inside
      the word), the corrected write stores exactly what it stores. */
  lemma NewsCheckedAgreesWithNews(word: Word64, width: nat, lsb: nat, value: Int64)
    requires 1 <= width < 64 && width + lsb <= 64
    requires -(Pow2(width - 1) as int) <= value < Pow2(width - 1)
    ensures FitsS(value, width)
    ensures NewsChecked(word, width, lsb, value) == Ok(News(word, width, lsb, value))
  {
    SameFieldsSameWord(NewsChecked(word, width, lsb, value).value, News(word, width, lsb, value), width, lsb);
  }

  // ---------------------------------------------------------------------
  // Properties of the unsigned and signed writes

  /** Writing a field twice keeps only the second value. */
  lemma NewuTwice(word: Word64, width: nat, lsb: nat, v1: Word64, v2: Word64)
    requires 1 <= width && width + lsb <= 64
    requires v1 < Pow2(width) && v2 < Pow2(width)
    ensures Newu(Newu(word, width, lsb, v1).value, width, lsb, v2) == Newu(word, width, lsb, v2)
  {
    var w1 := Newu(word, width, lsb, v1).value;
    assert Replace(w1, width, lsb, v2) == Replace(word, width, lsb, v2);
  }

  /** Writing a signed field twice keeps only the second value. */
  lemma NewsTwice(word: Word64, width: nat, lsb: nat, v1: Int64, v2: Int64)
    requires width < 64 && lsb < 64 && lsb + width <= 64
    requires FitsS(v1, width) && FitsS(v2, width)
    ensures News(News(word, width, lsb, v1), width, lsb, v2) == News(word, width, lsb, v2)
  {
    SameFieldsSameWord(News(News(word, width, lsb, v1), width, lsb, v2), News(word, width, lsb, v2), width, lsb);
  }

  /** Reading back a field and writing it again leaves the word unchanged. */
  lemma NewuOwnField(word: Word64, width: nat, lsb: nat)
    requires 1 <= width && width + lsb <= 64
    ensures Newu(word, width, lsb, Getu(word, width, lsb)) == Ok(word)
  {
    ReplaceOwnField(word, width, lsb);
  }

  /** A field that lies wholly below or wholly above the written one reads
      the same before and after the write. */
  lemma FieldOutsideUnchanged(x: nat, y: nat, width: nat, lsb: nat, w2: nat, l2: nat)
    requires x % Pow2(lsb) == y % Pow2(lsb) && x / Pow2(lsb + width) == y / Pow2(lsb + width)
    requires l2 + w2 <= lsb || lsb + width <= l2
    ensures Field(x, w2, l2) == Field(y, w2, l2)
  {
    if l2 + w2 <= lsb {
      FieldOfLowBits(x, w2, l2, lsb);
      FieldOfLowBits(y, w2, l2, lsb);
    } else {
      FieldOfHighBits(x, w2, l2, lsb + width);
      FieldOfHighBits(y, w2, l2, lsb + width);
    }
  }

  /** A write inside bits [0, n) of a word below 2^n, which keeps the bits
      above the field, leaves a word below 2^n. */
  lemma WriteStaysBelow(word: nat, r: nat, width: nat, lsb: nat, n: nat)
    requires word < Pow2(n) && lsb + width <= n
    requires r / Pow2(lsb + width) == word / Pow2(lsb + width)
    ensures r < Pow2(n)
  {
    var l := lsb + width;
    Pow2Add(l, n - l);
    DivBelow(word, Pow2(l), Pow2(n - l));
    BelowFromQuotient(r, Pow2(l), Pow2(n - l));
  }

  /** A field inside bits [0, n) depends only on x % 2^n. */
  lemma FieldOfLowBits(x: nat, width: nat, lsb: nat, n: nat)
    requires lsb + width <= n
    ensures Field(x, width, lsb) == Field(x % Pow2(n), width, lsb)
  {
    var l := lsb + width;
    LowSplit(x, width, lsb);
    LowSplit(x % Pow2(n), width, lsb);
    ModPow2Mod(x, l, n);
    ModPow2Mod(x, lsb, n);
    FieldCompose(0, Field(x, width, lsb), x % Pow2(lsb), width, lsb);
    FieldCompose(0, Field(x % Pow2(n), width, lsb), x % Pow2(lsb), width, lsb);
  }

  /** A field at or above bit n depends only on x / 2^n. */
  lemma FieldOfHighBits(x: nat, width: nat, lsb: nat, n: nat)
    requires n <= lsb
    ensures Field(x, width, lsb) == Field(x / Pow2(n), width, lsb - n)
  {
    DivPow2Add(x, n, lsb - n);
  }

  /** A word whose parts outside a field agree with another's, and whose
      field holds the same value, is that word. */
  lemma SameFieldsSameWord(x: nat, y: nat, width: nat, lsb: nat)
    requires x % Pow2(lsb) == y % Pow2(lsb) && x / Pow2(lsb + width) == y / Pow2(lsb + width)
    requires Field(x, width, lsb) == Field(y, width, lsb)
    ensures x == y
  {
    FieldSplit(x, width, lsb);
    FieldSplit(y, width, lsb);
  }
}

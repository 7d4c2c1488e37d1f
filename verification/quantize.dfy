/** quantize.c: the linear quantization of a block's cosine coefficients to
    small integers and back, and the grid-wide passes that apply it. Values
    are `real`; the chroma table lookups of the arith40 library are
    parameters of the passes. */
module Quantize {
  import opened Image
  import opened Grid

  const A_WIDTH: int := 9
  const B_WIDTH: int := 5
  const C_WIDTH: int := 5
  const D_WIDTH: int := 5

  /** The largest magnitude of a b, c or d coefficient that is kept. */
  const COEFF_MAX: real := 0.3

  /** A code of the 16-entry chroma table. */
  type ChromaIndex = i: int | 0 <= i < 16

  /** clamp: value limited to [min, max]. */
  function Clamp(value: real, min: real, max: real): (r: real)
    ensures r == value || r == min || r == max
    ensures min <= max ==> min <= r <= max
    ensures min <= value <= max ==> r == value
  {
    if value < min then min
    else if value > max then max
    else value
  }

  /** Clamping twice is clamping once. */
  lemma ClampIdempotent(value: real, min: real, max: real)
    requires min <= max
    ensures Clamp(Clamp(value, min, max), min, max) == Clamp(value, min, max)
  {
  }

  /** Clamping keeps the order of its inputs. */
  lemma ClampMonotone(x: real, y: real, min: real, max: real)
    requires min <= max && x <= y
    ensures Clamp(x, min, max) <= Clamp(y, min, max)
  {
  }

  /** `round`: the nearest integer, halfway cases away from zero. */
  function Round(x: real): (r: int)
    ensures -0.5 <= (r as real) - x <= 0.5
    ensures (r as real) - x == 0.5 ==> x > 0.0
    ensures x - (r as real) == 0.5 ==> x < 0.0
  {
    if x >= 0.0 then (x + 0.5).Floor else -((-x + 0.5).Floor)
  }

  /** The conditions on Round pin its result down: no other integer is as
      near, with the same tie-break. */
  lemma RoundUnique(x: real, n: int)
    requires -0.5 <= (n as real) - x <= 0.5
    requires (n as real) - x == 0.5 ==> x > 0.0
    requires x - (n as real) == 0.5 ==> x < 0.0
    ensures Round(x) == n
  {
  }

  /** Rounding is symmetric about zero. */
  lemma RoundNegate(x: real)
    ensures Round(-x) == -Round(x)
  {
    RoundUnique(-x, -Round(x));
  }

  /** `(pow(width, 2) - 1) / maxFloat`: codes per unit of value. */
  function Scale(width: int, maxFloat: real): real
    requires maxFloat != 0.0
  {
    (width * width - 1) as real / maxFloat
  }

  /** linearQuantizeValue: the integer nearest value * Scale. */
  function LinearQuantizeValue(value: real, width: int, maxFloat: real): (r: int)
    requires maxFloat != 0.0
    ensures -0.5 <= (r as real) - value * Scale(width, maxFloat) <= 0.5
  {
    Round(value * ((width * width - 1) as real / maxFloat))
  }

  /** linearDequantizeValue: the value a code stands for; scaling it back up
      gives the code. */
  function LinearDequantizeValue(value: real, width: int, maxFloat: real): (r: real)
    requires width * width != 1
    ensures maxFloat != 0.0 ==> r * Scale(width, maxFloat) == value
  {
    value * (maxFloat / (width * width - 1) as real)
  }

  /** Every integer code survives dequantization followed by quantization. */
  lemma QuantizeDequantized(k: int, width: int, maxFloat: real)
    requires maxFloat != 0.0 && width * width != 1
    ensures LinearQuantizeValue(LinearDequantizeValue(k as real, width, maxFloat), width, maxFloat) == k
  {
    RoundUnique(k as real, k);
  }

  /** A value that is quantized and dequantized moves by at most half a
      step, maxFloat / (2 (width^2 - 1)). */
  lemma DequantizedQuantizedError(value: real, width: int, maxFloat: real)
    requires maxFloat > 0.0 && width * width > 1
    ensures var back := LinearDequantizeValue(LinearQuantizeValue(value, width, maxFloat) as real, width, maxFloat);
      -maxFloat / (2 * (width * width - 1)) as real <= back - value <= maxFloat / (2 * (width * width - 1)) as real
  {
    var n := (width * width - 1) as real;
    var s := Scale(width, maxFloat);
    var k := LinearQuantizeValue(value, width, maxFloat);
    var back := LinearDequantizeValue(k as real, width, maxFloat);
    assert back * s == k as real;
    assert (back - value) * s == back * s - value * s;
    PositiveRatio(n, maxFloat);
    WithinHalfStep(back - value, s);
    assert maxFloat / (2 * (width * width - 1)) as real == 0.5 / s by {
      HalfOfInverse(n, maxFloat);
    }
  }

  lemma PositiveRatio(n: real, m: real)
    requires n > 0.0 && m > 0.0
    ensures n / m > 0.0
  {
  }

  /** A difference whose scaled size is at most a half lies within half a
      step of 1 / s. */
  lemma WithinHalfStep(d: real, s: real)
    requires s > 0.0 && -0.5 <= d * s <= 0.5
    ensures -0.5 / s <= d <= 0.5 / s
  {
    assert d == (d * s) / s;
  }

  lemma HalfOfInverse(n: real, m: real)
    requires n > 0.0 && m > 0.0
    ensures m / (2.0 * n) == 0.5 / (n / m)
  {
  }

  // ---------------------------------------------------------------------
  // One block

  /** The code of a b, c or d coefficient: clamped to [-0.3, 0.3] and
      quantized with width B_WIDTH - 1, i.e. 15 codes per 0.3. */
  function CoefficientCode(x: real): (r: Int32)
    ensures -15 <= r <= 15
  {
    var v := Clamp(x, -COEFF_MAX, COEFF_MAX);
    var k := LinearQuantizeValue(v, B_WIDTH - 1, COEFF_MAX);
    assert Scale(B_WIDTH - 1, COEFF_MAX) == 50.0;
    SmallInt(k)
  }

  /** The code of the a coefficient, `round(a * 80)`, stored in an
      unsigned. */
  function LumaCode(a: real): (r: Word32)
    ensures 0.0 <= a <= 1.0 ==> r <= 80
    ensures 0.0 <= a <= 1.0 ==> -0.5 <= (r as real) - a * 80.0 <= 0.5
  {
    var k := LinearQuantizeValue(a, A_WIDTH, 1.0);
    assert Scale(A_WIDTH, 1.0) == 80.0;
    U32(k)
  }

  /** quantizeApply: the quantized block of one block. */
  function QuantizeBlock(block: Block, indexOfChroma: real -> ChromaIndex): (q: QuantizedBlock)
    ensures -15 <= q.b <= 15 && -15 <= q.c <= 15 && -15 <= q.d <= 15
    ensures 0.0 <= block.a <= 1.0 ==> q.a <= 80
    ensures q.avgPb < 16 && q.avgPr < 16
  {
    QuantizedBlock(LumaCode(block.a),
                   CoefficientCode(block.b), CoefficientCode(block.c), CoefficientCode(block.d),
                   SmallWord(indexOfChroma(block.avgPb)), SmallWord(indexOfChroma(block.avgPr)))
  }

  /** dequantizeApply: the block a quantized block stands for. a is its code
      over 80 and b, c, d are their codes times 0.3 / 15. */
  function DequantizeBlock(q: QuantizedBlock, chromaOfIndex: int -> real): (block: Block)
    ensures block.a * 80.0 == q.a as real
    ensures block.b * 50.0 == q.b as real && block.c * 50.0 == q.c as real && block.d * 50.0 == q.d as real
  {
    assert Scale(A_WIDTH, 1.0) == 80.0;
    assert Scale(B_WIDTH - 1, COEFF_MAX) == 50.0;
    Block(LinearDequantizeValue(q.a as real, A_WIDTH, 1.0),
          LinearDequantizeValue(q.b as real, B_WIDTH - 1, COEFF_MAX),
          LinearDequantizeValue(q.c as real, C_WIDTH - 1, COEFF_MAX),
          LinearDequantizeValue(q.d as real, D_WIDTH - 1, COEFF_MAX),
          chromaOfIndex(q.avgPb), chromaOfIndex(q.avgPr))
  }

  /** A quantized block whose b, c and d codes are within [-15, 15], and
      whose chroma codes the table maps back to themselves, is quantized
      again to itself after dequantization. */
  lemma QuantizeDequantizedBlock(q: QuantizedBlock, indexOfChroma: real -> ChromaIndex, chromaOfIndex: int -> real)
    requires -15 <= q.b <= 15 && -15 <= q.c <= 15 && -15 <= q.d <= 15
    requires indexOfChroma(chromaOfIndex(q.avgPb)) == q.avgPb
    requires indexOfChroma(chromaOfIndex(q.avgPr)) == q.avgPr
    ensures QuantizeBlock(DequantizeBlock(q, chromaOfIndex), indexOfChroma) == q
  {
    var block := DequantizeBlock(q, chromaOfIndex);
    QuantizeDequantized(q.a, A_WIDTH, 1.0);
    CoefficientRoundTrip(q.b);
    CoefficientRoundTrip(q.c);
    CoefficientRoundTrip(q.d);
  }

  /** A code in [-15, 15], dequantized, lies within the clamping range and
      quantizes back to itself. */
  lemma CoefficientRoundTrip(k: int)
    requires -15 <= k <= 15
    ensures CoefficientCode(LinearDequantizeValue(k as real, B_WIDTH - 1, COEFF_MAX)) == k
  {
    var v := LinearDequantizeValue(k as real, B_WIDTH - 1, COEFF_MAX);
    assert v * 50.0 == k as real by {
      assert Scale(B_WIDTH - 1, COEFF_MAX) == 50.0;
    }
    assert Clamp(v, -COEFF_MAX, COEFF_MAX) == v;
    QuantizeDequantized(k, B_WIDTH - 1, COEFF_MAX);
  }

  /** Quantizing and dequantizing a block moves a by at most 1/160 when a is
      in [0, 1], and leaves b, c and d within 1/100 of their clamped
      values. */
  lemma DequantizedBlockError(block: Block, indexOfChroma: real -> ChromaIndex, chromaOfIndex: int -> real)
    ensures var back := DequantizeBlock(QuantizeBlock(block, indexOfChroma), chromaOfIndex);
      && (0.0 <= block.a <= 1.0 ==> -1.0 / 160.0 <= back.a - block.a <= 1.0 / 160.0)
      && -0.01 <= back.b - Clamp(block.b, -COEFF_MAX, COEFF_MAX) <= 0.01
      && -0.01 <= back.c - Clamp(block.c, -COEFF_MAX, COEFF_MAX) <= 0.01
      && -0.01 <= back.d - Clamp(block.d, -COEFF_MAX, COEFF_MAX) <= 0.01
  {
    var q := QuantizeBlock(block, indexOfChroma);
    var back := DequantizeBlock(q, chromaOfIndex);
    if 0.0 <= block.a <= 1.0 {
      assert -0.5 <= (q.a as real) - block.a * 80.0 <= 0.5;
    }
    CoefficientError(block.b);
    CoefficientError(block.c);
    CoefficientError(block.d);
  }

  /** A b, c or d coefficient comes back within 1/100 of its clamped value. */
  lemma CoefficientError(x: real)
    ensures var k := CoefficientCode(x);
      -0.5 <= (k as real) - Clamp(x, -COEFF_MAX, COEFF_MAX) * 50.0 <= 0.5
  {
    assert Scale(B_WIDTH - 1, COEFF_MAX) == 50.0;
  }

  // ---------------------------------------------------------------------
  // Whole grids

  /** quantizeData: a grid of the same width and height whose every cell is
      the quantized block of the source cell at the same position. */
  method QuantizeData(original: array2<Block>, indexOfChroma: real -> ChromaIndex)
    returns (destination: array2<QuantizedBlock>)
    ensures destination.Length0 == original.Length0 && destination.Length1 == original.Length1
    ensures forall col, row :: 0 <= col < original.Length0 && 0 <= row < original.Length1 ==>
              destination[col, row] == QuantizeBlock(original[col, row], indexOfChroma)
    ensures forall col, row :: 0 <= col < original.Length0 && 0 <= row < original.Length1 ==>
              var q := destination[col, row];
              && -15 <= q.b <= 15 && -15 <= q.c <= 15 && -15 <= q.d <= 15
              && (0.0 <= original[col, row].a <= 1.0 ==> q.a <= 80)
              && q.avgPb < 16 && q.avgPr < 16
  {
    destination := MapNew(original, (block: Block) => QuantizeBlock(block, indexOfChroma),
                          QuantizedBlock(0, 0, 0, 0, 0, 0));
  }

  /** dequantizeData: a grid of the same width and height whose every cell is
      the block that the quantized cell at the same position stands for. */
  method DequantizeData(original: array2<QuantizedBlock>, chromaOfIndex: int -> real)
    returns (destination: array2<Block>)
    ensures destination.Length0 == original.Length0 && destination.Length1 == original.Length1
    ensures forall col, row :: 0 <= col < original.Length0 && 0 <= row < original.Length1 ==>
              destination[col, row] == DequantizeBlock(original[col, row], chromaOfIndex)
  {
    destination := MapNew(original, (q: QuantizedBlock) => DequantizeBlock(q, chromaOfIndex),
                          Block(0.0, 0.0, 0.0, 0.0, 0.0, 0.0));
  }
}

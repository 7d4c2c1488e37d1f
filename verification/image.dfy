/** The value types that flow between the stages of the compressor: the C
    integer widths of the code word and its fields, the component-video
    pixel, the 2x2 block in cosine coefficients, the quantized block, and the
    RGB pixel of a PPM image. Colour values are `real`: the C `float`
    arithmetic is modelled exactly. */
module Image {
  import opened Arith

  /** uint32_t and unsigned */
  type Word32 = x: int | 0 <= x < Pow2(32)
  /** int */
  type Int32 = x: int | -(Pow2(31) as int) <= x < Pow2(31)
  /** one byte of the compressed stream, as `putchar`/`getc` pass it */
  type Byte = x: int | 0 <= x < 256

  /** struct YPbPr_pixel */
  datatype Pixel = Pixel(Y: real, Pb: real, Pr: real)

  /** struct YPbPr_block: the cosine coefficients of a 2x2 block's four Y
      values and the block's average chroma. */
  datatype Block = Block(a: real, b: real, c: real, d: real, avgPb: real, avgPr: real)

  /** struct Quantized_Block */
  datatype QuantizedBlock = QuantizedBlock(a: Word32, b: Int32, c: Int32, d: Int32, avgPb: Word32, avgPr: Word32)

  /** struct Pnm_rgb */
  datatype Rgb = Rgb(red: nat, green: nat, blue: nat)

  /** `(uint32_t) x`: the value modulo 2^32. */
  function U32(x: int): (r: Word32)
    ensures 0 <= x < Pow2(32) ==> r == x
    ensures (r - x) % Pow2(32) == 0
  {
    ModReduce(x, Pow2(32));
    x % Pow2(32)
  }

  /** A small non-negative count stored in an unsigned. */
  function SmallWord(x: int): (r: Word32)
    requires 0 <= x < 1024
    ensures r == x
  {
    SmallRoom(x);
    x
  }

  /** A small count stored in an int. */
  function SmallInt(x: int): (r: Int32)
    requires -1024 <= x < 1024
    ensures r == x
  {
    SmallRoom(x);
    x
  }

  lemma SmallRoom(x: int)
    requires -1024 <= x < 1024
    ensures -(Pow2(31) as int) <= x < Pow2(31) && x < Pow2(32)
  {
    assert Pow2(10) == 1024;
    Pow2Monotone(10, 31);
    Pow2Monotone(31, 32);
  }
}

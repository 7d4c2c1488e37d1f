# A verified model of the COMP40 image compressor's codec layers

This project models the parts of the COMP40 image compressor whose behaviour is exact. It proves the properties those parts promise. The layers are:

- **the bit-field codec** (`bitpack.c`). It reads and writes unsigned and signed fields of a 64-bit word. The C mask-and-shift expressions are written as the arithmetic they compute: the field `[lsb, lsb + width)` is `(word / 2^lsb) % 2^width`.
- **the word packer** (`packWord.c`). It writes a quantized block into a 32-bit code word with the fixed layout a:9@23, b:5@18, c:5@13, d:5@8, avgPb:4@4, avgPr:4@0. It also packs and unpacks whole grids of blocks.
- **the quantizer** (`quantize.c`). It clamps values, applies the linear quantize/dequantize law and computes the per-block codes. The scale is `width^2 - 1`, as the code computes it. That gives 80 codes per unit for `a` and 15 codes per 0.3 for b, c and d, rather than `2^width - 1` levels.
- **the 2x2 block transform** (`2x2pack.c`). It turns four luma values into cosine coefficients and back, and averages the chroma. It also maps between the pixel grid and the half-size block grid.
- **the blocked two-dimensional array** (`uarray2b.c`). This is a class over a grid of per-block arrays. `at` is its location arithmetic. `map` is its block-major traversal, which skips the padding cells.
- **the compressed-stream framing** (`handlePPM.c` and its near-duplicate `handleImage.c`):
  - trimming an image to even dimensions;
  - printing the code words as four big-endian bytes each, after a header that carries twice the grid's width and height;
  - reading the words back from a byte stream into a (width/2) x (height/2) grid.

Colour values are `real`. Rounding is round-half-away-from-zero, as C `round` does. The streams are byte sequences: EOF is the end of the sequence. The chroma index tables `Arith40_index_of_chroma` / `Arith40_chroma_of_index` are function parameters. Grids are Dafny `array2`s indexed `[col, row]`.

Modules:

- `Arith`: powers of two and division lemmas.
- `Results`: the Result type, with failure propagation.
- `Image`: C integer widths, pixel and block records.
- `Bitpack`, `PackWord`, `Quantize`, `BlockPack`.
- `Grid`: the A2Methods `new` + `map_default` pattern.
- `UArray2b`.
- `Framing`: both handle files.

## Model

| member | source | states |
|---|---|---|
| Bitpack.FieldSplit | bitpack.c:22-27 | a word is its bits above the field, the field read by getu's mask-and-shift, and its bits below the field |
| Bitpack.Getu | bitpack.c:17-28 | for width >= 1 and width + lsb <= 64, the field read is below 2^width |
| Bitpack.Gets | bitpack.c:31-44 | width 0 gives 0; otherwise the result lies in [-2^(width-1), 2^(width-1) - 1] and is congruent to the field modulo 2^width |
| Bitpack.GetsSignExtends | bitpack.c:39-41 | shifting the field to the top of the word and arithmetically back down sign-extends it from bit width - 1 |
| Bitpack.SignExtendSpec | bitpack.c:39-41 | a sign-extended width-bit pattern lies in the signed range and has the pattern as its low width bits |
| Bitpack.GetsOfField | bitpack.c:31-44 | a field holding the low bits of an in-range signed value reads back as that value |
| Bitpack.Newu | bitpack.c:46-60 | Overflow exactly when the value does not fit in width bits; otherwise getu of the result is the value and the bits below and above the field are unchanged |
| Bitpack.ReplaceSpec | bitpack.c:55-59 | the masked write stores v in the field and keeps the bits below and above it |
| Bitpack.ReplaceOwnField | bitpack.c:55-59 | writing back a field's own contents leaves the word unchanged |
| Bitpack.News | bitpack.c:63-75 | as written: the field receives the value's low width bits (only the low 64 - lsb bits when the field runs past bit 63), and the other bits are kept |
| Bitpack.NewsRoundTrip | bitpack.c:63-75 | for every value in [-2^(width-1), 2^(width-1) - 1], fitss accepts it and gets reads back what news stored |
| Bitpack.NewsAcceptsTooNegative | bitpack.c:12-15 | as written, fitss accepts -2^(width-1) - 1, and news stores it so that it reads back as 2^(width-1) - 1 |
| Bitpack.NewsTruncatesPastBit63 | bitpack.c:66-73 | as written, a field with width + lsb > 64 keeps only the value's low 64 - lsb bits |
| Bitpack.NewsTruncatesExample | bitpack.c:69-73 | as written, `Bitpack_news(0, 8, 60, 127)` passes fitss and leaves 15 in bits 60..63 |
| Bitpack.NewsChecked | bitpack.c:63-75 | the corrected signed write: Overflow exactly when the value is outside the field's signed range; otherwise gets reads the value back and the other bits are kept |
| Bitpack.NewsCheckedAgreesWithNews | bitpack.c:63-75 | on in-range values and fields inside the word, the corrected write produces the same word as the written one |
| Bitpack.NewuTwice | bitpack.c:46-60 | writing an unsigned field twice is writing it once with the second value |
| Bitpack.NewsTwice | bitpack.c:63-75 | writing a signed field twice is writing it once with the second value |
| Bitpack.NewuOwnField | bitpack.c:17-60 | newu of the word's own getu field returns the word unchanged |
| Bitpack.FieldOutsideUnchanged | bitpack.c:55-59 | a field wholly below or above the written one reads the same after the write |
| Bitpack.SameFieldsSameWord | bitpack.c:55-59 | two words equal below, inside and above a field are equal |
| PackWord.WriteUnsigned | packWord.c:50 | a newu into a uint32_t word: Overflow iff the value needs more than width bits; otherwise the field holds it and the other bits are kept |
| PackWord.WriteSigned | packWord.c:51-53 | the corrected signed write (see Findings) into a uint32_t word: Overflow iff the value is outside the signed range; otherwise the field holds its low bits and the other bits are kept |
| PackWord.WriteSignedAgreesWithNews | packWord.c:51-53 | for a value in the field's signed range, the checked write stores exactly what `Bitpack_news` as written stores, cut to 32 bits |
| PackWord.ReadUnsigned | packWord.c:98 | getu into an unsigned: the field, below 2^width |
| PackWord.ReadSigned | packWord.c:99-101 | gets into an int: in the signed range and congruent to the field |
| PackWord.LayoutReadsBack | packWord.c:49-55 | after the six writes of the layout, each field still holds what its own write stored, so the fields are disjoint |
| PackWord.BitpackWord | packWord.c:46-58 | succeeds exactly when a < 512, b, c, d in [-16, 15] and avgPb, avgPr < 16; its word unpacks to exactly the six inputs |
| PackWord.UnbitpackWord | packWord.c:95-104 | the six fields of any word are within the ranges bitpackWord accepts |
| PackWord.UnbitpackFields | packWord.c:95-104 | a word whose fields hold the low bits of in-range inputs unpacks to those inputs |
| PackWord.BitpackUnbitpack | packWord.c:46-58 | packing what any 32-bit word unpacks to rebuilds that word, so the fields cover all 32 bits |
| PackWord.FieldsDetermineWord | packWord.c:95-104 | two words that unpack to the same six fields are equal |
| PackWord.PackWords | packWord.c:12-44 | the pass succeeds exactly when every block is packable; the grid has the source's width and height, and each word unpacks to the block at its position |
| PackWord.UnpackWords | packWord.c:62-93 | same width and height; each cell is the block unpacked from the word at its position, and packing it gives the word back |
| Quantize.Clamp | quantize.c:119-129 | the result is the value, min or max; it lies in [min, max] when min <= max and is the value when that lies in range |
| Quantize.ClampIdempotent | quantize.c:119-129 | clamping twice equals clamping once |
| Quantize.ClampMonotone | quantize.c:119-129 | clamping keeps the order of its inputs |
| Quantize.Round | quantize.c:64 | the result is within a half of x, and halfway cases go away from zero |
| Quantize.RoundUnique | quantize.c:64 | any integer within a half of x, with the same tie-break, is round(x) |
| Quantize.RoundNegate | quantize.c:64 | round(-x) == -round(x) |
| Quantize.LinearQuantizeValue | quantize.c:61-65 | the code is within a half of value * (width^2 - 1) / maxFloat |
| Quantize.LinearDequantizeValue | quantize.c:102-106 | the value, scaled back by (width^2 - 1) / maxFloat, is the code |
| Quantize.QuantizeDequantized | quantize.c:61-65 | every integer code survives dequantization followed by quantization |
| Quantize.DequantizedQuantizedError | quantize.c:102-106 | quantizing then dequantizing moves a value by at most maxFloat / (2 (width^2 - 1)) |
| Quantize.CoefficientCode | quantize.c:49-54 | the b, c and d codes, round(clamp(x, -0.3, 0.3) * 50), lie in [-15, 15] |
| Quantize.CoefficientError | quantize.c:49-54 | a coefficient code is within a half of its clamped value times 50 |
| Quantize.CoefficientRoundTrip | quantize.c:93-95 | every code in [-15, 15], dequantized, quantizes back to itself |
| Quantize.LumaCode | quantize.c:48 | for a in [0, 1] the code round(a * 80) is at most 80 and within a half of a * 80 |
| Quantize.QuantizeBlock | quantize.c:38-59 | b, c, d codes in [-15, 15]; the a code is at most 80 when a is in [0, 1]; the chroma indices are below 16 |
| Quantize.DequantizeBlock | quantize.c:82-100 | a is its code over 80, and b, c, d are their codes over 50 |
| Quantize.QuantizeDequantizedBlock | quantize.c:38-100 | a quantized block with b, c, d in [-15, 15] and chroma indices the tables map back to themselves is quantized to itself after dequantization |
| Quantize.DequantizedBlockError | quantize.c:38-100 | the round trip moves a by at most 1/160 for a in [0, 1], and leaves b, c and d within 1/100 of their clamped values |
| Quantize.QuantizeData | quantize.c:23-59 | same width and height; each cell is the quantized block at its position, with b, c, d in [-15, 15], a at most 80 when the block's a is in [0, 1], and both chroma indices below 16 |
| Quantize.DequantizeData | quantize.c:67-100 | same width and height; each cell is the block that the quantized block at its position stands for |
| BlockPack.DCTtoPixelOfPixelToDCT | 2x2pack.c:138-146 | DCTtoPixel(pixelToDCT(Y1, Y2, Y3, Y4)) is (Y1, Y2, Y3, Y4) exactly |
| BlockPack.PixelToDCTOfDCTtoPixel | 2x2pack.c:256-263 | pixelToDCT(DCTtoPixel(a, b, c, d)) is (a, b, c, d) exactly |
| BlockPack.AverageChroma | 2x2pack.c:111-122 | four times each average is the sum of the four Pb (respectively Pr) values |
| BlockPack.AverageChromaBounds | 2x2pack.c:111-122 | each average lies between the least and the greatest of its four values |
| BlockPack.PackedBlock | 2x2pack.c:69-92 | the block's coefficients give the four Y values back, and its chroma is their mean |
| BlockPack.PackBlock | 2x2pack.c:33-92 | a fresh grid of size (width/2) x (height/2); block (col, row) is made from pixels (2col, 2row), (2col+1, 2row), (2col, 2row+1), (2col+1, 2row+1), and its inverse transform gives their Y values back |
| BlockPack.WriteLuma | 2x2pack.c:207-240 | every pixel's Y becomes the inverse-transformed value of its block, taken at its position within the block, and its Pb and Pr are kept |
| BlockPack.SetChroma | 2x2pack.c:285-302 | every pixel's Pb and Pr become its block's averages, and its Y is kept |
| BlockPack.UnpackBlock | 2x2pack.c:167-184 | a fresh grid of size (2 width) x (2 height), and pixel (col, row) is the unpacked pixel of block (col/2, row/2) |
| BlockPack.PackThenUnpack | compress40.c:19-23 | packing then unpacking an image gives its trimmed size, every pixel's Y unchanged and every pixel's (Pb, Pr) the average chroma of its 2x2 block |
| Grid.MapNew | quantize.c:23-36 | `new` + `map_default`: a fresh grid of the same width and height, and each cell is f of the source cell at its position |
| Grid.TryMapNew | packWord.c:12-44 | as MapNew with an apply that can raise: it fails exactly when some cell's apply fails, and otherwise returns a fresh grid holding each cell's value |
| UArray2b.Locate | uarray2b.c:272-281 | the offset within the block is below bs^2, and the map pass's formula gives the cell back |
| UArray2b.LocateCellOf | uarray2b.c:322-325 | every in-block location is the location of the cell the map pass computes for it |
| UArray2b.LocateInjective | uarray2b.c:272-281 | distinct cells are stored at distinct locations |
| UArray2b.LocateInGrid | uarray2b.c:105-106 | every in-range cell is stored in one of the ceil(width/bs) x ceil(height/bs) blocks |
| UArray2b.ISqrt | uarray2b.c:143 | r^2 <= n < (r+1)^2 |
| UArray2b.BlockSize64K | uarray2b.c:142-143 | the block size is at least 1 and the largest whose bs^2 cells of size bytes fit 64 KB |
| UArray2b.LargestSquare | uarray2b.c:142-143 | floor(sqrt(n / size)) squared, times size, fits n bytes, and one more does not |
| UArray2b.TraceOrder | uarray2b.c:318-335 | the map pass visits only in-range cells, visits every in-range cell, and visits them in strictly increasing storage order (hence each exactly once) |
| UArray2b.UArray2b.constructor | uarray2b.c:95-120 | the accessors return the arguments, the blocks are distinct arrays covering ceil(width/bs) x ceil(height/bs) positions, and every cell holds the initial value |
| UArray2b.UArray2b.AllocateBlocks | uarray2b.c:108-118 | a fresh ceil-size grid whose every position holds its own fresh block of bs^2 cells |
| UArray2b.UArray2b.New64KBlock | uarray2b.c:138-146 | as the constructor, with block size floor(sqrt(65536 / size)), which is the largest whose blocks fit 64 KB |
| UArray2b.UArray2b.Put | uarray2b.c:266-282 | a store through `at` changes the addressed cell and no other |
| UArray2b.UArray2b.Map | uarray2b.c:308-336 | each cell's value becomes f(col, row, old value), and the visit order is the block-major trace of TraceOrder |
| UArray2b.UArray2b.MapCell | uarray2b.c:320-332 | at one storage location: apply is called iff the location holds an in-range cell, and only that cell changes |
| Framing.Trimmed | handlePPM.c:28-29 | the trimmed dimension is even, at most the original, smaller by at most 1, and equal to it when it is even |
| Framing.TrimImage | handlePPM.c:26-54 | a fresh image of the trimmed size and the same denominator, holding the original pixel at every position |
| Framing.BigEndianBound | handlePPM.c:98-103 | n bytes read most significant first give a value below 2^(8n) |
| Framing.BigEndianInjective | handlePPM.c:98-103 | equal-length byte strings with equal big-endian values are equal |
| Framing.WordBytesByBitpack | handlePPM.c:69-72 | the four bytes printed are getu(word, 8, 24), getu(word, 8, 16), getu(word, 8, 8), getu(word, 8, 0) |
| Framing.WordBytesSpell | handlePPM.c:69-72 | the four bytes printed, read most significant first, are the word |
| Framing.WordBytesOfBigEndian | handlePPM.c:98-103 | any four bytes are what printing the word they assemble to gives |
| Framing.NewByte | handlePPM.c:102 | the byte lands in bits [8 byte, 8 byte + 8), and the other bits are kept |
| Framing.ReadStep | handlePPM.c:99-103 | after each byte, the word holds the bytes read so far, most significant first, shifted to their final position |
| Framing.ReadWord | handlePPM.c:98-103 | succeeds iff four bytes remain, with their big-endian value; otherwise EarlyEof |
| Framing.WordInStream | handlePPM.c:96-110 | every word of the grid lies inside the stream's length |
| Framing.ReadRow | handlePPM.c:96-110 | the row is complete iff the stream holds all its bytes; every word of a complete row is the big-endian value of its four bytes, and other rows are untouched |
| Framing.ReadInCompressed | handlePPM.c:80-113 | a bad header gives BadHeader and a missing newline gives MissingNewline; otherwise it succeeds iff the stream holds the newline and 4 (width/2)(height/2) more bytes, else EarlyEof; the grid is (width/2) x (height/2), row-major, each word the big-endian value of its four bytes |
| Framing.Printed | handlePPM.c:61 | the bytes printed after the header for the first k rows number 1 + 4 k w: the newline and four bytes per word |
| Framing.PrintedLayout | handlePPM.c:61-72 | word (col, row) is printed at offset 1 + 4 (row w + col) as its four big-endian bytes |
| Framing.PrintCompressedImage | handlePPM.c:56-62 | the header is twice the grid's width and height; the bytes are a newline and then every word in row-major order, four bytes each |
| Framing.PrintedStartsWithNewline | handlePPM.c:59 | the printed bytes start with the newline that ends the header |
| Framing.PrintedDecodes | handlePPM.c:69-72 | the four bytes at each word's offset read back, most significant first, as that word |
| Framing.PrintThenRead | handlePPM.c:56-113 | reading what printCompressedImage writes succeeds and gives the same grid back |

## Left out

- Floating point: `float`/`double` rounding, `pow`, `sqrt` and `ceil` are exact real and integer operations here. The model uses round-half-away-from-zero, exact 2^w, integer square root and ceiling division. UArray2b_map's `ceil((double) width / blocksize)` is taken as the integer ceiling division that UArray2b_new uses.
- Quantize.LumaCode: a value of a outside [0, 1] is not bounded by the model. A negative code cast to `unsigned` is wrapped modulo 2^32, which is written out. But `round` of a huge float does not fit an int, which C leaves undefined.
- The colour conversion (convertColor.c) and the Arith40 chroma tables are not part of this model. The tables are parameters: `indexOfChroma` returns an index in [0, 15] and `chromaOfIndex` is arbitrary.
- Bitpack.Getu, Bitpack.Newu: width 0 is excluded, because the C code then shifts a 64-bit value by 64, which C leaves undefined. Gets handles width 0 as the source does.
- Bitpack.News: width 64 and lsb >= 64 are excluded, because `1ULL << width` and `<< lsb` then shift by 64 or more.
- `Bitpack_fitsu` and `Bitpack_fitss` compare against `pow` results in double precision. For widths near 64 the double rounds 2^w - 1 up. The model compares exactly.
- PackWord.WriteSigned: it replaces `Bitpack_news` with the corrected signed write (see Findings). A value below -2^(width-1) is Overflow here, where `Bitpack_news` as written stores its wrapped low bits. A value above 2^(width-1) - 1 is Overflow here, where the source fails fitss's `assert` (Assert_Failed, not Bitpack_Overflow). On in-range values both agree (PackWord.WriteSignedAgreesWithNews).
- PackWord.BitpackWord: it writes b, c and d with PackWord.WriteSigned, so a coefficient below -16 is Overflow rather than silently stored, and one of 16 or more is Overflow rather than an assertion failure. The quantizer never produces either, since its codes lie in [-15, 15].
- Hanson's `Except_T`/`RAISE` and `assert` are modelled as error results for Overflow and for the reader's errors. The other assertions are preconditions: null pointers, out-of-range indices, and the width and lsb bounds of the bit-field codec.
- Bitpack.News: `Bitpack_news`'s fitss assertion (bitpack.c:67) is a precondition, although a caller can reach it, for example with `Bitpack_news(w, 5, 18, 16)`. The model does not say what happens then (an assertion failure in the source).
- The A2Methods method suites and `map_default`/`map_row_major` dispatch: each grid pass is a loop over an `array2` in the order that suite visits. The UArray2b class is modelled on its own. The plain array behind `a2plain.c` is not part of this model.
- Map's apply function: the C apply receives a pointer and a closure and may have any side effect. UArray2b.UArray2b.Map takes a pure function of (col, row, value) and stores its result in the cell.
- Memory management: `malloc`/`free`, `UArray2b_free` and `Pnm_ppmfree` are left out, since Dafny has garbage collection. Allocation failure is not modelled.
- UArray2b.UArray2b.constructor, UArray2b.UArray2b.Map: `width + blocksize - 1` (uarray2b.c:105-106) and `blocksize * blocksize` (uarray2b.c:114, 320) are computed in C `int`, where overflow is undefined. The model's CeilDiv and bs * bs are unbounded, so it does not capture what the source does when these overflow.
- UArray2b.UArray2b.New64KBlock: a size above 65536 gives block size 0 in the C code, which UArray2b_new then rejects. The model requires size <= 65536.
- I/O:
  - `fscanf`, `getc`, `putchar` and `printf` become byte sequences.
  - The header text "COMP40 Compressed image format 2\n%u %u" is abstracted. The printer returns the two numbers. The reader receives what `fscanf` matched, or None.
  - Framing.PrintCompressedImage: the header's `methods->width(image) * 2` multiplies `int`s, whose overflow C leaves undefined, before `%u` prints the result. The model's header is the unbounded product, and an `array2` has unbounded dimensions.
- Reading and writing PPM files (`Pnm_ppmread`, `Pnm_ppmwrite`), compress40.c's orchestration, 40image.c and ppmdiff.c are not part of this model. Only the pack-then-unpack step of `compress40` is modelled (BlockPack.PackThenUnpack).
- handleImage.c's `trimImage` asserts that its argument is not NULL (handleImage.c:74); handlePPM.c's does not. A Dafny value is never null, so one Framing module models both files.
- Pixel and image records keep only the fields the core reads: the Ppm `methods` suite pointer is not modelled.

## Findings

| source | as written | input that shows it | evidently intended | confidence | as-written member | corrected member |
|---|---|---|---|---|---|---|
| bitpack.c:12-15 | `Bitpack_fitss` tests only n <= 2^(width-1) - 1, so news accepts every negative value | `Bitpack_news(word, 3, 0, -5)`: the assertion passes, and `Bitpack_gets(result, 3, 0)` returns 3 | reject n < -2^(width-1), raising Bitpack_Overflow as newu does | not executed | Bitpack.NewsAcceptsTooNegative | Bitpack.NewsChecked |
| bitpack.c:66-73 | `Bitpack_news` never checks width + lsb <= 64 and never raises Overflow; bits past bit 63 are dropped | `Bitpack_news(0, 8, 60, 127)` keeps 15 in bits 60..63 | assert width + lsb <= 64 as getu and newu do | not executed | Bitpack.NewsTruncatesExample | Bitpack.NewsChecked |

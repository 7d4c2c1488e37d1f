/** 2x2pack.c: the step between the component-video pixel grid and the grid
    of 2x2 blocks. A block holds the cosine coefficients a, b, c, d of its
    four Y values and the mean of its four Pb and of its four Pr values.
    Pixel (col, row) of a block at (bcol, brow) is pixel
    (2 bcol + col % 2, 2 brow + row % 2); within a block the pixels are taken
    as Y1 (top left), Y2 (top right), Y3 (bottom left), Y4 (bottom right). */
module BlockPack {
  import opened Image

  const BLOCK_SIZE: int := 2

  /** The four Y values of a block, in the order Y1, Y2, Y3, Y4. */
  datatype Luma = Luma(y1: real, y2: real, y3: real, y4: real)

  /** The cosine coefficients of a block's four Y values. */
  datatype Coefficients = Coefficients(a: real, b: real, c: real, d: real)

  /** pixelToDCT */
  function PixelToDCT(y1: real, y2: real, y3: real, y4: real): Coefficients {
    Coefficients((y4 + y3 + y2 + y1) / 4.0,
                 (y4 + y3 - y2 - y1) / 4.0,
                 (y4 - y3 + y2 - y1) / 4.0,
                 (y4 - y3 - y2 + y1) / 4.0)
  }

  /** DCTtoPixel */
  function DCTtoPixel(a: real, b: real, c: real, d: real): Luma {
    Luma(a - b - c + d, a - b + c - d, a + b - c - d, a + b + c + d)
  }

  /** The inverse transform undoes the forward one. */
  lemma DCTtoPixelOfPixelToDCT(y1: real, y2: real, y3: real, y4: real)
    ensures var k := PixelToDCT(y1, y2, y3, y4);
      DCTtoPixel(k.a, k.b, k.c, k.d) == Luma(y1, y2, y3, y4)
  {
  }

  /** The forward transform undoes the inverse one. */
  lemma PixelToDCTOfDCTtoPixel(a: real, b: real, c: real, d: real)
    ensures var y := DCTtoPixel(a, b, c, d);
      PixelToDCT(y.y1, y.y2, y.y3, y.y4) == Coefficients(a, b, c, d)
  {
  }

  function Min4(w: real, x: real, y: real, z: real): real {
    var m1 := if w <= x then w else x;
    var m2 := if y <= z then y else z;
    if m1 <= m2 then m1 else m2
  }

  function Max4(w: real, x: real, y: real, z: real): real {
    var m1 := if w >= x then w else x;
    var m2 := if y >= z then y else z;
    if m1 >= m2 then m1 else m2
  }

  /** averageChroma: the mean Pb and the mean Pr of four pixels. */
  function AverageChroma(p1: Pixel, p2: Pixel, p3: Pixel, p4: Pixel): (avg: (real, real))
    ensures avg.0 * 4.0 == p1.Pb + p2.Pb + p3.Pb + p4.Pb
    ensures avg.1 * 4.0 == p1.Pr + p2.Pr + p3.Pr + p4.Pr
  {
    ((p1.Pb + p2.Pb + p3.Pb + p4.Pb) / 4.0, (p1.Pr + p2.Pr + p3.Pr + p4.Pr) / 4.0)
  }

  /** A mean lies between the least and the greatest of the four values. */
  lemma AverageChromaBounds(p1: Pixel, p2: Pixel, p3: Pixel, p4: Pixel)
    ensures var avg := AverageChroma(p1, p2, p3, p4);
      && Min4(p1.Pb, p2.Pb, p3.Pb, p4.Pb) <= avg.0 <= Max4(p1.Pb, p2.Pb, p3.Pb, p4.Pb)
      && Min4(p1.Pr, p2.Pr, p3.Pr, p4.Pr) <= avg.1 <= Max4(p1.Pr, p2.Pr, p3.Pr, p4.Pr)
  {
  }

  /** packBlockApply: the block of four pixels. Its coefficients give the
      four Y values back, and its chroma is their mean. */
  function PackedBlock(p1: Pixel, p2: Pixel, p3: Pixel, p4: Pixel): (block: Block)
    ensures DCTtoPixel(block.a, block.b, block.c, block.d) == Luma(p1.Y, p2.Y, p3.Y, p4.Y)
    ensures block.avgPb * 4.0 == p1.Pb + p2.Pb + p3.Pb + p4.Pb
    ensures block.avgPr * 4.0 == p1.Pr + p2.Pr + p3.Pr + p4.Pr
  {
    var avg := AverageChroma(p1, p2, p3, p4);
    var k := PixelToDCT(p1.Y, p2.Y, p3.Y, p4.Y);
    DCTtoPixelOfPixelToDCT(p1.Y, p2.Y, p3.Y, p4.Y);
    Block(k.a, k.b, k.c, k.d, avg.0, avg.1)
  }

  /** The Y that unpackBlockApply writes at offset (dx, dy) of a block. */
  function UnpackedY(block: Block, dx: int, dy: int): real {
    var y := DCTtoPixel(block.a, block.b, block.c, block.d);
    if dy == 0 then (if dx == 0 then y.y1 else y.y2)
    else (if dx == 0 then y.y3 else y.y4)
  }

  /** The pixel (col, row) of an unpacked image: its Y from the inverse
      transform of its block, its chroma the block's averages. */
  function UnpackedPixel(block: Block, col: nat, row: nat): Pixel {
    Pixel(UnpackedY(block, col % 2, row % 2), block.avgPb, block.avgPr)
  }

  /** packBlock: a grid of width / 2 by height / 2 blocks; block (col, row)
      is made from pixels (2 col, 2 row), (2 col + 1, 2 row),
      (2 col, 2 row + 1), (2 col + 1, 2 row + 1) and its coefficients give
      their Y values back. */
  method PackBlock(original: array2<Pixel>) returns (destination: array2<Block>)
    ensures fresh(destination)
    ensures destination.Length0 == original.Length0 / BLOCK_SIZE
    ensures destination.Length1 == original.Length1 / BLOCK_SIZE
    ensures forall col, row :: 0 <= col < destination.Length0 && 0 <= row < destination.Length1 ==>
              destination[col, row] == PackedBlock(original[2 * col, 2 * row], original[2 * col + 1, 2 * row],
                                                   original[2 * col, 2 * row + 1], original[2 * col + 1, 2 * row + 1])
    ensures forall col, row, dx, dy ::
              0 <= col < destination.Length0 && 0 <= row < destination.Length1 && 0 <= dx < 2 && 0 <= dy < 2 ==>
              UnpackedY(destination[col, row], dx, dy) == original[2 * col + dx, 2 * row + dy].Y
  {
    var width, height := original.Length0 / BLOCK_SIZE, original.Length1 / BLOCK_SIZE;
    destination := new Block[width, height]((_, _) => Block(0.0, 0.0, 0.0, 0.0, 0.0, 0.0));
    var row := 0;
    while row < height
      invariant 0 <= row <= height
      invariant forall c, r :: 0 <= c < width && 0 <= r < row ==>
                  destination[c, r] == PackedBlock(original[2 * c, 2 * r], original[2 * c + 1, 2 * r],
                                                   original[2 * c, 2 * r + 1], original[2 * c + 1, 2 * r + 1])
    {
      var col := 0;
      while col < width
        invariant 0 <= col <= width
        invariant forall c, r :: 0 <= c < width && 0 <= r < row ==>
                    destination[c, r] == PackedBlock(original[2 * c, 2 * r], original[2 * c + 1, 2 * r],
                                                     original[2 * c, 2 * r + 1], original[2 * c + 1, 2 * r + 1])
        invariant forall c :: 0 <= c < col ==>
                    destination[c, row] == PackedBlock(original[2 * c, 2 * row], original[2 * c + 1, 2 * row],
                                                       original[2 * c, 2 * row + 1], original[2 * c + 1, 2 * row + 1])
      {
        destination[col, row] := PackedBlock(original[2 * col, 2 * row], original[2 * col + 1, 2 * row],
                                             original[2 * col, 2 * row + 1], original[2 * col + 1, 2 * row + 1]);
        col := col + 1;
      }
      row := row + 1;
    }
  }

  /** unpackBlock: a grid of 2 width by 2 height pixels. The first pass
      writes the Y values of each block's four pixels, the second gives
      every pixel the chroma of its block. */
  method UnpackBlock(original: array2<Block>) returns (destination: array2<Pixel>)
    ensures fresh(destination)
    ensures destination.Length0 == original.Length0 * BLOCK_SIZE
    ensures destination.Length1 == original.Length1 * BLOCK_SIZE
    ensures forall col: nat, row: nat :: col < destination.Length0 && row < destination.Length1 ==>
              destination[col, row] == UnpackedPixel(original[col / 2, row / 2], col, row)
  {
    var width, height := original.Length0, original.Length1;
    destination := new Pixel[width * BLOCK_SIZE, height * BLOCK_SIZE]((_, _) => Pixel(0.0, 0.0, 0.0));
    WriteLuma(original, destination);
    SetChroma(original, destination);
  }

  /** The first pass of unpackBlock: map over the blocks, writing the Y of
      their four pixels. */
  method WriteLuma(original: array2<Block>, destination: array2<Pixel>)
    requires destination.Length0 == original.Length0 * 2 && destination.Length1 == original.Length1 * 2
    modifies destination
    ensures forall col: nat, row: nat :: col < destination.Length0 && row < destination.Length1 ==>
              destination[col, row] == old(destination[col, row]).(Y := UnpackedY(original[col / 2, row / 2], col % 2, row % 2))
  {
    var width, height := original.Length0, original.Length1;
    var brow := 0;
    while brow < height
      invariant 0 <= brow <= height
      invariant forall col: nat, row: nat :: col < 2 * width && row < 2 * height ==>
                  destination[col, row] == (if row < 2 * brow
                                            then old(destination[col, row]).(Y := UnpackedY(original[col / 2, row / 2], col % 2, row % 2))
                                            else old(destination[col, row]))
    {
      var bcol := 0;
      while bcol < width
        invariant 0 <= bcol <= width
        invariant forall col: nat, row: nat :: col < 2 * width && row < 2 * height ==>
                    destination[col, row] == (if row < 2 * brow || (row < 2 * brow + 2 && col < 2 * bcol)
                                              then old(destination[col, row]).(Y := UnpackedY(original[col / 2, row / 2], col % 2, row % 2))
                                              else old(destination[col, row]))
      {
        var block := original[bcol, brow];
        var y := DCTtoPixel(block.a, block.b, block.c, block.d);
        var x0, y0 := 2 * bcol, 2 * brow;
        destination[x0, y0] := destination[x0, y0].(Y := y.y1);
        destination[x0 + 1, y0] := destination[x0 + 1, y0].(Y := y.y2);
        destination[x0, y0 + 1] := destination[x0, y0 + 1].(Y := y.y3);
        destination[x0 + 1, y0 + 1] := destination[x0 + 1, y0 + 1].(Y := y.y4);
        bcol := bcol + 1;
      }
      brow := brow + 1;
    }
  }

  /** The second pass of unpackBlock (setChromaApply): map over the pixels,
      giving each the average chroma of its block; Y is left as it is. */
  method SetChroma(original: array2<Block>, destination: array2<Pixel>)
    requires destination.Length0 == original.Length0 * 2 && destination.Length1 == original.Length1 * 2
    modifies destination
    ensures forall col: nat, row: nat :: col < destination.Length0 && row < destination.Length1 ==>
              destination[col, row] == old(destination[col, row]).(Pb := original[col / 2, row / 2].avgPb,
                                                                   Pr := original[col / 2, row / 2].avgPr)
  {
    var width, height := destination.Length0, destination.Length1;
    var row := 0;
    while row < height
      invariant 0 <= row <= height
      invariant forall col: nat, r: nat :: col < width && r < height ==>
                  destination[col, r] == (if r < row then old(destination[col, r]).(Pb := original[col / 2, r / 2].avgPb,
                                                                                   Pr := original[col / 2, r / 2].avgPr)
                                          else old(destination[col, r]))
    {
      var col := 0;
      while col < width
        invariant 0 <= col <= width
        invariant forall c: nat, r: nat :: c < width && r < height ==>
                    destination[c, r] == (if r < row || (r == row && c < col)
                                          then old(destination[c, r]).(Pb := original[c / 2, r / 2].avgPb,
                                                                       Pr := original[c / 2, r / 2].avgPr)
                                          else old(destination[c, r]))
      {
        var block := original[col / 2, row / 2];
        destination[col, row] := destination[col, row].(Pb := block.avgPb, Pr := block.avgPr);
        col := col + 1;
      }
      row := row + 1;
    }
  }

  /** packBlock followed by unpackBlock, as compress40 runs them: an image of
      the even part of the original's size in which every pixel keeps its Y
      and carries the mean chroma of its 2x2 block. */
  method PackThenUnpack(image: array2<Pixel>) returns (restored: array2<Pixel>)
    ensures restored.Length0 == image.Length0 - image.Length0 % 2
    ensures restored.Length1 == image.Length1 - image.Length1 % 2
    ensures forall col, row :: 0 <= col < restored.Length0 && 0 <= row < restored.Length1 ==>
              restored[col, row].Y == image[col, row].Y
    ensures forall col, row :: 0 <= col < restored.Length0 && 0 <= row < restored.Length1 ==>
              var c0, r0 := col - col % 2, row - row % 2;
              (restored[col, row].Pb, restored[col, row].Pr)
              == AverageChroma(image[c0, r0], image[c0 + 1, r0], image[c0, r0 + 1], image[c0 + 1, r0 + 1])
  {
    var blocks := PackBlock(image);
    restored := UnpackBlock(blocks);
    forall col, row {:trigger restored[col, row]} | 0 <= col < restored.Length0 && 0 <= row < restored.Length1
      ensures restored[col, row].Y == image[col, row].Y
      ensures var c0, r0 := col - col % 2, row - row % 2;
              (restored[col, row].Pb, restored[col, row].Pr)
              == AverageChroma(image[c0, r0], image[c0 + 1, r0], image[c0, r0 + 1], image[c0 + 1, r0 + 1])
    {
      var bcol, brow, dx, dy := col / 2, row / 2, col % 2, row % 2;
      assert col == 2 * bcol + dx && row == 2 * brow + dy;
      assert restored[col, row] == UnpackedPixel(blocks[bcol, brow], col, row);
      assert UnpackedY(blocks[bcol, brow], dx, dy) == image[2 * bcol + dx, 2 * brow + dy].Y;
    }
  }
}

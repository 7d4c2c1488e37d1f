/** uarray2b.c: a two-dimensional array stored as a grid of square blocks.
    Cell (col, row) lives in block (col / bs, row / bs) at offset
    bs * (row % bs) + col % bs, where bs is the block size; every block holds
    bs * bs cells, so the blocks on the right and bottom edges may carry
    padding cells that lie outside the array. */
module UArray2b {
  import opened Arith

  /** Where a cell is stored: block column, block row, offset in the block. */
  datatype Loc = Loc(bcol: nat, brow: nat, index: nat)

  /** `(n + bs - 1) / bs`: the number of blocks of bs cells that cover n
      cells (the map pass computes the same count as `ceil(n / bs)`). */
  function CeilDiv(n: nat, bs: nat): nat
    requires bs > 0
  {
    (n + bs - 1) / bs
  }

  /** The cell that the map pass visits at offset index of block
      (bcol, brow). */
  function CellOf(loc: Loc, bs: nat): (nat, nat)
    requires bs > 0
  {
    (loc.bcol * bs + loc.index % bs, loc.brow * bs + loc.index / bs)
  }

  /** The location arithmetic of UArray2b_at. The offset lies inside the
      block, and the map pass's formula gives the cell back. */
  function Locate(col: nat, row: nat, bs: nat): (loc: Loc)
    requires bs > 0
    ensures loc.index < bs * bs
    ensures CellOf(loc, bs) == (col, row)
  {
    QuotientRemainder(col, bs);
    QuotientRemainder(row, bs);
    DigitPair(col % bs, row % bs, bs);
    Loc(col / bs, row / bs, bs * (row % bs) + col % bs)
  }

  /** Every location with its offset inside the block is the location of
      the cell the map pass computes for it. */
  lemma LocateCellOf(loc: Loc, bs: nat)
    requires bs > 0 && loc.index < bs * bs
    ensures Locate(CellOf(loc, bs).0, CellOf(loc, bs).1, bs) == loc
  {
    var x, y := loc.index % bs, loc.index / bs;
    QuotientRemainder(loc.index, bs);
    DivBelow(loc.index, bs, bs);
    assert loc.index == bs * y + x;
    DivModUnique(loc.bcol * bs + x, bs, loc.bcol, x);
    DivModUnique(loc.brow * bs + y, bs, loc.brow, y);
  }

  /** Distinct cells are stored at distinct locations. */
  lemma LocateInjective(c1: nat, r1: nat, c2: nat, r2: nat, bs: nat)
    requires bs > 0 && Locate(c1, r1, bs) == Locate(c2, r2, bs)
    ensures c1 == c2 && r1 == r2
  {
  }

  /** The order of the map pass: block rows top to bottom, blocks left to
      right, offsets in increasing order. */
  predicate Before(a: Loc, b: Loc) {
    || a.brow < b.brow
    || (a.brow == b.brow && a.bcol < b.bcol)
    || (a.brow == b.brow && a.bcol == b.bcol && a.index < b.index)
  }

  /** The integer square root, floor(sqrt(n)). */
  function ISqrt(n: nat): (r: nat)
    ensures r * r <= n < (r + 1) * (r + 1)
  {
    if n == 0 then 0
    else
      var s := ISqrt(n - 1);
      if (s + 1) * (s + 1) <= n then
        assert (s + 1) * (s + 1) < (s + 2) * (s + 2);
        s + 1
      else s
  }

  /** UArray2b_new_64K_block's block size: the largest bs with bs * bs cells
      of size bytes in 64 KB. */
  function BlockSize64K(size: int): (bs: int)
    requires 0 < size <= 65536
    ensures bs >= 1
    ensures bs * bs * size <= 65536 < (bs + 1) * (bs + 1) * size
  {
    var bs := ISqrt(65536 / size);
    LargestSquare(65536, size, bs);
    bs
  }

  /** A square of r * r cells, r = floor(sqrt(n / size)), is the largest
      that fits n bytes. */
  lemma LargestSquare(n: nat, size: int, r: nat)
    requires 0 < size <= n
    requires r * r <= n / size < (r + 1) * (r + 1)
    ensures r >= 1
    ensures r * r * size <= n < (r + 1) * (r + 1) * size
  {
    var q := n / size;
    QuotientRemainder(n, size);
    assert q >= 1;
    assert q * size <= n < (q + 1) * size;
    MulMonotone(r * r, q, size);
    MulMonotone(q + 1, (r + 1) * (r + 1), size);
  }

  /** The first rows of blocks and the first bCol blocks of the next row
      are allocated: each is a distinct array of bs * bs cells, told apart
      by its position. */
  ghost predicate Blocks<T>(grid: array2<array?<T>>, bRow: int, bCol: int, bs: int,
                            position: map<array<T>, (int, int)>)
    reads grid
  {
    forall i, j :: 0 <= i < grid.Length0 && 0 <= j < grid.Length1 && Filled(i, j, bRow, bCol) ==>
      grid[i, j] != null && grid[i, j] in position && position[grid[i, j]] == (i, j) &&
      grid[i, j].Length == bs * bs
  }

  /** Block (i, j) comes before block (bCol, bRow) in row-major order. */
  predicate Filled(i: int, j: int, bRow: int, bCol: int) {
    j < bRow || (j == bRow && i < bCol)
  }

  /** The visits so far lie inside the width x height array, come in the
      map pass's order, and are exactly the cells stored before cur. */
  ghost predicate Visited(visits: seq<(nat, nat)>, width: int, height: int, bs: nat, cur: Loc)
    requires bs > 0
  {
    VisitsBefore(visits, width, height, bs, cur) && VisitsCover(visits, width, height, bs, cur) && VisitsInOrder(visits, bs)
  }

  ghost predicate VisitsBefore(visits: seq<(nat, nat)>, width: int, height: int, bs: nat, cur: Loc)
    requires bs > 0
  {
    forall k :: 0 <= k < |visits| ==>
      0 <= visits[k].0 < width && 0 <= visits[k].1 < height &&
      Before(Locate(visits[k].0, visits[k].1, bs), cur)
  }

  ghost predicate VisitsCover(visits: seq<(nat, nat)>, width: int, height: int, bs: nat, cur: Loc)
    requires bs > 0
  {
    forall loc: Loc :: loc.index < bs * bs && Before(loc, cur) && CellOf(loc, bs).0 < width && CellOf(loc, bs).1 < height ==>
      CellOf(loc, bs) in visits
  }

  ghost predicate VisitsInOrder(visits: seq<(nat, nat)>, bs: nat)
    requires bs > 0
  {
    forall i, j :: 0 <= i < j < |visits| ==>
      Before(Locate(visits[i].0, visits[i].1, bs), Locate(visits[j].0, visits[j].1, bs))
  }

  lemma BeforeStep(visits: seq<(nat, nat)>, width: int, height: int, bs: nat, cur: Loc, cell: (nat, nat))
    requires bs > 0 && VisitsBefore(visits, width, height, bs, cur)
    requires 0 <= cell.0 < width && 0 <= cell.1 < height && Locate(cell.0, cell.1, bs) == cur
    ensures VisitsBefore(visits + [cell], width, height, bs, Loc(cur.bcol, cur.brow, cur.index + 1))
  {
    var more := visits + [cell];
    forall k | 0 <= k < |more|
      ensures 0 <= more[k].0 < width && 0 <= more[k].1 < height &&
        Before(Locate(more[k].0, more[k].1, bs), Loc(cur.bcol, cur.brow, cur.index + 1))
    {
      if k < |visits| { assert more[k] == visits[k]; }
    }
  }

  lemma CoverStep(visits: seq<(nat, nat)>, width: int, height: int, bs: nat, cur: Loc, more: seq<(nat, nat)>)
    requires bs > 0 && VisitsCover(visits, width, height, bs, cur)
    requires forall x :: x in visits ==> x in more
    requires CellOf(cur, bs).0 < width && CellOf(cur, bs).1 < height ==> CellOf(cur, bs) in more
    ensures VisitsCover(more, width, height, bs, Loc(cur.bcol, cur.brow, cur.index + 1))
  {
  }

  lemma OrderStep(visits: seq<(nat, nat)>, width: int, height: int, bs: nat, cur: Loc, cell: (nat, nat))
    requires bs > 0 && VisitsBefore(visits, width, height, bs, cur) && VisitsInOrder(visits, bs)
    requires 0 <= cell.0 && 0 <= cell.1 && Locate(cell.0, cell.1, bs) == cur
    ensures VisitsInOrder(visits + [cell], bs)
  {
    var more := visits + [cell];
    forall i, j | 0 <= i < j < |more|
      ensures Before(Locate(more[i].0, more[i].1, bs), Locate(more[j].0, more[j].1, bs))
    {
      assert more[i] == visits[i];
      if j < |visits| { assert more[j] == visits[j]; }
    }
  }

  /** One step of the map pass keeps the visits in order and complete. */
  lemma VisitedStep(visits: seq<(nat, nat)>, width: int, height: int, bs: nat, cur: Loc)
    requires bs > 0 && cur.index < bs * bs
    requires Visited(visits, width, height, bs, cur)
    ensures var cell := CellOf(cur, bs);
      var next := Loc(cur.bcol, cur.brow, cur.index + 1);
      && (cell.0 < width && cell.1 < height ==> Visited(visits + [cell], width, height, bs, next))
      && (!(cell.0 < width && cell.1 < height) ==> Visited(visits, width, height, bs, next))
  {
    var cell := CellOf(cur, bs);
    LocateCellOf(cur, bs);
    if cell.0 < width && cell.1 < height {
      BeforeStep(visits, width, height, bs, cur, cell);
      CoverStep(visits, width, height, bs, cur, visits + [cell]);
      OrderStep(visits, width, height, bs, cur, cell);
    } else {
      BeforeStep0(visits, width, height, bs, cur);
      CoverStep(visits, width, height, bs, cur, visits);
    }
  }

  lemma BeforeStep0(visits: seq<(nat, nat)>, width: int, height: int, bs: nat, cur: Loc)
    requires bs > 0 && VisitsBefore(visits, width, height, bs, cur)
    ensures VisitsBefore(visits, width, height, bs, Loc(cur.bcol, cur.brow, cur.index + 1))
  {
  }

  /** Past the last offset of a block comes the next block. */
  lemma VisitedNextBlock(visits: seq<(nat, nat)>, width: int, height: int, bs: nat, bCol: nat, bRow: nat)
    requires bs > 0
    requires Visited(visits, width, height, bs, Loc(bCol, bRow, bs * bs))
    ensures Visited(visits, width, height, bs, Loc(bCol + 1, bRow, 0))
  {
  }

  /** Past the last block of a row of blocks comes the next row. */
  lemma VisitedNextRow(visits: seq<(nat, nat)>, width: nat, height: int, bs: nat, bRow: nat)
    requires bs > 0
    requires Visited(visits, width, height, bs, Loc(CeilDiv(width, bs), bRow, 0))
    ensures Visited(visits, width, height, bs, Loc(0, bRow + 1, 0))
  {
    LocateInGrid(width, if height < 0 then 0 else height, bs);
    forall loc: Loc | loc.index < bs * bs && Before(loc, Loc(0, bRow + 1, 0)) && CellOf(loc, bs).0 < width && CellOf(loc, bs).1 < height
      ensures CellOf(loc, bs) in visits
    {
      ColumnInGrid(loc.bcol, loc.index % bs, bs, width);
    }
  }

  /** A block that holds a cell of the array lies inside the grid of
      blocks. */
  lemma ColumnInGrid(bcol: nat, x: nat, bs: nat, width: nat)
    requires bs > 0 && bcol * bs + x < width
    ensures bcol < CeilDiv(width, bs)
  {
    DivModUnique(bcol * bs, bs, bcol, 0);
    BelowCeilDiv(bcol * bs, width, bs);
  }

  /** The cells the map pass visits in the first n offsets of block
      (bcol, brow): the padding cells outside width x height are skipped. */
  function BlockTrace(width: int, height: int, bs: nat, bcol: nat, brow: nat, n: nat): seq<(nat, nat)>
    requires bs > 0
  {
    if n == 0 then []
    else
      var cell := CellOf(Loc(bcol, brow, n - 1), bs);
      BlockTrace(width, height, bs, bcol, brow, n - 1) + (if cell.0 < width && cell.1 < height then [cell] else [])
  }

  /** The cells the map pass visits in the first m blocks of block row brow. */
  function RowTrace(width: int, height: int, bs: nat, brow: nat, m: nat): seq<(nat, nat)>
    requires bs > 0
  {
    if m == 0 then [] else RowTrace(width, height, bs, brow, m - 1) + BlockTrace(width, height, bs, m - 1, brow, bs * bs)
  }

  /** The cells the map pass visits in the first k block rows of a width x
      height array. */
  function Trace(width: nat, height: int, bs: nat, k: nat): seq<(nat, nat)>
    requires bs > 0
  {
    if k == 0 then [] else Trace(width, height, bs, k - 1) + RowTrace(width, height, bs, k - 1, CeilDiv(width, bs))
  }

  lemma Append<X>(a: seq<X>, b: seq<X>, c: seq<X>)
    ensures a + (b + c) == (a + b) + c
  {
  }

  lemma {:induction false} BlockTraceVisited(v0: seq<(nat, nat)>, width: int, height: int, bs: nat, bcol: nat, brow: nat, n: nat)
    requires bs > 0 && n <= bs * bs
    requires Visited(v0, width, height, bs, Loc(bcol, brow, 0))
    ensures Visited(v0 + BlockTrace(width, height, bs, bcol, brow, n), width, height, bs, Loc(bcol, brow, n))
  {
    if n > 0 {
      BlockTraceVisited(v0, width, height, bs, bcol, brow, n - 1);
      BlockStep(v0, width, height, bs, bcol, brow, n);
    }
  }

  lemma BlockStep(v0: seq<(nat, nat)>, width: int, height: int, bs: nat, bcol: nat, brow: nat, n: nat)
    requires bs > 0 && 0 < n <= bs * bs
    requires Visited(v0 + BlockTrace(width, height, bs, bcol, brow, n - 1), width, height, bs, Loc(bcol, brow, n - 1))
    ensures Visited(v0 + BlockTrace(width, height, bs, bcol, brow, n), width, height, bs, Loc(bcol, brow, n))
  {
    var cell := CellOf(Loc(bcol, brow, n - 1), bs);
    var step := if cell.0 < width && cell.1 < height then [cell] else [];
    Append(v0, BlockTrace(width, height, bs, bcol, brow, n - 1), step);
    StepVia(v0 + BlockTrace(width, height, bs, bcol, brow, n - 1), width, height, bs, Loc(bcol, brow, n - 1));
  }

  /** VisitedStep, for the sequence the map pass has after the step. */
  lemma StepVia(before: seq<(nat, nat)>, width: int, height: int, bs: nat, cur: Loc)
    requires bs > 0 && cur.index < bs * bs
    requires Visited(before, width, height, bs, cur)
    ensures var cell := CellOf(cur, bs);
      Visited(before + (if cell.0 < width && cell.1 < height then [cell] else []), width, height, bs,
              Loc(cur.bcol, cur.brow, cur.index + 1))
  {
    var cell := CellOf(cur, bs);
    VisitedStep(before, width, height, bs, cur);
    if !(cell.0 < width && cell.1 < height) {
      assert before + [] == before;
    }
  }

  lemma {:induction false} RowTraceVisited(v0: seq<(nat, nat)>, width: int, height: int, bs: nat, brow: nat, m: nat)
    requires bs > 0
    requires Visited(v0, width, height, bs, Loc(0, brow, 0))
    ensures Visited(v0 + RowTrace(width, height, bs, brow, m), width, height, bs, Loc(m, brow, 0))
  {
    if m > 0 {
      RowTraceVisited(v0, width, height, bs, brow, m - 1);
      RowStep(v0, width, height, bs, brow, m);
    }
  }

  lemma RowStep(v0: seq<(nat, nat)>, width: int, height: int, bs: nat, brow: nat, m: nat)
    requires bs > 0 && m > 0
    requires Visited(v0 + RowTrace(width, height, bs, brow, m - 1), width, height, bs, Loc(m - 1, brow, 0))
    ensures Visited(v0 + RowTrace(width, height, bs, brow, m), width, height, bs, Loc(m, brow, 0))
  {
    Append(v0, RowTrace(width, height, bs, brow, m - 1), BlockTrace(width, height, bs, m - 1, brow, bs * bs));
    BlockVisited(v0 + RowTrace(width, height, bs, brow, m - 1), width, height, bs, m - 1, brow);
  }

  /** After the whole of block (bcol, brow) the pass is at the next block. */
  lemma BlockVisited(before: seq<(nat, nat)>, width: int, height: int, bs: nat, bcol: nat, brow: nat)
    requires bs > 0
    requires Visited(before, width, height, bs, Loc(bcol, brow, 0))
    ensures Visited(before + BlockTrace(width, height, bs, bcol, brow, bs * bs), width, height, bs, Loc(bcol + 1, brow, 0))
  {
    BlockTraceVisited(before, width, height, bs, bcol, brow, bs * bs);
    VisitedNextBlock(before + BlockTrace(width, height, bs, bcol, brow, bs * bs), width, height, bs, bcol, brow);
  }

  lemma {:induction false} TraceVisited(width: nat, height: int, bs: nat, k: nat)
    requires bs > 0
    ensures Visited(Trace(width, height, bs, k), width, height, bs, Loc(0, k, 0))
  {
    if k > 0 {
      TraceVisited(width, height, bs, k - 1);
      var before := Trace(width, height, bs, k - 1);
      RowTraceVisited(before, width, height, bs, k - 1, CeilDiv(width, bs));
      VisitedNextRow(before + RowTrace(width, height, bs, k - 1, CeilDiv(width, bs)), width, height, bs, k - 1);
    }
  }

  /** The map pass visits every cell of a width x height array exactly
      once, and in storage order: block rows top to bottom, blocks left to
      right, offsets in increasing order. */
  lemma TraceOrder(width: nat, height: nat, bs: nat)
    requires bs > 0
    ensures var visits := Trace(width, height, bs, CeilDiv(height, bs));
      && (forall k :: 0 <= k < |visits| ==> visits[k].0 < width && visits[k].1 < height)
      && (forall col, row :: 0 <= col < width && 0 <= row < height ==> (col, row) in visits)
      && (forall i, j :: 0 <= i < j < |visits| ==>
            Before(Locate(visits[i].0, visits[i].1, bs), Locate(visits[j].0, visits[j].1, bs)))
  {
    TraceVisited(width, height, bs, CeilDiv(height, bs));
    LocateInGrid(width, height, bs);
    var visits := Trace(width, height, bs, CeilDiv(height, bs));
    forall col, row | 0 <= col < width && 0 <= row < height
      ensures (col, row) in visits
    {
      assert CellOf(Locate(col, row, bs), bs) == (col, row);
    }
  }

  /** Every cell of a width x height array is stored in one of the
      CeilDiv(width, bs) x CeilDiv(height, bs) blocks. */
  lemma LocateInGrid(width: nat, height: nat, bs: nat)
    requires bs > 0
    ensures forall col, row :: 0 <= col < width && 0 <= row < height ==>
      Locate(col, row, bs).bcol < CeilDiv(width, bs) && Locate(col, row, bs).brow < CeilDiv(height, bs)
  {
    forall col, row | 0 <= col < width && 0 <= row < height
      ensures Locate(col, row, bs).bcol < CeilDiv(width, bs) && Locate(col, row, bs).brow < CeilDiv(height, bs)
    {
      BelowCeilDiv(col, width, bs);
      BelowCeilDiv(row, height, bs);
    }
  }

  /** loc is stored in block (bCol, bRow). */
  predicate InBlock(loc: Loc, bCol: int, bRow: int) {
    loc.bcol == bCol && loc.brow == bRow
  }

  class UArray2b<T> {
    const width: int
    const height: int
    const size: int
    const blocksize: int
    /** The grid of blocks, each a one-dimensional array of
        blocksize * blocksize cells. */
    const blocks: array2<array?<T>>
    /** Which block each block array is: distinct blocks are distinct arrays. */
    ghost const Position: map<array<T>, (int, int)>

    ghost predicate Valid()
      reads this, blocks
    {
      && width >= 0 && height >= 0 && size > 0 && blocksize > 0
      && blocks.Length0 == CeilDiv(width, blocksize)
      && blocks.Length1 == CeilDiv(height, blocksize)
      && Blocks(blocks, blocks.Length1, 0, blocksize, Position)
    }

    /** The cell at (col, row), read through the pointer UArray2b_at returns. */
    ghost function Get(col: int, row: int): T
      requires Valid() && 0 <= col < width && 0 <= row < height
      reads this, blocks, Position.Keys
    {
      var loc := Locate(col, row, blocksize);
      BelowCeilDiv(col, width, blocksize);
      BelowCeilDiv(row, height, blocksize);
      blocks[loc.bcol, loc.brow][loc.index]
    }

    /** UArray2b_new: the blocks are allocated row of blocks by row of
        blocks, every cell starting as init. */
    constructor (width: int, height: int, size: int, blocksize: int, init: T)
      requires width >= 0 && height >= 0 && size > 0 && blocksize > 0
      ensures Valid() && fresh(Position.Keys)
      ensures this.width == width && this.height == height
      ensures this.size == size && this.blocksize == blocksize
      ensures forall col, row :: 0 <= col < width && 0 <= row < height ==> Get(col, row) == init
    {
      var grid;
      ghost var position;
      grid, position := AllocateBlocks(CeilDiv(width, blocksize), CeilDiv(height, blocksize), blocksize, init);
      this.width, this.height, this.size, this.blocksize := width, height, size, blocksize;
      this.blocks, this.Position := grid, position;
      new;
      forall col, row | 0 <= col < width && 0 <= row < height
        ensures Get(col, row) == init
      {
        var loc := Locate(col, row, blocksize);
        BelowCeilDiv(col, width, blocksize);
        BelowCeilDiv(row, height, blocksize);
        assert blocks[loc.bcol, loc.brow] in position;
      }
    }

    /** UArray2b_new_64K_block: the block size is floor(sqrt(65536 / size)),
        the largest whose blocks fit 64 KB. A size above 65536 gives block
        size 0, which UArray2b_new refuses. */
    static method New64KBlock(width: int, height: int, size: int, init: T) returns (a: UArray2b<T>)
      requires width >= 0 && height >= 0 && 0 < size <= 65536
      ensures fresh(a) && a.Valid() && fresh(a.Position.Keys)
      ensures a.width == width && a.height == height && a.size == size
      ensures a.blocksize == BlockSize64K(size)
      ensures a.blocksize * a.blocksize * size <= 65536 < (a.blocksize + 1) * (a.blocksize + 1) * size
      ensures forall col, row :: 0 <= col < width && 0 <= row < height ==> a.Get(col, row) == init
    {
      a := new UArray2b(width, height, size, BlockSize64K(size), init);
    }

    static method AllocateBlocks(bw: nat, bh: nat, bs: nat, init: T)
      returns (grid: array2<array?<T>>, ghost position: map<array<T>, (int, int)>)
      ensures fresh(grid) && fresh(position.Keys)
      ensures grid.Length0 == bw && grid.Length1 == bh
      ensures Blocks(grid, bh, 0, bs, position)
      ensures forall a, k :: a in position && 0 <= k < a.Length ==> a[k] == init
    {
      grid := new array?<T>[bw, bh]((_, _) => null);
      position := map[];
      var bRow := 0;
      while bRow < bh
        invariant 0 <= bRow <= bh
        invariant fresh(position.Keys)
        invariant Blocks(grid, bRow, 0, bs, position)
        invariant forall a, k :: a in position && 0 <= k < a.Length ==> a[k] == init
      {
        var bCol := 0;
        while bCol < bw
          invariant 0 <= bCol <= bw
          invariant fresh(position.Keys)
          invariant Blocks(grid, bRow, bCol, bs, position)
          invariant forall a, k :: a in position && 0 <= k < a.Length ==> a[k] == init
        {
          var block := new T[bs * bs](_ => init);
          grid[bCol, bRow] := block;
          position := position[block := (bCol, bRow)];
          bCol := bCol + 1;
        }
        bRow := bRow + 1;
      }
    }

    /** Writes v to the cell stored at loc, through the pointer UArray2b_at
        returns; every other cell keeps its value. */
    method Store(loc: Loc, v: T)
      requires Valid()
      requires loc.bcol < blocks.Length0 && loc.brow < blocks.Length1 && loc.index < blocksize * blocksize
      modifies blocks[loc.bcol, loc.brow]
      ensures Valid()
      ensures forall col, row :: 0 <= col < width && 0 <= row < height ==>
        Get(col, row) == if Locate(col, row, blocksize) == loc then v else old(Get(col, row))
    {
      var block := blocks[loc.bcol, loc.brow];
      block[loc.index] := v;
      forall col, row | 0 <= col < width && 0 <= row < height
        ensures Get(col, row) == if Locate(col, row, blocksize) == loc then v else old(Get(col, row))
      {
        var l := Locate(col, row, blocksize);
        BelowCeilDiv(col, width, blocksize);
        BelowCeilDiv(row, height, blocksize);
        if l.bcol != loc.bcol || l.brow != loc.brow {
          assert Position[blocks[l.bcol, l.brow]] != Position[block];
        }
      }
    }

    /** `*UArray2b_at(array, col, row) = v`. */
    method Put(col: int, row: int, v: T)
      requires Valid() && 0 <= col < width && 0 <= row < height
      modifies Position.Keys
      ensures Valid()
      ensures Get(col, row) == v
      ensures forall c, r :: 0 <= c < width && 0 <= r < height && (c != col || r != row) ==>
        Get(c, r) == old(Get(c, r))
    {
      BelowCeilDiv(col, width, blocksize);
      BelowCeilDiv(row, height, blocksize);
      Store(Locate(col, row, blocksize), v);
    }

    /** UArray2b_map: visits the blocks row by row, left to right, and the
        cells of each block in storage order, skipping the padding cells that
        lie outside the array, and replaces each cell's value by
        f(col, row, value). Returns the cells in the order they were
        visited. */
    method Map(f: (int, int, T) -> T) returns (visits: seq<(nat, nat)>)
      requires Valid()
      modifies Position.Keys
      ensures Valid()
      ensures forall col, row :: 0 <= col < width && 0 <= row < height ==>
        Get(col, row) == f(col, row, old(Get(col, row)))
      ensures visits == Trace(width, height, blocksize, CeilDiv(height, blocksize))
      ensures forall k :: 0 <= k < |visits| ==> visits[k].0 < width && visits[k].1 < height
      ensures forall col, row :: 0 <= col < width && 0 <= row < height ==> (col, row) in visits
      ensures forall i, j :: 0 <= i < j < |visits| ==>
        Before(Locate(visits[i].0, visits[i].1, blocksize), Locate(visits[j].0, visits[j].1, blocksize))
    {
      var bs := blocksize;
      var bh := CeilDiv(height, bs);
      visits := [];
      var bRow := 0;
      while bRow < bh
        invariant 0 <= bRow <= bh
        invariant Valid()
        invariant visits == Trace(width, height, bs, bRow)
        invariant forall col, row :: 0 <= col < width && 0 <= row < height ==>
          Get(col, row) == if Locate(col, row, bs).brow < bRow then f(col, row, old(Get(col, row))) else old(Get(col, row))
      {
        label Step:
        visits := MapRow(f, bRow, visits);
        forall col, row | 0 <= col < width && 0 <= row < height
          ensures Get(col, row) == if Locate(col, row, bs).brow < bRow + 1 then f(col, row, old(Get(col, row))) else old(Get(col, row))
        {
          if Locate(col, row, bs).brow != bRow {
            assert Get(col, row) == old@Step(Get(col, row));
          }
        }
        bRow := bRow + 1;
      }
      LocateInGrid(width, height, bs);
      TraceOrder(width, height, bs);
    }

    /** The pass over the blocks of block row bRow. */
    method MapRow(f: (int, int, T) -> T, bRow: nat, visits0: seq<(nat, nat)>) returns (visits: seq<(nat, nat)>)
      requires Valid() && bRow < blocks.Length1
      modifies Position.Keys
      ensures Valid()
      ensures visits == visits0 + RowTrace(width, height, blocksize, bRow, CeilDiv(width, blocksize))
      ensures forall col, row :: 0 <= col < width && 0 <= row < height ==>
        Get(col, row) == if Locate(col, row, blocksize).brow == bRow then f(col, row, old(Get(col, row))) else old(Get(col, row))
    {
      var bs := blocksize;
      var bw := CeilDiv(width, bs);
      LocateInGrid(width, height, bs);
      visits := visits0;
      var bCol := 0;
      while bCol < bw
        invariant 0 <= bCol <= bw
        invariant Valid()
        invariant visits == visits0 + RowTrace(width, height, bs, bRow, bCol)
        invariant forall col, row :: 0 <= col < width && 0 <= row < height ==>
          Get(col, row) == if Locate(col, row, bs).brow == bRow && Locate(col, row, bs).bcol < bCol
                           then f(col, row, old(Get(col, row))) else old(Get(col, row))
      {
        label Step:
        Append(visits0, RowTrace(width, height, bs, bRow, bCol), BlockTrace(width, height, bs, bCol, bRow, bs * bs));
        visits := MapBlock(f, bCol, bRow, visits);
        forall col, row | 0 <= col < width && 0 <= row < height
          ensures Get(col, row) == if Locate(col, row, bs).brow == bRow && Locate(col, row, bs).bcol < bCol + 1
                                   then f(col, row, old(Get(col, row))) else old(Get(col, row))
        {
          if !InBlock(Locate(col, row, bs), bCol, bRow) {
            assert Get(col, row) == old@Step(Get(col, row));
          }
        }
        bCol := bCol + 1;
      }
    }

    /** The pass over the cells of block (bCol, bRow). */
    method MapBlock(f: (int, int, T) -> T, bCol: nat, bRow: nat, visits0: seq<(nat, nat)>) returns (visits: seq<(nat, nat)>)
      requires Valid() && bCol < blocks.Length0 && bRow < blocks.Length1
      modifies Position.Keys
      ensures Valid()
      ensures visits == visits0 + BlockTrace(width, height, blocksize, bCol, bRow, blocksize * blocksize)
      ensures forall col, row :: 0 <= col < width && 0 <= row < height ==>
        Get(col, row) == if InBlock(Locate(col, row, blocksize), bCol, bRow) then f(col, row, old(Get(col, row))) else old(Get(col, row))
    {
      var bs := blocksize;
      visits := visits0;
      var index := 0;
      while index < bs * bs
        invariant 0 <= index <= bs * bs
        invariant Valid()
        invariant visits == visits0 + BlockTrace(width, height, bs, bCol, bRow, index)
        invariant forall col, row :: 0 <= col < width && 0 <= row < height ==>
          Get(col, row) == if InBlock(Locate(col, row, bs), bCol, bRow) && Locate(col, row, bs).index < index
                           then f(col, row, old(Get(col, row))) else old(Get(col, row))
      {
        var cell := CellOf(Loc(bCol, bRow, index), bs);
        label Step:
        var inside := MapCell(f, Loc(bCol, bRow, index));
        forall col, row | 0 <= col < width && 0 <= row < height
          ensures Get(col, row) == if InBlock(Locate(col, row, bs), bCol, bRow) && Locate(col, row, bs).index < index + 1
                                   then f(col, row, old(Get(col, row))) else old(Get(col, row))
        {
          if Locate(col, row, bs) != Loc(bCol, bRow, index) {
            assert Get(col, row) == old@Step(Get(col, row));
          }
        }
        Append(visits0, BlockTrace(width, height, bs, bCol, bRow, index), if inside then [cell] else []);
        if inside {
          visits := visits + [cell];
        }
        index := index + 1;
      }
    }

    /** The map pass at one storage location: when the location holds a
        cell of the array, that cell's value v becomes f(col, row, v). */
    method MapCell(f: (int, int, T) -> T, loc: Loc) returns (inside: bool)
      requires Valid()
      requires loc.bcol < blocks.Length0 && loc.brow < blocks.Length1 && loc.index < blocksize * blocksize
      modifies blocks[loc.bcol, loc.brow]
      ensures Valid()
      ensures inside <==> CellOf(loc, blocksize).0 < width && CellOf(loc, blocksize).1 < height
      ensures forall col, row :: 0 <= col < width && 0 <= row < height ==>
        Get(col, row) == if Locate(col, row, blocksize) == loc then f(col, row, old(Get(col, row))) else old(Get(col, row))
    {
      var cell := CellOf(loc, blocksize);
      var col, row := cell.0, cell.1;
      inside := col < width && row < height;
      if inside {
        LocateCellOf(loc, blocksize);
        var block := blocks[loc.bcol, loc.brow];
        assert block[loc.index] == Get(col, row);
        Store(loc, f(col, row, block[loc.index]));
      }
    }
  }
}

/** The playfield of src/game_board.rs: a row-major width*height grid of integers,
    0 meaning empty, with the collision query, the unchecked placement and the
    full-row scan. The board takes a piece as its 5x5 mask and its (x, y) offset,
    which is all of the piece that these operations read. */
module Board {
  import opened Mask

  // ---------------------------------------------------------------------------
  // Board geometry

  /** The row-major index of an in-bounds board cell lies inside the grid. */
  lemma IndexInRange(cx: int, cy: int, w: int, h: int)
    requires 0 <= cx < w && 0 <= cy < h
    ensures 0 <= cx + cy * w < w * h
  {
    assert cy * w <= (h - 1) * w;
  }

  /** A positive multiple of w is at least w. */
  lemma {:induction false} MultipleAtLeast(k: int, w: int)
    requires 1 <= k && 0 <= w
    ensures k * w >= w
  {
    if k > 1 {
      MultipleAtLeast(k - 1, w);
      assert k * w == (k - 1) * w + w;
    }
  }

  /** Distinct in-bounds cells have distinct row-major indices. */
  lemma IndexInjective(a: int, b: int, c: int, d: int, w: int)
    requires 0 <= a < w && 0 <= c < w
    requires a + b * w == c + d * w
    ensures a == c && b == d
  {
    if b < d {
      assert a - c == (d - b) * w;
      MultipleAtLeast(d - b, w);
    } else if d < b {
      assert c - a == (b - d) * w;
      MultipleAtLeast(b - d, w);
    }
  }

  /** The value of board cell (cx, cy). */
  function Cell(grid: seq<int>, w: int, h: int, cx: int, cy: int): int
    requires |grid| == w * h && 0 <= cx < w && 0 <= cy < h
  {
    IndexInRange(cx, cy, w, h);
    grid[cx + cy * w]
  }

  /** Board cell (cx, cy) exists and is empty. */
  predicate Free(grid: seq<int>, w: int, h: int, cx: int, cy: int)
    requires |grid| == w * h
  {
    0 <= cx < w && 0 <= cy < h && Cell(grid, w, h, cx, cy) == 0
  }

  /** Mask cell (mx, my) of a piece whose mask sits at (px, py) is empty, or lands on a free board cell. */
  predicate CellFits(grid: seq<int>, w: int, h: int, mask: seq<int>, px: int, py: int, mx: int, my: int)
    requires |grid| == w * h && |mask| == 25 && 0 <= mx < 5 && 0 <= my < 5
  {
    At(mask, mx, my) != 0 ==> Free(grid, w, h, px + mx, py + my)
  }

  /** The placement test_placement accepts: every occupied mask cell lands inside
      [0, w) x [0, h) on an empty board cell. There is no allowance above row 0. */
  predicate Fits(grid: seq<int>, w: int, h: int, mask: seq<int>, px: int, py: int)
    requires |grid| == w * h && |mask| == 25
  {
    forall mx, my :: 0 <= mx < 5 && 0 <= my < 5 ==> CellFits(grid, w, h, mask, px, py, mx, my)
  }

  /** Mask cell (mx, my) is empty or lands inside the board. */
  predicate CellOnBoard(w: int, h: int, mask: seq<int>, px: int, py: int, mx: int, my: int)
    requires |mask| == 25 && 0 <= mx < 5 && 0 <= my < 5
  {
    At(mask, mx, my) != 0 ==> 0 <= px + mx < w && 0 <= py + my < h
  }

  /** Every occupied mask cell lands inside the board: what place_piece needs to index the grid. */
  predicate OnBoard(w: int, h: int, mask: seq<int>, px: int, py: int)
    requires |mask| == 25
  {
    forall mx, my :: 0 <= mx < 5 && 0 <= my < 5 ==> CellOnBoard(w, h, mask, px, py, mx, my)
  }

  /** A placement that passes the collision test is on the board. */
  lemma FitsOnBoard(grid: seq<int>, w: int, h: int, mask: seq<int>, px: int, py: int)
    requires |grid| == w * h && |mask| == 25
    requires Fits(grid, w, h, mask, px, py)
    ensures OnBoard(w, h, mask, px, py)
  {
    forall mx, my | 0 <= mx < 5 && 0 <= my < 5
      ensures CellOnBoard(w, h, mask, px, py, mx, my)
    {
      assert CellFits(grid, w, h, mask, px, py, mx, my);
    }
  }

  /** A piece with an occupied cell on the board has its offset within 5 cells of the board. */
  lemma OnBoardOffset(w: int, h: int, mask: seq<int>, px: int, py: int)
    requires |mask| == 25 && Filled(mask) > 0 && OnBoard(w, h, mask, px, py)
    ensures -5 < px < w && -5 < py < h
  {
    var mx, my := SomeCell(mask);
    assert CellOnBoard(w, h, mask, px, py, mx, my);
  }

  // ---------------------------------------------------------------------------
  // Placement

  /** The board after the first k steps of place_piece's loop (x outer, y inner):
      step s handles mask cell (s / 5, s % 5) and writes it when it is occupied. */
  function Stamped(grid: seq<int>, w: int, h: int, mask: seq<int>, px: int, py: int, k: int): (r: seq<int>)
    requires |grid| == w * h && |mask| == 25 && 0 <= k <= 25
    requires OnBoard(w, h, mask, px, py)
    ensures |r| == |grid|
  {
    if k == 0 then grid
    else
      var g := Stamped(grid, w, h, mask, px, py, k - 1);
      var mx, my := (k - 1) / 5, (k - 1) % 5;
      if At(mask, mx, my) != 0 then
        assert CellOnBoard(w, h, mask, px, py, mx, my);
        IndexInRange(px + mx, py + my, w, h);
        g[(px + mx) + (py + my) * w := At(mask, mx, my)]
      else g
  }

  /** Step k = x * 5 + y of place_piece's loop handles mask cell (x, y): it writes that
      cell's value at (px + x, py + y) when the cell is occupied. */
  lemma StampedNext(grid: seq<int>, w: int, h: int, mask: seq<int>, px: int, py: int, k: int, x: int, y: int, g: seq<int>)
    requires |grid| == w * h && |mask| == 25 && 0 <= x < 5 && 0 <= y < 5 && k == x * 5 + y
    requires OnBoard(w, h, mask, px, py) && g == Stamped(grid, w, h, mask, px, py, k)
    ensures mask[x + y * 5] != 0 ==>
      0 <= (px + x) + (py + y) * w < |g| &&
      Stamped(grid, w, h, mask, px, py, k + 1) == g[(px + x) + (py + y) * w := mask[x + y * 5]]
    ensures mask[x + y * 5] == 0 ==> Stamped(grid, w, h, mask, px, py, k + 1) == g
  {
    assert k / 5 == x && k % 5 == y;
    if At(mask, x, y) != 0 {
      assert CellOnBoard(w, h, mask, px, py, x, y);
      IndexInRange(px + x, py + y, w, h);
    }
  }

  /** Board cell (cx, cy) is under an occupied cell of the mask at (px, py). */
  predicate Covers(mask: seq<int>, px: int, py: int, cx: int, cy: int)
    requires |mask| == 25
  {
    0 <= cx - px < 5 && 0 <= cy - py < 5 && At(mask, cx - px, cy - py) != 0
  }

  /** Writing board cell (ax, ay) changes that cell and no other. */
  lemma CellUpdate(g: seq<int>, w: int, h: int, ax: int, ay: int, v: int, cx: int, cy: int)
    requires |g| == w * h && 0 <= ax < w && 0 <= ay < h && 0 <= cx < w && 0 <= cy < h
    ensures 0 <= ax + ay * w < |g|
    ensures Cell(g[ax + ay * w := v], w, h, cx, cy) == if cx == ax && cy == ay then v else Cell(g, w, h, cx, cy)
  {
    IndexInRange(ax, ay, w, h);
    IndexInRange(cx, cy, w, h);
    if cx + cy * w == ax + ay * w {
      IndexInjective(cx, cy, ax, ay, w);
    }
  }

  /** Step k of place_piece's loop writes board cell (cx, cy) exactly when that step's
      mask cell is occupied and lands on it. */
  lemma StampedStep(grid: seq<int>, w: int, h: int, mask: seq<int>, px: int, py: int, k: int, cx: int, cy: int)
    requires |grid| == w * h && |mask| == 25 && 0 < k <= 25
    requires OnBoard(w, h, mask, px, py)
    requires 0 <= cx < w && 0 <= cy < h
    ensures Cell(Stamped(grid, w, h, mask, px, py, k), w, h, cx, cy) ==
            if Covers(mask, px, py, cx, cy) && (cx - px) * 5 + (cy - py) == k - 1
            then At(mask, cx - px, cy - py) else Cell(Stamped(grid, w, h, mask, px, py, k - 1), w, h, cx, cy)
  {
    var mx, my := (k - 1) / 5, (k - 1) % 5;
    assert k - 1 == my + mx * 5;
    if Covers(mask, px, py, cx, cy) && (cx - px) * 5 + (cy - py) == k - 1 {
      IndexInjective(cy - py, cx - px, my, mx, 5);
    }
    if At(mask, mx, my) != 0 {
      assert CellOnBoard(w, h, mask, px, py, mx, my);
      CellUpdate(Stamped(grid, w, h, mask, px, py, k - 1), w, h, px + mx, py + my, At(mask, mx, my), cx, cy);
    }
  }

  /** After k steps, a board cell holds the mask value if a step before k covered it,
      and its old value otherwise. */
  lemma {:induction false} StampedAt(grid: seq<int>, w: int, h: int, mask: seq<int>, px: int, py: int, k: int, cx: int, cy: int)
    requires |grid| == w * h && |mask| == 25 && 0 <= k <= 25
    requires OnBoard(w, h, mask, px, py)
    requires 0 <= cx < w && 0 <= cy < h
    ensures Cell(Stamped(grid, w, h, mask, px, py, k), w, h, cx, cy) ==
            if Covers(mask, px, py, cx, cy) && (cx - px) * 5 + (cy - py) < k
            then At(mask, cx - px, cy - py) else Cell(grid, w, h, cx, cy)
  {
    if k > 0 {
      StampedAt(grid, w, h, mask, px, py, k - 1, cx, cy);
      StampedStep(grid, w, h, mask, px, py, k, cx, cy);
    }
  }

  /** place_piece writes each occupied mask value at (px + mx, py + my) and leaves
      every other board cell as it was. */
  lemma PlaceWritesMask(grid: seq<int>, w: int, h: int, mask: seq<int>, px: int, py: int, cx: int, cy: int)
    requires |grid| == w * h && |mask| == 25
    requires OnBoard(w, h, mask, px, py)
    requires 0 <= cx < w && 0 <= cy < h
    ensures Cell(Stamped(grid, w, h, mask, px, py, 25), w, h, cx, cy) ==
            if Covers(mask, px, py, cx, cy) then At(mask, cx - px, cy - py) else Cell(grid, w, h, cx, cy)
  {
    StampedAt(grid, w, h, mask, px, py, 25, cx, cy);
  }

  /** The mask cells handled by the first k steps of place_piece's loop, in that order. */
  function ColumnOrder(mask: seq<int>, k: int): seq<int>
    requires |mask| == 25 && 0 <= k <= 25
  {
    seq(k, s requires 0 <= s < k => At(mask, s / 5, s % 5))
  }

  /** Before step k of a collision-free placement, the board cell that step writes is still empty. */
  lemma StampTargetFree(grid: seq<int>, w: int, h: int, mask: seq<int>, px: int, py: int, k: int)
    requires |grid| == w * h && |mask| == 25 && 0 < k <= 25
    requires OnBoard(w, h, mask, px, py) && Fits(grid, w, h, mask, px, py)
    requires At(mask, (k - 1) / 5, (k - 1) % 5) != 0
    ensures 0 <= px + (k - 1) / 5 < w && 0 <= py + (k - 1) % 5 < h
    ensures Cell(Stamped(grid, w, h, mask, px, py, k - 1), w, h, px + (k - 1) / 5, py + (k - 1) % 5) == 0
  {
    var mx, my := (k - 1) / 5, (k - 1) % 5;
    assert k - 1 == mx * 5 + my;
    assert CellFits(grid, w, h, mask, px, py, mx, my);
    StampedAt(grid, w, h, mask, px, py, k - 1, px + mx, py + my);
  }

  /** Step k of a collision-free placement writes its occupied mask cell onto a board
      entry that is still empty. */
  lemma StampTarget(grid: seq<int>, w: int, h: int, mask: seq<int>, px: int, py: int, k: int) returns (i: int)
    requires |grid| == w * h && |mask| == 25 && 0 < k <= 25
    requires OnBoard(w, h, mask, px, py) && Fits(grid, w, h, mask, px, py)
    requires At(mask, (k - 1) / 5, (k - 1) % 5) != 0
    ensures 0 <= i < |grid| && Stamped(grid, w, h, mask, px, py, k - 1)[i] == 0
    ensures Stamped(grid, w, h, mask, px, py, k) ==
            Stamped(grid, w, h, mask, px, py, k - 1)[i := At(mask, (k - 1) / 5, (k - 1) % 5)]
  {
    StampTargetFree(grid, w, h, mask, px, py, k);
    var mx, my := (k - 1) / 5, (k - 1) % 5;
    IndexInRange(px + mx, py + my, w, h);
    i := (px + mx) + (py + my) * w;
  }

  /** Step k of a collision-free placement adds one occupied cell when its mask cell is occupied. */
  lemma StampStepFilled(grid: seq<int>, w: int, h: int, mask: seq<int>, px: int, py: int, k: int)
    requires |grid| == w * h && |mask| == 25 && 0 < k <= 25
    requires OnBoard(w, h, mask, px, py) && Fits(grid, w, h, mask, px, py)
    ensures Filled(Stamped(grid, w, h, mask, px, py, k)) ==
            Filled(Stamped(grid, w, h, mask, px, py, k - 1)) + (if At(mask, (k - 1) / 5, (k - 1) % 5) != 0 then 1 else 0)
  {
    var v := At(mask, (k - 1) / 5, (k - 1) % 5);
    if v != 0 {
      var i := StampTarget(grid, w, h, mask, px, py, k);
      FilledUpdate(Stamped(grid, w, h, mask, px, py, k - 1), i, v);
    }
  }

  /** One more step of place_piece's loop appends one mask cell to the column order. */
  lemma ColumnOrderStep(mask: seq<int>, k: int)
    requires |mask| == 25 && 0 < k <= 25
    ensures ColumnOrder(mask, k) == ColumnOrder(mask, k - 1) + [At(mask, (k - 1) / 5, (k - 1) % 5)]
  {
  }

  /** The k steps of a collision-free placement fill exactly the cells that those steps wrote. */
  lemma {:induction false} StampedFilled(grid: seq<int>, w: int, h: int, mask: seq<int>, px: int, py: int, k: int)
    requires |grid| == w * h && |mask| == 25 && 0 <= k <= 25
    requires Fits(grid, w, h, mask, px, py)
    ensures OnBoard(w, h, mask, px, py)
    ensures Filled(Stamped(grid, w, h, mask, px, py, k)) == Filled(grid) + Filled(ColumnOrder(mask, k))
  {
    FitsOnBoard(grid, w, h, mask, px, py);
    if k > 0 {
      StampedFilled(grid, w, h, mask, px, py, k - 1);
      StampStepFilled(grid, w, h, mask, px, py, k);
      ColumnOrderStep(mask, k);
      FilledAppend(ColumnOrder(mask, k - 1), [At(mask, (k - 1) / 5, (k - 1) % 5)]);
    }
  }

  /** Filling an empty entry adds one occupied entry. */
  lemma FilledUpdate(g: seq<int>, i: int, v: int)
    requires 0 <= i < |g| && g[i] == 0 && v != 0
    ensures Filled(g[i := v]) == Filled(g) + 1
  {
    assert multiset(g[i := v]) == multiset(g) - multiset{0} + multiset{v};
  }

  /** Reading the mask in place_piece's column order only reorders it. */
  lemma ColumnOrderFilled(mask: seq<int>)
    requires |mask| == 25
    ensures Filled(ColumnOrder(mask, 25)) == Filled(mask)
  {
    var p := seq(25, s requires 0 <= s < 25 => s / 5 + (s % 5) * 5);
    forall i, j | 0 <= i < j < 25
      ensures p[i] != p[j]
    {
      IndexSplit(i / 5, i % 5);
      IndexSplit(j / 5, j % 5);
    }
    PermutationMultiset(mask, ColumnOrder(mask, 25), p);
  }

  /** After a successful collision test, placing the piece adds exactly the mask's
      occupied cells to the board's occupied cells. */
  lemma PlaceAddsCells(grid: seq<int>, w: int, h: int, mask: seq<int>, px: int, py: int)
    requires |grid| == w * h && |mask| == 25
    requires Fits(grid, w, h, mask, px, py)
    ensures OnBoard(w, h, mask, px, py)
    ensures Filled(Stamped(grid, w, h, mask, px, py, 25)) == Filled(grid) + Filled(mask)
  {
    StampedFilled(grid, w, h, mask, px, py, 25);
    ColumnOrderFilled(mask);
  }

  // ---------------------------------------------------------------------------
  // Full rows

  /** Every cell of row y is occupied. */
  predicate RowFull(grid: seq<int>, w: int, h: int, y: int)
    requires |grid| == w * h && 0 <= y < h
  {
    forall x :: 0 <= x < w ==> Cell(grid, w, h, x, y) != 0
  }

  /** No row of the board is full. */
  predicate NoFullRow(grid: seq<int>, w: int, h: int)
    requires |grid| == w * h
  {
    forall y :: 0 <= y < h ==> !RowFull(grid, w, h, y)
  }

  /** The full rows above row n (rows 0 .. n-1), top to bottom. */
  function FullRowsAbove(grid: seq<int>, w: int, h: int, n: int): (rows: seq<int>)
    requires |grid| == w * h && 0 <= n <= h
    ensures forall i :: 0 <= i < |rows| ==> 0 <= rows[i] < n
    ensures forall i, j :: 0 <= i < j < |rows| ==> rows[i] < rows[j]
    ensures forall y :: y in rows <==> 0 <= y < n && RowFull(grid, w, h, y)
  {
    if n == 0 then []
    else FullRowsAbove(grid, w, h, n - 1) + (if RowFull(grid, w, h, n - 1) then [n - 1] else [])
  }

  /** The full rows of the board, top to bottom. */
  function FullRows(grid: seq<int>, w: int, h: int): seq<int>
    requires |grid| == w * h && 0 <= h
  {
    FullRowsAbove(grid, w, h, h)
  }

  /** Mask row my has an occupied cell. */
  predicate RowOccupied(mask: seq<int>, my: int)
    requires |mask| == 25 && 0 <= my < 5
  {
    exists mx :: 0 <= mx < 5 && At(mask, mx, my) != 0
  }

  /** The number of occupied rows among mask rows 0 .. n-1. */
  function OccupiedRows(mask: seq<int>, n: int): int
    requires |mask| == 25 && 0 <= n <= 5
  {
    if n == 0 then 0 else OccupiedRows(mask, n - 1) + (if RowOccupied(mask, n - 1) then 1 else 0)
  }

  /** An occupied mask row holds at least one occupied entry. */
  lemma OccupiedRowFilled(mask: seq<int>, my: int)
    requires |mask| == 25 && 0 <= my < 5 && RowOccupied(mask, my)
    ensures Filled(mask[my * 5..my * 5 + 5]) >= 1
  {
    var mx :| 0 <= mx < 5 && At(mask, mx, my) != 0;
    var row := mask[my * 5..my * 5 + 5];
    assert row[mx] != 0;
    assert row == row[..mx] + ([row[mx]] + row[mx + 1..]);
    FilledAppend(row[..mx], [row[mx]] + row[mx + 1..]);
    FilledAppend([row[mx]], row[mx + 1..]);
    ZerosAtMost(row[..mx]);
    ZerosAtMost(row[mx + 1..]);
  }

  /** A mask has at least as many occupied cells as occupied rows. */
  lemma {:induction false} OccupiedRowsAtMost(mask: seq<int>, n: int)
    requires |mask| == 25 && 0 <= n <= 5
    ensures OccupiedRows(mask, n) <= Filled(mask[..n * 5])
  {
    if n > 0 {
      OccupiedRowsAtMost(mask, n - 1);
      var row := mask[(n - 1) * 5..(n - 1) * 5 + 5];
      assert mask[..n * 5] == mask[..(n - 1) * 5] + row;
      FilledAppend(mask[..(n - 1) * 5], row);
      ZerosAtMost(row);
      if RowOccupied(mask, n - 1) {
        OccupiedRowFilled(mask, n - 1);
      }
    }
  }

  /** Distinct ascending rows, each lying on an occupied row among the mask's first n,
      are no more than the occupied rows. */
  lemma {:induction false} AscendingRowsAtMost(rows: seq<int>, mask: seq<int>, py: int, n: int)
    requires |mask| == 25 && 0 <= n <= 5
    requires forall i, j :: 0 <= i < j < |rows| ==> rows[i] < rows[j]
    requires forall i :: 0 <= i < |rows| ==> 0 <= rows[i] - py < n && RowOccupied(mask, rows[i] - py)
    ensures |rows| <= OccupiedRows(mask, n)
  {
    if n > 0 {
      if |rows| > 0 && rows[|rows| - 1] == py + n - 1 {
        AscendingRowsAtMost(rows[..|rows| - 1], mask, py, n - 1);
      } else {
        forall i | 0 <= i < |rows|
          ensures rows[i] - py < n - 1
        {
          assert rows[i] <= rows[|rows| - 1];
        }
        AscendingRowsAtMost(rows, mask, py, n - 1);
      }
    }
  }

  /** Placing a piece on a board with no full row makes full only rows that the
      piece's occupied cells touch, so their count is at most the mask's occupied cells. */
  lemma NewFullRowsAtMost(grid: seq<int>, w: int, h: int, mask: seq<int>, px: int, py: int, rows: seq<int>)
    requires |grid| == w * h && |mask| == 25 && 0 <= h
    requires OnBoard(w, h, mask, px, py) && NoFullRow(grid, w, h)
    requires forall i, j :: 0 <= i < j < |rows| ==> rows[i] < rows[j]
    requires forall i :: 0 <= i < |rows| ==> 0 <= rows[i] < h && RowFull(Stamped(grid, w, h, mask, px, py, 25), w, h, rows[i])
    ensures |rows| <= Filled(mask)
  {
    var g := Stamped(grid, w, h, mask, px, py, 25);
    forall i | 0 <= i < |rows|
      ensures 0 <= rows[i] - py < 5 && RowOccupied(mask, rows[i] - py)
    {
      var r := rows[i];
      if !(0 <= r - py < 5 && RowOccupied(mask, r - py)) {
        forall x | 0 <= x < w
          ensures Cell(grid, w, h, x, r) != 0
        {
          PlaceWritesMask(grid, w, h, mask, px, py, x, r);
          assert Cell(g, w, h, x, r) != 0;
        }
        assert RowFull(grid, w, h, r);
        assert false;
      }
    }
    AscendingRowsAtMost(rows, mask, py, 5);
    OccupiedRowsAtMost(mask, 5);
    assert mask[..25] == mask;
  }

  // ---------------------------------------------------------------------------
  // The board object

  /** A GameBoard: the grid is updated in place; width and height never change. */
  class GameBoard {
    var grid: seq<int>
    const width: int
    const height: int

    ghost predicate Valid()
      reads this
    {
      0 < width && 0 < height && |grid| == width * height
    }

    /** GameBoard::new: a width*height grid with every cell empty. */
    constructor (width: int, height: int)
      requires 0 < width && 0 < height
      ensures Valid() && this.width == width && this.height == height
      ensures |grid| == width * height && forall i :: 0 <= i < |grid| ==> grid[i] == 0
    {
      this.width := width;
      this.height := height;
      grid := seq(width * height, _ => 0);
    }

    /** test_placement: true exactly when the mask at (px, py) fits; the grid is
        indexed only after both bounds checks of a cell have passed. */
    method TestPlacement(mask: seq<int>, px: int, py: int) returns (ok: bool)
      requires Valid() && |mask| == 25
      ensures ok == Fits(grid, width, height, mask, px, py)
    {
      for x := 0 to 5
        invariant forall mx, my :: 0 <= mx < x && 0 <= my < 5 ==> CellFits(grid, width, height, mask, px, py, mx, my)
      {
        for y := 0 to 5
          invariant forall mx, my :: 0 <= mx < x && 0 <= my < 5 ==> CellFits(grid, width, height, mask, px, py, mx, my)
          invariant forall my :: 0 <= my < y ==> CellFits(grid, width, height, mask, px, py, x, my)
        {
          if mask[x + y * 5] != 0 {
            if px + x >= width || py + y >= height {
              assert !CellFits(grid, width, height, mask, px, py, x, y);
              return false;
            }
            if px + x < 0 || py + y < 0 {
              assert !CellFits(grid, width, height, mask, px, py, x, y);
              return false;
            }
            IndexInRange(px + x, py + y, width, height);
            if grid[(px + x) + (py + y) * width] != 0 {
              assert !CellFits(grid, width, height, mask, px, py, x, y);
              return false;
            }
          }
          assert CellFits(grid, width, height, mask, px, py, x, y);
        }
      }
      return true;
    }

    /** place_piece: writes every occupied mask cell into the grid, with no collision
        check; the cells must be on the board. */
    method PlacePiece(mask: seq<int>, px: int, py: int)
      requires Valid() && |mask| == 25 && OnBoard(width, height, mask, px, py)
      modifies this
      ensures Valid()
      ensures grid == Stamped(old(grid), width, height, mask, px, py, 25)
    {
      var g := grid;
      ghost var start := grid;
      for x := 0 to 5
        invariant g == Stamped(start, width, height, mask, px, py, x * 5)
      {
        ghost var k := x * 5;
        for y := 0 to 5
          invariant k == x * 5 + y
          invariant g == Stamped(start, width, height, mask, px, py, k)
        {
          StampedNext(start, width, height, mask, px, py, k, x, y, g);
          if mask[x + y * 5] != 0 {
            g := g[(px + x) + (py + y) * width := mask[x + y * 5]];
          }
          k := k + 1;
        }
        assert k == (x + 1) * 5;
      }
      grid := g;
    }

    /** full_lines: exactly the full rows, in strictly ascending order. */
    method FullLines() returns (rows: seq<int>)
      requires Valid()
      ensures forall i, j :: 0 <= i < j < |rows| ==> rows[i] < rows[j]
      ensures forall y :: y in rows <==> 0 <= y < height && RowFull(grid, width, height, y)
      ensures rows == FullRows(grid, width, height)
    {
      rows := [];
      for y := 0 to height
        invariant rows == FullRowsAbove(grid, width, height, y)
      {
        var full := true;
        for x := 0 to width
          invariant full <==> forall x' :: 0 <= x' < x ==> Cell(grid, width, height, x', y) != 0
        {
          IndexInRange(x, y, width, height);
          if grid[x + y * width] == 0 {
            assert Cell(grid, width, height, x, y) == 0;
            full := false;
            break;
          }
        }
        if full {
          rows := rows + [y];
        }
      }
    }
  }
}

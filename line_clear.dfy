/** Clearing the full lines after a piece locks (the game loop's row shifting).
    The loops are written for a board ten cells wide; the height is a parameter. */
module LineClear {
  import opened Mask
  import opened Board

  /** `n` empty cells. */
  function Zeros(n: nat): (z: seq<int>)
    ensures |z| == n && forall i :: 0 <= i < n ==> z[i] == 0
  {
    seq(n, _ => 0)
  }

  /** Clearing one line of a ten-wide grid: the row disappears, every row above it
      moves down by one and an empty row appears at the top. */
  function ClearOne(g: seq<int>, line: int): (r: seq<int>)
    requires 0 <= line && 10 * line + 10 <= |g|
    ensures |r| == |g|
  {
    Zeros(10) + g[..10 * line] + g[10 * line + 10..]
  }

  /** Cell by cell: the top row is empty, rows 1 .. line hold the row above them,
      rows below the cleared line are untouched. */
  lemma ClearOneIndex(g: seq<int>, line: int)
    requires 0 <= line && 10 * line + 10 <= |g|
    ensures forall i :: 0 <= i < |g| ==>
      ClearOne(g, line)[i] == if i < 10 then 0 else if i < 10 * line + 10 then g[i - 10] else g[i]
  {
    var a := Zeros(10) + g[..10 * line];
    var b := g[10 * line + 10..];
    assert ClearOne(g, line) == a + b;
    forall i | 0 <= i < |g|
      ensures (a + b)[i] == if i < 10 then 0 else if i < 10 * line + 10 then g[i - 10] else g[i]
    {
      if i < 10 * line + 10 {
        assert (a + b)[i] == a[i];
      } else {
        assert (a + b)[i] == b[i - (10 * line + 10)];
      }
    }
  }

  /** The same, stated on board cells (column x, row y). */
  lemma ClearOneCellAt(g: seq<int>, h: int, line: int, x: int, y: int)
    requires |g| == 10 * h && 0 <= line < h && 0 <= x < 10 && 0 <= y < h
    ensures Cell(ClearOne(g, line), 10, h, x, y) ==
      if y == 0 then 0 else if y <= line then Cell(g, 10, h, x, y - 1) else Cell(g, 10, h, x, y)
  {
    var a := Zeros(10) + g[..10 * line];
    var b := g[10 * line + 10..];
    var i := x + y * 10;
    assert ClearOne(g, line) == a + b;
    if y == 0 {
      assert (a + b)[i] == Zeros(10)[i];
    } else if y <= line {
      assert (a + b)[i] == a[i] == g[i - 10];
    } else {
      assert (a + b)[i] == b[i - (10 * line + 10)];
    }
  }

  /** All the given lines cleared one after another, in the order given. */
  function Cleared(g: seq<int>, h: int, lines: seq<int>): (r: seq<int>)
    requires |g| == 10 * h
    requires forall i :: 0 <= i < |lines| ==> 0 <= lines[i] < h
    ensures |r| == |g|
    decreases |lines|
  {
    if |lines| == 0 then g
    else ClearOne(Cleared(g, h, lines[..|lines| - 1]), lines[|lines| - 1])
  }

  /** Row y of G equals row y of g. */
  ghost predicate SameRow(G: seq<int>, g: seq<int>, h: int, y: int)
    requires |G| == 10 * h && |g| == 10 * h && 0 <= y < h
  {
    forall x :: 0 <= x < 10 ==> Cell(G, 10, h, x, y) == Cell(g, 10, h, x, y)
  }

  /** `lines` are exactly the full rows of g, top to bottom. */
  ghost predicate ExactlyFullRows(g: seq<int>, h: int, lines: seq<int>)
    requires |g| == 10 * h
  {
    (forall i :: 0 <= i < |lines| ==> 0 <= lines[i] < h) &&
    (forall i, j :: 0 <= i < j < |lines| ==> lines[i] < lines[j]) &&
    (forall y :: y in lines <==> 0 <= y < h && RowFull(g, 10, h, y))
  }

  /** The last of the first k lines, or -1 when k is 0. */
  function LastCleared(lines: seq<int>, k: int): int
    requires 0 <= k <= |lines|
  {
    if k == 0 then -1 else lines[k - 1]
  }

  /** After clearing the first k of the full rows, every row down to the last one
      cleared is not full, and every row below it is as it was. */
  lemma {:induction false} ClearedPrefix(g: seq<int>, h: int, lines: seq<int>, k: int)
    requires |g| == 10 * h && ExactlyFullRows(g, h, lines) && 0 <= k <= |lines|
    ensures forall y :: 0 <= y < h && y <= LastCleared(lines, k) ==> !RowFull(Cleared(g, h, lines[..k]), 10, h, y)
    ensures forall y :: 0 <= y < h && LastCleared(lines, k) < y ==> SameRow(Cleared(g, h, lines[..k]), g, h, y)
  {
    if k > 0 {
      ClearedPrefix(g, h, lines, k - 1);
      assert lines[..k][..k - 1] == lines[..k - 1];
      var G' := Cleared(g, h, lines[..k - 1]);
      var last' := LastCleared(lines, k - 1);
      var m := lines[k - 1];
      assert Cleared(g, h, lines[..k]) == ClearOne(G', m);
      var G := ClearOne(G', m);
      forall y | 0 <= y < h && y <= m
        ensures !RowFull(G, 10, h, y)
      {
        if y == 0 {
          ClearOneCellAt(G', h, m, 0, 0);
        } else if y - 1 <= last' {
          assert !RowFull(G', 10, h, y - 1);
          var x :| 0 <= x < 10 && Cell(G', 10, h, x, y - 1) == 0;
          ClearOneCellAt(G', h, m, x, y);
        } else {
          assert SameRow(G', g, h, y - 1);
          forall j | 0 <= j < |lines|
            ensures lines[j] != y - 1
          {
            if j < k - 1 {
              assert lines[j] <= last';
            } else {
              assert lines[j] >= m;
            }
          }
          assert !RowFull(g, 10, h, y - 1);
          var x :| 0 <= x < 10 && Cell(g, 10, h, x, y - 1) == 0;
          ClearOneCellAt(G', h, m, x, y);
        }
      }
      forall y | 0 <= y < h && m < y
        ensures SameRow(G, g, h, y)
      {
        assert SameRow(G', g, h, y);
        forall x | 0 <= x < 10
          ensures Cell(G, 10, h, x, y) == Cell(g, 10, h, x, y)
        {
          ClearOneCellAt(G', h, m, x, y);
        }
      }
    }
  }

  /** Clearing exactly the full rows leaves no full row. */
  lemma ClearedNoFullRow(g: seq<int>, h: int, lines: seq<int>)
    requires |g| == 10 * h && ExactlyFullRows(g, h, lines)
    ensures NoFullRow(Cleared(g, h, lines), 10, h)
  {
    ClearedPrefix(g, h, lines, |lines|);
    assert lines[..|lines|] == lines;
    var G := Cleared(g, h, lines);
    forall y | 0 <= y < h
      ensures !RowFull(G, 10, h, y)
    {
      if |lines| > 0 && y <= lines[|lines| - 1] {
      } else {
        assert SameRow(G, g, h, y);
        forall j | 0 <= j < |lines|
          ensures lines[j] != y
        {
          assert lines[j] <= lines[|lines| - 1];
        }
        assert !RowFull(g, 10, h, y);
      }
    }
  }

  /** Clearing exactly the full rows leaves every row below the lowest of them as it was. */
  lemma ClearedKeepsBelow(g: seq<int>, h: int, lines: seq<int>, y: int)
    requires |g| == 10 * h && ExactlyFullRows(g, h, lines) && 0 <= y < h
    requires forall i :: 0 <= i < |lines| ==> lines[i] < y
    ensures SameRow(Cleared(g, h, lines), g, h, y)
  {
    ClearedPrefix(g, h, lines, |lines|);
    assert lines[..|lines|] == lines;
  }

  /** The rows 0 .. n-1 of a ten-wide grid that `lines` does not list, top to bottom, joined. */
  function Kept(g: seq<int>, n: int, lines: seq<int>): (r: seq<int>)
    requires 0 <= n && 10 * n <= |g|
    decreases n
  {
    if n == 0 then [] else Kept(g, n - 1, lines) + (if n - 1 in lines then [] else g[10 * (n - 1)..10 * n])
  }

  /** Kept depends only on which of the rows 0 .. n-1 are listed. */
  lemma {:induction false} KeptAgree(g: seq<int>, n: int, p: seq<int>, q: seq<int>)
    requires 0 <= n && 10 * n <= |g|
    requires forall y :: 0 <= y < n ==> (y in p <==> y in q)
    ensures Kept(g, n, p) == Kept(g, n, q)
  {
    if n > 0 {
      KeptAgree(g, n - 1, p, q);
    }
  }

  /** Rows a .. b-1 that are not listed are kept as one block. */
  lemma {:induction false} KeptBlock(g: seq<int>, a: int, b: int, lines: seq<int>)
    requires 0 <= a <= b && 10 * b <= |g|
    requires forall y :: a <= y < b ==> y !in lines
    ensures Kept(g, b, lines) == Kept(g, a, lines) + g[10 * a..10 * b]
  {
    if b > a {
      KeptBlock(g, a, b - 1, lines);
      assert g[10 * a..10 * b] == g[10 * a..10 * (b - 1)] + g[10 * (b - 1)..10 * b];
    }
  }

  /** Strictly ascending rows, each below n. */
  ghost predicate AscendingBelow(lines: seq<int>, n: int)
  {
    (forall i :: 0 <= i < |lines| ==> 0 <= lines[i] < n) &&
    (forall i, j :: 0 <= i < j < |lines| ==> lines[i] < lines[j])
  }

  /** With nothing listed, all n rows are kept. */
  lemma {:induction false} KeptAll(g: seq<int>, n: int)
    requires 0 <= n && 10 * n <= |g|
    ensures |Kept(g, n, [])| == 10 * n
  {
    if n > 0 {
      KeptAll(g, n - 1);
    }
  }

  /** Leaving out |lines| of the first n rows keeps the other n - |lines| rows. */
  lemma {:induction false} KeptLength(g: seq<int>, n: int, lines: seq<int>)
    requires 0 <= n && 10 * n <= |g| && AscendingBelow(lines, n)
    ensures |Kept(g, n, lines)| == 10 * (n - |lines|)
    decreases |lines|
  {
    if |lines| == 0 {
      KeptAll(g, n);
    } else {
      var k := |lines| - 1;
      var last := lines[k];
      var rest := lines[..k];
      assert lines == rest + [last];
      forall j | 0 <= j < |lines|
        ensures lines[j] <= last
      {
        if j < k {
          assert lines[j] < lines[k];
        }
      }
      KeptBlock(g, last + 1, n, lines);
      forall i | 0 <= i < k
        ensures rest[i] < last
      {
        assert lines[i] < lines[k];
      }
      KeptAgree(g, last, lines, rest);
      KeptLength(g, last, rest);
    }
  }

  /** Clearing row m of a board whose first s rows are `a` and whose other rows are
      those of g: an empty row, then `a`, then g's rows s .. m-1, then g below row m. */
  lemma ClearOneAfter(g: seq<int>, a: seq<int>, s: int, m: int)
    requires 0 <= s <= m && 10 * m + 10 <= |g| && |a| == 10 * s
    ensures ClearOne(a + g[10 * s..], m) == Zeros(10) + (a + g[10 * s..10 * m]) + g[10 * (m + 1)..]
  {
    var b := a + g[10 * s..];
    assert b[..10 * m] == a + g[10 * s..10 * m];
    assert b[10 * m + 10..] == g[10 * (m + 1)..];
  }

  /** Concatenation regrouped. */
  lemma Regroup(z: seq<int>, zk: seq<int>, ka: seq<int>, b: seq<int>, c: seq<int>)
    ensures z + (zk + ka + b) + c == (z + zk) + (ka + b) + c
  {
  }

  /** Every one of the first k - 1 listed rows, p0, lies at or above the last of them, and
      the k-th lies below all of them. */
  lemma PrefixBelow(lines: seq<int>, h: int, k: int, p0: seq<int>)
    requires AscendingBelow(lines, h) && 0 < k <= |lines| && p0 == lines[..k - 1]
    ensures LastCleared(lines, k - 1) < lines[k - 1]
    ensures forall y :: y in p0 ==> y <= LastCleared(lines, k - 1)
    ensures AscendingBelow(p0, LastCleared(lines, k - 1) + 1)
  {
    var m0 := LastCleared(lines, k - 1);
    if k > 1 {
      assert lines[k - 2] < lines[k - 1];
    }
    forall j | 0 <= j < k - 1
      ensures p0[j] <= m0
    {
      assert lines[j] <= lines[k - 2];
    }
  }

  /** Listing one more row m below all listed rows: the rows kept up to m are those kept
      up to the last listed row m0, then the unlisted block between m0 and m. */
  lemma KeptAppend(g: seq<int>, p0: seq<int>, m0: int, m: int)
    requires -1 <= m0 < m && 10 * (m + 1) <= |g|
    requires forall y :: y in p0 ==> y <= m0
    ensures Kept(g, m + 1, p0 + [m]) == Kept(g, m0 + 1, p0) + g[10 * (m0 + 1)..10 * m]
  {
    var p := p0 + [m];
    assert forall y :: y in p <==> y in p0 || y == m;
    KeptAgree(g, m0 + 1, p, p0);
    KeptBlock(g, m0 + 1, m, p);
    assert m in p;
  }

  /** The rows up to the k-th listed row that are kept are the rows kept up to the
      (k-1)-th, followed by the block of unlisted rows between the two. */
  lemma KeptExtend(g: seq<int>, h: int, lines: seq<int>, k: int)
    requires |g| == 10 * h && AscendingBelow(lines, h) && 0 < k <= |lines|
    ensures LastCleared(lines, k - 1) < lines[k - 1]
    ensures Kept(g, lines[k - 1] + 1, lines[..k]) ==
      Kept(g, LastCleared(lines, k - 1) + 1, lines[..k - 1]) + g[10 * (LastCleared(lines, k - 1) + 1)..10 * lines[k - 1]]
    ensures |Kept(g, LastCleared(lines, k - 1) + 1, lines[..k - 1])| == 10 * (LastCleared(lines, k - 1) + 1 - (k - 1))
  {
    var p0 := lines[..k - 1];
    var m0, m := LastCleared(lines, k - 1), lines[k - 1];
    PrefixBelow(lines, h, k, p0);
    KeptLength(g, m0 + 1, p0);
    assert lines[..k] == p0 + [m];
    KeptAppend(g, p0, m0, m);
  }

  /** Clearing row m of a board made of k - 1 empty rows, then kept rows ka that reach
      down to row m0, then g below m0: k empty rows, ka, g's rows m0+1 .. m-1, g below m. */
  lemma ClearOneShape(g: seq<int>, h: int, k: int, ka: seq<int>, m0: int, m: int)
    requires |g| == 10 * h && 0 < k && -1 <= m0 < m < h && |ka| == 10 * (m0 + 1 - (k - 1))
    ensures ClearOne(Zeros(10 * (k - 1)) + ka + g[10 * (m0 + 1)..], m) ==
      Zeros(10 * k) + (ka + g[10 * (m0 + 1)..10 * m]) + g[10 * (m + 1)..]
  {
    var zk := Zeros(10 * (k - 1));
    ClearOneAfter(g, zk + ka, m0 + 1, m);
    assert Zeros(10 * k) == Zeros(10) + zk;
    Regroup(Zeros(10), zk, ka, g[10 * (m0 + 1)..10 * m], g[10 * (m + 1)..]);
  }

  /** One more cleared line keeps the shape ClearedShape describes. */
  lemma ClearedShapeStep(g: seq<int>, h: int, lines: seq<int>, k: int)
    requires |g| == 10 * h && AscendingBelow(lines, h) && 0 < k <= |lines|
    requires 10 * (LastCleared(lines, k - 1) + 1) <= |g|
    requires Cleared(g, h, lines[..k - 1]) ==
      Zeros(10 * (k - 1)) + Kept(g, LastCleared(lines, k - 1) + 1, lines[..k - 1]) + g[10 * (LastCleared(lines, k - 1) + 1)..]
    ensures Cleared(g, h, lines[..k]) ==
      Zeros(10 * k) + Kept(g, lines[k - 1] + 1, lines[..k]) + g[10 * (lines[k - 1] + 1)..]
  {
    var p0, p := lines[..k - 1], lines[..k];
    assert p[..k - 1] == p0;
    var m0, m := LastCleared(lines, k - 1), lines[k - 1];
    assert Cleared(g, h, p) == ClearOne(Cleared(g, h, p0), m);
    KeptExtend(g, h, lines, k);
    ClearOneShape(g, h, k, Kept(g, m0 + 1, p0), m0, m);
  }

  /** After clearing the first k lines, the board is k empty rows, then the rows above
      the last line cleared that were not cleared, then the rest of the board as it was. */
  lemma {:induction false} ClearedShape(g: seq<int>, h: int, lines: seq<int>, k: int)
    requires |g| == 10 * h && AscendingBelow(lines, h) && 0 <= k <= |lines|
    ensures 10 * (LastCleared(lines, k) + 1) <= |g|
    ensures Cleared(g, h, lines[..k]) ==
      Zeros(10 * k) + Kept(g, LastCleared(lines, k) + 1, lines[..k]) + g[10 * (LastCleared(lines, k) + 1)..]
  {
    if k == 0 {
      assert Zeros(0) + Kept(g, 0, lines[..0]) + g[0..] == g;
    } else {
      ClearedShape(g, h, lines, k - 1);
      ClearedShapeStep(g, h, lines, k);
    }
  }

  /** No listed row lies below the last one. */
  lemma LastIsLowest(lines: seq<int>, h: int)
    requires AscendingBelow(lines, h)
    ensures forall y :: y in lines ==> y <= LastCleared(lines, |lines|)
  {
    forall y | y in lines
      ensures y <= LastCleared(lines, |lines|)
    {
      var j :| 0 <= j < |lines| && lines[j] == y;
      if j < |lines| - 1 {
        assert lines[j] < lines[|lines| - 1];
      }
    }
  }

  /** Rows below every listed row are all kept, after the rows kept above them. */
  lemma KeptTail(g: seq<int>, h: int, lines: seq<int>, m: int)
    requires |g| == 10 * h && -1 <= m < h && forall y :: y in lines ==> y <= m
    ensures Kept(g, h, lines) == Kept(g, m + 1, lines) + g[10 * (m + 1)..]
  {
    KeptBlock(g, m + 1, h, lines);
    assert g[10 * (m + 1)..] == g[10 * (m + 1)..10 * h];
  }

  /** The line clear deletes the listed rows and puts as many empty rows on top: the
      result is |lines| empty rows followed by the rows not listed, in their old order. */
  lemma ClearedDeletesRows(g: seq<int>, h: int, lines: seq<int>)
    requires |g| == 10 * h && AscendingBelow(lines, h)
    ensures Cleared(g, h, lines) == Zeros(10 * |lines|) + Kept(g, h, lines)
  {
    var k := |lines|;
    ClearedShape(g, h, lines, k);
    assert lines[..k] == lines;
    LastIsLowest(lines, h);
    KeptTail(g, h, lines, LastCleared(lines, k));
  }

  /** A row with every cell occupied holds ten occupied cells. */
  lemma FullRowFilled(g: seq<int>, h: int, y: int)
    requires |g| == 10 * h && 0 <= y < h && RowFull(g, 10, h, y)
    ensures Filled(g[10 * y..10 * y + 10]) == 10
  {
    var row := g[10 * y..10 * y + 10];
    forall i | 0 <= i < 10
      ensures row[i] != 0
    {
      assert row[i] == Cell(g, 10, h, i, y);
    }
    assert 0 !in multiset(row);
  }

  /** Clearing a full row takes its ten occupied cells off the board. */
  lemma ClearOneFilled(g: seq<int>, h: int, m: int)
    requires |g| == 10 * h && 0 <= m < h && RowFull(g, 10, h, m)
    ensures Filled(ClearOne(g, m)) == Filled(g) - 10
  {
    FullRowFilled(g, h, m);
    var top, row, rest := g[..10 * m], g[10 * m..10 * m + 10], g[10 * m + 10..];
    assert g == top + row + rest;
    FilledAppend(top + row, rest);
    FilledAppend(top, row);
    FilledAppend(Zeros(10) + top, rest);
    FilledAppend(Zeros(10), top);
    AllZeroUnfilled(Zeros(10));
  }

  /** Each cleared full row takes exactly ten occupied cells off the board. */
  lemma {:induction false} ClearedFilled(g: seq<int>, h: int, lines: seq<int>, k: int)
    requires |g| == 10 * h && ExactlyFullRows(g, h, lines) && 0 <= k <= |lines|
    ensures Filled(Cleared(g, h, lines[..k])) == Filled(g) - 10 * k
  {
    if k > 0 {
      ClearedFilled(g, h, lines, k - 1);
      ClearedPrefix(g, h, lines, k - 1);
      assert lines[..k][..k - 1] == lines[..k - 1];
      var G' := Cleared(g, h, lines[..k - 1]);
      var m := lines[k - 1];
      assert Cleared(g, h, lines[..k]) == ClearOne(G', m);
      assert m in lines;
      assert k == 1 || lines[k - 2] < m;
      assert SameRow(G', g, h, m);
      assert RowFull(G', 10, h, m);
      ClearOneFilled(G', h, m);
    }
  }

  /** The cell one row above flat index i of a ten-wide grid. */
  function Above(g: seq<int>, i: int): int
    requires 10 <= i < |g| + 10
  {
    g[i - 10]
  }

  /** One iteration of the clearing loop, in place: rows line, line-1, ..., 1 each
      receive the row above them, bottom row first, then row 0 is emptied. */
  method ClearLine(board: GameBoard, line: int)
    requires board.Valid() && board.width == 10 && 0 <= line < board.height
    modifies board
    ensures board.Valid()
    ensures board.grid == ClearOne(old(board.grid), line)
  {
    ghost var g0 := board.grid;
    for y := line downto 0
      invariant |board.grid| == |g0|
      invariant forall i :: 0 <= i < |g0| ==>
        board.grid[i] == if 10 * (y + 1) <= i < 10 * line + 10 then Above(g0, i) else g0[i]
    {
      for x := 0 to 10
        invariant |board.grid| == |g0|
        invariant forall i :: 0 <= i < |g0| ==>
          board.grid[i] ==
            if (10 * (y + 1) <= i < 10 * (y + 1) + x) || (10 * (y + 2) <= i < 10 * line + 10)
            then Above(g0, i) else g0[i]
      {
        board.grid := board.grid[x + (y + 1) * 10 := board.grid[x + y * 10]];
      }
    }
    for x := 0 to 10
      invariant |board.grid| == |g0|
      invariant forall i :: 0 <= i < |g0| ==>
        board.grid[i] == if i < x then 0 else if 10 <= i < 10 * line + 10 then Above(g0, i) else g0[i]
    {
      board.grid := board.grid[x := 0];
    }
    ClearOneIndex(g0, line);
    assert forall i :: 0 <= i < |g0| ==> board.grid[i] == ClearOne(g0, line)[i];
  }

  /** The clearing loop of the game: the lines are cleared one after another,
      in the order FullLines reports them. */
  method ClearFullLines(board: GameBoard, lines: seq<int>)
    requires board.Valid() && board.width == 10
    requires forall i :: 0 <= i < |lines| ==> 0 <= lines[i] < board.height
    modifies board
    ensures board.Valid()
    ensures board.grid == Cleared(old(board.grid), board.height, lines)
  {
    for i := 0 to |lines|
      invariant board.Valid()
      invariant board.grid == Cleared(old(board.grid), board.height, lines[..i])
    {
      assert lines[..i + 1][..i] == lines[..i];
      ClearLine(board, lines[i]);
    }
    assert lines[..|lines|] == lines;
  }
}

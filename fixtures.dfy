/** The two unit tests of src/tetris_piece.rs, stated as verified scenarios: creating a
    T piece, and a counter-clockwise turn of a J piece that only the fifth kick lets through. */
module Fixtures {
  import opened Mask
  import opened Board
  import opened Piece

  /** test_piece_creation: a new T piece is a T with the T spawn mask. */
  method PieceCreation() returns (t: TetrisPiece)
    ensures t.kind == T
    ensures t.grid == [0, 0, 0, 0, 0,
                       0, 0, 3, 0, 0,
                       0, 3, 3, 3, 0,
                       0, 0, 0, 0, 0,
                       0, 0, 0, 0, 0]
  {
    t := new TetrisPiece(T);
  }

  /** The 10 x 20 board of test_srs_rotation before the turn: thirteen empty rows, then
      rows 13 to 19. */
  function KickBoard(): (g: seq<int>)
    ensures |g| == 200
  {
    seq(130, _ => 0) +
    [0, 0, 0, 0, 1, 1, 0, 0, 0, 0] +
    [0, 0, 0, 0, 0, 1, 1, 1, 0, 0] +
    [0, 0, 0, 0, 0, 0, 1, 1, 1, 1] +
    [0, 1, 1, 1, 0, 0, 0, 1, 1, 1] +
    [1, 1, 0, 0, 0, 0, 1, 1, 1, 1] +
    [1, 1, 1, 1, 0, 0, 1, 1, 1, 1] +
    [1, 1, 1, 1, 1, 0, 1, 1, 1, 1]
  }

  /** The board test_srs_rotation expects once the turned J is placed. */
  function KickedBoard(): (g: seq<int>)
    ensures |g| == 200
  {
    seq(130, _ => 0) +
    [0, 0, 0, 0, 1, 1, 0, 0, 0, 0] +
    [0, 0, 0, 0, 0, 1, 1, 1, 0, 0] +
    [0, 0, 0, 0, 0, 0, 1, 1, 1, 1] +
    [0, 1, 1, 1, 0, 6, 0, 1, 1, 1] +
    [1, 1, 0, 0, 0, 6, 1, 1, 1, 1] +
    [1, 1, 1, 1, 6, 6, 1, 1, 1, 1] +
    [1, 1, 1, 1, 1, 0, 1, 1, 1, 1]
  }

  /** The J spawn mask turned counter-clockwise once: id 6 at mask cells (2, 1), (2, 2),
      (2, 3) and (1, 3). */
  const JLeft: seq<int> := seq(25, i => if i in {7, 12, 17, 16} then 6 else 0)

  /** rotate_ccw turns the J spawn mask into the left-facing J. */
  lemma JTurnsLeft()
    ensures RotatedCCW(SpawnMask(J)) == JLeft
  {
    RotatedCCWCells(SpawnMask(J));
    MaskExt(RotatedCCW(SpawnMask(J)), JLeft);
  }

  /** The occupied cells of the left-facing J, by column and row. */
  lemma JLeftCells()
    ensures forall mx, my :: 0 <= mx < 5 && 0 <= my < 5 ==>
      At(JLeft, mx, my) == if (mx == 2 && 1 <= my <= 3) || (mx == 1 && my == 3) then 6 else 0
  {
    forall mx, my | 0 <= mx < 5 && 0 <= my < 5
      ensures At(JLeft, mx, my) == if (mx == 2 && 1 <= my <= 3) || (mx == 1 && my == 3) then 6 else 0
    {
      IndexSplit(mx, my);
    }
  }

  /** The kick vectors for the turn from rotation 0 to rotation 3 of a J. */
  lemma JKicksZeroToThree()
    ensures KickDifferences(KickTable(J)[0], KickTable(J)[3]) == JKicks
  {
  }

  /** The kick vectors for the turn from rotation 0 to rotation 3 of a J, shown to equal
      the kick table's differences in JKicksZeroToThree. */
  const JKicks: seq<Kick> := [(0, 0), (1, 0), (1, 1), (0, -2), (1, -2)]

  /** Candidate i of the J's kick search on the test board, for the search to read. */
  predicate KickFits(g: seq<int>, mask: seq<int>, k: seq<Kick>, i: int)
    requires |g| == 200 && |mask| == 25 && 0 <= i < |k|
  {
    Fits(g, 10, 20, mask, 2 + k[i].0, 13 - k[i].1)
  }

  /** The left-facing J does not fit on the test board at (2, 13): its cell (1, 3) meets (3, 16). */
  lemma BlockedInPlace(g: seq<int>, mask: seq<int>, k: seq<Kick>)
    requires g == KickBoard() && mask == JLeft && k == JKicks
    ensures !KickFits(g, mask, k, 0)
  {
    JLeftCells();
    assert !CellFits(g, 10, 20, mask, 2, 13, 1, 3);
  }

  /** Nor at (3, 13): its cell (2, 1) meets (5, 14). */
  lemma BlockedFirstKick(g: seq<int>, mask: seq<int>, k: seq<Kick>)
    requires g == KickBoard() && mask == JLeft && k == JKicks
    ensures !KickFits(g, mask, k, 1)
  {
    JLeftCells();
    assert !CellFits(g, 10, 20, mask, 3, 13, 2, 1);
  }

  /** Nor at (3, 12): its cell (2, 1) meets (5, 13). */
  lemma BlockedSecondKick(g: seq<int>, mask: seq<int>, k: seq<Kick>)
    requires g == KickBoard() && mask == JLeft && k == JKicks
    ensures !KickFits(g, mask, k, 2)
  {
    JLeftCells();
    assert !CellFits(g, 10, 20, mask, 3, 12, 2, 1);
  }

  /** Nor at (2, 15): its cell (1, 3) meets (3, 18). */
  lemma BlockedThirdKick(g: seq<int>, mask: seq<int>, k: seq<Kick>)
    requires g == KickBoard() && mask == JLeft && k == JKicks
    ensures !KickFits(g, mask, k, 3)
  {
    JLeftCells();
    assert !CellFits(g, 10, 20, mask, 2, 15, 1, 3);
  }

  /** At (3, 15) its four cells land on the empty cells (5, 16), (5, 17), (5, 18) and (4, 18). */
  lemma FitsFourthKick()
    ensures Fits(KickBoard(), 10, 20, JLeft, 3, 15)
  {
    JLeftCells();
    forall mx, my | 0 <= mx < 5 && 0 <= my < 5
      ensures CellFits(KickBoard(), 10, 20, JLeft, 3, 15, mx, my)
    {
    }
  }

  /** On the test board the left-facing J at (2, 13) is blocked in place and at the first
      three kicks, and fits at the last one, (3, 15). */
  lemma KickSearch(g: seq<int>, mask: seq<int>, k: seq<Kick>)
    requires g == KickBoard() && mask == JLeft && k == JKicks
    ensures FirstFit(g, 10, 20, mask, 2, 13, k, 0) == Some(4)
  {
    forall j | 0 <= j < 4
      ensures !Fits(g, 10, 20, mask, 2 + k[j].0, 13 - k[j].1)
    {
      if j == 0 {
        BlockedInPlace(g, mask, k);
      } else if j == 1 {
        BlockedFirstKick(g, mask, k);
      } else if j == 2 {
        BlockedSecondKick(g, mask, k);
      } else {
        BlockedThirdKick(g, mask, k);
      }
    }
    FitsFourthKick();
    assert KickFits(g, mask, k, 4);
    FirstFitLeast(g, 10, 20, mask, 2, 13, k, 0, 4);
  }

  /** The test board with the J's id written into (5, 16), (5, 17), (4, 18) and (5, 18)
      is the expected board. */
  lemma KickedCells()
    ensures KickBoard()[165 := 6][175 := 6][184 := 6][185 := 6] == KickedBoard()
  {
  }

  /** Placing the left-facing J at (3, 15) writes its id into its four cells and leaves
      the rest of the test board as it was, which gives the expected board. */
  lemma PlaceKicked()
    ensures OnBoard(10, 20, JLeft, 3, 15)
    ensures Stamped(KickBoard(), 10, 20, JLeft, 3, 15, 25) == KickedBoard()
  {
    FitsFourthKick();
    FitsOnBoard(KickBoard(), 10, 20, JLeft, 3, 15);
    var g := KickBoard();
    var placed := Stamped(g, 10, 20, JLeft, 3, 15, 25);
    var u := g[165 := 6][175 := 6][184 := 6][185 := 6];
    JLeftCells();
    forall i | 0 <= i < 200
      ensures placed[i] == u[i]
    {
      var cx, cy := i % 10, i / 10;
      assert i == cx + cy * 10;
      PlaceWritesMask(g, 10, 20, JLeft, 3, 15, cx, cy);
    }
    KickedCells();
  }

  /** The turn of test_srs_rotation: a J in spawn orientation at (2, 13), turned
      counter-clockwise on a board where the turned J is blocked in place and at the first
      three kicks and fits at the last, ends up turned at (3, 15). */
  method TurnJ(b: GameBoard, t: TetrisPiece)
    requires b.Valid() && b.width == 10 && b.height == 20
    requires FirstFit(b.grid, 10, 20, JLeft, 2, 13, JKicks, 0) == Some(4)
    requires t.Valid() && t.kind == J && t.state == Active
    requires t.rotation == 0 && t.grid == SpawnMask(J) && t.x == 2 && t.y == 13
    modifies t
    ensures t.Valid() && t.rotation == 3 && t.x == 3 && t.y == 15 && t.grid == JLeft
  {
    ghost var kicks := t.GenKickVectors(t.rotation, NextRotation(t.rotation, false));
    ghost var turned := TurnMask(t.grid, false);
    ghost var found := FirstFit(b.grid, b.width, b.height, turned, t.x, t.y, kicks, 0);
    t.SrsRotate(b, false);
    assert found.Some? ==> t.grid == turned && t.rotation == 3 && t.x == 2 + kicks[found.value].0 && t.y == 13 - kicks[found.value].1;
    JTurnsLeft();
    JKicksZeroToThree();
    assert turned == JLeft && kicks == JKicks;
  }

  /** test_srs_rotation: on the test board the J's turn takes the last kick, and placing
      the J gives the expected board. */
  method SrsRotation() returns (b: GameBoard, t: TetrisPiece)
    ensures t.rotation == 3 && t.x == 3 && t.y == 15 && t.grid == JLeft
    ensures b.grid == KickedBoard()
  {
    b := new GameBoard(10, 20);
    b.grid := KickBoard();
    KickSearch(b.grid, JLeft, JKicks);
    t := new TetrisPiece(J);
    t.x := 2;
    t.y := 13;
    TurnJ(b, t);
    PlaceKicked();
    b.PlacePiece(t.grid, t.x, t.y);
  }
}

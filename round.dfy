/** The game loop's rules: one round of play on a 10 x 22 board with an active piece,
    a preview piece and a hold slot; the key handlers, the per-frame drop and lock
    timers, locking, line clearing and scoring. Drawing, input polling and timing are
    not modelled; each random draw is a parameter in 0..6. */
module Game {
  import opened Mask
  import opened Board
  import opened Piece
  import opened LineClear

  const Width := 10
  const Height := 22
  /** Frames between two gravity steps. */
  const DropTime := 30
  /** Frames a resting piece may still be moved before it locks. */
  const PlaceTime := 100
  /** Points for clearing 0, 1, 2, 3 or 4 lines with one piece. */
  const LineScores := [0, 100, 200, 400, 800]

  /** Any mask at the spawn position (2, 0) lies on the 10 x 22 board: the 5 x 5 mask
      covers columns 2..6 and rows 0..4. */
  lemma SpawnOnBoard(mask: seq<int>)
    requires |mask| == 25
    ensures OnBoard(Width, Height, mask, 2, 0)
  {
  }

  /** An empty board has no full row. */
  lemma EmptyNoFullRow(grid: seq<int>)
    requires |grid| == Width * Height && forall i :: 0 <= i < |grid| ==> grid[i] == 0
    ensures NoFullRow(grid, Width, Height)
  {
    forall y | 0 <= y < Height
      ensures !RowFull(grid, Width, Height, y)
    {
      assert Cell(grid, Width, Height, 0, y) == 0;
    }
  }

  /** The rows a locking piece completes are exactly the board's full rows. */
  lemma FullLinesExact(grid: seq<int>, lines: seq<int>)
    requires |grid| == Width * Height
    requires forall i, j :: 0 <= i < j < |lines| ==> lines[i] < lines[j]
    requires forall y :: y in lines <==> 0 <= y < Height && RowFull(grid, Width, Height, y)
    ensures ExactlyFullRows(grid, Height, lines)
  {
    forall i | 0 <= i < |lines|
      ensures 0 <= lines[i] < Height
    {
      assert lines[i] in lines;
    }
  }

  /** A locking piece on a board without full rows completes at most four rows, so the
      score table is never indexed out of range. */
  lemma LockedLinesAtMostFour(grid: seq<int>, mask: seq<int>, px: int, py: int)
    requires |grid| == Width * Height && |mask| == 25 && Filled(mask) == 4
    requires OnBoard(Width, Height, mask, px, py) && NoFullRow(grid, Width, Height)
    ensures |FullRows(Stamped(grid, Width, Height, mask, px, py, 25), Width, Height)| <= 4
  {
    var placed := Stamped(grid, Width, Height, mask, px, py, 25);
    var rows := FullRows(placed, Width, Height);
    forall i | 0 <= i < |rows|
      ensures 0 <= rows[i] < Height && RowFull(placed, Width, Height, rows[i])
    {
      assert rows[i] in rows;
    }
    NewFullRowsAtMost(grid, Width, Height, mask, px, py, rows);
  }

  /** What locking a four-cell piece on a board without full rows leads to: at most four
      full rows, which are exactly the rows FullRows lists, and no full row once they are cleared. */
  lemma LockOutcome(grid: seq<int>, mask: seq<int>, px: int, py: int)
    requires |grid| == Width * Height && |mask| == 25 && Filled(mask) == 4
    requires OnBoard(Width, Height, mask, px, py) && NoFullRow(grid, Width, Height)
    ensures var placed := Stamped(grid, Width, Height, mask, px, py, 25);
      |FullRows(placed, Width, Height)| <= 4 &&
      NoFullRow(Cleared(placed, Height, FullRows(placed, Width, Height)), Width, Height)
  {
    var placed := Stamped(grid, Width, Height, mask, px, py, 25);
    var lines := FullRows(placed, Width, Height);
    LockedLinesAtMostFour(grid, mask, px, py);
    FullLinesExact(placed, lines);
    ClearedNoFullRow(placed, Height, lines);
  }

  /** Clearing the full rows of a board leaves one empty row on top for each of them,
      followed by the rows that were not full, in their old order. */
  lemma ClearedBoardShape(grid: seq<int>)
    requires |grid| == Width * Height
    ensures var lines := FullRows(grid, Width, Height);
      Cleared(grid, Height, lines) == Zeros(10 * |lines|) + Kept(grid, Height, lines)
  {
    var lines := FullRows(grid, Width, Height);
    FullLinesExact(grid, lines);
    ClearedDeletesRows(grid, Height, lines);
  }

  /** The hold key's loop: rotate_ccw as many times as the piece's rotation index, which
      brings it back to its spawn orientation. */
  method UndoRotation(p: TetrisPiece)
    requires p.Valid()
    modifies p
    ensures p.Valid() && p.rotation == 0 && p.grid == SpawnMask(p.kind)
    ensures p.x == old(p.x) && p.y == old(p.y) && p.state == old(p.state)
  {
    var n := p.rotation;
    for i := 0 to n
      invariant p.Valid() && p.rotation == n - i
      invariant p.x == old(p.x) && p.y == old(p.y) && p.state == old(p.state)
    {
      p.RotateCCW();
    }
  }

  /** A well-formed real piece on the board has its offset row above the floor. */
  lemma AboveFloor(p: TetrisPiece, w: int, h: int)
    requires p.Valid() && p.kind != None && OnBoard(w, h, p.grid, p.x, p.y)
    ensures p.y < h
  {
    PieceFilled(p);
    OnBoardOffset(w, h, p.grid, p.x, p.y);
  }

  /** The space key's loop on one piece: while the piece is active it moves down a row
      when that fits, and rests at the first row from which it cannot. */
  method DropPiece(p: TetrisPiece, board: GameBoard)
    requires p.Valid() && board.Valid() && p.kind != None && p.state != Placed
    requires OnBoard(board.width, board.height, p.grid, p.x, p.y)
    modifies p
    ensures p.Valid() && OnBoard(board.width, board.height, p.grid, p.x, p.y)
    ensures p.grid == old(p.grid) && p.rotation == old(p.rotation) && p.x == old(p.x)
    ensures old(p.state) == Placing ==> p.y == old(p.y) && p.state == Placing
    ensures old(p.state) == Active ==>
      p.state == Placing && old(p.y) <= p.y &&
      (forall r :: old(p.y) < r <= p.y ==> Fits(board.grid, board.width, board.height, p.grid, p.x, r)) &&
      !Fits(board.grid, board.width, board.height, p.grid, p.x, p.y + 1)
  {
    while p.state == Active
      invariant p.Valid() && p.state != Placed && OnBoard(board.width, board.height, p.grid, p.x, p.y)
      invariant p.grid == old(p.grid) && p.rotation == old(p.rotation) && p.x == old(p.x)
      invariant old(p.state) == Placing ==> p.y == old(p.y) && p.state == Placing
      invariant old(p.y) <= p.y
      invariant forall r :: old(p.y) < r <= p.y ==> Fits(board.grid, board.width, board.height, p.grid, p.x, r)
      invariant p.state == Placing && old(p.state) == Active ==>
        !Fits(board.grid, board.width, board.height, p.grid, p.x, p.y + 1)
      decreases board.height - p.y + (if p.state == Active then 1 else 0)
    {
      AboveFloor(p, board.width, board.height);
      var oldY := p.y;
      p.Translate(board, 0, 1);
      if p.y == oldY {
        p.state := Placing;
      }
    }
  }

  /** A gravity step on one piece: it moves down a row and is active when that fits,
      and otherwise stays where it is and rests. */
  method Fall(p: TetrisPiece, board: GameBoard) returns (moved: bool)
    requires p.Valid() && board.Valid() && p.kind != None && p.state != Placed
    requires OnBoard(board.width, board.height, p.grid, p.x, p.y)
    modifies p
    ensures p.Valid() && p.state != Placed && OnBoard(board.width, board.height, p.grid, p.x, p.y)
    ensures p.grid == old(p.grid) && p.rotation == old(p.rotation) && p.x == old(p.x)
    ensures moved == Fits(board.grid, board.width, board.height, p.grid, old(p.x), old(p.y) + 1)
    ensures moved ==> p.y == old(p.y) + 1 && p.state == Active
    ensures !moved ==> p.y == old(p.y) && p.state == Placing
  {
    var oldY := p.y;
    p.Translate(board, 0, 1);
    if p.y == oldY {
      p.state := Placing;
      moved := false;
    } else {
      p.state := Active;
      moved := true;
    }
  }

  /** Locking on the board: the piece's mask is written at its position, the full rows are
      read off top to bottom and cleared in that order. A piece completes at most four
      rows, and the board is left without a full row. */
  method LockBoard(board: GameBoard, p: TetrisPiece) returns (lines: seq<int>)
    requires board.Valid() && board.width == Width && board.height == Height
    requires p.Valid() && p.kind != None
    requires OnBoard(Width, Height, p.grid, p.x, p.y) && NoFullRow(board.grid, Width, Height)
    modifies board
    ensures board.Valid() && NoFullRow(board.grid, Width, Height)
    ensures var placed := Stamped(old(board.grid), Width, Height, p.grid, p.x, p.y, 25);
      lines == FullRows(placed, Width, Height) && |lines| <= 4 && board.grid == Cleared(placed, Height, lines)
  {
    PieceFilled(p);
    LockOutcome(board.grid, p.grid, p.x, p.y);
    board.PlacePiece(p.grid, p.x, p.y);
    lines := board.FullLines();
    ClearFullLines(board, lines);
  }

  /** The state of the game loop between two frames. */
  class Round {
    const board: GameBoard
    /** The active piece, the preview piece and the hold slot (a None piece when empty). */
    var t: TetrisPiece
    var tNext: TetrisPiece
    var tHold: TetrisPiece
    var dropTimer: int
    var placeTimer: int
    var score: int
    /** Set when a new piece does not fit after a lock: the game loop ends. */
    var over: bool

    /** The board, the preview piece and the hold slot: a 10 x 22 board with no full row,
        the preview piece a real piece at its spawn state, the held piece well formed and
        active, and a score that never went negative. */
    ghost predicate Rest()
      reads this, board, tNext, tHold
    {
      board.Valid() && board.width == Width && board.height == Height &&
      NoFullRow(board.grid, Width, Height) &&
      tNext != tHold && tNext.Valid() && tHold.Valid() &&
      tNext.kind != None && tNext.grid == SpawnMask(tNext.kind) &&
      tNext.x == 2 && tNext.y == 0 && tNext.rotation == 0 && tNext.state == Active &&
      tHold.state == Active &&
      0 <= score
    }

    /** The active piece is a real, well-formed piece on the board that is not locked. */
    ghost predicate ActiveOk()
      reads this, t
    {
      t.Valid() && t.kind != None && t.state != Placed && OnBoard(Width, Height, t.grid, t.x, t.y)
    }

    /** What holds after every step, including the one that ends the game: three distinct
        pieces, the active one sound and the rest of the state sound. */
    ghost predicate Pieces()
      reads this, board, t, tNext, tHold
    {
      t != tNext && t != tHold && ActiveOk() && Rest()
    }

    /** The timers between frames: both count down from their reset values and never reach
        zero at a frame's end, and the lock timer only runs while the piece rests. */
    ghost predicate Valid()
      reads this, board, t, tNext, tHold
    {
      Pieces() &&
      0 <= placeTimer <= PlaceTime &&
      (!over ==>
        1 <= dropTimer <= DropTime && 1 <= placeTimer &&
        (t.state == Active ==> placeTimer == PlaceTime))
    }

    /** The set-up before the game loop: an empty 10 x 22 board, two random pieces, an
        empty hold slot, both timers at their reset values and no score. */
    constructor (first: int, second: int)
      requires 0 <= first <= 6 && 0 <= second <= 6
      ensures Valid() && !over
      ensures forall i :: 0 <= i < |board.grid| ==> board.grid[i] == 0
      ensures t.kind == KindOfDraw(first) && t.grid == SpawnMask(t.kind)
      ensures t.x == 2 && t.y == 0 && t.rotation == 0 && t.state == Active
      ensures tNext.kind == KindOfDraw(second) && tHold.kind == None
      ensures dropTimer == DropTime && placeTimer == PlaceTime && score == 0
    {
      board := new GameBoard(Width, Height);
      var active := NewRandomPiece(first);
      var next := NewRandomPiece(second);
      t := active;
      tNext := next;
      tHold := new TetrisPiece(None);
      dropTimer := DropTime;
      placeTimer := PlaceTime;
      score := 0;
      over := false;
      new;
      SpawnOnBoard(t.grid);
      EmptyNoFullRow(board.grid);
    }

    /** The Left, Right and Down keys: translate the active piece by (dx, dy), which it takes
        exactly when the mask fits there. */
    method Move(dx: int, dy: int)
      requires Valid() && !over
      modifies t
      ensures Valid()
      ensures t.grid == old(t.grid) && t.rotation == old(t.rotation) && t.state == old(t.state)
      ensures if Fits(board.grid, Width, Height, t.grid, old(t.x) + dx, old(t.y) + dy)
              then t.x == old(t.x) + dx && t.y == old(t.y) + dy
              else t.x == old(t.x) && t.y == old(t.y)
    {
      t.Translate(board, dx, dy);
    }

    /** The D (clockwise) and A (counter-clockwise) keys: srs_rotate on the active piece. */
    method Rotate(clockwise: bool)
      requires Valid() && !over
      modifies t
      ensures Valid()
      ensures t.state == old(t.state)
      ensures var kicks := t.GenKickVectors(old(t.rotation), NextRotation(old(t.rotation), clockwise));
        var found := FirstFit(board.grid, board.width, board.height, TurnMask(old(t.grid), clockwise), old(t.x), old(t.y), kicks, 0);
        (found.Some? ==>
          t.grid == TurnMask(old(t.grid), clockwise) && t.rotation == NextRotation(old(t.rotation), clockwise) &&
          t.x == old(t.x) + kicks[found.value].0 && t.y == old(t.y) - kicks[found.value].1) &&
        (found.Nothing? ==>
          t.grid == old(t.grid) && t.rotation == old(t.rotation) && t.x == old(t.x) && t.y == old(t.y))
    {
      t.SrsRotate(board, clockwise);
    }

    /** The hold key, with the swap guarded: while the piece rests nothing happens; an empty
        hold slot takes the active piece and the preview piece becomes active; otherwise the
        held piece is brought in at the active piece's position, but only when it fits
        there, and the outgoing piece is turned back to its spawn orientation. */
    method Hold(draw: int)
      requires Valid() && !over && 0 <= draw <= 6
      modifies this, t, tHold
      ensures Valid() && !over
      ensures dropTimer == old(dropTimer) && placeTimer == old(placeTimer) && score == old(score)
      ensures old(t.state) == Placing ==>
        t == old(t) && tNext == old(tNext) && tHold == old(tHold) && unchanged(old(t), old(tHold))
      ensures old(t.state) != Placing && old(tHold.kind) == None ==>
        tHold == old(t) && t == old(tNext) && fresh(tNext) && tNext.kind == KindOfDraw(draw) &&
        unchanged(old(t), old(tHold))
      ensures old(t.state) != Placing && old(tHold.kind) != None ==>
        if Fits(board.grid, Width, Height, old(tHold.grid), old(t.x), old(t.y)) then
          t == old(tHold) && tHold == old(t) && tNext == old(tNext) &&
          t.x == old(t.x) && t.y == old(t.y) && t.grid == old(tHold.grid) && t.rotation == old(tHold.rotation) &&
          t.state == old(tHold.state) &&
          tHold.x == old(t.x) && tHold.y == old(t.y) && tHold.rotation == 0 && tHold.grid == SpawnMask(tHold.kind) &&
          tHold.state == old(t.state)
        else
          t == old(t) && tNext == old(tNext) && tHold == old(tHold) && unchanged(old(t), old(tHold))
    {
      if t.state == Placing {
        return;
      }
      if tHold.kind == None {
        Stash(draw);
      } else {
        Swap();
      }
    }

    /** Hold with an empty slot: the active piece goes into the slot as it is and the
        preview piece becomes active. */
    method Stash(draw: int)
      requires Valid() && !over && t.state != Placing && tHold.kind == None && 0 <= draw <= 6
      modifies this
      ensures Valid() && !over
      ensures dropTimer == old(dropTimer) && placeTimer == old(placeTimer) && score == old(score)
      ensures tHold == old(t) && t == old(tNext) && fresh(tNext) && tNext.kind == KindOfDraw(draw)
    {
      tHold := t;
      t := tNext;
      tNext := NewRandomPiece(draw);
      SpawnOnBoard(t.grid);
    }

    /** Hold with a held piece, guarded: the held piece comes in at the active piece's
        position when it fits there, and the outgoing piece is turned back to its spawn
        orientation; otherwise nothing changes. */
    method Swap()
      requires Valid() && !over && t.state != Placing && tHold.kind != None
      modifies this, t, tHold
      ensures Valid() && !over
      ensures dropTimer == old(dropTimer) && placeTimer == old(placeTimer) && score == old(score)
      ensures if Fits(board.grid, Width, Height, old(tHold.grid), old(t.x), old(t.y)) then
          t == old(tHold) && tHold == old(t) && tNext == old(tNext) &&
          t.x == old(t.x) && t.y == old(t.y) && t.grid == old(tHold.grid) && t.rotation == old(tHold.rotation) &&
          t.state == old(tHold.state) &&
          tHold.x == old(t.x) && tHold.y == old(t.y) && tHold.rotation == 0 && tHold.grid == SpawnMask(tHold.kind) &&
          tHold.state == old(t.state)
        else
          t == old(t) && tNext == old(tNext) && tHold == old(tHold) && unchanged(old(t), old(tHold))
    {
      var fits := board.TestPlacement(tHold.grid, t.x, t.y);
      if !fits {
        return;
      }
      FitsOnBoard(board.grid, Width, Height, tHold.grid, t.x, t.y);
      tHold.y := t.y;
      tHold.x := t.x;
      var temp := tHold;
      tHold := t;
      UndoRotation(tHold);
      t := temp;
    }

    /** The hold key as the game loop writes it: the swap takes the held piece to the
        active piece's position without asking whether it fits there. */
    method HoldAsWritten(draw: int)
      requires Valid() && !over && 0 <= draw <= 6
      requires t.state != Placing && tHold.kind != None
      modifies this, t, tHold
      ensures t == old(tHold) && tHold == old(t) && tNext == old(tNext)
      ensures dropTimer == old(dropTimer) && placeTimer == old(placeTimer) && score == old(score) && over == old(over)
      ensures t.x == old(t.x) && t.y == old(t.y) && t.grid == old(tHold.grid)
      ensures t.rotation == old(tHold.rotation) && t.state == old(tHold.state)
      ensures tHold.x == old(t.x) && tHold.y == old(t.y) && tHold.state == old(t.state)
      ensures tHold.rotation == 0 && tHold.grid == SpawnMask(tHold.kind)
    {
      tHold.y := t.y;
      tHold.x := t.x;
      var temp := tHold;
      tHold := t;
      UndoRotation(tHold);
      t := temp;
    }

    /** The space key: the piece falls row by row while it is active; the first move down
        that does not fit makes it rest. */
    method HardDrop()
      requires Valid() && !over
      modifies t
      ensures Valid()
      ensures t.grid == old(t.grid) && t.rotation == old(t.rotation) && t.x == old(t.x)
      ensures old(t.state) == Placing ==> t.y == old(t.y) && t.state == Placing
      ensures old(t.state) == Active ==>
        t.state == Placing && old(t.y) <= t.y &&
        (forall r :: old(t.y) < r <= t.y ==> Fits(board.grid, board.width, board.height, t.grid, t.x, r)) &&
        !Fits(board.grid, board.width, board.height, t.grid, t.x, t.y + 1)
    {
      DropPiece(t, board);
    }

    /** A gravity step: the piece moves down one row when it fits there and is then active
        with a fresh lock timer; otherwise it rests. The drop timer restarts. */
    method Gravity()
      requires Pieces() && !over
      modifies this, t
      ensures Pieces() && !over
      ensures t == old(t) && tNext == old(tNext) && tHold == old(tHold)
      ensures t.grid == old(t.grid) && t.rotation == old(t.rotation) && t.x == old(t.x)
      ensures if Fits(board.grid, Width, Height, t.grid, old(t.x), old(t.y) + 1)
              then t.y == old(t.y) + 1 && t.state == Active && placeTimer == PlaceTime
              else t.y == old(t.y) && t.state == Placing && placeTimer == old(placeTimer)
      ensures dropTimer == DropTime && score == old(score)
    {
      var moved := Fall(t, board);
      if moved {
        placeTimer := PlaceTime;
      }
      dropTimer := DropTime;
    }

    /** Locking the resting piece: it is written into the board, the full rows are cleared
        and scored, the preview piece becomes active and a new preview is drawn; when the
        new piece does not fit, the game is over. */
    method Lock(draw: int)
      requires Pieces() && !over && t.state == Placing && 0 <= draw <= 6
      modifies this, board, t
      ensures Pieces()
      ensures old(t).state == Placed
      ensures var placed := Stamped(old(board.grid), Width, Height, old(t.grid), old(t.x), old(t.y), 25);
        var lines := FullRows(placed, Width, Height);
        |lines| <= 4 && board.grid == Cleared(placed, Height, lines) && score == old(score) + LineScores[|lines|]
      ensures t == old(tNext) && tHold == old(tHold) && fresh(tNext) && tNext.kind == KindOfDraw(draw)
      ensures over == !Fits(board.grid, Width, Height, t.grid, t.x, t.y)
      ensures placeTimer == (if over then old(placeTimer) else PlaceTime) && dropTimer == old(dropTimer)
    {
      t.state := Placed;
      var fullLines := LockBoard(board, t);
      score := score + LineScores[|fullLines|];
      NextPiece(draw);
    }

    /** After a lock: the preview piece becomes active and a new preview is drawn; when
        the new active piece does not fit, the game is over, otherwise the lock timer
        restarts. */
    method NextPiece(draw: int)
      requires Rest() && !over && 0 <= draw <= 6
      modifies this
      ensures Pieces()
      ensures t == old(tNext) && tHold == old(tHold) && fresh(tNext) && tNext.kind == KindOfDraw(draw)
      ensures over == !Fits(board.grid, Width, Height, t.grid, t.x, t.y)
      ensures placeTimer == (if over then old(placeTimer) else PlaceTime)
      ensures dropTimer == old(dropTimer) && score == old(score)
    {
      t := tNext;
      tNext := NewRandomPiece(draw);
      SpawnOnBoard(t.grid);
      var ok := board.TestPlacement(t.grid, t.x, t.y);
      if !ok {
        over := true;
        return;
      }
      placeTimer := PlaceTime;
    }

    /** One frame's timer work after the key handlers: both timers count down (the lock
        timer only while the piece rests), gravity acts when the drop timer runs out, and
        the piece locks when the lock timer runs out while it still rests. */
    method Tick(draw: int)
      requires Valid() && !over && 0 <= draw <= 6
      modifies this, board, t
      ensures Valid()
      ensures dropTimer == if old(dropTimer) == 1 then DropTime else old(dropTimer) - 1
      ensures old(score) <= score && tHold == old(tHold)
      ensures over ==> t == old(tNext) && !Fits(board.grid, Width, Height, t.grid, t.x, t.y)
      ensures old(t).state == Placed <==>
        old(t.state) == Placing && old(placeTimer) == 1 &&
        (old(dropTimer) != 1 || !Fits(old(board.grid), Width, Height, old(t.grid), old(t.x), old(t.y) + 1))
      // No lock this frame: the piece only feels gravity, and the lock timer counts down while it rests.
      ensures old(t).state != Placed ==>
        var moved := old(dropTimer) == 1 && Fits(old(board.grid), Width, Height, old(t.grid), old(t.x), old(t.y) + 1);
        !over && t == old(t) && tNext == old(tNext) &&
        board.grid == old(board.grid) && score == old(score) &&
        t.grid == old(t.grid) && t.rotation == old(t.rotation) && t.x == old(t.x) &&
        t.y == (if moved then old(t.y) + 1 else old(t.y)) &&
        t.state == (if moved then Active else if old(dropTimer) == 1 then Placing else old(t.state)) &&
        placeTimer == (if moved then PlaceTime else if old(t.state) == Placing then old(placeTimer) - 1 else old(placeTimer))
      // A lock this frame: the piece is baked in where it rests, the full rows are cleared and
      // scored once, and the preview piece comes in.
      ensures old(t).state == Placed ==>
        var placed := Stamped(old(board.grid), Width, Height, old(t.grid), old(t.x), old(t.y), 25);
        var lines := FullRows(placed, Width, Height);
        |lines| <= 4 && board.grid == Cleared(placed, Height, lines) && score == old(score) + LineScores[|lines|] &&
        t == old(tNext) && fresh(tNext) && tNext.kind == KindOfDraw(draw) &&
        over == !Fits(board.grid, Width, Height, t.grid, t.x, t.y) &&
        placeTimer == (if over then 0 else PlaceTime)
    {
      dropTimer := dropTimer - 1;
      if t.state == Placing {
        placeTimer := placeTimer - 1;
      }
      if dropTimer == 0 {
        Gravity();
      }
      LockIfDue(draw);
    }

    /** The end of a frame: the piece locks when the lock timer has run out while it
        rests, and otherwise nothing changes. */
    method LockIfDue(draw: int)
      requires Pieces() && !over && 0 <= draw <= 6
      requires 1 <= dropTimer <= DropTime && 0 <= placeTimer <= PlaceTime
      requires t.state == Active ==> placeTimer == PlaceTime
      modifies this, board, t
      ensures Valid()
      ensures dropTimer == old(dropTimer) && old(score) <= score && tHold == old(tHold)
      ensures old(placeTimer) == 0 && old(t.state) == Placing ==>
        old(t).state == Placed && t == old(tNext) && fresh(tNext) && tNext.kind == KindOfDraw(draw) &&
        over == !Fits(board.grid, Width, Height, t.grid, t.x, t.y) &&
        placeTimer == (if over then 0 else PlaceTime)
      ensures old(placeTimer) == 0 && old(t.state) == Placing ==>
        var placed := Stamped(old(board.grid), Width, Height, old(t.grid), old(t.x), old(t.y), 25);
        var lines := FullRows(placed, Width, Height);
        |lines| <= 4 && board.grid == Cleared(placed, Height, lines) && score == old(score) + LineScores[|lines|]
      ensures !(old(placeTimer) == 0 && old(t.state) == Placing) ==>
        !over && t == old(t) && tNext == old(tNext) && unchanged(this, board, t)
      ensures over ==> t == old(tNext) && !Fits(board.grid, Width, Height, t.grid, t.x, t.y)
    {
      if placeTimer == 0 && t.state == Placing {
        Lock(draw);
      }
    }
  }

  /** The hold swap as written can take a piece off the board: a vertical I piece at
      x = 7 fits on the empty board (its cells are in column 9), but the held I piece in
      its spawn orientation at the same position would cover columns 8..11. */
  lemma HoldSwapLeavesBoard()
    ensures Fits(Zeros(Width * Height), Width, Height, RotatedCW(SpawnMask(I)), 7, 0)
    ensures !OnBoard(Width, Height, SpawnMask(I), 7, 0)
  {
    var vertical := RotatedCW(SpawnMask(I));
    RotatedCWCells(SpawnMask(I));
    forall mx, my | 0 <= mx < 5 && 0 <= my < 5
      ensures CellFits(Zeros(Width * Height), Width, Height, vertical, 7, 0, mx, my)
    {
      assert At(vertical, mx, my) == At(SpawnMask(I), my, 4 - mx);
    }
    assert At(SpawnMask(I), 4, 2) != 0;
    assert !CellOnBoard(Width, Height, SpawnMask(I), 7, 0, 4, 2);
  }
}

/** Pieces of src/tetris_piece.rs: the seven tetromino kinds and the None sentinel,
    their spawn masks and wall-kick tables, the 90-degree mask rotations, the
    all-or-nothing translation and the Super Rotation System rotation with wall kicks. */
module Piece {
  import opened Mask
  import opened Board

  datatype PieceType = I | O | T | S | Z | J | L | None

  datatype PieceState = Active | Placing | Placed

  /** A wall-kick offset (dx, dy); the table's dy grows upwards. */
  type Kick = (int, int)

  /** Optional index, the result of the kick search. */
  datatype Option<V> = Nothing | Some(value: V)

  /** The fill id a kind's mask carries: 1 to 7 in declaration order, 0 for None. */
  function Id(kind: PieceType): int
  {
    match kind
    case I => 1
    case O => 2
    case T => 3
    case S => 4
    case Z => 5
    case J => 6
    case L => 7
    case None => 0
  }

  /** The mask a new piece of the given kind starts with (rotation 0). */
  function SpawnMask(kind: PieceType): (mask: seq<int>)
    ensures |mask| == 25
  {
    match kind
    case I => [0, 0, 0, 0, 0,
               0, 0, 0, 0, 0,
               0, 1, 1, 1, 1,
               0, 0, 0, 0, 0,
               0, 0, 0, 0, 0]
    case O => [0, 0, 0, 0, 0,
               0, 0, 2, 2, 0,
               0, 0, 2, 2, 0,
               0, 0, 0, 0, 0,
               0, 0, 0, 0, 0]
    case T => [0, 0, 0, 0, 0, 0, 0, 3, 0, 0, 0, 3, 3, 3, 0, 0, 0, 0, 0, 0, 0, 0, 0, 0, 0]
    case S => [0, 0, 0, 0, 0, 0, 0, 4, 4, 0, 0, 4, 4, 0, 0, 0, 0, 0, 0, 0, 0, 0, 0, 0, 0]
    case Z => [0, 0, 0, 0, 0, 0, 5, 5, 0, 0, 0, 0, 5, 5, 0, 0, 0, 0, 0, 0, 0, 0, 0, 0, 0]
    case J => [0, 0, 0, 0, 0, 0, 6, 0, 0, 0, 0, 6, 6, 6, 0, 0, 0, 0, 0, 0, 0, 0, 0, 0, 0]
    case L => [0, 0, 0, 0, 0, 0, 0, 0, 7, 0, 0, 7, 7, 7, 0, 0, 0, 0, 0, 0, 0, 0, 0, 0, 0]
    case None => seq(25, _ => 0)
  }

  /** Every entry of a spawn mask is 0 or the kind's fill id. */
  ghost predicate OnlyId(mask: seq<int>, id: int)
  {
    forall i :: 0 <= i < |mask| ==> mask[i] == 0 || mask[i] == id
  }

  /** A spawn mask carries no value but 0 and its kind's fill id. */
  lemma SpawnMaskIds(kind: PieceType)
    ensures OnlyId(SpawnMask(kind), Id(kind))
  {
  }

  /** Each real kind spawns with exactly 4 occupied cells; None's mask is empty. */
  lemma SpawnMaskCells(kind: PieceType)
    ensures kind != None ==> Filled(SpawnMask(kind)) == 4
    ensures kind == None ==> Filled(SpawnMask(kind)) == 0
  {
    match kind
    case I => SpawnCellsI();
    case O => SpawnCellsO();
    case T => SpawnCellsT();
    case S => SpawnCellsS();
    case Z => SpawnCellsZ();
    case J => SpawnCellsJ();
    case L => SpawnCellsL();
    case None => AllZeroUnfilled(SpawnMask(None));
  }

  // One lemma per kind keeps each multiset count in a proof obligation of its own.
  lemma SpawnCellsI()
    ensures Filled(SpawnMask(I)) == 4
  {
  }

  lemma SpawnCellsO()
    ensures Filled(SpawnMask(O)) == 4
  {
  }

  lemma SpawnCellsT()
    ensures Filled(SpawnMask(T)) == 4
  {
  }

  lemma SpawnCellsS()
    ensures Filled(SpawnMask(S)) == 4
  {
  }

  lemma SpawnCellsZ()
    ensures Filled(SpawnMask(Z)) == 4
  {
  }

  lemma SpawnCellsJ()
    ensures Filled(SpawnMask(J)) == 4
  {
  }

  lemma SpawnCellsL()
    ensures Filled(SpawnMask(L)) == 4
  {
  }

  /** The per-rotation kick lists of the J, L, S, T and Z pieces. */
  const JlstzKicks: seq<seq<Kick>> := [
    [(0, 0), (0, 0), (0, 0), (0, 0), (0, 0)],
    [(0, 0), (1, 0), (1, -1), (0, 2), (1, 2)],
    [(0, 0), (0, 0), (0, 0), (0, 0), (0, 0)],
    [(0, 0), (-1, 0), (-1, -1), (0, 2), (-1, 2)]]

  /** The per-rotation kick lists of the O piece. */
  const OKicks: seq<seq<Kick>> := [[(0, 0)], [(0, -1)], [(-1, -1)], [(-1, 0)]]

  /** The per-rotation kick lists of the I piece. */
  const IKicks: seq<seq<Kick>> := [
    [(0, 0), (-1, 0), (2, 0), (-1, 0), (2, 0)],
    [(-1, 0), (0, 0), (0, 0), (0, 1), (0, -2)],
    [(-1, 1), (1, 1), (-2, 1), (1, 0), (-2, 0)],
    [(0, 1), (0, 1), (0, 1), (0, -1), (0, 2)]]

  /** How many kick candidates each rotation of a kind has: one for O, five for the others. */
  function KickCount(kind: PieceType): nat
  {
    match kind
    case O => 1
    case None => 0
    case _ => 5
  }

  /** The kick table of a kind, indexed by rotation 0..3; None has no entries. */
  function KickTable(kind: PieceType): (table: seq<seq<Kick>>)
    ensures kind == None <==> |table| == 0
    ensures kind != None ==> |table| == 4
    ensures forall r :: 0 <= r < |table| ==> |table[r]| == KickCount(kind)
  {
    match kind
    case T | S | Z | J | L => JlstzKicks
    case O => OKicks
    case I => IKicks
    case None => []
  }

  /** Pairwise differences of two kick lists, stopping at the shorter one (zip, then subtract). */
  function KickDifferences(prev: seq<Kick>, next: seq<Kick>): (r: seq<Kick>)
    ensures |r| == if |prev| < |next| then |prev| else |next|
    ensures forall i :: 0 <= i < |r| ==> r[i] == (prev[i].0 - next[i].0, prev[i].1 - next[i].1)
  {
    if |prev| == 0 || |next| == 0 then []
    else [(prev[0].0 - next[0].0, prev[0].1 - next[0].1)] + KickDifferences(prev[1..], next[1..])
  }

  /** For each index of the clockwise-turned mask, the index of the original it is read from. */
  function CwSource(): (p: seq<int>)
    ensures |p| == 25 && forall i :: 0 <= i < 25 ==> 0 <= p[i] < 25
  {
    seq(25, j => j / 5 + (4 - j % 5) * 5)
  }

  /** For each index of the counter-clockwise-turned mask, the index of the original it is read from. */
  function CcwSource(): (p: seq<int>)
    ensures |p| == 25 && forall i :: 0 <= i < 25 ==> 0 <= p[i] < 25
  {
    seq(25, j => (4 - j / 5) + (j % 5) * 5)
  }

  /** The mask rotate_cw produces. */
  function RotatedCW(mask: seq<int>): (r: seq<int>)
    requires |mask| == 25
    ensures |r| == 25
  {
    Gather(mask, CwSource())
  }

  /** The mask rotate_ccw produces. */
  function RotatedCCW(mask: seq<int>): (r: seq<int>)
    requires |mask| == 25
    ensures |r| == 25
  {
    Gather(mask, CcwSource())
  }

  /** A clockwise turn moves cell (x, y) to (4 - y, x): cell (x, y) of the result
      is cell (y, 4 - x) of the original. */
  lemma RotatedCWCells(mask: seq<int>)
    requires |mask| == 25
    ensures forall x, y :: 0 <= x < 5 && 0 <= y < 5 ==> At(RotatedCW(mask), x, y) == At(mask, y, 4 - x)
  {
    GatherIndex(mask, CwSource());
    forall x, y | 0 <= x < 5 && 0 <= y < 5
      ensures At(RotatedCW(mask), x, y) == At(mask, y, 4 - x)
    {
      IndexSplit(x, y);
      assert CwSource()[x + y * 5] == y + (4 - x) * 5;
    }
  }

  /** A counter-clockwise turn moves cell (x, y) to (y, 4 - x): cell (x, y) of the result
      is cell (4 - y, x) of the original. */
  lemma RotatedCCWCells(mask: seq<int>)
    requires |mask| == 25
    ensures forall x, y :: 0 <= x < 5 && 0 <= y < 5 ==> At(RotatedCCW(mask), x, y) == At(mask, 4 - y, x)
  {
    GatherIndex(mask, CcwSource());
    forall x, y | 0 <= x < 5 && 0 <= y < 5
      ensures At(RotatedCCW(mask), x, y) == At(mask, 4 - y, x)
    {
      IndexSplit(x, y);
      assert CcwSource()[x + y * 5] == (4 - y) + x * 5;
    }
  }

  /** A counter-clockwise turn undoes a clockwise one. */
  lemma CcwUndoesCw(mask: seq<int>)
    requires |mask| == 25
    ensures RotatedCCW(RotatedCW(mask)) == mask
  {
    RotatedCWCells(mask);
    RotatedCCWCells(RotatedCW(mask));
    forall x, y | 0 <= x < 5 && 0 <= y < 5
      ensures At(RotatedCCW(RotatedCW(mask)), x, y) == At(mask, x, y)
    {
      assert At(RotatedCCW(RotatedCW(mask)), x, y) == At(RotatedCW(mask), 4 - y, x);
    }
    MaskExt(RotatedCCW(RotatedCW(mask)), mask);
  }

  /** A clockwise turn undoes a counter-clockwise one. */
  lemma CwUndoesCcw(mask: seq<int>)
    requires |mask| == 25
    ensures RotatedCW(RotatedCCW(mask)) == mask
  {
    RotatedCCWCells(mask);
    RotatedCWCells(RotatedCCW(mask));
    forall x, y | 0 <= x < 5 && 0 <= y < 5
      ensures At(RotatedCW(RotatedCCW(mask)), x, y) == At(mask, x, y)
    {
      assert At(RotatedCW(RotatedCCW(mask)), x, y) == At(RotatedCCW(mask), y, 4 - x);
    }
    MaskExt(RotatedCW(RotatedCCW(mask)), mask);
  }

  /** The mask turned clockwise n times. */
  function Turned(mask: seq<int>, n: nat): (r: seq<int>)
    requires |mask| == 25
    ensures |r| == 25
  {
    if n == 0 then mask else RotatedCW(Turned(mask, n - 1))
  }

  /** Four clockwise turns are the identity: rotation is a cyclic group of order 4. */
  lemma CwOrderFour(mask: seq<int>)
    requires |mask| == 25
    ensures Turned(mask, 4) == mask
  {
    var r1 := RotatedCW(mask);
    var r2 := RotatedCW(r1);
    var r3 := RotatedCW(r2);
    var r4 := RotatedCW(r3);
    RotatedCWCells(mask);
    RotatedCWCells(r1);
    RotatedCWCells(r2);
    RotatedCWCells(r3);
    forall x, y | 0 <= x < 5 && 0 <= y < 5
      ensures At(r4, x, y) == At(mask, x, y)
    {
      assert At(r4, x, y) == At(r3, y, 4 - x);
      assert At(r3, y, 4 - x) == At(r2, 4 - x, 4 - y);
      assert At(r2, 4 - x, 4 - y) == At(r1, 4 - y, x);
      assert At(r1, 4 - y, x) == At(mask, x, y);
    }
    assert Turned(mask, 4) == r4 by {
      assert Turned(mask, 1) == r1;
      assert Turned(mask, 2) == r2;
      assert Turned(mask, 3) == r3;
    }
    MaskExt(r4, mask);
  }

  /** Turning the mask of rotation r clockwise gives the mask of rotation (r + 1) % 4. */
  lemma TurnedStepCW(mask: seq<int>, r: int)
    requires |mask| == 25 && 0 <= r < 4
    ensures RotatedCW(Turned(mask, r)) == Turned(mask, (r + 1) % 4)
  {
    if r == 3 {
      CwOrderFour(mask);
    } else {
      assert (r + 1) % 4 == r + 1;
    }
  }

  /** Turning the mask of rotation r counter-clockwise gives the mask of rotation (r + 3) % 4. */
  lemma TurnedStepCCW(mask: seq<int>, r: int)
    requires |mask| == 25 && 0 <= r < 4
    ensures RotatedCCW(Turned(mask, r)) == Turned(mask, (r + 3) % 4)
  {
    var prev := if r == 0 then 3 else r - 1;
    var before := Turned(mask, prev);
    assert prev == (r + 3) % 4;
    CcwUndoesCw(before);
    assert RotatedCW(before) == Turned(mask, r) by {
      if r == 0 {
        CwOrderFour(mask);
      }
    }
  }

  /** A clockwise and a counter-clockwise step of the rotation index cancel out. */
  lemma RotationIndexInverse(r: int)
    requires 0 <= r < 4
    ensures ((r + 1) % 4 + 3) % 4 == r && ((r + 3) % 4 + 1) % 4 == r
  {
  }

  /** The mask after one turn in the given direction. */
  function TurnMask(mask: seq<int>, clockwise: bool): (r: seq<int>)
    requires |mask| == 25
    ensures |r| == 25
  {
    if clockwise then RotatedCW(mask) else RotatedCCW(mask)
  }

  /** The rotation index after one turn in the given direction. */
  function NextRotation(rotation: int, clockwise: bool): int
  {
    if clockwise then (rotation + 1) % 4 else (rotation + 3) % 4
  }

  /** A turn followed by a turn the other way restores both the mask and the rotation index. */
  lemma TurnUndone(mask: seq<int>, rotation: int, clockwise: bool)
    requires |mask| == 25 && 0 <= rotation < 4
    ensures TurnMask(TurnMask(mask, clockwise), !clockwise) == mask
    ensures NextRotation(NextRotation(rotation, clockwise), !clockwise) == rotation
  {
    RotationIndexInverse(rotation);
    if clockwise {
      CcwUndoesCw(mask);
    } else {
      CwUndoesCcw(mask);
    }
  }

  /** The clockwise turn reads every mask index exactly once. */
  lemma CwSourceInjective()
    ensures Injective(CwSource(), 25)
  {
    var cw := CwSource();
    forall i, j | 0 <= i < j < 25
      ensures cw[i] != cw[j]
    {
      IndexSplit(i / 5, 4 - i % 5);
      IndexSplit(j / 5, 4 - j % 5);
    }
  }

  /** A clockwise turn permutes the mask: the multiset of cell values is unchanged. */
  lemma CwPermutes(mask: seq<int>)
    requires |mask| == 25
    ensures multiset(RotatedCW(mask)) == multiset(mask)
  {
    CwSourceInjective();
    GatherIndex(mask, CwSource());
    PermutationMultiset(mask, RotatedCW(mask), CwSource());
  }

  /** A counter-clockwise turn permutes the mask as well, being undone by a clockwise one. */
  lemma CcwPermutes(mask: seq<int>)
    requires |mask| == 25
    ensures multiset(RotatedCCW(mask)) == multiset(mask)
  {
    CwPermutes(RotatedCCW(mask));
    CwUndoesCcw(mask);
  }

  /** Turning never changes the number of occupied cells. */
  lemma {:induction false} TurnedFilled(mask: seq<int>, n: nat)
    requires |mask| == 25
    ensures Filled(Turned(mask, n)) == Filled(mask)
  {
    if n > 0 {
      TurnedFilled(mask, n - 1);
      CwPermutes(Turned(mask, n - 1));
    }
  }

  /** The loop of rotate_cw: cell (x, y) of the mask is copied to cell (4 - y, x). */
  method TurnMaskCW(mask: seq<int>) returns (tmp: seq<int>)
    requires |mask| == 25
    ensures tmp == RotatedCW(mask)
  {
    tmp := seq(|mask|, _ => 0);
    for x := 0 to 5
      invariant |tmp| == 25
      invariant forall c, r :: 0 <= c < 5 && 0 <= r < 5 && r < x ==> At(tmp, c, r) == At(mask, r, 4 - c)
    {
      for y := 0 to 5
        invariant |tmp| == 25
        invariant forall c, r :: 0 <= c < 5 && 0 <= r < 5 && r < x ==> At(tmp, c, r) == At(mask, r, 4 - c)
        invariant forall c :: 4 - y < c < 5 ==> At(tmp, c, x) == At(mask, x, 4 - c)
      {
        ghost var before := tmp;
        AtUpdate(tmp, 4 - y, x, mask[x + y * 5]);
        tmp := tmp[(4 - y) + x * 5 := mask[x + y * 5]];
        assert forall c, r :: 0 <= c < 5 && 0 <= r < 5 ==>
          At(tmp, c, r) == if c == 4 - y && r == x then mask[x + y * 5] else At(before, c, r);
        assert At(tmp, 4 - y, x) == At(mask, x, y);
      }
    }
    RotatedCWCells(mask);
    MaskExt(tmp, RotatedCW(mask));
  }

  /** The loop of rotate_ccw: cell (x, y) of the result is copied from cell (4 - y, x). */
  method TurnMaskCCW(mask: seq<int>) returns (tmp: seq<int>)
    requires |mask| == 25
    ensures tmp == RotatedCCW(mask)
  {
    tmp := seq(|mask|, _ => 0);
    for x := 0 to 5
      invariant |tmp| == 25
      invariant forall c, r :: 0 <= c < 5 && 0 <= r < 5 && c < x ==> At(tmp, c, r) == At(mask, 4 - r, c)
    {
      for y := 0 to 5
        invariant |tmp| == 25
        invariant forall c, r :: 0 <= c < 5 && 0 <= r < 5 && c < x ==> At(tmp, c, r) == At(mask, 4 - r, c)
        invariant forall r :: 0 <= r < y ==> At(tmp, x, r) == At(mask, 4 - r, x)
      {
        ghost var before := tmp;
        AtUpdate(tmp, x, y, mask[(4 - y) + x * 5]);
        tmp := tmp[x + y * 5 := mask[(4 - y) + x * 5]];
        assert forall c, r :: 0 <= c < 5 && 0 <= r < 5 ==>
          At(tmp, c, r) == if c == x && r == y then mask[(4 - y) + x * 5] else At(before, c, r);
        assert At(tmp, x, y) == At(mask, 4 - y, x);
      }
    }
    RotatedCCWCells(mask);
    MaskExt(tmp, RotatedCCW(mask));
  }

  /** The kind new_random_piece draws for a random index 0..6. */
  function KindOfDraw(draw: int): (kind: PieceType)
    requires 0 <= draw <= 6
    ensures kind != None && Id(kind) == draw + 1
  {
    match draw
    case 0 => I
    case 1 => O
    case 2 => T
    case 3 => S
    case 4 => Z
    case 5 => J
    case 6 => L
  }

  /** The draw mapping is a bijection from 0..6 onto the seven real kinds, so a
      uniform draw gives a uniform kind and never None. */
  lemma KindOfDrawBijective()
    ensures forall d, e :: 0 <= d <= 6 && 0 <= e <= 6 && KindOfDraw(d) == KindOfDraw(e) ==> d == e
    ensures forall kind :: kind != None ==> KindOfDraw(Id(kind) - 1) == kind
  {
  }

  /** The first kick index from `from` on whose candidate position (px + dx, py - dy)
      the mask fits; the y component is negated because board rows grow downwards. */
  function FirstFit(grid: seq<int>, w: int, h: int, mask: seq<int>, px: int, py: int, kicks: seq<Kick>, from: nat): (r: Option<nat>)
    requires |grid| == w * h && |mask| == 25 && from <= |kicks|
    ensures r.Some? ==> from <= r.value < |kicks|
    decreases |kicks| - from
  {
    if from == |kicks| then Nothing
    else if Fits(grid, w, h, mask, px + kicks[from].0, py - kicks[from].1) then Some(from)
    else FirstFit(grid, w, h, mask, px, py, kicks, from + 1)
  }

  /** The search finds the first fitting candidate: the one it returns fits and every
      earlier one does not; when it finds nothing, no candidate fits. */
  lemma {:induction false} FirstFitFirst(grid: seq<int>, w: int, h: int, mask: seq<int>, px: int, py: int, kicks: seq<Kick>, from: nat)
    requires |grid| == w * h && |mask| == 25 && from <= |kicks|
    ensures var r := FirstFit(grid, w, h, mask, px, py, kicks, from);
      r.Some? ==> Fits(grid, w, h, mask, px + kicks[r.value].0, py - kicks[r.value].1)
    ensures var r := FirstFit(grid, w, h, mask, px, py, kicks, from);
      r.Some? ==> forall j :: from <= j < r.value ==> !Fits(grid, w, h, mask, px + kicks[j].0, py - kicks[j].1)
    ensures var r := FirstFit(grid, w, h, mask, px, py, kicks, from);
      r.Nothing? <==> forall j :: from <= j < |kicks| ==> !Fits(grid, w, h, mask, px + kicks[j].0, py - kicks[j].1)
    decreases |kicks| - from
  {
    if from < |kicks| {
      FirstFitFirst(grid, w, h, mask, px, py, kicks, from + 1);
    }
  }

  /** Conversely, a candidate that fits after candidates that all do not is the one the
      search finds. */
  lemma {:induction false} FirstFitLeast(grid: seq<int>, w: int, h: int, mask: seq<int>, px: int, py: int, kicks: seq<Kick>, from: nat, i: nat)
    requires |grid| == w * h && |mask| == 25 && from <= i < |kicks|
    requires forall j :: from <= j < i ==> !Fits(grid, w, h, mask, px + kicks[j].0, py - kicks[j].1)
    requires Fits(grid, w, h, mask, px + kicks[i].0, py - kicks[i].1)
    ensures FirstFit(grid, w, h, mask, px, py, kicks, from) == Some(i)
    decreases i - from
  {
    if from < i {
      FirstFitLeast(grid, w, h, mask, px, py, kicks, from + 1, i);
    }
  }

  /** A candidate that does not fit passes the search on to the next one. */
  lemma FirstFitSkip(grid: seq<int>, w: int, h: int, mask: seq<int>, px: int, py: int, kicks: seq<Kick>, i: nat)
    requires |grid| == w * h && |mask| == 25 && i < |kicks|
    requires !Fits(grid, w, h, mask, px + kicks[i].0, py - kicks[i].1)
    ensures FirstFit(grid, w, h, mask, px, py, kicks, i) == FirstFit(grid, w, h, mask, px, py, kicks, i + 1)
  {
  }

  /** A candidate that fits ends the search. */
  lemma FirstFitHit(grid: seq<int>, w: int, h: int, mask: seq<int>, px: int, py: int, kicks: seq<Kick>, i: nat)
    requires |grid| == w * h && |mask| == 25 && i < |kicks|
    requires Fits(grid, w, h, mask, px + kicks[i].0, py - kicks[i].1)
    ensures FirstFit(grid, w, h, mask, px, py, kicks, i) == Some(i)
  {
  }

  /** A TetrisPiece: kind and kick table are fixed at construction; the mask,
      position, rotation and state are updated in place. */
  class TetrisPiece {
    const kind: PieceType
    /** The rotation-0 mask the piece was created with. */
    ghost const spawn: seq<int>
    var grid: seq<int>
    var x: int
    var y: int
    var rotation: int
    const kickTable: seq<seq<Kick>>
    var state: PieceState

    /** The mask is always the spawn mask turned `rotation` times (rotation in 0..3),
        and the kick table is the kind's. */
    ghost predicate Valid()
      reads this`grid, this`rotation
    {
      spawn == SpawnMask(kind) && |spawn| == 25 && 0 <= rotation < 4 && grid == Turned(spawn, rotation) &&
      kickTable == KickTable(kind)
    }

    /** TetrisPiece::new: the kind's spawn mask at x = 2, y = 0, rotation 0, Active. */
    constructor (kind: PieceType)
      ensures Valid()
      ensures this.kind == kind && grid == SpawnMask(kind) && kickTable == KickTable(kind)
      ensures x == 2 && y == 0 && rotation == 0 && state == Active
    {
      this.kind := kind;
      spawn := SpawnMask(kind);
      grid := SpawnMask(kind);
      x := 2;
      y := 0;
      rotation := 0;
      kickTable := KickTable(kind);
      state := Active;
    }

    /** gen_kick_vectors: entry i is the previous rotation's kick i minus the next
        rotation's kick i, as long as both lists have an entry i. Indexing None's
        empty table would panic in the source. */
    function GenKickVectors(prevRotation: int, nextRotation: int): (r: seq<Kick>)
      requires kickTable == KickTable(kind) && kind != None
      requires 0 <= prevRotation < 4 && 0 <= nextRotation < 4
      ensures |r| == KickCount(kind)
      ensures forall i :: 0 <= i < |r| ==>
        r[i] == (kickTable[prevRotation][i].0 - kickTable[nextRotation][i].0,
                 kickTable[prevRotation][i].1 - kickTable[nextRotation][i].1)
    {
      KickDifferences(kickTable[prevRotation], kickTable[nextRotation])
    }

    /** rotate_cw: the mask turned clockwise, rotation (r + 1) % 4, nothing else touched. */
    method RotateCW()
      requires Valid()
      modifies this
      ensures Valid()
      ensures grid == RotatedCW(old(grid)) && rotation == (old(rotation) + 1) % 4
      ensures x == old(x) && y == old(y) && state == old(state)
    {
      var tmp := TurnMaskCW(grid);
      TurnedStepCW(spawn, rotation);
      rotation := (rotation + 1) % 4;
      grid := tmp;
    }

    /** rotate_ccw: the mask turned counter-clockwise, rotation (r + 3) % 4, nothing else touched. */
    method RotateCCW()
      requires Valid()
      modifies this
      ensures Valid()
      ensures grid == RotatedCCW(old(grid)) && rotation == (old(rotation) + 3) % 4
      ensures x == old(x) && y == old(y) && state == old(state)
    {
      var tmp := TurnMaskCCW(grid);
      TurnedStepCCW(spawn, rotation);
      rotation := (rotation + 3) % 4;
      grid := tmp;
    }

    /** translate: all or nothing. A Placed piece does not move; otherwise the piece
        moves by (dx, dy) exactly when the mask fits there, and stays put otherwise. */
    method Translate(board: GameBoard, dx: int, dy: int)
      requires Valid() && board.Valid()
      modifies this
      ensures Valid()
      ensures grid == old(grid) && rotation == old(rotation) && state == old(state)
      ensures old(state) == Placed ==> x == old(x) && y == old(y)
      ensures old(state) != Placed ==>
        if Fits(board.grid, board.width, board.height, grid, old(x) + dx, old(y) + dy)
        then x == old(x) + dx && y == old(y) + dy
        else x == old(x) && y == old(y)
      ensures Fits(board.grid, board.width, board.height, old(grid), old(x), old(y)) ==>
              Fits(board.grid, board.width, board.height, grid, x, y)
      ensures OnBoard(board.width, board.height, old(grid), old(x), old(y)) ==>
              OnBoard(board.width, board.height, grid, x, y)
    {
      if state == Placed {
        return;
      }
      x := x + dx;
      y := y + dy;
      var ok := board.TestPlacement(grid, x, y);
      if ok {
        FitsOnBoard(board.grid, board.width, board.height, grid, x, y);
        return;
      } else {
        x := x - dx;
        y := y - dy;
      }
    }

    /** The kick loop of srs_rotate: each kick vector (dx, dy) is tried in order at
        (x + dx, y - dy) and the first position that fits is kept; when none fits
        the piece is back at its starting position. */
    method TryKicks(board: GameBoard, kickVectors: seq<Kick>) returns (found: bool)
      requires board.Valid() && |grid| == 25
      modifies this
      ensures grid == old(grid) && rotation == old(rotation) && state == old(state)
      ensures var r := FirstFit(board.grid, board.width, board.height, grid, old(x), old(y), kickVectors, 0);
        found == r.Some? &&
        (r.Some? ==> x == old(x) + kickVectors[r.value].0 && y == old(y) - kickVectors[r.value].1) &&
        (r.Nothing? ==> x == old(x) && y == old(y))
      ensures found ==> Fits(board.grid, board.width, board.height, grid, x, y)
    {
      var prevX := x;
      var prevY := y;
      for i := 0 to |kickVectors|
        invariant grid == old(grid) && rotation == old(rotation) && state == old(state)
        invariant x == prevX && y == prevY
        invariant FirstFit(board.grid, board.width, board.height, grid, prevX, prevY, kickVectors, 0) ==
                  FirstFit(board.grid, board.width, board.height, grid, prevX, prevY, kickVectors, i)
      {
        var kickVector := kickVectors[i];
        x := x + kickVector.0;
        y := y - kickVector.1;
        var ok := board.TestPlacement(grid, x, y);
        if ok {
          FirstFitHit(board.grid, board.width, board.height, grid, prevX, prevY, kickVectors, i);
          return true;
        }
        FirstFitSkip(board.grid, board.width, board.height, grid, prevX, prevY, kickVectors, i);
        x := prevX;
        y := prevY;
      }
      return false;
    }

    /** The direction dispatch of srs_rotate: rotate_cw when clockwise, rotate_ccw otherwise. */
    method Turn(clockwise: bool)
      requires Valid()
      modifies this
      ensures Valid()
      ensures grid == TurnMask(old(grid), clockwise) && rotation == NextRotation(old(rotation), clockwise)
      ensures x == old(x) && y == old(y) && state == old(state)
    {
      if clockwise {
        RotateCW();
      } else {
        RotateCCW();
      }
    }

    /** srs_rotate: a Placed piece does not change. Otherwise the mask is turned in the
        requested direction and the kick vectors for this transition are tried in order;
        the first candidate position that fits is kept, and when none fits the mask,
        rotation and position are restored exactly. */
    method SrsRotate(board: GameBoard, clockwise: bool)
      requires Valid() && board.Valid() && kind != None
      modifies this
      ensures Valid() && state == old(state)
      ensures old(state) == Placed ==>
        grid == old(grid) && rotation == old(rotation) && x == old(x) && y == old(y)
      ensures old(state) != Placed ==>
        var kicks := GenKickVectors(old(rotation), NextRotation(old(rotation), clockwise));
        var found := FirstFit(board.grid, board.width, board.height, TurnMask(old(grid), clockwise), old(x), old(y), kicks, 0);
        (found.Some? ==>
          grid == TurnMask(old(grid), clockwise) && rotation == NextRotation(old(rotation), clockwise) &&
          x == old(x) + kicks[found.value].0 && y == old(y) - kicks[found.value].1) &&
        (found.Nothing? ==>
          grid == old(grid) && rotation == old(rotation) && x == old(x) && y == old(y))
      ensures Fits(board.grid, board.width, board.height, old(grid), old(x), old(y)) ==>
              Fits(board.grid, board.width, board.height, grid, x, y)
      ensures OnBoard(board.width, board.height, old(grid), old(x), old(y)) ==>
              OnBoard(board.width, board.height, grid, x, y)
    {
      if state == Placed {
        return;
      }
      var prevRotation := rotation;
      var prevX := x;
      var prevY := y;
      ghost var prevGrid := grid;

      Turn(clockwise);
      var kickVectors := GenKickVectors(prevRotation, rotation);
      var found := TryKicks(board, kickVectors);
      if found {
        FitsOnBoard(board.grid, board.width, board.height, grid, x, y);
        return;
      }
      TurnUndone(prevGrid, prevRotation, clockwise);
      Turn(!clockwise);
    }
  }

  /** new_random_piece, with the random index 0..6 as a parameter. */
  method NewRandomPiece(draw: int) returns (piece: TetrisPiece)
    requires 0 <= draw <= 6
    ensures fresh(piece) && piece.Valid()
    ensures piece.kind == KindOfDraw(draw) && piece.grid == SpawnMask(piece.kind)
    ensures piece.x == 2 && piece.y == 0 && piece.rotation == 0 && piece.state == Active
  {
    piece := new TetrisPiece(KindOfDraw(draw));
  }

  /** A real piece always has exactly four occupied mask cells, whatever its rotation. */
  lemma PieceFilled(p: TetrisPiece)
    requires p.Valid() && p.kind != None
    ensures Filled(p.grid) == 4
  {
    TurnedFilled(p.spawn, p.rotation);
    SpawnMaskCells(p.kind);
  }
}

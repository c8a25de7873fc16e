/** A move (script.js:55-67) and the game state it updates: the board is
    turned so that the move goes left, every row slides, the board is turned
    back, and the new board is committed, with a spawn, only when a
    comparison reports a difference. */
module Game {
  import opened Grid
  import opened RowSlide
  import opened Rotation
  import opened Spawn

  datatype Direction = Left | Right | Up | Down

  /** `{ left: 0, up: 3, right: 2, down: 1 }[dir]`: the quarter turns that
      make `dir` point left. */
  function Turns(d: Direction): (k: nat)
    ensures k < 4
  {
    match d
    case Left => 0
    case Up => 3
    case Right => 2
    case Down => 1
  }

  /** `(4 - times) % 4`: the quarter turns that bring a `dir` board back. */
  function TurnsBack(d: Direction): (k: nat)
    ensures k == (4 - Turns(d)) % 4
  {
    match d
    case Left => 0
    case Up => 1
    case Right => 2
    case Down => 3
  }

  /** `r.map(slide)`. */
  function SlideRows(b: seq<seq<int>>): (r: seq<seq<int>>)
    requires forall y :: 0 <= y < |b| ==> |b[y]| <= Size
    ensures |r| == |b| && forall y :: 0 <= y < |b| ==> r[y] == Slid(b[y])
  {
    seq(|b|, y requires 0 <= y < |b| => Slid(b[y]))
  }

  /** The board `r` holds at the end of `move(d)` (script.js:56-61). */
  function Resolved(b: seq<seq<int>>, d: Direction): (r: seq<seq<int>>)
    requires IsSquare(b, Size)
    ensures IsSquare(r, Size)
  {
    RotateN(SlideRows(RotateN(b, Turns(d))), TurnsBack(d))
  }

  /** `before !== JSON.stringify(r)` as written: `before` is the board after
      the forward turns, compared with the board after the backward ones. */
  predicate Commits(b: seq<seq<int>>, d: Direction)
    requires IsSquare(b, Size)
  {
    RotateN(b, Turns(d)) != Resolved(b, d)
  }

  /** The comparison a move evidently intends: did the board change? */
  predicate Changed(b: seq<seq<int>>, d: Direction)
    requires IsSquare(b, Size)
  {
    Resolved(b, d) != b
  }

  /** A move keeps the board square and made of tiles. */
  lemma ResolvedValid(b: seq<seq<int>>, d: Direction)
    requires ValidBoard(b)
    ensures ValidBoard(Resolved(b, d))
  {
    var k := Turns(d);
    var turned := RotateN(b, k);
    RotateNSquare(b, Size, k);
    RotateNTiles(b, k);
    var slid := SlideRows(turned);
    forall y | 0 <= y < Size ensures RowTilesOnly(slid[y]) {
      assert RowTilesOnly(turned[y]);
      SlidTiles(turned[y]);
    }
    assert TilesOnly(slid);
    RotateNTiles(slid, (4 - k) % 4);
  }

  /** Moving left slides every row to the left. */
  lemma MoveLeftRows(b: seq<seq<int>>, y: nat)
    requires IsSquare(b, Size) && y < Size
    ensures Resolved(b, Left)[y] == Slid(b[y])
  {
  }

  /** Each slid row has Size cells, so the slid board stays Size x Size. */
  lemma SlideRowsSquare(b: seq<seq<int>>)
    requires IsSquare(b, Size)
    ensures IsRect(SlideRows(b)) && IsSquare(SlideRows(b), Size)
  {
  }

  /** Moving right slides every row to the right: the row is reversed,
      slid left and reversed back. */
  lemma MoveRightRows(b: seq<seq<int>>, y: nat)
    requires IsSquare(b, Size) && y < Size
    ensures Resolved(b, Right)[y] == Reversed(Slid(Reversed(b[y])))
  {
    var n := Size;
    var turned := RotateN(b, 2);
    RotateNSquare(b, n, 2);
    var slid := SlideRows(turned);
    SlideRowsSquare(turned);
    HalfTurnRow(b, n, n - 1 - y);
    HalfTurnRow(slid, n, y);
  }

  /** Moving up slides every column to the top. */
  lemma MoveUpColumns(b: seq<seq<int>>, x: nat)
    requires IsSquare(b, Size) && x < Size
    ensures Column(Resolved(b, Up), x) == Slid(Column(b, x))
  {
    var slid := SlideRows(RotateN(b, 3));
    assert Resolved(b, Up) == RotateN(slid, 1);
    UpTurnedRow(b, x);
    QuarterTurnColumn(slid, Size, x);
  }

  /** Before an up move slides, column `x` has become row `Size - 1 - x`. */
  lemma UpTurnedRow(b: seq<seq<int>>, x: nat)
    requires IsSquare(b, Size) && x < Size
    ensures IsSquare(SlideRows(RotateN(b, 3)), Size)
    ensures SlideRows(RotateN(b, 3))[Size - 1 - x] == Slid(Column(b, x))
  {
    var turned := RotateN(b, 3);
    RotateNSquare(b, Size, 3);
    SlideRowsSquare(turned);
    ThreeTurnsRow(b, Size, x);
    assert SlideRows(turned)[Size - 1 - x] == Slid(turned[Size - 1 - x]);
  }

  /** Moving down slides every column to the bottom: the column is read
      bottom to top, slid, and written back bottom to top. */
  lemma MoveDownColumns(b: seq<seq<int>>, x: nat)
    requires IsSquare(b, Size) && x < Size
    ensures Reversed(Column(Resolved(b, Down), x)) == Slid(Reversed(Column(b, x)))
  {
    var n := Size;
    var turned := RotateN(b, 1);
    RotateNSquare(b, n, 1);
    var slid := SlideRows(turned);
    SlideRowsSquare(turned);
    QuarterTurnRow(b, n, x);
    ThreeTurnsColumn(slid, n, x);
    ReversedReversed(slid[x]);
  }

  /** The backward turns restore the orientation: a move whose slides change
      nothing gives back the board it started from. */
  lemma ResolvedOrientation(b: seq<seq<int>>, d: Direction)
    requires IsSquare(b, Size)
    requires var turned := RotateN(b, Turns(d));
      IsSquare(turned, Size) && SlideRows(turned) == turned
    ensures Resolved(b, d) == b
  {
    RotateRoundTrip(b, Turns(d));
  }

  /** For `left` the commit test is the change test. */
  lemma CommitsLeftIsChanged(b: seq<seq<int>>)
    requires IsSquare(b, Size)
    ensures Commits(b, Left) <==> Changed(b, Left)
  {
    assert RotateN(b, 0) == b;
  }

  /** A `left` move commits exactly when some row's slide differs from the
      row, and holds back exactly when every row is packed to the left
      with no equal neighbours. */
  lemma CommitsLeft(b: seq<seq<int>>)
    requires IsSquare(b, Size)
    ensures Commits(b, Left) <==> exists y :: 0 <= y < Size && Slid(b[y]) != b[y]
    ensures !Commits(b, Left) <==> forall y :: 0 <= y < Size ==> Packed(b[y]) && NoMergeableTiles(b[y])
  {
    var r := Resolved(b, Left);
    assert RotateN(b, 0) == b;
    assert forall y :: 0 <= y < Size ==> r[y] == Slid(b[y]);
    if r != b {
      assert exists y :: 0 <= y < Size && r[y] != b[y];
    }
    forall y | 0 <= y < Size ensures Slid(b[y]) == b[y] <==> Packed(b[y]) && NoMergeableTiles(b[y]) {
      SlidFixedPoint(b[y]);
    }
  }

  /** The corrected test: a move changes the board exactly when some cell
      differs, for every direction. */
  lemma ChangedIffCellDiffers(b: seq<seq<int>>, d: Direction)
    requires IsSquare(b, Size)
    ensures Changed(b, d) <==>
      exists y, x :: 0 <= y < Size && 0 <= x < Size && Resolved(b, d)[y][x] != b[y][x]
  {
    var r := Resolved(b, d);
    if r != b {
      var y :| 0 <= y < Size && r[y] != b[y];
      var x :| 0 <= x < Size && r[y][x] != b[y][x];
    }
  }

  /** A board whose two middle rows are empty. The worked examples below take
      such a board as a constrained parameter rather than a literal board: the
      verifier unfolds a literal 4 x 4 board through every turn and slide, which
      is far more costly than reasoning row by row from these equalities. */
  predicate MiddleEmpty(b: seq<seq<int>>, top: seq<int>, bottom: seq<int>) {
    |b| == Size && |top| == Size && |bottom| == Size &&
    b[0] == top && b[1] == Zeros(Size) && b[2] == Zeros(Size) && b[3] == bottom
  }

  /** The worked example: a top row [0, 2, 0, 2] moved left becomes
      [4, 0, 0, 0], the empty rows stay empty, and the move commits. */
  lemma ExampleMoveLeft(b: seq<seq<int>>)
    requires MiddleEmpty(b, [0, 2, 0, 2], Zeros(Size))
    ensures IsSquare(b, Size) && MiddleEmpty(Resolved(b, Left), [4, 0, 0, 0], Zeros(Size))
    ensures Commits(b, Left)
  {
    var r := Resolved(b, Left);
    SlidSpaced(2);
    SlidEmptyRow();
    MoveLeftRows(b, 0);
    MoveLeftRows(b, 1);
    MoveLeftRows(b, 2);
    MoveLeftRows(b, 3);
    CommitsLeftIsChanged(b);
    assert r[0] != b[0];
  }

  lemma SlidEmptyRow()
    ensures Slid(Zeros(Size)) == Zeros(Size)
  {
    CompactZeros(Size);
  }

  /** An empty row stays empty under a `right` move. */
  lemma MoveRightEmptyRow(b: seq<seq<int>>, y: nat)
    requires IsSquare(b, Size) && y < Size && b[y] == Zeros(Size)
    ensures Resolved(b, Right)[y] == Zeros(Size)
  {
    MoveRightRows(b, y);
    assert Reversed(Zeros(Size)) == Zeros(Size);
    SlidEmptyRow();
  }

  /** Quirk of script.js:59-62, first half: a `right` move that changes
      nothing (one tile already in the top right corner) still commits, so
      a tile is spawned after a no-op move. */
  lemma QuirkRightNoOpCommits(b: seq<seq<int>>)
    requires MiddleEmpty(b, [0, 0, 0, 2], Zeros(Size))
    ensures IsSquare(b, Size) && !Changed(b, Right) && Commits(b, Right)
  {
    CornerTileStays(b);
    HalfTurnMovesCorner(b);
  }

  lemma HalfTurnMovesCorner(b: seq<seq<int>>)
    requires MiddleEmpty(b, [0, 0, 0, 2], Zeros(Size))
    ensures RotateN(b, 2) != b
  {
    RotateNAt(b, Size, 2, 3, 0);
    assert RotateN(b, 2)[3][0] != b[3][0];
  }

  lemma CornerTileStays(b: seq<seq<int>>)
    requires MiddleEmpty(b, [0, 0, 0, 2], Zeros(Size))
    ensures IsSquare(b, Size) && Resolved(b, Right) == b
  {
    var r := Resolved(b, Right);
    assert Reversed(b[0]) == [2, 0, 0, 0];
    SlidSingle();
    assert Reversed([2, 0, 0, 0]) == b[0];
    MoveRightRows(b, 0);
    MoveRightEmptyRow(b, 1);
    MoveRightEmptyRow(b, 2);
    MoveRightEmptyRow(b, 3);
    SameRows(r, b);
  }

  /** Quirk of script.js:59-62, second half: a `right` move that slides two
      tiles (in the left corners) is dropped, because the half-turned board
      equals the result. */
  lemma QuirkRightMoveIgnored(b: seq<seq<int>>)
    requires MiddleEmpty(b, [2, 0, 0, 0], [2, 0, 0, 0])
    ensures IsSquare(b, Size) && Changed(b, Right) && !Commits(b, Right)
  {
    CornerTilesSlide(b);
    HalfTurnCorners(b);
    SameRows(RotateN(b, 2), Resolved(b, Right));
    assert Resolved(b, Right)[0][0] != b[0][0];
  }

  lemma CornerTilesSlide(b: seq<seq<int>>)
    requires MiddleEmpty(b, [2, 0, 0, 0], [2, 0, 0, 0])
    ensures IsSquare(b, Size) && MiddleEmpty(Resolved(b, Right), [0, 0, 0, 2], [0, 0, 0, 2])
  {
    MoveRightCornerRow(b, 0);
    MoveRightCornerRow(b, 3);
    MoveRightEmptyRow(b, 1);
    MoveRightEmptyRow(b, 2);
  }

  lemma MoveRightCornerRow(b: seq<seq<int>>, y: nat)
    requires IsSquare(b, Size) && y < Size && b[y] == [2, 0, 0, 0]
    ensures Resolved(b, Right)[y] == [0, 0, 0, 2]
  {
    MoveRightRows(b, y);
    assert Reversed([2, 0, 0, 0]) == [0, 0, 0, 2];
    SlidLast();
  }

  lemma HalfTurnCorners(b: seq<seq<int>>)
    requires MiddleEmpty(b, [2, 0, 0, 0], [2, 0, 0, 0])
    ensures IsSquare(b, Size) && MiddleEmpty(RotateN(b, 2), [0, 0, 0, 2], [0, 0, 0, 2])
  {
    RotateNSquare(b, Size, 2);
    HalfTurnRow(b, Size, 0);
    HalfTurnRow(b, Size, 1);
    HalfTurnRow(b, Size, 2);
    HalfTurnRow(b, Size, 3);
    assert Reversed(Zeros(Size)) == Zeros(Size);
    assert Reversed([2, 0, 0, 0]) == [0, 0, 0, 2];
  }

  /** Two boards whose rows agree one by one are equal. The four rows are
      written out because `Size` is 4; this saves a quantifier in the
      example proofs. */
  lemma SameRows(r: seq<seq<int>>, b: seq<seq<int>>)
    requires |r| == Size && |b| == Size
    requires r[0] == b[0] && r[1] == b[1] && r[2] == b[2] && r[3] == b[3]
    ensures r == b
  {
  }

  lemma SlidSingle()
    ensures Slid([2, 0, 0, 0]) == [2, 0, 0, 0]
  {
    assert Compact([2, 0, 0, 0]) == [2];
  }

  lemma SlidLast()
    ensures Slid([0, 0, 0, 2]) == [2, 0, 0, 0]
  {
    assert Compact([0, 0, 0, 2]) == [2];
  }

  /** The game: the global `board` of script.js and the functions that
      update it. */
  class Game {
    var board: seq<seq<int>>

    predicate Valid()
      reads this
    {
      ValidBoard(board)
    }

    /** script.js:23 and 144-145: an empty board, then two spawns. */
    constructor (p1: Draw, t1: Draw, p2: Draw, t2: Draw)
      requires p1.Valid() && t1.Valid() && p2.Valid() && t2.Valid()
      ensures Valid()
      ensures board == SpawnResult(SpawnResult(EmptyBoard(), p1, t1), p2, t2)
    {
      board := EmptyBoard();
      new;
      Spawn(p1, t1);
      Spawn(p2, t2);
    }

    /** `spawn()`, with the two values of `Math.random()` as parameters. */
    method Spawn(pick: Draw, tile: Draw)
      requires Valid() && pick.Valid() && tile.Valid()
      modifies this
      ensures Valid()
      ensures board == SpawnResult(old(board), pick, tile)
    {
      SpawnValid(board, pick, tile);
      var empty := CollectEmpty(board);
      if |empty| > 0 {
        var c := empty[PickIndex(pick, |empty|)];
        board := board[c.y := board[c.y][c.x := TileValue(tile)]];
      }
    }

    /** `move(dir)` as written: turn, slide every row, turn back, and commit
        and spawn when the turned board differs from the result. */
    method Move(dir: Direction, pick: Draw, tile: Draw)
      requires Valid() && pick.Valid() && tile.Valid()
      modifies this
      ensures Valid()
      ensures board ==
        if Commits(old(board), dir) then SpawnResult(Resolved(old(board), dir), pick, tile)
        else old(board)
    {
      var before, r := Resolve(board, dir);
      if before != r {
        ResolvedValid(board, dir);
        board := r;
        Spawn(pick, tile);
      }
    }

    /** The corrected move: commit and spawn exactly when the board changed. */
    method MoveIntended(dir: Direction, pick: Draw, tile: Draw)
      requires Valid() && pick.Valid() && tile.Valid()
      modifies this
      ensures Valid()
      ensures board ==
        if Changed(old(board), dir) then SpawnResult(Resolved(old(board), dir), pick, tile)
        else old(board)
    {
      var _, r := Resolve(board, dir);
      if board != r {
        ResolvedValid(board, dir);
        board := r;
        Spawn(pick, tile);
      }
    }
  }

  /** The computing part of `move(dir)` (script.js:56-61): `before` is the
      board after the forward turns, `r` the board after sliding and
      turning back. */
  method Resolve(b: seq<seq<int>>, dir: Direction) returns (before: seq<seq<int>>, r: seq<seq<int>>)
    requires IsSquare(b, Size)
    ensures before == RotateN(b, Turns(dir))
    ensures r == Resolved(b, dir)
  {
    var k := Turns(dir);
    before := Turn(b, k);
    RotateNSquare(b, Size, k);
    r := SlideEach(before);
    SlideRowsSquare(before);
    r := Turn(r, (4 - k) % 4);
  }

  /** `r.map(slide)`: every row slid left. */
  method SlideEach(b: seq<seq<int>>) returns (r: seq<seq<int>>)
    requires forall y :: 0 <= y < |b| ==> |b[y]| <= Size
    ensures r == SlideRows(b)
  {
    r := [];
    for y := 0 to |b|
      invariant |r| == y && forall j :: 0 <= j < y ==> r[j] == Slid(b[j])
    {
      var row := Slide(b[y]);
      r := r + [row];
    }
  }
}

/** Spawning a tile (script.js:33-40): the empty cells are listed in row-major
    order, one of them is picked at random and receives a 2 or a 4.
    The two calls to `Math.random()` are parameters here. */
module Spawn {
  import opened Grid

  /** A cell position: row `y`, column `x` (the `[y, x]` pairs of `empty`). */
  datatype Cell = Cell(y: nat, x: nat)

  /** `c` comes strictly before `d` in row-major order. */
  predicate RowMajorBefore(c: Cell, d: Cell) {
    c.y < d.y || (c.y == d.y && c.x < d.x)
  }

  /** The empty cells among the first `w` cells of row `row` (which is row
      `y` of the board), left to right. */
  function EmptyInRow(row: seq<int>, y: nat, w: nat): (r: seq<Cell>)
    requires w <= |row|
    ensures |r| <= w
    ensures forall k :: 0 <= k < |r| ==> r[k].y == y && r[k].x < w && row[r[k].x] == 0
    ensures forall k, l :: 0 <= k < l < |r| ==> RowMajorBefore(r[k], r[l])
  {
    if w == 0 then []
    else EmptyInRow(row, y, w - 1) + (if row[w - 1] == 0 then [Cell(y, w - 1)] else [])
  }

  /** The empty cells of the first `h` rows of `b`, in row-major order. */
  function EmptyRows(b: seq<seq<int>>, h: nat): (r: seq<Cell>)
    requires h <= |b|
    ensures forall k :: 0 <= k < |r| ==> r[k].y < h && r[k].x < |b[r[k].y]| && b[r[k].y][r[k].x] == 0
    ensures forall k, l :: 0 <= k < l < |r| ==> RowMajorBefore(r[k], r[l])
  {
    if h == 0 then []
    else
      var before := EmptyRows(b, h - 1);
      var last := EmptyInRow(b[h - 1], h - 1, |b[h - 1]|);
      assert forall k, l :: 0 <= k < |before| && 0 <= l < |last| ==> RowMajorBefore(before[k], last[l]);
      before + last
  }

  /** The `empty` list of `spawn`: every empty cell of `b`, row by row. */
  function EmptyCells(b: seq<seq<int>>): (r: seq<Cell>)
    ensures forall k :: 0 <= k < |r| ==> r[k].y < |b| && r[k].x < |b[r[k].y]| && b[r[k].y][r[k].x] == 0
    ensures forall k, l :: 0 <= k < l < |r| ==> RowMajorBefore(r[k], r[l])
  {
    EmptyRows(b, |b|)
  }

  /** script.js:34-35: the nested `forEach` that pushes each empty cell. */
  method CollectEmpty(b: seq<seq<int>>) returns (empty: seq<Cell>)
    ensures empty == EmptyCells(b)
  {
    empty := [];
    for y := 0 to |b|
      invariant empty == EmptyRows(b, y)
    {
      for x := 0 to |b[y]|
        invariant empty == EmptyRows(b, y) + EmptyInRow(b[y], y, x)
      {
        if b[y][x] == 0 {
          empty := empty + [Cell(y, x)];
        }
      }
    }
  }

  lemma {:induction false} EmptyInRowComplete(row: seq<int>, y: nat, w: nat, x: nat)
    requires w <= |row| && x < w && row[x] == 0
    ensures Cell(y, x) in EmptyInRow(row, y, w)
  {
    if x < w - 1 {
      EmptyInRowComplete(row, y, w - 1, x);
    }
  }

  lemma {:induction false} EmptyRowsComplete(b: seq<seq<int>>, h: nat, c: Cell)
    requires h <= |b| && c.y < h && c.x < |b[c.y]| && b[c.y][c.x] == 0
    ensures c in EmptyRows(b, h)
  {
    if c.y < h - 1 {
      EmptyRowsComplete(b, h - 1, c);
    } else {
      EmptyInRowComplete(b[c.y], c.y, |b[c.y]|, c.x);
    }
  }

  /** `spawn` lists exactly the empty cells of the board. */
  lemma EmptyCellsSpec(b: seq<seq<int>>, c: Cell)
    ensures c in EmptyCells(b) <==> c.y < |b| && c.x < |b[c.y]| && b[c.y][c.x] == 0
  {
    if c.y < |b| && c.x < |b[c.y]| && b[c.y][c.x] == 0 {
      EmptyRowsComplete(b, |b|, c);
    }
  }

  /** A value of `Math.random()`: the fraction num / den, in [0, 1). */
  datatype Draw = Draw(num: nat, den: nat) {
    predicate Valid() {
      num < den
    }
  }

  /** `Math.random() * len | 0`: an index into a list of `len` items. */
  function PickIndex(u: Draw, len: nat): (i: nat)
    requires u.Valid() && len > 0
    ensures i < len
  {
    FloorBelow(u.num, u.den, len);
    (u.num * len) / u.den
  }

  lemma FloorBelow(num: nat, den: nat, len: nat)
    requires num < den && len > 0
    ensures (num * len) / den < len
  {
    assert num * len < den * len;
    var q := (num * len) / den;
    assert q * den <= num * len;
  }

  /** `Math.random() < 0.9 ? 2 : 4`: the value of the new tile. */
  function TileValue(u: Draw): (v: int)
    ensures v == 2 || v == 4
  {
    if 10 * u.num < 9 * u.den then 2 else 4
  }

  /** `b` with `v` written into cell `c`: `board[y][x] = v`. */
  function Place(b: seq<seq<int>>, c: Cell, v: int): (r: seq<seq<int>>)
    requires c.y < |b| && c.x < |b[c.y]|
    ensures |r| == |b| && forall y :: 0 <= y < |b| ==> |r[y]| == |b[y]|
    ensures r[c.y][c.x] == v
    ensures forall y, x :: 0 <= y < |b| && 0 <= x < |b[y]| && (y != c.y || x != c.x) ==> r[y][x] == b[y][x]
  {
    b[c.y := b[c.y][c.x := v]]
  }

  /** The board `spawn` leaves, given the two random draws. */
  function SpawnResult(b: seq<seq<int>>, pick: Draw, tile: Draw): seq<seq<int>>
    requires pick.Valid() && tile.Valid()
  {
    var empty := EmptyCells(b);
    if |empty| == 0 then b
    else Place(b, empty[PickIndex(pick, |empty|)], TileValue(tile))
  }

  /** The cell `spawn` fills, when the board has an empty cell. */
  function SpawnCell(b: seq<seq<int>>, pick: Draw): (c: Cell)
    requires pick.Valid() && |EmptyCells(b)| > 0
    ensures c.y < |b| && c.x < |b[c.y]| && b[c.y][c.x] == 0
  {
    var empty := EmptyCells(b);
    empty[PickIndex(pick, |empty|)]
  }

  /** On a board without an empty cell `spawn` changes nothing. */
  lemma SpawnOnFullBoard(b: seq<seq<int>>, pick: Draw, tile: Draw)
    requires pick.Valid() && tile.Valid()
    requires forall y, x :: 0 <= y < |b| && 0 <= x < |b[y]| ==> b[y][x] != 0
    ensures SpawnResult(b, pick, tile) == b
  {
  }

  /** Otherwise exactly one cell changes: an empty one, which now holds 2 or 4. */
  lemma SpawnFillsOneEmptyCell(b: seq<seq<int>>, pick: Draw, tile: Draw)
    requires pick.Valid() && tile.Valid()
    requires exists y, x :: 0 <= y < |b| && 0 <= x < |b[y]| && b[y][x] == 0
    ensures |EmptyCells(b)| > 0
    ensures var r := SpawnResult(b, pick, tile);
      var c := SpawnCell(b, pick);
      && |r| == |b| && (forall y :: 0 <= y < |b| ==> |r[y]| == |b[y]|)
      && b[c.y][c.x] == 0 && (r[c.y][c.x] == 2 || r[c.y][c.x] == 4)
      && forall y, x :: 0 <= y < |b| && 0 <= x < |b[y]| && (y != c.y || x != c.x) ==> r[y][x] == b[y][x]
  {
    var y, x :| 0 <= y < |b| && 0 <= x < |b[y]| && b[y][x] == 0;
    EmptyCellsSpec(b, Cell(y, x));
  }

  lemma {:induction false} EmptyInRowPlace(row: seq<int>, y: nat, w: nat, x: nat, v: int)
    requires w <= |row| && x < |row| && row[x] == 0 && v != 0
    ensures |EmptyInRow(row[x := v], y, w)| == |EmptyInRow(row, y, w)| - (if x < w then 1 else 0)
  {
    if w > 0 {
      EmptyInRowPlace(row, y, w - 1, x, v);
    }
  }

  lemma {:induction false} EmptyRowsPlace(b: seq<seq<int>>, h: nat, c: Cell, v: int)
    requires h <= |b| && c.y < |b| && c.x < |b[c.y]| && b[c.y][c.x] == 0 && v != 0
    ensures |EmptyRows(Place(b, c, v), h)| == |EmptyRows(b, h)| - (if c.y < h then 1 else 0)
  {
    if h > 0 {
      var p := Place(b, c, v);
      EmptyRowsPlace(b, h - 1, c, v);
      if h - 1 == c.y {
        EmptyInRowPlace(b[c.y], c.y, |b[c.y]|, c.x, v);
        assert p[h - 1] == b[c.y][c.x := v];
      } else {
        assert p[h - 1] == b[h - 1];
      }
    }
  }

  /** A spawn on a board with an empty cell leaves one empty cell fewer. */
  lemma SpawnCount(b: seq<seq<int>>, pick: Draw, tile: Draw)
    requires pick.Valid() && tile.Valid()
    ensures |EmptyCells(SpawnResult(b, pick, tile))| ==
      if |EmptyCells(b)| == 0 then 0 else |EmptyCells(b)| - 1
  {
    if |EmptyCells(b)| > 0 {
      var c := SpawnCell(b, pick);
      EmptyRowsPlace(b, |b|, c, TileValue(tile));
    }
  }

  /** Every empty cell, and both tile values, can come out of a spawn. */
  lemma SpawnReachesEveryCell(b: seq<seq<int>>, c: Cell, v: int)
    requires c.y < |b| && c.x < |b[c.y]| && b[c.y][c.x] == 0
    requires v == 2 || v == 4
    ensures exists pick: Draw, tile: Draw :: pick.Valid() && tile.Valid() && SpawnResult(b, pick, tile) == Place(b, c, v)
  {
    var empty := EmptyCells(b);
    EmptyCellsSpec(b, c);
    var k :| 0 <= k < |empty| && empty[k] == c;
    var pick := Draw(k, |empty|);
    ExactIndex(k, |empty|);
    assert PickIndex(pick, |empty|) == k;
    var tile := if v == 2 then Draw(0, 1) else Draw(9, 10);
    assert TileValue(tile) == v;
    assert SpawnResult(b, pick, tile) == Place(b, c, v);
  }

  lemma MulMono(x: int, y: int, n: nat)
    requires x <= y
    ensures x * n <= y * n
  {
    assert y * n - x * n == (y - x) * n;
  }

  lemma DivUnique(a: int, n: nat, q: int)
    requires n > 0 && q * n <= a < q * n + n
    ensures a / n == q
  {
    var d := a / n;
    assert d * n <= a < d * n + n;
    if d < q {
      MulMono(d + 1, q, n);
    } else if d > q {
      MulMono(q + 1, d, n);
    }
  }

  lemma ExactIndex(k: nat, n: nat)
    requires k < n
    ensures (k * n) / n == k
  {
    DivUnique(k * n, n, k);
  }

  lemma {:induction false} EmptyInRowZeros(n: nat, y: nat, w: nat)
    requires w <= n
    ensures |EmptyInRow(Zeros(n), y, w)| == w
  {
    if w > 0 {
      EmptyInRowZeros(n, y, w - 1);
    }
  }

  lemma {:induction false} EmptyRowsOfEmptyBoard(h: nat)
    requires h <= Size
    ensures |EmptyRows(EmptyBoard(), h)| == h * Size
  {
    if h > 0 {
      EmptyRowsOfEmptyBoard(h - 1);
      EmptyInRowZeros(Size, h - 1, Size);
    }
  }

  /** A spawn keeps the board's shape and puts only a tile into it. */
  lemma SpawnValid(b: seq<seq<int>>, pick: Draw, tile: Draw)
    requires pick.Valid() && tile.Valid() && ValidBoard(b)
    ensures ValidBoard(SpawnResult(b, pick, tile))
  {
    if |EmptyCells(b)| > 0 {
      var c := SpawnCell(b, pick);
      var v := TileValue(tile);
      assert IsPow2(v);
      var r := Place(b, c, v);
      assert forall y, x :: 0 <= y < |r| && 0 <= x < |r[y]| ==> r[y][x] == b[y][x] || r[y][x] == v;
    }
  }

  /** The two spawns at start-up leave exactly two tiles, each a 2 or a 4. */
  lemma StartingBoard(p1: Draw, t1: Draw, p2: Draw, t2: Draw)
    requires p1.Valid() && t1.Valid() && p2.Valid() && t2.Valid()
    ensures var b := SpawnResult(SpawnResult(EmptyBoard(), p1, t1), p2, t2);
      && ValidBoard(b)
      && |EmptyCells(b)| == Size * Size - 2
      && forall y, x :: 0 <= y < Size && 0 <= x < Size ==> b[y][x] in {0, 2, 4}
  {
    var b0 := EmptyBoard();
    var b1 := SpawnResult(b0, p1, t1);
    var b2 := SpawnResult(b1, p2, t2);
    EmptyRowsOfEmptyBoard(Size);
    SpawnCount(b0, p1, t1);
    SpawnCount(b1, p2, t2);
    SpawnValid(b0, p1, t1);
    SpawnValid(b1, p2, t2);
    assert forall y, x :: 0 <= y < Size && 0 <= x < Size ==> b1[y][x] in {0, TileValue(t1)};
    assert forall y, x :: 0 <= y < Size && 0 <= x < Size ==> b2[y][x] in {0, TileValue(t1), TileValue(t2)};
  }
}

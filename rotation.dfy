/** The quarter turn of script.js:53 and its repetitions, as `move` uses them
    (script.js:58, 61). */
module Rotation {
  import opened Grid

  /** Column `x` of `b`, read top to bottom. */
  function Column(b: seq<seq<int>>, x: nat): (c: seq<int>)
    requires IsRect(b) && x < |b[0]|
    ensures |c| == |b| && forall y :: 0 <= y < |b| ==> c[y] == b[y][x]
  {
    seq(|b|, y requires 0 <= y < |b| => b[y][x])
  }

  /** `rotate(b)`: new row `i` is column `i` of `b` read bottom to top, so the
      board turns a quarter clockwise. */
  function Rotate(b: seq<seq<int>>): (r: seq<seq<int>>)
    requires IsRect(b)
    ensures IsRect(r) && |r| == |b[0]| && |r[0]| == |b|
    ensures forall i, j :: 0 <= i < |r| && 0 <= j < |b| ==> r[i][j] == b[|b| - 1 - j][i]
  {
    seq(|b[0]|, i requires 0 <= i < |b[0]| =>
      seq(|b|, j requires 0 <= j < |b| => b[|b| - 1 - j][i]))
  }

  /** Row `i` of the turned board is column `i` reversed, the expression
      `b.map(r => r[i]).reverse()` of script.js:53. */
  lemma RotateRow(b: seq<seq<int>>, i: nat)
    requires IsRect(b) && i < |b[0]|
    ensures Rotate(b)[i] == Reversed(Column(b, i))
  {
  }

  /** `k` successive quarter turns, as the `for` loops of `move` apply them. */
  function RotateN(b: seq<seq<int>>, k: nat): (r: seq<seq<int>>)
    requires IsRect(b)
    ensures IsRect(r)
    ensures |b| == |b[0]| ==> |r| == |b| && |r[0]| == |b|
  {
    if k == 0 then b else Rotate(RotateN(b, k - 1))
  }

  /** A turn keeps an n x n board n x n: `RotateN`'s shape clause, restated
      in terms of `IsSquare` for callers that reason about whole boards. */
  lemma RotateNSquare(b: seq<seq<int>>, n: nat, k: nat)
    requires IsRect(b) && IsSquare(b, n)
    ensures IsSquare(RotateN(b, k), n)
  {
  }

  /** A turn moves cells and creates no value. */
  lemma {:induction false} RotateNTiles(b: seq<seq<int>>, k: nat)
    requires IsRect(b) && TilesOnly(b)
    ensures TilesOnly(RotateN(b, k))
  {
    if k > 0 {
      RotateNTiles(b, k - 1);
      var p := RotateN(b, k - 1);
      var r := Rotate(p);
      forall y, x | 0 <= y < |r| && 0 <= x < |r[y]| ensures IsTile(r[y][x]) {
        assert r[y][x] == p[|p| - 1 - x][y];
      }
    }
  }

  /** Two quarter turns: a half turn, for every cell at once. The per-cell
      form `HalfTurnCell` is what other proofs call, since a single instance
      keeps their contexts small. */
  lemma HalfTurn(b: seq<seq<int>>)
    requires IsRect(b)
    ensures var r := Rotate(Rotate(b));
      forall i, j :: 0 <= i < |b| && 0 <= j < |b[0]| ==> r[i][j] == b[|b| - 1 - i][|b[0]| - 1 - j]
  {
    forall i, j | 0 <= i < |b| && 0 <= j < |b[0]|
      ensures Rotate(Rotate(b))[i][j] == b[|b| - 1 - i][|b[0]| - 1 - j]
    {
      HalfTurnCell(b, i, j);
    }
  }

  /** Where one cell lands after a half turn. */
  lemma HalfTurnCell(b: seq<seq<int>>, i: nat, j: nat)
    requires IsRect(b) && i < |b| && j < |b[0]|
    ensures |Rotate(Rotate(b))| == |b| && |Rotate(Rotate(b))[0]| == |b[0]|
    ensures Rotate(Rotate(b))[i][j] == b[|b| - 1 - i][|b[0]| - 1 - j]
  {
    var p := Rotate(b);
    assert Rotate(p)[i][j] == p[|p| - 1 - j][i];
  }

  /** Two matrices of one shape that agree on every cell are equal. */
  lemma SameCells(r: seq<seq<int>>, b: seq<seq<int>>)
    requires IsRect(r) && IsRect(b) && |r| == |b| && |r[0]| == |b[0]|
    requires forall i, j :: 0 <= i < |b| && 0 <= j < |b[0]| ==> r[i][j] == b[i][j]
    ensures r == b
  {
    forall i | 0 <= i < |b| ensures r[i] == b[i] {
      assert |r[i]| == |b[i]|;
    }
  }

  /** Four quarter turns give back the board, stated on `RotateN` as `move`
      uses it; `FourQuarterTurns` proves the same on the explicit chain of
      `Rotate` calls. */
  lemma FullTurn(b: seq<seq<int>>)
    requires IsRect(b)
    ensures RotateN(b, 4) == b
  {
    FourQuarterTurns(b);
    UnfoldFour(b);
  }

  lemma FourQuarterTurns(b: seq<seq<int>>)
    requires IsRect(b)
    ensures Rotate(Rotate(Rotate(Rotate(b)))) == b
  {
    var r := Rotate(Rotate(Rotate(Rotate(b))));
    forall i, j | 0 <= i < |b| && 0 <= j < |b[0]| ensures r[i][j] == b[i][j] {
      FourTurnsCell(b, i, j);
    }
    FourTurnsCell(b, 0, 0);
    SameCells(r, b);
  }

  lemma FourTurnsCell(b: seq<seq<int>>, i: nat, j: nat)
    requires IsRect(b) && i < |b| && j < |b[0]|
    ensures var r := Rotate(Rotate(Rotate(Rotate(b))));
      |r| == |b| && |r[0]| == |b[0]| && r[i][j] == b[i][j]
  {
    var h := Rotate(Rotate(b));
    HalfTurnCell(b, |b| - 1 - i, |b[0]| - 1 - j);
    HalfTurnCell(h, i, j);
  }

  lemma UnfoldTwo(b: seq<seq<int>>)
    requires IsRect(b)
    ensures RotateN(b, 2) == Rotate(Rotate(b))
  {
    assert RotateN(b, 1) == Rotate(RotateN(b, 0));
  }

  lemma UnfoldThree(b: seq<seq<int>>)
    requires IsRect(b)
    ensures RotateN(b, 3) == Rotate(Rotate(Rotate(b)))
  {
    UnfoldTwo(b);
  }

  lemma UnfoldFour(b: seq<seq<int>>)
    requires IsRect(b)
    ensures RotateN(b, 4) == Rotate(Rotate(Rotate(Rotate(b))))
  {
    UnfoldThree(b);
  }

  /** Turning `p` times, then `q` times, is turning `p + q` times. */
  lemma {:induction false} RotateNAdd(b: seq<seq<int>>, p: nat, q: nat)
    requires IsRect(b)
    ensures RotateN(RotateN(b, p), q) == RotateN(b, p + q)
  {
    if q > 0 {
      RotateNAdd(b, p, q - 1);
    }
  }

  /** The forward and backward turns of `move` cancel out: `k` turns followed
      by `(4 - k) % 4` turns give back the board, for each k in 0..3. */
  lemma RotateRoundTrip(b: seq<seq<int>>, k: nat)
    requires IsRect(b) && k < 4
    ensures RotateN(RotateN(b, k), (4 - k) % 4) == b
  {
    if k > 0 {
      var back := 4 - k;
      assert (4 - k) % 4 == back;
      RotateNAdd(b, k, back);
      FullTurn(b);
    }
  }

  /** `for (let i = 0; i < k; i++) r = rotate(r);` (script.js:58, 61). */
  method Turn(b: seq<seq<int>>, k: nat) returns (r: seq<seq<int>>)
    requires IsRect(b)
    ensures r == RotateN(b, k)
  {
    r := b;
    for i := 0 to k
      invariant r == RotateN(b, i)
    {
      r := Rotate(r);
    }
  }

  /** Where each cell of an n x n board lands after 0 to 3 quarter turns. */
  lemma RotateNAt(b: seq<seq<int>>, n: nat, k: nat, i: nat, j: nat)
    requires IsRect(b) && IsSquare(b, n) && k < 4 && i < n && j < n
    ensures IsSquare(RotateN(b, k), n)
    ensures RotateN(b, k)[i][j] ==
      if k == 0 then b[i][j]
      else if k == 1 then b[n - 1 - j][i]
      else if k == 2 then b[n - 1 - i][n - 1 - j]
      else b[j][n - 1 - i]
  {
    RotateNSquare(b, n, k);
    if k == 1 {
      assert RotateN(b, 1) == Rotate(RotateN(b, 0));
    } else if k == 2 {
      UnfoldTwo(b);
      HalfTurnCell(b, i, j);
    } else if k == 3 {
      UnfoldThree(b);
      ThreeTurnsCell(b, n, i, j);
    }
  }

  lemma ThreeTurnsCell(b: seq<seq<int>>, n: nat, i: nat, j: nat)
    requires IsRect(b) && IsSquare(b, n) && i < n && j < n
    ensures Rotate(Rotate(Rotate(b)))[i][j] == b[j][n - 1 - i]
  {
    var h := Rotate(Rotate(b));
    HalfTurnCell(b, n - 1 - j, i);
    assert Rotate(h)[i][j] == h[n - 1 - j][i];
  }

  /** A half turn reverses the order of the rows and each row. */
  lemma HalfTurnRow(b: seq<seq<int>>, n: nat, i: nat)
    requires IsRect(b) && IsSquare(b, n) && i < n
    ensures RotateN(b, 2)[i] == Reversed(b[n - 1 - i])
  {
    RotateNSquare(b, n, 2);
    forall j | 0 <= j < n ensures RotateN(b, 2)[i][j] == b[n - 1 - i][n - 1 - j] {
      RotateNAt(b, n, 2, i, j);
    }
  }

  /** After one quarter turn, row `i` is column `i` read bottom to top:
      `RotateRow` stated on `RotateN(b, 1)`, the form `move` produces. */
  lemma QuarterTurnRow(b: seq<seq<int>>, n: nat, i: nat)
    requires IsRect(b) && IsSquare(b, n) && i < n
    ensures RotateN(b, 1)[i] == Reversed(Column(b, i))
  {
    RotateNSquare(b, n, 1);
    forall j | 0 <= j < n ensures RotateN(b, 1)[i][j] == b[n - 1 - j][i] {
      RotateNAt(b, n, 1, i, j);
    }
  }

  /** After one quarter turn, column `x` is row `n - 1 - x`. */
  lemma QuarterTurnColumn(b: seq<seq<int>>, n: nat, x: nat)
    requires IsRect(b) && IsSquare(b, n) && x < n
    ensures IsRect(RotateN(b, 1)) && Column(RotateN(b, 1), x) == b[n - 1 - x]
  {
    RotateNSquare(b, n, 1);
    forall i | 0 <= i < n ensures RotateN(b, 1)[i][x] == b[n - 1 - x][i] {
      RotateNAt(b, n, 1, i, x);
    }
  }

  /** After three quarter turns, column `x` is row `n - 1 - x`. */
  lemma ThreeTurnsRow(b: seq<seq<int>>, n: nat, x: nat)
    requires IsRect(b) && IsSquare(b, n) && x < n
    ensures RotateN(b, 3)[n - 1 - x] == Column(b, x)
  {
    RotateNSquare(b, n, 3);
    var r := RotateN(b, 3)[n - 1 - x];
    var c := Column(b, x);
    forall j | 0 <= j < n ensures r[j] == c[j] {
      ThreeTurnsColumnCell(b, n, x, j);
    }
    assert |r| == n == |c|;
  }

  lemma ThreeTurnsColumnCell(b: seq<seq<int>>, n: nat, x: nat, j: nat)
    requires IsRect(b) && IsSquare(b, n) && x < n && j < n
    ensures IsSquare(RotateN(b, 3), n) && RotateN(b, 3)[n - 1 - x][j] == b[j][x]
  {
    RotateNAt(b, n, 3, n - 1 - x, j);
  }

  /** After three quarter turns, column `x` is row `x` read back to front. */
  lemma ThreeTurnsColumn(b: seq<seq<int>>, n: nat, x: nat)
    requires IsRect(b) && IsSquare(b, n) && x < n
    ensures IsRect(RotateN(b, 3)) && Column(RotateN(b, 3), x) == Reversed(b[x])
  {
    RotateNSquare(b, n, 3);
    forall i | 0 <= i < n ensures RotateN(b, 3)[i][x] == b[x][n - 1 - i] {
      RotateNAt(b, n, 3, i, x);
    }
  }
}

/** The board: a Size x Size matrix of cells, each empty (0) or holding a tile
    whose value is a power of two no smaller than 2 (script.js:1, 23). */
module Grid {

  /** The board dimension, the global `size` of script.js. */
  const Size: nat := 4

  /** A tile value: 2, 4, 8, ... */
  predicate IsPow2(v: int)
    decreases if v < 0 then 0 else v
  {
    v == 2 || (v > 2 && v % 2 == 0 && IsPow2(v / 2))
  }

  /** What a cell may hold: nothing (0) or a tile. */
  predicate IsTile(v: int) {
    v == 0 || IsPow2(v)
  }

  /** A non-empty matrix whose rows all have the same non-zero length. */
  predicate IsRect(b: seq<seq<int>>) {
    |b| > 0 && |b[0]| > 0 && forall y :: 0 <= y < |b| ==> |b[y]| == |b[0]|
  }

  /** An n x n matrix. */
  predicate IsSquare(b: seq<seq<int>>, n: nat) {
    |b| == n && forall y :: 0 <= y < n ==> |b[y]| == n
  }

  /** Every cell of `b` is empty or a tile. */
  predicate TilesOnly(b: seq<seq<int>>) {
    forall y, x :: 0 <= y < |b| && 0 <= x < |b[y]| ==> IsTile(b[y][x])
  }

  /** The invariant the game keeps on its board. */
  predicate ValidBoard(b: seq<seq<int>>) {
    IsSquare(b, Size) && TilesOnly(b)
  }

  /** `n` empty cells. */
  function Zeros(n: nat): (r: seq<int>)
    ensures |r| == n && forall i :: 0 <= i < n ==> r[i] == 0
  {
    seq(n, _ => 0)
  }

  /** The all-empty board the game starts from (script.js:23). */
  function EmptyBoard(): (b: seq<seq<int>>)
    ensures ValidBoard(b)
    ensures forall y, x :: 0 <= y < Size && 0 <= x < Size ==> b[y][x] == 0
  {
    seq(Size, _ => Zeros(Size))
  }

  /** A sequence read back to front, as JavaScript's `reverse()` leaves it. */
  function Reversed(s: seq<int>): (r: seq<int>)
    ensures |r| == |s| && forall i :: 0 <= i < |s| ==> r[i] == s[|s| - 1 - i]
  {
    seq(|s|, i requires 0 <= i < |s| => s[|s| - 1 - i])
  }

  lemma ReversedReversed(s: seq<int>)
    ensures Reversed(Reversed(s)) == s
  {
  }

  lemma Pow2Double(v: int)
    requires IsPow2(v)
    ensures IsPow2(2 * v)
  {
    assert (2 * v) / 2 == v;
  }
}

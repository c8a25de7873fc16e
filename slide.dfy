/** The row rule of script.js:42-51: tiles slide to the left, equal neighbours
    merge once, and the row is padded back to Size with empty cells. */
module RowSlide {
  import opened Grid

  /** `row.filter(Boolean)`: the row's tiles in order, empty cells dropped. */
  function Compact(row: seq<int>): (r: seq<int>)
    ensures |r| <= |row|
    ensures forall i :: 0 <= i < |r| ==> r[i] != 0
    ensures (forall i :: 0 <= i < |row| ==> row[i] != 0) ==> r == row
  {
    if row == [] then []
    else (if row[0] != 0 then [row[0]] else []) + Compact(row[1..])
  }

  /** No two neighbours of `s` are equal. This is about the list of tiles
      after the filter; `NoMergeableTiles` below is its counterpart on a
      padded row, where neighbouring empty cells are allowed to be equal. */
  predicate NoEqualNeighbours(s: seq<int>) {
    forall i :: 0 <= i < |s| - 1 ==> s[i] != s[i + 1]
  }

  /** The merge pass of script.js:44-49 on a row of tiles: scanning left to
      right, two equal neighbours become one tile of twice the value, and the
      doubled tile is not compared again in the same pass. */
  function MergePairs(s: seq<int>): (r: seq<int>)
    ensures |r| <= |s|
    ensures |r| == |s| <==> NoEqualNeighbours(s)
    ensures NoEqualNeighbours(s) ==> r == s
    ensures (forall i :: 0 <= i < |s| ==> s[i] != 0) ==> forall i :: 0 <= i < |r| ==> r[i] != 0
    decreases |s|
  {
    if |s| < 2 then s
    else if s[0] == s[1] then [2 * s[0]] + MergePairs(s[2..])
    else [s[0]] + MergePairs(s[1..])
  }

  /** What `slide(row)` returns. */
  function Slid(row: seq<int>): (r: seq<int>)
    requires |row| <= Size
    ensures |r| == Size
  {
    var merged := MergePairs(Compact(row));
    merged + Zeros(Size - |merged|)
  }

  /** script.js:42-51 as written: filter, then merge in place with `*= 2`
      and `splice` while the index keeps advancing, then pad with zeros. */
  method Slide(row: seq<int>) returns (out: seq<int>)
    requires |row| <= Size
    ensures out == Slid(row)
  {
    var r := Compact(row);
    ghost var tiles := r;
    var i := 0;
    while i < |r| - 1
      invariant 0 <= i <= |r|
      invariant MergePairs(tiles) == r[..i] + MergePairs(r[i..])
    {
      if r[i] == r[i + 1] {
        MergeAdvance(tiles, r, i);
        r := r[i := r[i] * 2];
        r := r[..i + 1] + r[i + 2..];
      } else {
        KeepAdvance(tiles, r, i);
      }
      i := i + 1;
    }
    MergeDone(tiles, r, i);
    out := r + Zeros(Size - |r|);
  }

  /** When fewer than two cells are left to scan, the merge pass is over. */
  lemma MergeDone(tiles: seq<int>, r: seq<int>, i: nat)
    requires i <= |r| && !(i < |r| - 1)
    requires MergePairs(tiles) == r[..i] + MergePairs(r[i..])
    ensures r == MergePairs(tiles)
  {
    MergeShort(r[i..]);
    assert r == r[..i] + r[i..];
  }

  /** The loop invariant of `Slide` survives a merge at `i`. */
  lemma MergeAdvance(tiles: seq<int>, r: seq<int>, i: nat)
    requires i < |r| - 1 && r[i] == r[i + 1]
    requires MergePairs(tiles) == r[..i] + MergePairs(r[i..])
    ensures var doubled := r[i := r[i] * 2];
      var spliced := doubled[..i + 1] + doubled[i + 2..];
      MergePairs(tiles) == spliced[..i + 1] + MergePairs(spliced[i + 1..])
  {
    MergeStep(r, i);
    SpliceShift(r, i, MergePairs(r[i + 2..]));
  }

  /** Sequence bookkeeping of a merge: doubling cell `i` and splicing out
      cell `i + 1` moves the scan past the doubled tile. */
  lemma SpliceShift(r: seq<int>, i: nat, rest: seq<int>)
    requires i < |r| - 1
    ensures var doubled := r[i := r[i] * 2];
      var spliced := doubled[..i + 1] + doubled[i + 2..];
      spliced[..i + 1] == r[..i] + [2 * r[i]] && spliced[i + 1..] == r[i + 2..] &&
      r[..i] + ([2 * r[i]] + rest) == spliced[..i + 1] + rest
  {
    var doubled := r[i := r[i] * 2];
    var spliced := doubled[..i + 1] + doubled[i + 2..];
    assert spliced[..i + 1] == r[..i] + [2 * r[i]];
    assert spliced[i + 1..] == r[i + 2..];
  }

  /** The loop invariant of `Slide` survives a step without a merge. */
  lemma KeepAdvance(tiles: seq<int>, r: seq<int>, i: nat)
    requires i < |r| - 1 && r[i] != r[i + 1]
    requires MergePairs(tiles) == r[..i] + MergePairs(r[i..])
    ensures MergePairs(tiles) == r[..i + 1] + MergePairs(r[i + 1..])
  {
    MergeStep(r, i);
    KeepShift(r, i, MergePairs(r[i + 1..]));
  }

  /** Sequence bookkeeping of a step without a merge. */
  lemma KeepShift(r: seq<int>, i: nat, rest: seq<int>)
    requires i < |r|
    ensures r[..i] + ([r[i]] + rest) == r[..i + 1] + rest
  {
    assert r[..i + 1] == r[..i] + [r[i]];
  }

  lemma MergeShort(s: seq<int>)
    requires |s| < 2
    ensures MergePairs(s) == s
  {
  }

  /** One step of the merge pass, seen from position `i`. */
  lemma MergeStep(r: seq<int>, i: nat)
    requires i < |r| - 1
    ensures r[i] == r[i + 1] ==> MergePairs(r[i..]) == [2 * r[i]] + MergePairs(r[i + 2..])
    ensures r[i] != r[i + 1] ==> MergePairs(r[i..]) == [r[i]] + MergePairs(r[i + 1..])
  {
    assert r[i..][2..] == r[i + 2..];
    assert r[i..][1..] == r[i + 1..];
  }

  /** Every tile of `row` comes before every empty cell. */
  predicate Packed(row: seq<int>) {
    forall i, j :: 0 <= i < j < |row| && row[i] == 0 ==> row[j] == 0
  }

  /** No tile of `row` has an equal right neighbour (two empty cells may be
      neighbours). */
  predicate NoMergeableTiles(row: seq<int>) {
    forall i :: 0 <= i < |row| - 1 && row[i] != 0 ==> row[i] != row[i + 1]
  }

  /** Sum of the cell values of a row. */
  function Sum(s: seq<int>): int {
    if s == [] then 0 else s[0] + Sum(s[1..])
  }

  /** Every cell of `row` is empty or a tile. */
  predicate RowTilesOnly(row: seq<int>) {
    forall i :: 0 <= i < |row| ==> IsTile(row[i])
  }

  lemma {:induction false} CompactZeros(n: nat)
    ensures Compact(Zeros(n)) == []
  {
    if n > 0 {
      assert Zeros(n)[1..] == Zeros(n - 1);
      CompactZeros(n - 1);
    }
  }

  /** A row of tiles followed by empty cells compacts back to its tiles. */
  lemma {:induction false} CompactPadded(m: seq<int>, n: nat)
    requires forall i :: 0 <= i < |m| ==> m[i] != 0
    ensures Compact(m + Zeros(n)) == m
  {
    if m == [] {
      assert m + Zeros(n) == Zeros(n);
      CompactZeros(n);
    } else {
      assert (m + Zeros(n))[1..] == m[1..] + Zeros(n);
      CompactPadded(m[1..], n);
    }
  }

  /** A packed row is its tiles followed by empty cells. */
  lemma {:induction false} PackedSplit(row: seq<int>)
    requires Packed(row)
    ensures |Compact(row)| <= |row|
    ensures row == Compact(row) + Zeros(|row| - |Compact(row)|)
  {
    if row == [] {
    } else if row[0] == 0 {
      PackedEmptyHead(row);
      CompactZeros(|row|);
    } else {
      PackedTail(row);
      PackedSplit(row[1..]);
      SplitCons(row);
    }
  }

  /** The inductive step of `PackedSplit`: a leading tile is kept. */
  lemma SplitCons(row: seq<int>)
    requires row != [] && row[0] != 0
    requires |Compact(row[1..])| <= |row[1..]|
    requires row[1..] == Compact(row[1..]) + Zeros(|row[1..]| - |Compact(row[1..])|)
    ensures row == Compact(row) + Zeros(|row| - |Compact(row)|)
  {
    CompactStep(row);
    assert row == [row[0]] + row[1..];
    ConsPadded(row[0], row[1..], Compact(row[1..]), row);
  }

  /** Sequence bookkeeping: a cell put in front of tiles-then-zeros. */
  lemma ConsPadded(x: int, t: seq<int>, c: seq<int>, row: seq<int>)
    requires row == [x] + t && |c| <= |t| && t == c + Zeros(|t| - |c|)
    ensures row == ([x] + c) + Zeros(|row| - |[x] + c|)
  {
    assert [x] + (c + Zeros(|t| - |c|)) == ([x] + c) + Zeros(|t| - |c|);
  }

  /** A packed row starting with an empty cell is all empty. */
  lemma PackedEmptyHead(row: seq<int>)
    requires Packed(row) && row != [] && row[0] == 0
    ensures row == Zeros(|row|)
  {
    forall j | 0 <= j < |row| ensures row[j] == 0 {
      if j > 0 {
        assert row[0] == 0;
      }
    }
  }

  /** Dropping the first cell keeps a row packed. */
  lemma PackedTail(row: seq<int>)
    requires Packed(row) && row != []
    ensures Packed(row[1..])
  {
    forall i, j | 0 <= i < j < |row[1..]| && row[1..][i] == 0
      ensures row[1..][j] == 0
    {
      assert row[i + 1] == 0;
    }
  }

  /** The result of `slide` holds its tiles first, then its empty cells. */
  lemma SlidPacked(row: seq<int>)
    requires |row| <= Size
    ensures Packed(Slid(row))
  {
    var merged := MergePairs(Compact(row));
    assert forall i :: 0 <= i < |merged| ==> Slid(row)[i] == merged[i] != 0;
  }

  /** `slide` returns to a row its own value exactly when the row is already
      packed to the left and no tile has an equal right neighbour. */
  lemma SlidFixedPoint(row: seq<int>)
    requires |row| == Size
    ensures Slid(row) == row <==> Packed(row) && NoMergeableTiles(row)
  {
    if Packed(row) && NoMergeableTiles(row) {
      SettledRowStays(row);
    }
    if Slid(row) == row {
      StayingRowSettled(row);
    }
  }

  lemma SettledRowStays(row: seq<int>)
    requires |row| == Size && Packed(row) && NoMergeableTiles(row)
    ensures Slid(row) == row
  {
    var c := Compact(row);
    PackedSplit(row);
    assert forall i :: 0 <= i < |c| ==> c[i] == row[i];
    assert NoEqualNeighbours(c) by {
      forall i | 0 <= i < |c| - 1 ensures c[i] != c[i + 1] {
        assert row[i] != 0;
      }
    }
  }

  lemma StayingRowSettled(row: seq<int>)
    requires |row| == Size && Slid(row) == row
    ensures Packed(row) && NoMergeableTiles(row)
  {
    SlidPacked(row);
    var m := MergePairs(Compact(row));
    StayingTilesApart(row);
    PaddedNoMergeable(m, Size - |m|);
  }

  /** A row that a slide leaves alone is its merged tiles, padded, and no
      two of those tiles are equal neighbours. */
  lemma StayingTilesApart(row: seq<int>)
    requires |row| == Size && Slid(row) == row
    ensures var m := MergePairs(Compact(row));
      |m| <= Size && row == m + Zeros(Size - |m|) && NoEqualNeighbours(m)
  {
    var m := MergePairs(Compact(row));
    StayingPadded(row);
    MergedInPlace(m);
  }

  /** A row that a slide leaves alone is its merged tiles, padded, and those
      tiles are already what the filter gives. */
  lemma StayingPadded(row: seq<int>)
    requires |row| == Size && Slid(row) == row
    ensures var m := MergePairs(Compact(row));
      |m| <= Size && row == m + Zeros(Size - |m|) && MergePairs(m) == m
  {
    var m := MergePairs(Compact(row));
    assert row == m + Zeros(Size - |m|);
    MergedTilesNonzero(row);
    CompactPadded(m, Size - |m|);
  }

  /** Merging the tiles of a row leaves no empty cell among them. */
  lemma MergedTilesNonzero(row: seq<int>)
    ensures var m := MergePairs(Compact(row));
      forall i :: 0 <= i < |m| ==> m[i] != 0
  {
  }

  /** A merge pass that changes nothing found no equal neighbours. */
  lemma MergedInPlace(m: seq<int>)
    requires MergePairs(m) == m
    ensures NoEqualNeighbours(m)
  {
    assert |MergePairs(m)| == |m|;
  }

  /** Tiles without equal neighbours, padded with empty cells, have no
      mergeable pair. */
  lemma PaddedNoMergeable(m: seq<int>, n: nat)
    requires NoEqualNeighbours(m)
    ensures NoMergeableTiles(m + Zeros(n))
  {
    var row := m + Zeros(n);
    forall i | 0 <= i < |row| - 1 && row[i] != 0 ensures row[i] != row[i + 1] {
      if i + 1 < |m| {
        assert row[i] == m[i] && row[i + 1] == m[i + 1];
      }
    }
  }

  lemma {:induction false} SumAppend(a: seq<int>, b: seq<int>)
    ensures Sum(a + b) == Sum(a) + Sum(b)
  {
    if a == [] {
      assert a + b == b;
    } else {
      assert (a + b)[0] == a[0];
      assert (a + b)[1..] == a[1..] + b;
      SumAppend(a[1..], b);
    }
  }

  lemma {:induction false} SumZeros(n: nat)
    ensures Sum(Zeros(n)) == 0
  {
    if n > 0 {
      assert Zeros(n)[1..] == Zeros(n - 1);
      SumZeros(n - 1);
    }
  }

  lemma {:induction false} SumCompact(row: seq<int>)
    ensures Sum(Compact(row)) == Sum(row)
  {
    if row != [] {
      SumCompact(row[1..]);
      SumAppend(if row[0] != 0 then [row[0]] else [], Compact(row[1..]));
    }
  }

  lemma {:induction false} SumMergePairs(s: seq<int>)
    ensures Sum(MergePairs(s)) == Sum(s)
    decreases |s|
  {
    if |s| >= 2 {
      assert s[1..][1..] == s[2..];
      if s[0] == s[1] {
        SumMergePairs(s[2..]);
      } else {
        SumMergePairs(s[1..]);
      }
    }
  }

  /** A slide neither creates nor destroys value: the row sum is kept. */
  lemma SlidSum(row: seq<int>)
    requires |row| <= Size
    ensures Sum(Slid(row)) == Sum(row)
  {
    var merged := MergePairs(Compact(row));
    SumAppend(merged, Zeros(Size - |merged|));
    SumZeros(Size - |merged|);
    SumMergePairs(Compact(row));
    SumCompact(row);
  }

  /** A slide never yields more tiles than the row had. */
  lemma SlidTileCount(row: seq<int>)
    requires |row| <= Size
    ensures |Compact(Slid(row))| <= |Compact(row)|
  {
    var c := Compact(row);
    var merged := MergePairs(c);
    assert Slid(row) == merged + Zeros(Size - |merged|);
    assert forall i :: 0 <= i < |merged| ==> merged[i] != 0;
    CompactPadded(merged, Size - |merged|);
  }

  lemma {:induction false} MergePairsTiles(s: seq<int>)
    requires RowTilesOnly(s)
    ensures RowTilesOnly(MergePairs(s))
    decreases |s|
  {
    if |s| >= 2 {
      if s[0] == s[1] {
        if s[0] != 0 {
          Pow2Double(s[0]);
        }
        MergePairsTiles(s[2..]);
      } else {
        MergePairsTiles(s[1..]);
      }
    }
  }

  /** `filter(Boolean)` keeps every tile of the row, each as often as it
      occurs, and drops every empty cell. */
  lemma {:induction false} CompactKeeps(row: seq<int>)
    ensures multiset(Compact(row)) == multiset(row)[0 := 0]
  {
    if row != [] {
      CompactKeeps(row[1..]);
      CompactStep(row);
      assert row == [row[0]] + row[1..];
      assert multiset(row) == multiset([row[0]]) + multiset(row[1..]);
    }
  }

  /** The filter keeps the tiles in their order: filtering a row piece by
      piece and joining the pieces is filtering the whole row. */
  lemma {:induction false} CompactAppend(a: seq<int>, b: seq<int>)
    ensures Compact(a + b) == Compact(a) + Compact(b)
  {
    if a == [] {
      assert a + b == b;
    } else {
      CompactAppend(a[1..], b);
      assert (a + b)[0] == a[0] && (a + b)[1..] == a[1..] + b;
      CompactStep(a + b);
      CompactStep(a);
      var head := if a[0] != 0 then [a[0]] else [];
      AppendAssoc(head, Compact(a[1..]), Compact(b));
    }
  }

  lemma AppendAssoc(x: seq<int>, y: seq<int>, z: seq<int>)
    ensures x + (y + z) == (x + y) + z
  {
  }

  /** The length of the filtered row is the number of tiles of the row: its
      length less its empty cells. */
  lemma CompactCount(row: seq<int>)
    ensures |Compact(row)| == |row| - multiset(row)[0]
  {
    CompactKeeps(row);
    assert |multiset(row)| == |multiset(row)[0 := 0]| + multiset(row)[0];
  }

  /** `filter` keeps only values of its input. */
  lemma {:induction false} CompactFrom(row: seq<int>)
    ensures forall i :: 0 <= i < |Compact(row)| ==> Compact(row)[i] in row
  {
    if row != [] {
      CompactFrom(row[1..]);
      CompactStep(row);
      var c := Compact(row);
      var tail := Compact(row[1..]);
      forall i | 0 <= i < |c| ensures c[i] in row {
        if row[0] != 0 && i == 0 {
          assert c[0] == row[0];
        } else {
          var k := if row[0] != 0 then i - 1 else i;
          assert c[i] == tail[k];
          assert tail[k] in row[1..];
        }
      }
    }
  }

  /** A slide of a row of tiles yields a row of tiles. */
  lemma SlidTiles(row: seq<int>)
    requires |row| <= Size
    requires RowTilesOnly(row)
    ensures RowTilesOnly(Slid(row))
  {
    var c := Compact(row);
    CompactFrom(row);
    assert RowTilesOnly(c);
    MergePairsTiles(c);
  }

  /** Every value the merge pass yields is a value of its input, or twice a
      value that sits next to an equal one. This bounds what a merge can
      produce (so [2, 2, 4] cannot give 8); that a doubled tile does not
      merge again in the same pass is shown by the worked examples below. */
  lemma {:induction false} MergePairsOrigin(s: seq<int>)
    ensures forall j :: 0 <= j < |MergePairs(s)| ==>
      MergePairs(s)[j] in s || exists i :: 0 <= i < |s| - 1 && s[i] == s[i + 1] && MergePairs(s)[j] == 2 * s[i]
    decreases |s|
  {
    var r := MergePairs(s);
    if |s| >= 2 {
      var k := if s[0] == s[1] then 2 else 1;
      var rest := s[k..];
      MergePairsOrigin(rest);
      assert r == [r[0]] + MergePairs(rest);
      forall j | 0 < j < |r|
        ensures r[j] in s || exists i :: 0 <= i < |s| - 1 && s[i] == s[i + 1] && r[j] == 2 * s[i]
      {
        assert r[j] == MergePairs(rest)[j - 1];
        if r[j] in rest {
          var i :| 0 <= i < |rest| && rest[i] == r[j];
          assert s[i + k] == r[j];
        } else {
          var i :| 0 <= i < |rest| - 1 && rest[i] == rest[i + 1] && r[j] == 2 * rest[i];
          assert s[i + k] == s[i + k + 1] && r[j] == 2 * s[i + k];
        }
      }
    }
  }

  /** Every tile `slide` returns is an input tile, or twice an input tile
      that had an equal neighbour once the empty cells were dropped. This
      excludes results such as [8, 0, 0, 0] for [2, 2, 4, 0]. */
  lemma SlidOrigin(row: seq<int>, j: nat)
    requires |row| <= Size
    requires j < Size && Slid(row)[j] != 0
    ensures Slid(row)[j] in row ||
      exists i :: 0 <= i < |Compact(row)| - 1 && Compact(row)[i] == Compact(row)[i + 1] && Slid(row)[j] == 2 * Compact(row)[i]
  {
    var c := Compact(row);
    var m := MergePairs(c);
    MergePairsOrigin(c);
    CompactFrom(row);
    assert j < |m|;
    assert Slid(row)[j] == m[j];
    if m[j] in c {
      var i :| 0 <= i < |c| && c[i] == m[j];
      assert c[i] in row;
    } else {
      var i :| 0 <= i < |c| - 1 && c[i] == c[i + 1] && m[j] == 2 * c[i];
      assert Slid(row)[j] == 2 * Compact(row)[i];
    }
  }

  /** Two pairs of equal tiles merge pair by pair: [a, a, b, b] slides to
      [2a, 2b, 0, 0]. */
  lemma SlidTwoPairs(a: int, b: int)
    requires a != 0 && b != 0
    ensures Slid([a, a, b, b]) == [2 * a, 2 * b, 0, 0]
  {
    var row := [a, a, b, b];
    assert Compact(row) == row;
    assert row[2..] == [b, b];
    assert MergePairs([b, b]) == [2 * b] + MergePairs([]);
  }

  /** Empty cells between equal tiles do not stop the merge: [a, 0, a, b]
      slides to [2a, b, 0, 0]. */
  lemma SlidAcrossGap(a: int, b: int)
    requires a != 0 && b != 0
    ensures Slid([a, 0, a, b]) == [2 * a, b, 0, 0]
  {
    CompactGap(a, b);
    var c := [a, a, b];
    assert c[2..] == [b];
    assert MergePairs(c) == [2 * a] + MergePairs([b]);
  }

  lemma CompactGap(a: int, b: int)
    requires a != 0 && b != 0
    ensures Compact([a, 0, a, b]) == [a, a, b]
  {
    var row := [a, 0, a, b];
    assert row[1..] == [0, a, b];
    assert [0, a, b][1..] == [a, b];
    assert Compact([a, b]) == [a, b];
  }

  /** Four equal tiles make two doubled tiles, not one: [a, a, a, a] slides
      to [2a, 2a, 0, 0]. */
  lemma SlidFourEqual(a: int)
    requires a != 0
    ensures Slid([a, a, a, a]) == [2 * a, 2 * a, 0, 0]
  {
    SlidTwoPairs(a, a);
  }

  /** Two equal tiles with empty cells around them merge: [0, a, 0, a]
      slides to [2a, 0, 0, 0]. */
  lemma SlidSpaced(a: int)
    requires a != 0
    ensures Slid([0, a, 0, a]) == [2 * a, 0, 0, 0]
  {
    var row := [0, a, 0, a];
    CompactStep(row);
    assert row[1..] == [a, 0, a];
    CompactStep([a, 0, a]);
    assert [a, 0, a][1..] == [0, a];
    CompactStep([0, a]);
    assert [0, a][1..] == [a];
    assert Compact([a]) == [a];
    assert Compact(row) == [a, a];
  }

  /** One step of the filter. */
  lemma CompactStep(s: seq<int>)
    requires s != []
    ensures Compact(s) == (if s[0] != 0 then [s[0]] else []) + Compact(s[1..])
  {
  }

  /** A doubled tile is not merged again in the same slide: [a, a, 2a, 0]
      slides to [2a, 2a, 0, 0], which a second slide turns into
      [4a, 0, 0, 0]. */
  lemma SlidTwiceMergesAgain(a: int)
    requires a != 0
    ensures Slid([a, a, 2 * a, 0]) == [2 * a, 2 * a, 0, 0]
    ensures Slid([2 * a, 2 * a, 0, 0]) == [4 * a, 0, 0, 0]
  {
    SlidPairThenDouble(a);
    SlidPairPadded(2 * a);
  }

  lemma SlidPairThenDouble(a: int)
    requires a != 0
    ensures Slid([a, a, 2 * a, 0]) == [2 * a, 2 * a, 0, 0]
  {
    var c := [a, a, 2 * a];
    assert [a, a, 2 * a, 0] == c + Zeros(1);
    CompactPadded(c, 1);
    assert c[2..] == [2 * a];
    assert MergePairs(c) == [2 * a] + MergePairs([2 * a]);
  }

  lemma SlidPairPadded(a: int)
    requires a != 0
    ensures Slid([a, a, 0, 0]) == [2 * a, 0, 0, 0]
  {
    var c := [a, a];
    assert [a, a, 0, 0] == c + Zeros(2);
    CompactPadded(c, 2);
    assert c[2..] == [];
  }

  /** The worked examples of merging without chains. */
  lemma SlidExamples()
    ensures Slid([2, 2, 4, 4]) == [4, 8, 0, 0]
    ensures Slid([2, 0, 2, 4]) == [4, 4, 0, 0]
    ensures Slid([4, 4, 4, 4]) == [8, 8, 0, 0]
    ensures Slid([0, 2, 0, 2]) == [4, 0, 0, 0]
  {
    SlidTwoPairs(2, 4);
    SlidAcrossGap(2, 4);
    SlidFourEqual(4);
    SlidSpaced(2);
  }

  /** `slide` is not idempotent: [2, 2, 4, 0] slides to [4, 4, 0, 0], and a
      second slide merges the two fours. */
  lemma SlidNotIdempotent()
    ensures Slid([2, 2, 4, 0]) == [4, 4, 0, 0]
    ensures Slid(Slid([2, 2, 4, 0])) == [8, 0, 0, 0]
  {
    SlidTwiceMergesAgain(2);
  }
}

# 2048 board engine in Dafny

This project models the game engine of a small browser 2048 game (`script.js`).
The game keeps a 4 x 4 board of cells. A cell is empty (0) or holds a tile
whose value is a power of two. A move in one of four directions does the following:

- It turns the board so that the move points left.
- It slides every row left, merging equal neighbours once.
- It turns the board back.
- If a comparison reports a difference, it commits the new board and spawns a 2 or a 4 in a random empty cell.

Keys (arrows or WASD, in any letter case) and one-finger swipes choose the direction.

Modules:

- `Grid` (`grid.dfy`): the board size, tile values, the board shape and the empty start board.
- `RowSlide` (`slide.dfy`): `slide`. `Slide` is a method with the source's loop. It is proved equal to the function `Slid`, which is built from `Compact` (the filter) and `MergePairs` (the merge pass). The lemmas cover:
  - length, packing and the sum of values;
  - tile count, tile values, and where each result tile comes from. The worked examples show that a doubled tile does not merge again in the same slide;
  - the fixed points and worked examples.
  - `slide` is not idempotent: `SlidNotIdempotent` shows a row that a second slide merges again.
- `Rotation` (`rotation.dfy`): `rotate` as the function `Rotate`. `RotateN` repeats it, and the method `Turn` is the source's turning loop. The lemmas cover shape, cell positions, four turns giving the identity, and the round trip `k` then `(4 - k) % 4`.
- `Spawn` (`spawn.dfy`): the empty-cell list and the choice of cell and tile value.
  - `Math.random()` is a parameter: a fraction `num / den` in [0, 1) (`Draw`).
  - The index is `num * len / den` rounded down, which is `Math.random() * len | 0`.
  - The tile is 2 exactly when `num / den < 9 / 10`.
- `Game` (`game.dfy`): directions, what a move computes (`Resolved`), and its commit test as written (`Commits`). The class `Game` holds the global `board` and has the methods `Spawn`, `Move` and the corrected `MoveIntended`.
- `Controls` (`controls.dfy`): the key map with its lower-case lookup, the swipe rule, and the two listeners as methods on a `Game`.

## Model

| member | source | states |
|---|---|---|
| Grid.EmptyBoard | script.js:23 | the initial board is 4 x 4, made of tiles, and every cell is empty |
| Grid.Pow2Double | script.js:46 | doubling a tile value gives a tile value |
| RowSlide.Compact | script.js:43 | the filtered row is no longer than the row, holds only non-zero values, and is the row itself when the row has no empty cell |
| RowSlide.CompactKeeps | script.js:43 | the filtered row holds every tile of the row, each as often as in the row, and no empty cell: its multiset is the row's with the zeros removed |
| RowSlide.CompactAppend | script.js:43 | filtering two pieces and joining them is filtering the joined row, so the filter keeps the tiles in their order |
| RowSlide.CompactCount | script.js:43 | the filtered row's length is the row's length less its empty cells, so it counts the tiles |
| RowSlide.MergePairs | script.js:44-49 | the merge pass never lengthens the row; it keeps the length exactly when no two neighbours are equal, and then returns the row unchanged; tiles in give tiles out |
| RowSlide.Slid | script.js:50 | the slid row always has `size` cells |
| RowSlide.Slide | script.js:42-51 | the loop that merges in place and splices returns exactly `Slid(row)` |
| RowSlide.CompactPadded | script.js:43-50 | filtering a row of tiles followed by zeros gives back the tiles |
| RowSlide.SumCompact | script.js:43 | filtering keeps the row sum |
| RowSlide.SumMergePairs | script.js:44-49 | merging keeps the row sum |
| RowSlide.SlidPacked | script.js:42-51 | in the slid row every tile comes before every empty cell |
| RowSlide.SlidFixedPoint | script.js:42-51 | a full-width row is returned unchanged if and only if it is packed left and no tile equals its right neighbour |
| RowSlide.SettledRowStays | script.js:42-51 | a packed row without equal neighbours is unchanged by a slide |
| RowSlide.StayingRowSettled | script.js:42-51 | a row a slide leaves unchanged is packed and has no equal neighbours |
| RowSlide.SlidSum | script.js:42-51 | sliding keeps the sum of the row |
| RowSlide.SlidTileCount | script.js:43-49 | a slide never yields more tiles than the row had (tiles counted by the filter, which `CompactCount` ties to the non-empty cells) |
| RowSlide.SlidTiles | script.js:46 | a row of powers of two slides to a row of powers of two |
| RowSlide.MergePairsOrigin | script.js:44-49 | each merged value is an input value or twice one of two equal neighbours |
| RowSlide.SlidOrigin | script.js:44-49 | every tile of the result is an input tile or twice a tile that has an equal neighbour among the filtered tiles, so [2,2,4,0] cannot give [8,0,0,0]; that a doubled tile is not merged again is shown by `SlidFourEqual`, `SlidTwoPairs` and `SlidTwiceMergesAgain` |
| RowSlide.SlidTwoPairs | script.js:42-51 | for any tiles a and b, [a,a,b,b] slides to [2a,2b,0,0]: two pairs merge separately |
| RowSlide.SlidAcrossGap | script.js:42-51 | for any tiles a and b, [a,0,a,b] slides to [2a,b,0,0]: equal tiles merge across an empty cell |
| RowSlide.SlidFourEqual | script.js:42-51 | for any tile a, [a,a,a,a] slides to [2a,2a,0,0]: a doubled tile does not merge again in the same pass |
| RowSlide.SlidSpaced | script.js:42-51 | for any tile a, [0,a,0,a] slides to [2a,0,0,0] |
| RowSlide.SlidTwiceMergesAgain | script.js:42-51 | for any tile a, [a,a,2a,0] slides to [2a,2a,0,0], and that row slides on to [4a,0,0,0] |
| RowSlide.SlidExamples | script.js:42-51 | [2,2,4,4] slides to [4,8,0,0], [2,0,2,4] to [4,4,0,0], [4,4,4,4] to [8,8,0,0] and [0,2,0,2] to [4,0,0,0] |
| RowSlide.CompactFrom | script.js:43 | every tile the filter keeps is a value of the row |
| RowSlide.PaddedNoMergeable | script.js:50 | tiles without equal neighbours, padded with empty cells, leave no mergeable pair |
| RowSlide.SlidNotIdempotent | script.js:42-51 | [2,2,4,0] slides to [4,4,0,0], which slides again to [8,0,0,0] |
| Rotation.Column | script.js:53 | `b.map(r => r[i])` has one entry per row, and entry y is cell (y, i) |
| Rotation.Rotate | script.js:53 | the turned matrix swaps the dimensions, and its cell (i, j) is cell (n-1-j, i) of the input |
| Rotation.RotateRow | script.js:53 | row i of the turned board is column i reversed |
| Rotation.RotateN | script.js:58 | repeated turns keep the matrix rectangular and keep a square board square |
| Rotation.RotateNSquare | script.js:58 | turning keeps an n x n board n x n |
| Rotation.RotateNTiles | script.js:53 | turning creates no value: a board of tiles stays a board of tiles |
| Rotation.HalfTurn | script.js:53 | two turns send cell (i, j) to (n-1-i, m-1-j) |
| Rotation.FourQuarterTurns | script.js:53 | four turns give back the matrix |
| Rotation.FullTurn | script.js:58-61 | four repeated turns give back the board |
| Rotation.RotateNAdd | script.js:58-61 | p turns followed by q turns are p + q turns |
| Rotation.RotateRoundTrip | script.js:58-61 | k forward turns followed by (4 - k) % 4 turns give back the board, for k in 0..3 |
| Rotation.Turn | script.js:58 | the turning loop yields exactly k turns |
| Rotation.RotateNAt | script.js:58 | where each cell lands after 0, 1, 2 or 3 turns |
| Rotation.HalfTurnRow | script.js:58-61 | after two turns, row i is row n-1-i reversed |
| Rotation.QuarterTurnRow | script.js:58-61 | after one turn, row i is column i reversed |
| Rotation.QuarterTurnColumn | script.js:58-61 | after one turn, column x is row n-1-x |
| Rotation.HalfTurnCell | script.js:53 | two quarter turns send cell (i, j) to (h-1-i, w-1-j) and keep the shape |
| Rotation.ThreeTurnsRow | script.js:58-61 | after three turns, column x of the board is row n-1-x |
| Rotation.ThreeTurnsColumn | script.js:58-61 | after three turns, column x is row x reversed |
| Spawn.EmptyInRow | script.js:35 | the empty cells of a row, each really empty, in increasing column order |
| Spawn.EmptyRows | script.js:35 | the listed cells are empty cells of the board, in row-major order |
| Spawn.CollectEmpty | script.js:34-35 | the nested loops build exactly the list `EmptyCells(b)` |
| Spawn.EmptyCells | script.js:34-35 | the `empty` list: every listed cell is on the board and empty, and the cells come in strict row-major order (completeness is `EmptyCellsSpec`) |
| Spawn.EmptyCellsSpec | script.js:34-35 | a cell is in the list if and only if it is on the board and empty |
| Spawn.PickIndex | script.js:37 | `Math.random() * len \| 0` is a valid index below len |
| Spawn.TileValue | script.js:38 | the new tile is 2 or 4 |
| Spawn.Place | script.js:38 | writing one cell sets that cell and leaves every other cell and the shape alone |
| Spawn.SpawnCell | script.js:36-37 | the chosen cell is on the board and empty |
| Spawn.SpawnResult | script.js:33-40 | `spawn()`: the board unchanged when no cell is empty, otherwise the board with the drawn empty cell set to the drawn tile; its properties are the lemmas below |
| Spawn.SpawnOnFullBoard | script.js:36 | a board with no empty cell is left unchanged |
| Spawn.SpawnFillsOneEmptyCell | script.js:33-40 | otherwise exactly one cell changes; it was empty and now holds 2 or 4 |
| Spawn.SpawnCount | script.js:33-40 | a spawn on a board with an empty cell leaves one empty cell fewer |
| Spawn.SpawnReachesEveryCell | script.js:37-38 | every empty cell and both tile values can be drawn |
| Spawn.SpawnValid | script.js:33-40 | a spawn keeps the board 4 x 4 and made of tiles |
| Spawn.StartingBoard | script.js:144-145 | the two start-up spawns leave 14 empty cells and two tiles, each 2 or 4 |
| Game.Turns | script.js:57 | each direction needs fewer than four turns |
| Game.TurnsBack | script.js:61 | the backward turns are (4 - k) % 4 |
| Game.SlideRows | script.js:60 | `r.map(slide)` keeps the row count and slides each row |
| Game.Resolved | script.js:56-61 | the board a move computes is 4 x 4 |
| Game.Commits | script.js:59-62 | the test `before !== JSON.stringify(r)` as written: the board after the forward turns differs from the board after the backward turns |
| Game.Changed | script.js:59-62 | the test the move evidently intends: the resolved board differs from the board before the move |
| Game.ResolvedValid | script.js:55-61 | a move keeps the board made of tiles |
| Game.MoveLeftRows | script.js:57-61 | `left` slides every row left |
| Game.MoveRightRows | script.js:57-61 | `right` slides every row right: reversed, slid, reversed back |
| Game.MoveUpColumns | script.js:57-61 | `up` slides every column to the top |
| Game.MoveDownColumns | script.js:57-61 | `down` slides every column to the bottom |
| Game.ResolvedOrientation | script.js:58-61 | when the slides change nothing, the turned-back board is the original board |
| Game.CommitsLeftIsChanged | script.js:59-62 | for `left` the commit test is the test "the board changed" |
| Game.CommitsLeft | script.js:59-62 | a `left` move commits if and only if some row's slide differs from the row, and holds back if and only if every row is packed with no equal neighbours |
| Game.ChangedIffCellDiffers | script.js:62 | the corrected test holds if and only if some cell of the result differs from the board |
| Game.ExampleMoveLeft | script.js:55-62 | a top row [0,2,0,2] moved left becomes [4,0,0,0] and the move commits |
| Game.QuirkRightNoOpCommits | script.js:59-62 | a `right` move on a board whose only tile is in the top right corner changes nothing, yet commits |
| Game.QuirkRightMoveIgnored | script.js:59-62 | a `right` move with tiles in the two left corners changes the board, yet does not commit |
| Game.Resolve | script.js:56-61 | the turning and sliding code yields the forward-turned board and `Resolved(b, dir)` |
| Game.SlideEach | script.js:60 | the slide loop yields `SlideRows(b)` |
| Game.Game.constructor | script.js:144-145 | the game starts from the empty board after two spawns, and the board is valid |
| Game.Game.Spawn | script.js:33-40 | the new board is `SpawnResult` of the old one, and stays valid |
| Game.Game.Move | script.js:55-67 | as written: the board becomes the resolved board plus a spawn when the forward-turned board differs from the result, else it is unchanged (no spawn) |
| Game.Game.MoveIntended | script.js:55-67 | corrected: the board becomes the resolved board plus a spawn exactly when the move changed the board, else it is unchanged |
| Controls.LowerChar | script.js:116 | `toLowerCase` restricted to ASCII, on one character: the ASCII upper-case letters A-Z become a-z, no letter A-Z remains, and every other character is kept |
| Controls.LowerCase | script.js:116 | `key.toLowerCase()` restricted to ASCII, character by character: the same length, no letter A-Z left, and a key without letters A-Z is unchanged |
| Controls.Keys | script.js:108-113 | the `keys` object: arrowleft and a go left, arrowright and d right, arrowup and w up, arrowdown and s down |
| Controls.KeyDirection | script.js:115-117 | no direction exactly when the lower-cased key is not in the map |
| Controls.KeyDirectionNames | script.js:108-113 | a key chooses direction d if and only if its lower-cased form is d's arrow name or d's letter |
| Controls.KeyCaseInsensitive | script.js:116 | a key and its lower-cased form choose the same direction |
| Controls.UpKeys | script.js:108-117 | "ArrowUp", "w" and "W" all move up |
| Controls.UnboundKeys | script.js:116-117 | "Enter" and "x" produce no move |
| Controls.Abs | script.js:135 | `Math.abs` of an integer |
| Controls.SwipeDirection | script.js:135-141 | no move if and only if both travels are below 30; right iff dx >= 30 and dx > \|dy\|; left iff dx <= -30 and -dx > \|dy\|; down iff dy >= 30 and dy >= \|dx\|; up iff dy <= -30 and -dy >= \|dx\| |
| Controls.SwipeReversed | script.js:137-141 | swiping the opposite way chooses the opposite direction |
| Controls.SwipeTieVertical | script.js:137-141 | a swipe equally long on both axes goes vertical |
| Controls.SwipeExamples | script.js:135-141 | (-40, 5) moves left; (10, 10) is a tap |
| Controls.KeyDown | script.js:115-118 | a bound key performs that move, and an unbound key leaves the board unchanged |
| Controls.TouchEnd | script.js:129-142 | a swipe performs its move, and a tap leaves the board unchanged |

## Left out

- Rendering: `draw`, `getColor`, `PALETTE`, `bounce`, the placeholder cells and `prevBoard` (script.js:2-22, 24-31, 69-105). They only display the board.
- The `draw()` call after a committed move (script.js:65). It does not change the board.
- The listeners' plumbing:
  - the one-finger guards: `e.touches.length !== 1` in `touchstart` and `e.changedTouches.length !== 1` in `touchend` (script.js:124, 130);
  - `touchstart` recording the start point;
  - the `passive` option.
  `Controls.TouchEnd` receives the finger's travel `dx`, `dy` directly.
- Touch coordinates are floating-point pixels in the browser. The model takes them as integers.
- `Math.random()` is not modelled as a generator: each call is a parameter (`Draw`), an exact fraction in [0, 1). Two rounding effects are not modelled:
  - rounding of the double product `Math.random() * len` before `| 0`;
  - the literal `0.9` being a double slightly above 9/10.
- Tile values are unbounded integers. JavaScript numbers lose precision above 2^53, which a 4 x 4 board cannot reach.
- `Controls.LowerChar`, `Controls.LowerCase`: only the ASCII letters A-Z are lower-cased. Non-ASCII case mapping is not modelled, for example 'É' to 'é', nor mappings that change the length, such as 'İ' to two characters. So the model keeps such characters, and always keeps the key's length.
- `Controls.KeyDirection`:
  - It lower-cases ASCII letters only. Full Unicode case mapping is not modelled. It is not needed here: no non-ASCII character lower-cases to any of the bound key names.
  - Lookups of inherited object properties (such as `keys["constructor"]`) are not modelled. No key value lower-cases to such a name.
- `Game.Game.Move`: the "changed if and only if different" property is stated only for `left` (`Game.CommitsLeft`). For the other directions the source's test compares the wrong boards (see Findings).

## Findings

| source | as written | input that shows it | evidently intended | confidence | as-written member | corrected member |
|---|---|---|---|---|---|---|
| script.js:59-62 | `before` is taken after the forward turns but compared with the board after the backward turns, so for `right`, `up` and `down` the test compares two differently oriented boards | `right` on a board whose only tile is a 2 in the top right corner: nothing moves, yet the move commits and spawns a tile | commit and spawn exactly when the move changed the board | not executed | Game.QuirkRightNoOpCommits | Game.Game.MoveIntended |
| script.js:59-62 | same comparison: a board that equals the half-turned result is never committed | `right` on a board with a 2 in the top left and a 2 in the bottom left corner: both tiles move right, yet the move is dropped | commit and spawn exactly when the move changed the board | not executed | Game.QuirkRightMoveIgnored | Game.ChangedIffCellDiffers |

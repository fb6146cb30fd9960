# 2048 game and automatic player — a Dafny model

This project models the deterministic core of a JavaFX clone of 2048 and
of the automatic players written for it. Everything is stated as pure
Dafny functions over immutable values, with lemmas proving what the code
promises.

**The player's line engine (`Rows`, `RowLemmas`).** Class `Row` holds one
row or column as a list of cell values, with `-1` for an empty cell. Its
operations are:
- `validRowMove`, `hasFreeSpace` and `hasSameTile`;
- the recursive `compact`;
- the in-place `join`;
- `moveRow`.

The three copies of `Row.java` have the same logic and are modelled once.
The three passes of a move are proved equal to the standard 2048 rule,
stated independently as `ReferenceMove`: gaps dropped, equal neighbours
merged once from the side the line moves to, and the line padded. A line
changes exactly when `validRowMove` says the move is valid.

**The player's grid (`PlayerGrid`, `Render`).** `MyGriglia` and
`QuickGrid` are a map from `Location` to `Integer`. `isValida(m)` and
`move(m)` cut the grid into four lines and run the line engine on each.
The map may hold configuration keys at negative coordinates, and these
are kept. The other operations are `freeLocations`, `add`, `toMatrix`,
the `toString` variants and the size constructors (`Math.sqrt` of the
capacity).

**The searching player (`Evaluator`, `Search`, `Strategies`, `Players`).**
- `evaluate`: the snake-path positional score with base 0.25.
- `recursiveSearch`: a depth-limited search. The opponent adds a 2 in the
  free cell that scores worst, and lower plies are damped by powers of
  0.9.
- The blind strategies `nextMoveBlind` and `nextMoveBlind2`.
- The random style.
- `prossimaMossa`, which reads the style and the depth from configuration
  keys.

The mirror player of the second copy keeps its own grid, is told where
the new tile landed, and dispatches on a fixed mode.

**The live game (`Geometry`, `Cells`, `LiveBoard`, `LiveMove`, `LiveGame`,
`Autoplay`).**
- `Location`, `Direction` and `Tile`.
- The board of `GameManager`, a map from `Location` to a tile or `null`.
- `findFarthestLocation` and the sorted traversal.
- The move lambda that merges or slides each tile.
- `mergeMovementsAvailable` and `findRandomAvailableLocation`.
- The `onFinished` handler with `onFinishNewlyAddedTile`.
- `creaGriglia` and `autoMove`.

The central result is `LiveMove.TraverseOutcome`. For a sweep over a
board with no merge flags, it proves:
- the move's points equal the values of the merged tiles;
- the sum of the tile values is kept;
- every merge removes exactly one tile;
- the won flag follows the win rule;
- "tiles were moved" is zero exactly when the board is unchanged.

The proof is an induction over the traversal with one invariant. Two
facts carry it:
- a tile merged during the sweep always lies on a cell already visited,
  so no tile merges twice;
- a potential (each tile's distance to the edge) drops with every
  counted move.

Randomness is a parameter everywhere: `pick` is the index
`findRandomAvailableLocation` draws, `draw` is the real that
`newRandomTile` compares with 0.9, and `draws` are the values of
`rand.nextInt(4)`. Java's `double` is modelled as `real`. Exceptions are
values of an `Outcome` type.

## Model

| member | source | states |
|---|---|---|
| Rows.FromList | giocatoreAutomatico/src/giocatoreAutomatico/player/Row.java:50-60 | the list constructor keeps the cells and sets `empty` exactly when every cell is -1 |
| Rows.AddKeepsFlag | giocatoreAutomatico/src/giocatoreAutomatico/player/Row.java:264-269 | `add` appends the cell and keeps `empty` truthful: true iff all cells are -1 |
| Rows.BuildIsFromList | giocatoreAutomatico/src/giocatoreAutomatico/player/Row.java:40-43 | a row built by `new Row()` and one `add` per cell equals the row built by the list constructor |
| Rows.MoveRow | giocatoreAutomatico/src/giocatoreAutomatico/player/Row.java:244-250 | `moveRow` keeps the length and the flag and leaves the row untouched when the move is not valid |
| RowLemmas.ValidIffPairOrFree | giocatoreAutomatico/src/giocatoreAutomatico/player/Row.java:69-154 | `validRowMove` is true iff two consecutive tiles (gaps skipped) are equal or some tile has an empty cell next to it on the side the line moves to |
| RowLemmas.CompactStartSpec | giocatoreAutomatico/src/giocatoreAutomatico/player/Row.java:161-182 | `compact(0)` yields the tiles in order followed by the blanks |
| RowLemmas.CompactEndSpec | giocatoreAutomatico/src/giocatoreAutomatico/player/Row.java:183-203 | `compact(1)` yields the blanks followed by the tiles in order |
| RowLemmas.CompactFixedIff | giocatoreAutomatico/src/giocatoreAutomatico/player/Row.java:161-204 | `compact` changes a line iff some tile has a free cell before it on the target side |
| RowLemmas.CompactIdempotent | giocatoreAutomatico/src/giocatoreAutomatico/player/Row.java:161-204 | compacting twice equals compacting once |
| RowLemmas.JoinUpSpec | giocatoreAutomatico/src/giocatoreAutomatico/player/Row.java:213-222 | on a compacted line, the dir-0 loop of `join` merges each leading equal pair once, scanning from index 0 |
| RowLemmas.JoinDownSpec | giocatoreAutomatico/src/giocatoreAutomatico/player/Row.java:223-233 | on a compacted line, the dir-1 loop merges each trailing equal pair once, scanning from the last index |
| RowLemmas.ThreePassesStart | giocatoreAutomatico/src/giocatoreAutomatico/player/Row.java:244-250 | compact, join and compact toward index 0 equal the reference 2048 move |
| RowLemmas.ThreePassesEnd | giocatoreAutomatico/src/giocatoreAutomatico/player/Row.java:244-250 | compact, join and compact toward the last index equal the reference 2048 move |
| RowLemmas.MoveLineIsReference | giocatoreAutomatico/src/giocatoreAutomatico/player/Row.java:244-250 | a line moved by `moveRow` equals the reference 2048 move, valid or not |
| RowLemmas.MoveChangesIffValid | giocatoreAutomatico/src/giocatoreAutomatico/player/Row.java:244-250 | `moveRow` changes the line iff `validRowMove` holds |
| RowLemmas.ReferenceChangesIff | giocatoreAutomatico/src/giocatoreAutomatico/player/Row.java:69-90 | the reference move changes a line iff it has an equal pair or a free cell on the target side |
| RowLemmas.AllEmptyNeverValid | giocatoreAutomatico/src/giocatoreAutomatico/player/Row.java:69-72 | an all-empty row is never a valid move and is left as it is |
| RowLemmas.ValidMoveLeavesEmpty | giocatoreAutomatico/src/giocatoreAutomatico/player/Row.java:244-250 | after a valid move the cell at the far end of the line is empty |
| RowLemmas.MovePreservesSum | giocatoreAutomatico/src/giocatoreAutomatico/player/Row.java:212-234 | a move keeps the sum of the tiles and removes exactly one tile per merge |
| RowLemmas.MovePreservesNonNeg | giocatoreAutomatico/src/giocatoreAutomatico/player/Row.java:212-234 | a move of a line without negative tiles produces none |
| RowLemmas.ExampleMoveEnd | giocatoreAutomatico/src/giocatoreAutomatico/TestRow.java:29-66 | the row 4,4,2,-1 moved toward the end gives -1,-1,8,2 |
| RowLemmas.ExampleJoinDown | giocatoreAutomatico/src/giocatoreAutomatico/TestRow.java:60-64 | `join(1)` on -1,4,4,2 gives -1,-1,8,2 |
| RowLemmas.ExampleLeadingPair | giocatoreAutomatico/src/giocatoreAutomatico/player/Row.java:213-222 | of three equal tiles the leading pair merges: 2,2,2,-1 moved toward 0 gives 4,2,-1,-1 |
| PlayerGrid.Side | giocatoreAutomatico/src/giocatoreAutomatico/MyGriglia.java:106-111 | codes 0 and 3 slide lines toward index 0, every other code toward the last index |
| PlayerGrid.IsValidaIff | giocatoreAutomatico/src/giocatoreAutomatico/MyGriglia.java:86-117 | `isValida(m)` holds exactly when some projected line is a valid row move |
| PlayerGrid.CheckValida | giocatoreAutomatico/src/giocatoreAutomatico/MyGriglia.java:86-117 | the loop over the four lines returns exactly `isValida(m)`: some line is a valid row move |
| PlayerGrid.Move | giocatoreAutomatico/src/giocatoreAutomatico/MyGriglia.java:124-170 | `move` keeps the size, the key set and every off-grid key, and leaves a complete grid |
| PlayerGrid.MoveMovesEachLine | giocatoreAutomatico/src/giocatoreAutomatico/MyGriglia.java:124-170 | each line of the moved grid is that line moved by the line engine |
| PlayerGrid.MoveChangesIffValida | giocatoreAutomatico/src/giocatoreAutomatico/MyGriglia.java:86-170 | `move(m)` changes the grid iff `isValida(m)` |
| PlayerGrid.OtherCodesMoveRight | giocatoreAutomatico/src/giocatoreAutomatico/MyGriglia.java:106-111 | any code other than 0, 2 and 3 validates and moves like code 1 (right) |
| PlayerGrid.ValidMoveFreesCell | giocatoreAutomatico/src/giocatoreAutomatico/MyGriglia.java:124-170 | after a valid move some grid cell is empty |
| PlayerGrid.MoveKeepsNonNeg | giocatoreAutomatico/src/giocatoreAutomatico/MyGriglia.java:124-170 | a move of a grid without negative tiles produces none |
| PlayerGrid.MoveKeepsTotal | giocatoreAutomatico/src/giocatoreAutomatico/MyGriglia.java:124-170 | a move keeps the sum of the tile values over the grid |
| PlayerGrid.FreeLocations | giocatoreAutomatico/src/giocatoreAutomatico/MyGriglia.java:179-186 | the free locations are exactly the keys holding -1, off-grid keys included |
| PlayerGrid.Add | giocatoreAutomatico/src/giocatoreAutomatico/MyGriglia.java:193-198 | `add` throws exactly when the location holds a value other than -1; otherwise it stores the value and changes nothing else |
| PlayerGrid.AddTakesFreeCell | giocatoreAutomatico/src/giocatoreAutomatico/MyGriglia.java:179-198 | adding a tile to a free location succeeds, removes it from the free set, and a second add there throws |
| PlayerGrid.ToMatrix | giocatoreAutomatico/src/giocatoreAutomatico/MyGriglia.java:205-213 | `toMatrix` is a size-by-size matrix |
| PlayerGrid.MatrixRowsAreColumns | giocatoreAutomatico/src/giocatoreAutomatico/MyGriglia.java:205-213 | row i of the matrix is column i of the grid, the line that moves up and down |
| PlayerGrid.MatrixRoundTrip | giocatoreAutomatico/src/giocatoreAutomatico/MyGriglia.java:205-213 | the matrix and the grid cells determine each other |
| Render.RenderingsShape | giocatoreAutomatico/src/giocatoreAutomatico/MyGriglia.java:68-78 | `toString` prints one line per row and one tab per cell |
| Render.ShownZeroIffEmpty | fx2048/src/game2048/QuickGrid.java:68-78 | the display `toString` shows 0 exactly for an empty cell or a 0 tile |
| Render.RawShowsMinusOne | src/game2048/MyGriglia.java:29-38 | the plain `toString` prints an empty cell as -1, the display one as 0 |
| Render.IntRoundTrip | fx2048/src/game2048/QuickGrid.java:72 | the printed decimal form of an Integer parses back to it |
| Render.JavaIntSqrt | fx2048/src/game2048/QuickGrid.java:59-62 | `(int) Math.sqrt(size)` is the integer square root |
| Render.DefaultRenderGrid | fx2048/src/game2048/QuickGrid.java:40-42 | the no-argument constructor gives an empty grid of side 4 |
| Render.QuickGridOfSize | fx2048/src/game2048/QuickGrid.java:49-52 | `QuickGrid(i)` throws `IllegalArgumentException` only when `i * i` wraps to a negative 32-bit capacity, which cannot happen for \|i\| up to 46340; otherwise it is an empty grid of side `i` (a negative side prints as side 0) |
| Render.QuickGridBounds | fx2048/src/game2048/QuickGrid.java:49-52 | 46341 and -46341 throw because their square wraps negative, while -3 builds a grid that prints nothing |
| Render.RenderGridOfCapacity | src/game2048/MyGriglia.java:23-26 | `MyGriglia(i)` throws `IllegalArgumentException` exactly when the capacity is negative; otherwise it is empty and its side is the integer square root of the capacity |
| Render.ConstructorsAgree | fx2048/src/game2048/QuickGrid.java:40-52 | `QuickGrid(4)` and `MyGriglia(16)` build the same grid as the no-argument constructor |
| Render.QuickGridCopy | fx2048/src/game2048/QuickGrid.java:59-62 | the copy constructor takes the side from the number of entries, configuration keys included |
| Render.CopySizeWithConfigKeys | fx2048/src/game2048/QuickGrid.java:59-62 | a 4x4 snapshot with up to two configuration keys (16 to 18 entries) still gets side 4, as does capacity 16 |
| Geometry.GoBack | fx2048/src/game2048/Direction.java:89-101 | `goBack` negates both components of the vector and never returns the same direction |
| Geometry.GoBackInvolution | fx2048/src/game2048/Direction.java:89-101 | going back twice is the identity |
| Geometry.UnitVector | fx2048/src/game2048/Direction.java:48 | each direction is a unit step along exactly one axis |
| Geometry.Offset | fx2048/src/game2048/Location.java:66-68 | `offset` moves by the direction's vector along exactly one axis |
| Geometry.OffsetGoBack | fx2048/src/game2048/Location.java:66-68 | stepping forward then back returns to the start |
| Geometry.OffsetLeavesAtEdge | fx2048/src/game2048/Location.java:161-163 | a step leaves the grid iff the cell is on the edge the direction points to |
| Geometry.EqualsObject | fx2048/src/game2048/Location.java:109-121 | `equals` is false for null and otherwise compares both coordinates |
| Geometry.EqualsIsEquivalence | fx2048/src/game2048/Location.java:109-121 | `equals` is reflexive, symmetric and transitive |
| Geometry.HashCode | fx2048/src/game2048/Location.java:98-103 | the hash is the 32-bit wrapped 97-polynomial of x and y |
| Geometry.HashInjectiveOnSmallGrids | fx2048/src/game2048/Location.java:98-103 | on coordinates in 0..96 equal hashes mean equal locations |
| Geometry.LayoutX | fx2048/src/game2048/Location.java:148-153 | the layout x is the centre of the cell's column |
| Geometry.LayoutY | fx2048/src/game2048/Location.java:132-137 | the layout y is the centre of the cell's row |
| Geometry.ValidFor | fx2048/src/game2048/Location.java:172-184 | `validFor` accepts every on-grid cell |
| Geometry.ValidForIsWeaker | fx2048/src/game2048/Location.java:172-184 | `validFor` checks only the moving axis, so it accepts some off-grid cells |
| Cells.NewRandomTile | fx2048/src/game2048/Tile.java:79-82 | a random tile is an unmerged 2 when the draw is below 0.9 and a 4 otherwise |
| Cells.Merge | fx2048/src/game2048/Tile.java:97-103 | `merge` adds the other tile's value and sets the merged flag |
| Cells.ClearMerge | fx2048/src/game2048/Tile.java:149-151 | `clearMerge` keeps the value and clears the flag |
| Cells.IsMergeable | fx2048/src/game2048/Tile.java:159-161 | a tile is mergeable with a non-null tile of the same value |
| Cells.MergeableMergeDoubles | fx2048/src/game2048/Tile.java:97-161 | mergeability is symmetric and ignores flags, and a merge doubles the value |
| Evaluator.Evaluate | giocatoreAutomatico/src/giocatoreAutomatico/player/MyGiocatoreAutomatico.java:380-402 | the snake loop computes the sum over the path of each tile times 0.25 to its path index |
| Evaluator.SnakeIsBijection | giocatoreAutomatico/src/giocatoreAutomatico/player/MyGiocatoreAutomatico.java:382-400 | the snake path visits every cell of the 4x4 grid exactly once |
| Evaluator.EvaluationNonNeg | giocatoreAutomatico/src/giocatoreAutomatico/player/MyGiocatoreAutomatico.java:380-402 | on a grid without negative tiles the evaluation is at least 0 |
| Evaluator.EvaluationOfPlacement | giocatoreAutomatico/src/giocatoreAutomatico/player/MyGiocatoreAutomatico.java:380-402 | placing a tile on an empty cell adds exactly its weighted value; off-grid keys add nothing |
| Evaluator.WeightedDecreasing | giocatoreAutomatico/src/giocatoreAutomatico/player/MyGiocatoreAutomatico.java:387-398 | the same tile weighs strictly less further along the path |
| Evaluator.EvaluationExamples | giocatoreAutomatico/src/giocatoreAutomatico/player/MyGiocatoreAutomatico.java:380-402 | a lone 2 scores 2 in the corner and 2/256 at path index 4 |
| Search.WorstAdd | giocatoreAutomatico/src/giocatoreAutomatico/player/MyGiocatoreAutomatico.java:316-330 | the opponent's insertion is a free location whose evaluation with a 2 added is minimal |
| Search.WorstAddIsLastOnPath | giocatoreAutomatico/src/giocatoreAutomatico/player/MyGiocatoreAutomatico.java:316-330 | among on-grid free cells the worst insertion is the one furthest along the snake path, and it is unique |
| Search.WorstInsertionOffGrid | giocatoreAutomatico/src/giocatoreAutomatico/player/MyGiocatoreAutomatico.java:316-330 | a free configuration key off the grid (value -1) is an insertion that adds nothing, and so it is chosen |
| Search.Pick | giocatoreAutomatico/src/giocatoreAutomatico/player/MyGiocatoreAutomatico.java:358-361 | the best-move scan keeps the first strictly greatest score |
| Search.Score | giocatoreAutomatico/src/giocatoreAutomatico/player/MyGiocatoreAutomatico.java:301-356 | a move has a score exactly when it is valid. At depth 0 the score is 0, and on a board without negative tiles it is always above the sentinel's -1 |
| Search.DeepScore | giocatoreAutomatico/src/giocatoreAutomatico/player/MyGiocatoreAutomatico.java:307-354 | below depth 0 a valid move on a board without negative tiles scores above -1 |
| Search.DecayedSum | giocatoreAutomatico/src/giocatoreAutomatico/player/MyGiocatoreAutomatico.java:347-353 | an evaluation of at least 0 plus a sub-score of at least -1 damped at least once stays above -1 |
| Search.Search | giocatoreAutomatico/src/giocatoreAutomatico/player/MyGiocatoreAutomatico.java:297-366 | the result is (0, -1) or a valid move paired with its score, and the score is at least -1 |
| Search.SearchIsBest | giocatoreAutomatico/src/giocatoreAutomatico/player/MyGiocatoreAutomatico.java:297-366 | the chosen move scores at least as well as every valid move, and strictly better than every valid move of a lower code |
| Search.SentinelIffStuck | giocatoreAutomatico/src/giocatoreAutomatico/player/MyGiocatoreAutomatico.java:297-366 | the search answers (0, -1) iff no move is valid; otherwise its move is valid |
| Search.DepthZeroFirstValid | giocatoreAutomatico/src/giocatoreAutomatico/player/MyGiocatoreAutomatico.java:307-361 | at depth 0 every valid move scores 0, so the first valid one is chosen |
| Search.NextMoveMinimax | giocatoreAutomatico/src/giocatoreAutomatico/player/MyGiocatoreAutomatico.java:252-256 | the minimax move is a code in 0..3 |
| Strategies.Blind | giocatoreAutomatico/src/giocatoreAutomatico/player/MyGiocatoreAutomatico.java:140-204 | steps 0..3 answer a code, valid unless it is the fallback up; any other step throws and leaves the step |
| Strategies.BlindFollowsTable | giocatoreAutomatico/src/giocatoreAutomatico/player/MyGiocatoreAutomatico.java:140-204 | each step answers the first valid code of its own order of right, down and left, else up, and sets the next step by the table |
| Strategies.BlindUpIffStuckSideways | giocatoreAutomatico/src/giocatoreAutomatico/player/MyGiocatoreAutomatico.java:140-204 | up is answered iff right, down and left are all invalid |
| Strategies.BlindStepFourThrows | giocatoreAutomatico/src/giocatoreAutomatico/player/MyGiocatoreAutomatico.java:157-171 | step 1 with no sideways move sets the step to 4, and the next call throws |
| Strategies.BlindStepStaysInRange | giocatoreAutomatico/src/giocatoreAutomatico/player/MyGiocatoreAutomatico.java:140-204 | the step leaves 0..3 only in that case |
| Strategies.Blind2 | giocatoreAutomatico/src/giocatoreAutomatico/player/MyGiocatoreAutomatico.java:211-243 | the second blind strategy answers only valid codes, throws otherwise, and keeps the step in {1, 2} |
| Strategies.Blind2ThrowsIffStuck | giocatoreAutomatico/src/giocatoreAutomatico/player/MyGiocatoreAutomatico.java:211-243 | with a step outside {1, 2} it always throws; with step 1 or 2 it throws iff no code is valid |
| Strategies.Blind2FollowsOrder | giocatoreAutomatico/src/giocatoreAutomatico/player/MyGiocatoreAutomatico.java:211-243 | it answers the first valid code of the step's order |
| Strategies.Blind2Alternates | giocatoreAutomatico/src/giocatoreAutomatico/player/MyGiocatoreAutomatico.java:211-243 | after an answer the step becomes 1 iff it was 2 and the code was down or right |
| Strategies.RandomStyle | giocatoreAutomatico/src/giocatoreAutomatico/player/MyGiocatoreAutomatico.java:103-107 | the random loop answers only a valid code |
| Strategies.RandomStyleStuck | giocatoreAutomatico/src/giocatoreAutomatico/player/MyGiocatoreAutomatico.java:103-107 | it answers iff some draw is valid, and never on a stuck grid |
| Strategies.Style | giocatoreAutomatico/src/giocatoreAutomatico/player/MyGiocatoreAutomatico.java:96-99 | the style is the value at (-1,-1), else 3 |
| Strategies.SearchDepth | giocatoreAutomatico/src/giocatoreAutomatico/player/MyGiocatoreAutomatico.java:112-116 | the depth is the value at (-1,-2) when positive, else 6 |
| Strategies.ConfigSurvivesMove | giocatoreAutomatico/src/giocatoreAutomatico/MyGriglia.java:124-170 | a move leaves the style and the depth keys as they were |
| Players.Received | giocatoreAutomatico/src/giocatoreAutomatico/player/MyGiocatoreAutomatico.java:89-90 | the player works on a fresh size-4 grid holding exactly the received entries |
| Players.ProssimaMossa | giocatoreAutomatico/src/giocatoreAutomatico/player/MyGiocatoreAutomatico.java:87-126 | it answers a code in 0..3 with its grid moved by that code; it throws iff the style is blind and the step is out of range |
| Players.SearchPlayerMovesValidly | giocatoreAutomatico/src/giocatoreAutomatico/player/MyGiocatoreAutomatico.java:111-121 | in the search style the answer is a valid move that changes the grid, or up when nothing is valid |
| Players.RandomPlayerMovesValidly | giocatoreAutomatico/src/giocatoreAutomatico/player/MyGiocatoreAutomatico.java:103-107 | in the random style the answer is valid, and one comes iff some draw is valid |
| Players.BlindPlayerFollowsStrategy | giocatoreAutomatico/src/giocatoreAutomatico/player/MyGiocatoreAutomatico.java:108-110 | in the blind style the answer and the new step are those of the blind strategy |
| Players.PlayerKeepsConfig | giocatoreAutomatico/src/giocatoreAutomatico/player/MyGiocatoreAutomatico.java:123 | the player's own move keeps the style and the depth |
| Players.NewMirror | src/giocatoreAutomatico/MyGiocatoreAutomatico.java:32-35 | the mirror player starts with a copy of the grid, step 2 and mode 2 |
| Players.MirrorMove | src/giocatoreAutomatico/MyGiocatoreAutomatico.java:48-60 | it stores the new tile, then moves its grid by the code the mode picks, or throws and keeps the grid with the tile |
| Players.MirrorModeTwoIsSafe | src/giocatoreAutomatico/MyGiocatoreAutomatico.java:145-177 | in mode 2 it answers only valid codes that change its grid, throws iff nothing is valid, and keeps the step in {1, 2} |
| Players.MirrorRandomUnchecked | src/giocatoreAutomatico/MyGiocatoreAutomatico.java:48-60 | in mode 0 the drawn code is played unchecked; an invalid one leaves the grid |
| Players.MirrorBadModeThrows | src/giocatoreAutomatico/MyGiocatoreAutomatico.java:48-60 | a mode outside 0..2 always throws |
| LiveBoard.InitializeLocations | fx2048/src/game2048/GameManager.java:1101-1107 | every grid cell is set to null and other keys are kept |
| LiveBoard.InitializedIsShaped | fx2048/src/game2048/GameManager.java:1101-1107 | an initialised board holds exactly the grid cells, all empty |
| LiveBoard.RandomAvailable | fx2048/src/game2048/GameManager.java:1148-1162 | it returns null iff no grid cell is free, otherwise a free grid cell |
| LiveBoard.EveryFreeCellCanBePicked | fx2048/src/game2048/GameManager.java:1148-1162 | every free grid cell is returned for some draw |
| LiveBoard.MergeMovementsAvailable | fx2048/src/game2048/GameManager.java:437-466 | true iff some tile has a mergeable tile above it or to its left |
| LiveBoard.MergeAvailableIffAdjacentPair | fx2048/src/game2048/GameManager.java:437-466 | checking only up and left finds every pair of equal neighbours |
| LiveBoard.CreaGrigliaShared | fx2048/src/game2048/GameManager.java:374-389 | the snapshot writes each tile's value, or -1, into the shared grid and keeps its other entries |
| LiveBoard.CreaGrigliaFresh | src/game2048/GameManager.java:236-251 | the snapshot is a fresh grid holding each tile's value, or -1 |
| LiveBoard.SnapshotRoundTrip | fx2048/src/game2048/GameManager.java:374-389 | on a board without merge flags or -1 tiles the snapshot determines the board, and on a 4x4 board it is complete |
| LiveBoard.CodeToDirection | fx2048/src/game2048/GameManager.java:341-357 | codes 0..3 map to a direction and any other code throws |
| LiveBoard.CodeDirectionRoundTrip | fx2048/src/game2048/GameManager.java:341-357 | the mapping is a bijection between 0..3 and the four directions |
| LiveBoard.CodeAgreesWithPlayerAxes | fx2048/src/game2048/GameManager.java:341-357 | the code's direction slides along the same axis and toward the same side as the player's `move(m)` |
| LiveMove.FarthestSteps | fx2048/src/game2048/GameManager.java:400-411 | the farthest location is on the grid, every cell up to it is free, and the next is off the grid or occupied |
| LiveMove.FarthestIsUnique | fx2048/src/game2048/GameManager.java:400-411 | any run of free cells ending at an obstacle has the same length as the farthest run |
| LiveMove.TraversalIsSortedRange | fx2048/src/game2048/GameManager.java:228-233 | the sorted traversal lists 0..n-1, ascending or descending by the direction |
| LiveMove.AheadComesFirst | fx2048/src/game2048/GameManager.java:419-428 | every cell ahead of a tile in the move's direction is visited before it |
| LiveMove.Decide | fx2048/src/game2048/GameManager.java:234-282 | a tile merges into an equal unmerged tile right past its farthest cell, else slides there if that is not its own cell, else stays |
| LiveMove.Apply | fx2048/src/game2048/GameManager.java:246-281 | a merge or a slide counts one move and a stay counts none |
| LiveMove.SweepKeeps | fx2048/src/game2048/GameManager.java:234-282 | the invariant of the sweep holds after every visited column |
| LiveMove.TraverseOutcome | fx2048/src/game2048/GameManager.java:215-282 | the points are the merged values, the value total is kept, each merge removes one tile, won follows the rule, and "moved" is zero iff the board is unchanged |
| LiveGame.Move | fx2048/src/game2048/GameManager.java:215-226 | a move under the overlay or during an animation does nothing; otherwise the score grows by the move's points |
| LiveGame.MoveOutcome | fx2048/src/game2048/GameManager.java:215-318 | a move keeps the value total, scores the merged values, and leaves the pending count zero iff the board is unchanged |
| LiveGame.SrcWinsAt2048 | src/game2048/GameManager.java:167-169 | in the second copy a move wins iff it was already won or it produced a 2048 tile |
| LiveGame.ClearFlags | fx2048/src/game2048/GameManager.java:306-309 | clearing keeps every tile's value and position and drops every merge flag |
| LiveGame.ClearFlagsKeepsMergeable | fx2048/src/game2048/GameManager.java:306-309 | clearing flags does not change whether merges are available |
| LiveGame.NoNullIffFull | fx2048/src/game2048/GameManager.java:1226-1231 | on a grid-shaped board, no null entry means every grid cell holds a tile |
| LiveGame.Finish | fx2048/src/game2048/GameManager.java:288-310 | the handler stops the animation state and clears every merge flag |
| LiveGame.FinishGameOver | fx2048/src/game2048/GameManager.java:296-301 | after the handlers the game is over iff it was, or the board is full with no equal neighbours |
| LiveGame.FinishAddsTile | fx2048/src/game2048/GameManager.java:296-301 | a random 2 or 4 goes to a free grid cell iff tiles moved and a cell is free |
| LiveGame.AutoMove | fx2048/src/game2048/GameManager.java:323-333 | the automatic move is ignored under the same guards as a move |
| LiveGame.AutoMoveByCode | fx2048/src/game2048/GameManager.java:341-363 | outside the guards it throws iff the code is outside 0..3, and otherwise makes the move the code names |
| Autoplay.PlayerCodeAccepted | fx2048/src/game2048/GameManager.java:323-389 | between moves the player sees the shared `griglia` field (a 4x4 `QuickGrid`, line 165) after `creaGriglia` overwrote every board cell. That snapshot is complete and determines the board, and every code the player answers is accepted |
| Autoplay.SnapshotCarriesConfig | fx2048/src/game2048/GameManager.java:165-166 | configuration keys a player left in the shared grid survive `creaGriglia`, so the style and depth it reads back are the ones it stored |

## Left out

- The user interface is not modelled: JavaFX nodes, CSS, layout, animation timelines, score animation, overlays, buttons and key handling. `Move` and `Finish` are the two halves of a move around its animation.
- Threads and locks are not modelled. The `synchronized` blocks and `autoMoving` appear only through the `moving` and `layerOn` guards, and a key press arriving while the new-tile animation is running is not modelled.
- The saved-game store (`SessionManager`) and the logger are not modelled.
- `java.util.Random`, `Collections.shuffle` and `Math.random` are not modelled. The values they return are parameters, and a draw function is not part of this model.
- `double` is modelled as `real`, without IEEE rounding.
- HashSet iteration order is not modelled. `Search.WorstAdd` picks a minimiser with `:|`; the source takes the first in iteration order among equal evaluations.
- The commented-out insertion of a 4, `multiPathEvaluate` and the other commented-out code are not modelled.
- Loading the player by reflection is not modelled, and neither is the `Griglia` interface itself.
- Rows: the line engine works on a line of any length, whereas `Row` hard-codes `gridSize = 4`. Every grid passes lines of its own size, which is 4 here.
- Rows: results are proved for `dir` 0 and 1, the only values the grids pass. For other values the Java methods take their `else` branches, and the model follows them.
- Integer overflow is not modelled: tile values, sums and scores are unbounded integers. 32-bit wrap-around is written out only in `Geometry.HashCode` and in the `i * i` capacity of `Render.QuickGridOfSize`.
- `clone`-style copy constructors become plain value copies.
- A grid missing a cell makes the Java code unbox `null` and throw. The model rules this out with the `Complete` precondition instead of modelling the exception.
- Cells.Tile: Java's `Tile` also stores its own `location`. The model drops that field and uses the map key instead. Every write keeps the two equal (fx2048/src/game2048/GameManager.java:251, 273-276, 1120-1136, 1172-1186; fx2048/src/game2048/SessionManager.java:128-131), so the cell the move lambda reads back (lines 252, 269, 274) is the key being visited.
- Render.QuickGridOfSize: a negative side is stored as 0. The only reader of `gridSize` in `QuickGrid` is `toString`, whose loops run no times for either value.
- Search.Search: assumes the 4x4 board that `evaluate` walks; other grid sizes are not modelled.
- LiveMove.TraverseOutcome: does not show that the live traversal and the player's `Row` engine produce the same board for the same move.
- LiveBoard.CreaGrigliaFresh: in the second copy, `autoMove` hands the mirror player the `newRandomTile` field, which that file never declares, so that call is modelled only through the code-to-direction mapping and `Players.MirrorMove`.
- LiveBoard.MergeMovementsAvailable: the parallel stream over the two directions is modelled as a plain disjunction.
- Players.ProssimaMossa: the random style loops until a valid code is drawn; the model consumes a finite sequence of draws and answers `OutOfDraws` when it runs out.
- LiveGame.Finish: the `onFinishNewlyAddedTile` check runs when the new tile's animation ends; the model runs it at once, after the merge flags are cleared (the check does not look at flags).
- The fx copy's `finalValueToWin` is 0 until the game chooses one of 2048, 4096 and 8192. The model takes the target and `stopAtWinningScore` as a `WinRule` parameter.

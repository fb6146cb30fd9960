/** The live game around the move (`move`, its `onFinished` handler,
    `onFinishNewlyAddedTile` and `autoMove` in
    fx2048/src/game2048/GameManager.java and src/game2048/GameManager.java).
    The animation timelines become two steps: `Move` runs the traversal and
    sets the moving flag, `Finish` is what happens when the transition
    ends. */
module LiveGame {
  import opened Base
  import opened Geometry
  import opened Cells
  import opened LiveBoard
  import opened LiveMove

  /** The state `move` reads and writes: the board, `gameScoreProperty`,
      `gameMovePoints`, `gameWonProperty`, `gameOverProperty`,
      `layerOnProperty`, `movingTiles`, and `tilesWereMoved` as the
      `onFinished` handler captures it. */
  datatype Game = Game(board: Board, score: int, points: int, won: bool, over: bool,
                       layerOn: bool, moving: bool, pending: nat)

  /** `move(d)`: ignored while the overlay is shown or a move is still
      animating; otherwise the points restart at 0, the traversal runs, the
      score grows by the move's points and the moving flag is set. */
  function Move(g: Game, d: Direction, n: nat, rule: WinRule): (r: Game)
    ensures g.layerOn || g.moving ==> r == g
    ensures !(g.layerOn || g.moving) ==>
      (&& r.moving && r.score == g.score + r.points
       && r.over == g.over && r.layerOn == g.layerOn)
  {
    if g.layerOn || g.moving then g
    else
      var s := Traverse(g.board, g.won, n, d, rule);
      g.(board := s.board, score := g.score + s.points, points := s.points, won := s.won,
         moving := true, pending := s.moved)
  }

  /** What a move does on a board between moves (grid-shaped, no merge
      flags): the points are the values the merges produced and the score
      grows by them, the value total is kept, each merge removes one tile,
      the won flag follows the rule, and the pending count is zero exactly
      when the board did not change. */
  lemma MoveOutcome(g: Game, d: Direction, n: nat, rule: WinRule)
    requires Shaped(g.board, n) && Unflagged(g.board) && !g.layerOn && !g.moving
    ensures var r := Move(g, d, n, rule);
      && Shaped(r.board, n)
      && r.points == MergedTotal(r.board, n)
      && r.score == g.score + MergedTotal(r.board, n)
      && ValueTotal(r.board, n) == ValueTotal(g.board, n)
      && TileCount(r.board, n) + MergedCount(r.board, n) == TileCount(g.board, n)
      && (r.won <==> g.won || (rule.stop && HasMerged(r.board, rule.target)))
      && (r.pending == 0 <==> r.board == g.board)
  {
    TraverseOutcome(g.board, g.won, n, d, rule);
  }

  /** The win rule of the second copy: only a merge producing 2048 wins. */
  lemma SrcWinsAt2048(g: Game, d: Direction, n: nat)
    requires Shaped(g.board, n) && Unflagged(g.board) && !g.layerOn && !g.moving
    ensures Move(g, d, n, SrcWinRule).won <==> g.won || HasMerged(Move(g, d, n, SrcWinRule).board, 2048)
  {
    MoveOutcome(g, d, n, SrcWinRule);
  }

  /*************************************************************************
   * When the transition ends
   *************************************************************************/

  /** `clearMerge` on every tile. */
  function ClearFlags(b: Board): (r: Board)
    ensures r.Keys == b.Keys && Unflagged(r)
    ensures forall l :: Get(r, l).Some? <==> Get(b, l).Some?
    ensures forall l :: Get(r, l).Some? ==> Get(r, l).value.value == Get(b, l).value.value
  {
    map l | l in b :: match b[l] case Some(t) => Some(ClearMerge(t)) case None => None
  }

  /** Merge availability does not look at the flags. */
  lemma ClearFlagsKeepsMergeable(b: Board, n: nat)
    ensures MergeMovementsAvailable(ClearFlags(b), n) == MergeMovementsAvailable(b, n)
  {
    var c := ClearFlags(b);
    assert forall l, d :: MergeableAt(c, n, l, d) <==> MergeableAt(b, n, l, d);
  }

  /** Every cell of the grid holds a tile. */
  ghost predicate Full(b: Board, n: int) {
    forall l :: IsValidFor(l, n) ==> Get(b, l).Some?
  }

  /** On a grid-shaped board, no `null` entry means no free cell. */
  lemma NoNullIffFull(b: Board, n: nat)
    requires Shaped(b, n)
    ensures NoNullEntry(b) <==> Full(b, n)
  {
  }

  /** The `onFinished` handler with `findRandomAvailableLocation` choosing
      by `pick` and `newRandomTile` drawing `draw`: the moving flag drops;
      with no free cell and no merge available the game is over;
      otherwise, if tiles moved and a cell is free, a random tile is added
      there; the merge flags are cleared. When a tile was added,
      `onFinishNewlyAddedTile` then ends the game if the board is full and
      no merge is available. */
  function Finish(g: Game, n: nat, pick: nat, draw: real): (r: Game)
    ensures !r.moving && Unflagged(r.board)
    ensures r.score == g.score && r.won == g.won && r.layerOn == g.layerOn
  {
    var free := RandomAvailable(g.board, n, pick);
    if free.None? then
      g.(board := ClearFlags(g.board), over := g.over || !MergeMovementsAvailable(g.board, n), moving := false)
    else if g.pending > 0 then
      var b := ClearFlags(g.board[free.value := Some(NewRandomTile(draw))]);
      g.(board := b, over := g.over || (NoNullEntry(b) && !MergeMovementsAvailable(b, n)), moving := false)
    else
      g.(board := ClearFlags(g.board), moving := false)
  }

  /** After the handlers the game is over exactly when it was, or the
      board is full with no two equal neighbours in any direction. */
  lemma FinishGameOver(g: Game, n: nat, pick: nat, draw: real)
    requires Shaped(g.board, n)
    ensures var r := Finish(g, n, pick, draw);
      Shaped(r.board, n) && (r.over <==> g.over || (Full(r.board, n) && !AdjacentPair(r.board, n)))
  {
    var free := RandomAvailable(g.board, n, pick);
    var r := Finish(g, n, pick, draw);
    MergeAvailableIffAdjacentPair(r.board, n);
    if free.None? {
      ClearFlagsKeepsMergeable(g.board, n);
    } else if g.pending > 0 {
      var b := g.board[free.value := Some(NewRandomTile(draw))];
      ClearFlagsKeepsMergeable(b, n);
      NoNullIffFull(ClearFlags(b), n);
    } else {
      assert !Get(r.board, free.value).Some?;
    }
  }

  /** A tile is added exactly when tiles moved and a cell was free: then
      it goes to a free cell of the grid and is a fresh 2 or 4; otherwise
      only the flags are cleared. */
  lemma FinishAddsTile(g: Game, n: nat, pick: nat, draw: real)
    ensures var r := Finish(g, n, pick, draw);
      if g.pending > 0 && (exists l :: IsValidFor(l, n) && Get(g.board, l) == None) then
        exists l :: && IsValidFor(l, n) && Get(g.board, l) == None
                    && r.board == ClearFlags(g.board[l := Some(NewRandomTile(draw))])
      else r.board == ClearFlags(g.board)
  {
    var free := RandomAvailable(g.board, n, pick);
    if free.Some? && g.pending > 0 {
      var l := free.value;
      assert IsValidFor(l, n) && Get(g.board, l) == None;
    }
  }

  /*************************************************************************
   * The automatic move
   *************************************************************************/

  /** `autoMove()` given the code the player answered: ignored under the
      same guards as `move`; codes 0..3 become up, right, down and left and
      any other code throws. */
  function AutoMove(g: Game, code: int, n: nat, rule: WinRule): (r: Outcome<Game>)
    ensures g.layerOn || g.moving ==> r == Ok(g)
  {
    if g.layerOn || g.moving then Ok(g)
    else
      match CodeToDirection(code)
      case Ok(d) => Ok(Move(g, d, n, rule))
      case Thrown(e) => Thrown(e)
  }

  /** Outside the guards the automatic move throws exactly for a code
      outside 0..3, and otherwise makes the move the code names. */
  lemma AutoMoveByCode(g: Game, code: int, n: nat, rule: WinRule)
    requires !g.layerOn && !g.moving
    ensures AutoMove(g, code, n, rule).Thrown? <==> !(0 <= code < 4)
    ensures AutoMove(g, code, n, rule).Thrown? ==> AutoMove(g, code, n, rule).error == InvalidMove
    ensures 0 <= code < 4 ==> AutoMove(g, code, n, rule) == Ok(Move(g, CodeToDirection(code).value, n, rule))
  {
  }
}

/** One automatic turn of the graphical game: `autoMove()` takes a
    snapshot of the board with `creaGriglia()`, asks the searching player
    for a code and plays it (fx2048/src/game2048/GameManager.java). */
module Autoplay {
  import opened Base
  import opened Geometry
  import opened PlayerGrid
  import opened LiveBoard
  import opened LiveMove
  import opened LiveGame
  import Players
  import Strategies

  /** Between moves (grid-shaped board, no merge flags, no tile of value
      -1) the player receives, in the shared size-4 grid `q` that also
      carries its style and depth keys, a complete grid from which the
      board is recovered exactly; every code it answers, in any style, is
      accepted: the automatic move is then the live move in the direction
      the code names. */
  lemma PlayerCodeAccepted(g: Game, q: Grid, step: int, draws: seq<int>, rule: WinRule)
    requires !g.layerOn && !g.moving
    requires Shaped(g.board, DefaultSize) && Unflagged(g.board) && NoMinusOne(g.board)
    requires q.size == DefaultSize
    requires forall k :: 0 <= k < |draws| ==> 0 <= draws[k] < 4
    ensures var seen := CreaGrigliaShared(q, g.board, DefaultSize);
      && Complete(Players.Received(seen.cells))
      && FromSnapshot(Players.Received(seen.cells), DefaultSize) == g.board
    ensures var seen := CreaGrigliaShared(q, g.board, DefaultSize);
      var r := Players.ProssimaMossa(seen.cells, step, draws);
      r.Reply? ==> AutoMove(g, r.dir, DefaultSize, rule) == Ok(LiveGame.Move(g, CodeToDirection(r.dir).value, DefaultSize, rule))
  {
    var seen := CreaGrigliaShared(q, g.board, DefaultSize);
    SnapshotRoundTrip(q, g.board, DefaultSize);
    assert Players.Received(seen.cells) == seen;
    var r := Players.ProssimaMossa(seen.cells, step, draws);
    if r.Reply? {
      AutoMoveByCode(g, r.dir, DefaultSize, rule);
    }
  }

  /** The snapshot leaves the off-board keys of the shared grid alone, so
      the style and depth the game stored there are the ones the player
      reads. */
  lemma SnapshotCarriesConfig(q: Grid, b: Board)
    ensures var seen := CreaGrigliaShared(q, b, DefaultSize);
      && Strategies.Style(Players.Received(seen.cells)) == Strategies.Style(q)
      && Strategies.SearchDepth(Players.Received(seen.cells)) == Strategies.SearchDepth(q)
  {
    assert !IsValidFor(Strategies.StyleKey, DefaultSize);
    assert !IsValidFor(Strategies.DepthKey, DefaultSize);
  }
}

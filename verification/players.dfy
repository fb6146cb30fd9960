/** The two automatic players. The searching player
    (giocatoreAutomatico/src/giocatoreAutomatico/player/MyGiocatoreAutomatico.java)
    receives the whole board on every turn and picks a style from the
    configuration keys; the mirror player
    (src/giocatoreAutomatico/MyGiocatoreAutomatico.java) keeps its own copy
    of the board, is told only where the new tile landed, and dispatches on
    a fixed mode. Both apply the chosen move to their private grid and
    return its code. */
module Players {
  import opened Base
  import opened Geometry
  import opened PlayerGrid
  import opened Search
  import opened Strategies

  /*************************************************************************
   * The searching player
   *************************************************************************/

  /** The answer of one `prossimaMossa(g)`: the code with the step left in
      `naiveStep` and the player's grid after the move, the exception the
      blind style threw, or `OutOfDraws` when the random style used up the
      supplied draws without finding a valid code. */
  datatype Reply =
    | Reply(dir: int, step: int, grid: Grid)
    | Raised(error: Exception, step: int)
    | OutOfDraws

  /** The grid the player works on: `new MyGriglia()` (size 4) filled with
      `putAll(g)`. The caller's grid is a value here and is never
      changed. */
  function Received(cells: map<Location, int>): (g: Grid)
    ensures g.size == DefaultSize && g.cells == cells
  {
    Grid(DefaultSize, cells)
  }

  /** `prossimaMossa(g)`. `step` is `naiveStep` before the call and `draws`
      are the values `rand.nextInt(4)` would return, for the random
      style. */
  ghost function ProssimaMossa(cells: map<Location, int>, step: int, draws: seq<int>): (r: Reply)
    requires Complete(Received(cells))
    requires forall k :: 0 <= k < |draws| ==> 0 <= draws[k] < 4
    ensures r.Reply? ==> 0 <= r.dir < 4 && r.grid == Move(Received(cells), r.dir)
    ensures r.Raised? <==> Style(Received(cells)) == 2 && !(0 <= step <= 3)
    ensures r.Raised? ==> r.error == IllegalState && r.step == step
    ensures r.OutOfDraws? ==> Style(Received(cells)) == 1
    ensures r.Reply? && Style(Received(cells)) != 2 ==> r.step == step
  {
    var g := Received(cells);
    var style := Style(g);
    if style == 1 then
      match RandomStyle(g, draws)
      case Some(d) => Reply(d, step, Move(g, d))
      case None => OutOfDraws
    else if style == 2 then
      var t := Blind(g, step);
      match t.code
      case Ok(d) => Reply(d, t.step, Move(g, d))
      case Thrown(e) => Raised(e, t.step)
    else
      var d := NextMoveMinimax(g, SearchDepth(g));
      Reply(d, step, Move(g, d))
  }

  /** In the default (search) style the player moves validly whenever a
      valid move exists on a board without negative tiles, so the board
      changes; when none exists it answers up and the board stays. */
  lemma SearchPlayerMovesValidly(cells: map<Location, int>, step: int, draws: seq<int>)
    requires Complete(Received(cells)) && BoardNonNeg(Received(cells))
    requires forall k :: 0 <= k < |draws| ==> 0 <= draws[k] < 4
    requires Style(Received(cells)) != 1 && Style(Received(cells)) != 2
    ensures ProssimaMossa(cells, step, draws).Reply?
    ensures (exists m :: 0 <= m < 4 && IsValida(Received(cells), m))
        ==> (IsValida(Received(cells), ProssimaMossa(cells, step, draws).dir)
             && ProssimaMossa(cells, step, draws).grid != Received(cells))
    ensures (forall m :: 0 <= m < 4 ==> !IsValida(Received(cells), m))
        ==> (ProssimaMossa(cells, step, draws).dir == 0
             && ProssimaMossa(cells, step, draws).grid == Received(cells))
  {
    var g := Received(cells);
    var d := SearchDepth(g);
    SentinelIffStuck(g, d, d);
    var r := ProssimaMossa(cells, step, draws);
    MoveChangesIffValida(g, r.dir);
  }

  /** The random style answers a valid code whenever its draws contain
      one, and never answers an invalid one. */
  lemma RandomPlayerMovesValidly(cells: map<Location, int>, step: int, draws: seq<int>)
    requires Complete(Received(cells))
    requires forall k :: 0 <= k < |draws| ==> 0 <= draws[k] < 4
    requires Style(Received(cells)) == 1
    ensures ProssimaMossa(cells, step, draws).Reply? ==> IsValida(Received(cells), ProssimaMossa(cells, step, draws).dir)
    ensures (exists k :: 0 <= k < |draws| && IsValida(Received(cells), draws[k])) <==> ProssimaMossa(cells, step, draws).Reply?
  {
    RandomStyleStuck(Received(cells), draws);
  }

  /** The blind style answers what the blind strategy answers. */
  lemma BlindPlayerFollowsStrategy(cells: map<Location, int>, step: int, draws: seq<int>)
    requires Complete(Received(cells))
    requires forall k :: 0 <= k < |draws| ==> 0 <= draws[k] < 4
    requires Style(Received(cells)) == 2 && 0 <= step <= 3
    ensures ProssimaMossa(cells, step, draws).Reply?
    ensures ProssimaMossa(cells, step, draws).dir == Blind(Received(cells), step).code.value
    ensures ProssimaMossa(cells, step, draws).step == Blind(Received(cells), step).step
  {
  }

  /** The configuration keys survive the player's move. */
  lemma PlayerKeepsConfig(cells: map<Location, int>, step: int, draws: seq<int>)
    requires Complete(Received(cells))
    requires forall k :: 0 <= k < |draws| ==> 0 <= draws[k] < 4
    requires ProssimaMossa(cells, step, draws).Reply?
    ensures Style(ProssimaMossa(cells, step, draws).grid) == Style(Received(cells))
    ensures SearchDepth(ProssimaMossa(cells, step, draws).grid) == SearchDepth(Received(cells))
  {
    ConfigSurvivesMove(Received(cells), ProssimaMossa(cells, step, draws).dir);
  }

  /*************************************************************************
   * The mirror player
   *************************************************************************/

  /** The mirror player's fields: its grid, `naiveStep` and `mode`. */
  datatype Mirror = Mirror(grid: Grid, step: int, mode: int)

  /** The constructor: a fresh size-4 grid holding a copy of the game's
      grid, step 2 and mode 2. */
  function NewMirror(cells: map<Location, int>): (p: Mirror)
    ensures p.grid == Grid(DefaultSize, cells) && p.step == 2 && p.mode == 2
  {
    Mirror(Grid(DefaultSize, cells), 2, 2)
  }

  /** The answer of `prossimaMossa(xy, v)`: the code and the player after
      the move, or the exception and the player as it was left. */
  datatype MirrorReply =
    | Moved(dir: int, player: Mirror)
    | MirrorRaised(error: Exception, player: Mirror)

  /** `prossimaMossa(xy, v)`: store `v` at `xy`, choose a code by mode (0:
      `draw`, the value of `rand.nextInt(4)`, unchecked; 1: the blind
      strategy; 2: the second blind strategy; anything else throws), move
      the mirror grid by that code and return it. */
  function MirrorMove(p: Mirror, xy: Location, v: int, draw: int): (r: MirrorReply)
    requires Complete(p.grid) && 0 <= draw < 4
    ensures r.Moved? ==> 0 <= r.dir < 4 && r.player.mode == p.mode
    ensures r.Moved? ==> r.player.grid == Move(Grid(p.grid.size, p.grid.cells[xy := v]), r.dir)
    ensures r.MirrorRaised? ==> r.error == IllegalState && r.player.grid == Grid(p.grid.size, p.grid.cells[xy := v])
  {
    var g := Grid(p.grid.size, p.grid.cells[xy := v]);
    var t :=
      if p.mode == 0 then Turn(Ok(draw), p.step)
      else if p.mode == 1 then Blind(g, p.step)
      else if p.mode == 2 then Blind2(g, p.step)
      else Turn(Thrown(IllegalState), p.step);
    match t.code
    case Ok(d) => Moved(d, Mirror(Move(g, d), t.step, p.mode))
    case Thrown(e) => MirrorRaised(e, Mirror(g, t.step, p.mode))
  }

  /** With its fixed mode 2 and a step of 1 or 2 the mirror player only
      ever answers a code that was valid on its grid after the put, throws
      exactly when no code is valid there, and keeps its step in {1, 2}, so
      the precondition holds again on the next turn. */
  lemma MirrorModeTwoIsSafe(p: Mirror, xy: Location, v: int, draw: int)
    requires Complete(p.grid) && 0 <= draw < 4
    requires p.mode == 2 && (p.step == 1 || p.step == 2)
    ensures var g := Grid(p.grid.size, p.grid.cells[xy := v]);
      match MirrorMove(p, xy, v, draw)
      case Moved(d, q) => IsValida(g, d) && (q.step == 1 || q.step == 2) && q.grid != g
      case MirrorRaised(_, q) => (forall m :: 0 <= m < 4 ==> !IsValida(g, m)) && q.step == 2
  {
    var g := Grid(p.grid.size, p.grid.cells[xy := v]);
    Blind2ThrowsIffStuck(g, p.step);
    var t := Blind2(g, p.step);
    if t.code.Ok? {
      var d := t.code.value;
      MoveChangesIffValida(g, d);
      assert MirrorMove(p, xy, v, draw) == Moved(d, Mirror(Move(g, d), t.step, 2));
    } else {
      assert MirrorMove(p, xy, v, draw) == MirrorRaised(IllegalState, Mirror(g, t.step, 2));
    }
  }

  /** In mode 0 the drawn code is played even when it is not valid; the
      grid is then left as it was after the put. */
  lemma MirrorRandomUnchecked(p: Mirror, xy: Location, v: int, draw: int)
    requires Complete(p.grid) && 0 <= draw < 4 && p.mode == 0
    ensures MirrorMove(p, xy, v, draw).Moved?
    ensures MirrorMove(p, xy, v, draw).dir == draw
    ensures !IsValida(Grid(p.grid.size, p.grid.cells[xy := v]), draw)
        ==> MirrorMove(p, xy, v, draw).player.grid == Grid(p.grid.size, p.grid.cells[xy := v])
  {
    MoveChangesIffValida(Grid(p.grid.size, p.grid.cells[xy := v]), draw);
  }

  /** Any mode outside 0..2 throws on every turn and leaves the step. */
  lemma MirrorBadModeThrows(p: Mirror, xy: Location, v: int, draw: int)
    requires Complete(p.grid) && 0 <= draw < 4 && !(0 <= p.mode <= 2)
    ensures MirrorMove(p, xy, v, draw) == MirrorRaised(IllegalState, Mirror(Grid(p.grid.size, p.grid.cells[xy := v]), p.step, p.mode))
  {
  }
}

/** The live game's move (`move`, `findFarthestLocation`, `traverseGrid` and
    the `onFinished` handler in fx2048/src/game2048/GameManager.java and
    src/game2048/GameManager.java, which agree except for the win rule).
    Cells are visited nearest the target edge first; each tile slides to the
    farthest free cell along the direction and merges into the tile beyond
    it when that tile has the same value and has not merged yet in this
    move. */
module LiveMove {
  import opened Base
  import opened Geometry
  import opened Cells
  import opened PlayerGrid
  import opened LiveBoard

  /*************************************************************************
   * Walking along a direction
   *************************************************************************/

  /** The cell `k` steps from `l` along `d`. */
  function Along(l: Location, d: Direction, k: int): Location {
    match d
    case Up => Location(l.x, l.y - k)
    case Right => Location(l.x + k, l.y)
    case Down => Location(l.x, l.y + k)
    case Left => Location(l.x - k, l.y)
  }

  /** Walking changes the cell unless no step is taken. */
  lemma AlongZero(l: Location, d: Direction, k: int)
    ensures Along(l, d, k) == l <==> k == 0
  {
  }

  lemma AlongStep(l: Location, d: Direction, k: int)
    ensures Offset(Along(l, d, k), d) == Along(l, d, k + 1)
    ensures Along(Offset(l, d), d, k) == Along(l, d, k + 1)
  {
  }

  /** How many cells lie between `l` and the edge `d` points at. */
  function EdgeDistance(l: Location, d: Direction, n: int): int {
    match d
    case Up => l.y
    case Right => n - 1 - l.x
    case Down => n - 1 - l.y
    case Left => l.x
  }

  lemma EdgeDistanceAlong(l: Location, d: Direction, n: int, k: int)
    ensures EdgeDistance(Along(l, d, k), d, n) == EdgeDistance(l, d, n) - k
    ensures IsValidFor(l, n) ==> EdgeDistance(l, d, n) >= 0
  {
  }

  /** The `k` cells after `l` along `d` are all in the grid and empty. */
  ghost predicate EmptyRun(b: Board, l: Location, d: Direction, n: int, k: nat) {
    k == 0 || (EmptyRun(b, l, d, n, k - 1) && IsValidFor(Along(l, d, k), n) && Get(b, Along(l, d, k)) == None)
  }

  lemma {:induction false} EmptyRunCells(b: Board, l: Location, d: Direction, n: int, k: nat)
    requires EmptyRun(b, l, d, n, k)
    ensures forall j :: 1 <= j <= k ==> IsValidFor(Along(l, d, j), n) && Get(b, Along(l, d, j)) == None
  {
    if k > 0 {
      EmptyRunCells(b, l, d, n, k - 1);
    }
  }

  /** The loop of `findFarthestLocation`, `k` steps in: it keeps stepping
      while the next cell is in the grid and empty. */
  function FarthestFrom(b: Board, l: Location, d: Direction, n: int, k: nat): (f: nat)
    requires IsValidFor(Along(l, d, k), n) && EmptyRun(b, l, d, n, k)
    ensures IsValidFor(Along(l, d, f), n) && EmptyRun(b, l, d, n, f)
    ensures !IsValidFor(Along(l, d, f + 1), n) || Get(b, Along(l, d, f + 1)).Some?
    decreases EdgeDistance(l, d, n) - k
  {
    EdgeDistanceAlong(l, d, n, k);
    EdgeDistanceAlong(Along(l, d, k), d, n, 0);
    var next := Along(l, d, k + 1);
    if IsValidFor(next, n) && Get(b, next) == None then
      FarthestFrom(b, l, d, n, k + 1)
    else
      k
  }

  /** The number of steps `findFarthestLocation` takes from `l`: the cells
      it passes are in the grid and empty, and the one after it is off the
      grid or occupied. */
  function FarthestSteps(b: Board, l: Location, d: Direction, n: int): (k: nat)
    requires IsValidFor(l, n)
    ensures IsValidFor(Along(l, d, k), n)
    ensures forall j :: 1 <= j <= k ==> IsValidFor(Along(l, d, j), n) && Get(b, Along(l, d, j)) == None
    ensures !IsValidFor(Along(l, d, k + 1), n) || Get(b, Along(l, d, k + 1)).Some?
  {
    AlongZero(l, d, 0);
    var k := FarthestFrom(b, l, d, n, 0);
    EmptyRunCells(b, l, d, n, k);
    k
  }

  /** `findFarthestLocation(l, d)`. */
  function FindFarthestLocation(b: Board, l: Location, d: Direction, n: int): (f: Location)
    requires IsValidFor(l, n)
    ensures IsValidFor(f, n)
  {
    Along(l, d, FarthestSteps(b, l, d, n))
  }

  /** The three facts of `FarthestSteps`'s contract single out its result:
      the farthest cell is the last of the run of empty cells ahead. */
  lemma FarthestIsUnique(b: Board, l: Location, d: Direction, n: int, k: nat)
    requires IsValidFor(l, n)
    requires forall j :: 1 <= j <= k ==> IsValidFor(Along(l, d, j), n) && Get(b, Along(l, d, j)) == None
    requires !IsValidFor(Along(l, d, k + 1), n) || Get(b, Along(l, d, k + 1)).Some?
    ensures k == FarthestSteps(b, l, d, n)
  {
    var f := FarthestSteps(b, l, d, n);
    if k < f {
      assert false;
    } else if k > f {
      assert false;
    }
  }

  /*************************************************************************
   * The traversal order
   *************************************************************************/

  /** Position `i` of a traversal list sorted for a direction whose
      component along the axis is `c`: descending when `c` is 1, ascending
      otherwise. The same formula maps a coordinate back to its
      position. */
  function Rank(n: int, c: int, i: int): int {
    if c == 1 then n - 1 - i else i
  }

  lemma RankInvolution(n: int, c: int, i: int)
    ensures Rank(n, c, Rank(n, c, i)) == i
    ensures 0 <= i < n <==> 0 <= Rank(n, c, i) < n
  {
  }

  /** `traversalX`/`traversalY` after `Collections.sort` with the order the
      move picks. */
  function Traversal(n: nat, c: int): (s: seq<int>)
    ensures |s| == n && forall i :: 0 <= i < n ==> s[i] == Rank(n, c, i)
  {
    seq(n, i => Rank(n, c, i))
  }

  /** The sorted list holds each of `0..n-1` once, descending exactly when
      the component is 1. */
  lemma TraversalIsSortedRange(n: nat, c: int)
    ensures forall v :: v in Traversal(n, c) <==> 0 <= v < n
    ensures forall i, j :: 0 <= i < j < n ==>
      if c == 1 then Traversal(n, c)[i] > Traversal(n, c)[j] else Traversal(n, c)[i] < Traversal(n, c)[j]
  {
    var s := Traversal(n, c);
    forall v | 0 <= v < n
      ensures v in s
    {
      RankInvolution(n, c, v);
      assert s[Rank(n, c, v)] == v;
    }
  }

  /** The cell visited at outer position `i` and inner position `j`. */
  function Cell(n: int, d: Direction, i: int, j: int): Location {
    Location(Rank(n, DirX(d), i), Rank(n, DirY(d), j))
  }

  /** `l` is visited before position (`i`, `j`) of the traversal. */
  predicate Before(n: int, d: Direction, l: Location, i: int, j: int) {
    Rank(n, DirX(d), l.x) < i || (Rank(n, DirX(d), l.x) == i && Rank(n, DirY(d), l.y) < j)
  }

  /** Every cell ahead of `l` along the direction is visited before `l`:
      the traversal starts at the edge the tiles move to. */
  lemma AheadComesFirst(n: int, d: Direction, l: Location, k: int)
    requires IsValidFor(l, n) && k >= 1
    ensures Before(n, d, Along(l, d, k), Rank(n, DirX(d), l.x), Rank(n, DirY(d), l.y))
  {
  }

  /** The visit at (`i`, `j`) is of a cell not yet visited, and finishing a
      column is starting the next. */
  lemma CellPositions(n: int, d: Direction, i: int, j: int, l: Location)
    requires 0 <= i < n && 0 <= j < n && IsValidFor(l, n)
    ensures IsValidFor(Cell(n, d, i, j), n)
    ensures !Before(n, d, Cell(n, d, i, j), i, j)
    ensures Before(n, d, l, i, j + 1) <==> Before(n, d, l, i, j) || l == Cell(n, d, i, j)
    ensures Before(n, d, l, i, n) <==> Before(n, d, l, i + 1, 0)
  {
    RankInvolution(n, DirX(d), i);
    RankInvolution(n, DirY(d), j);
    RankInvolution(n, DirX(d), l.x);
    RankInvolution(n, DirY(d), l.y);
  }

  /*************************************************************************
   * One sweep of the traversal
   *************************************************************************/

  /** `finalValueToWin` and `stopAtWinningScore` (fx), or 2048 and always
      (src). */
  datatype WinRule = WinRule(target: int, stop: bool)

  const SrcWinRule: WinRule := WinRule(2048, true)

  /** What the traversal accumulates: the board, `gameMovePoints`, the won
      flag and `tilesWereMoved`. */
  datatype Sweep = Sweep(board: Board, points: int, won: bool, moved: nat)

  /** What the lambda of `move` does with the cell `l`: nothing (no tile,
      or a tile that can neither move nor merge), slide the tile `k` steps
      to its farthest cell, or merge it into the tile one step beyond its
      farthest cell, `k + 1` steps ahead. */
  datatype Action = Stay | Slide(k: nat) | MergeAt(k: nat)

  /** What an action needs of the board: a slide goes to an empty cell of
      the grid at least one step ahead, a merge goes into an unmerged tile
      of equal value. */
  ghost predicate Admissible(b: Board, l: Location, d: Direction, n: int, act: Action) {
    && (!act.Stay? ==> Get(b, l).Some?)
    && (act.Slide? ==> act.k >= 1 && IsValidFor(Along(l, d, act.k), n) && Get(b, Along(l, d, act.k)) == None)
    && (act.MergeAt? ==>
          && IsValidFor(Along(l, d, act.k + 1), n)
          && Get(b, Along(l, d, act.k + 1)).Some?
          && Get(b, Along(l, d, act.k + 1)).value.value == Get(b, l).value.value
          && !Get(b, Along(l, d, act.k + 1)).value.merged)
  }

  /** The decision of the lambda: no tile, a merge when the cell beyond the
      farthest one is in the grid and holds an unmerged tile of equal value,
      otherwise a slide when the farthest cell is not `l` itself. */
  function Decide(b: Board, l: Location, d: Direction, n: int): (act: Action)
    requires IsValidFor(l, n)
    ensures Admissible(b, l, d, n, act)
    ensures Get(b, l).None? ==> act.Stay?
  {
    match Get(b, l)
    case None => Stay
    case Some(t) =>
      var k := FarthestSteps(b, l, d, n);
      var f := FindFarthestLocation(b, l, d, n);
      var next := Offset(f, d);
      AlongStep(l, d, k);
      AlongZero(l, d, k);
      var other := if IsValidFor(next, n) then Get(b, next) else None;
      if other.Some? && other.value.value == t.value && !other.value.merged then MergeAt(k)
      else if f != l then Slide(k)
      else Stay
  }

  /** Carrying out an action on the sweep: a merge writes the merged tile
      `k + 1` steps ahead, empties `l`, adds the merged value to the points
      and may set the won flag; a slide moves the tile `k` steps. Either
      counts as one move. */
  function Apply(a: Sweep, l: Location, d: Direction, n: int, rule: WinRule, act: Action): (r: Sweep)
    requires Admissible(a.board, l, d, n, act)
    ensures r.moved == a.moved || r.moved == a.moved + 1
    ensures r.moved == a.moved <==> act.Stay?
    ensures act.Stay? ==> r == a
  {
    match act
    case Stay => a
    case Slide(k) =>
      Sweep(a.board[Along(l, d, k) := Get(a.board, l)][l := None], a.points, a.won, a.moved + 1)
    case MergeAt(k) =>
      var m := Merge(Get(a.board, Along(l, d, k + 1)).value, Get(a.board, l).value);
      Sweep(a.board[Along(l, d, k + 1) := Some(m)][l := None], a.points + m.value,
            a.won || (m.value == rule.target && rule.stop), a.moved + 1)
  }

  /** The lambda of `move` applied to cell `l`. */
  function Visit(a: Sweep, l: Location, d: Direction, n: int, rule: WinRule): (r: Sweep)
    requires IsValidFor(l, n)
    ensures r.moved == a.moved || r.moved == a.moved + 1
    ensures r.moved == a.moved ==> r == a
    ensures Get(a.board, l).None? ==> r == a
  {
    Apply(a, l, d, n, rule, Decide(a.board, l, d, n))
  }

  /** The inner loop of `traverseGrid`: positions `j..n-1` of column
      position `i`. */
  function SweepColumn(a: Sweep, n: nat, d: Direction, rule: WinRule, i: nat, j: nat): (r: Sweep)
    requires i < n
    ensures r.moved >= a.moved
    decreases n - j
  {
    if j >= n then a
    else SweepColumn(ColumnStep(a, n, d, rule, i, j), n, d, rule, i, j + 1)
  }

  /** One pass of the inner loop: the visit of position (`i`, `j`). */
  function ColumnStep(a: Sweep, n: nat, d: Direction, rule: WinRule, i: nat, j: nat): (r: Sweep)
    requires i < n && j < n
    ensures r.moved >= a.moved
  {
    RankInvolution(n, DirX(d), i);
    RankInvolution(n, DirY(d), j);
    Visit(a, Cell(n, d, i, j), d, n, rule)
  }

  /** The outer loop: column positions `i..n-1`. */
  function SweepFrom(a: Sweep, n: nat, d: Direction, rule: WinRule, i: nat): (r: Sweep)
    ensures r.moved >= a.moved
    decreases n - i
  {
    if i >= n then a else SweepFrom(SweepColumn(a, n, d, rule, i, 0), n, d, rule, i + 1)
  }

  /*************************************************************************
   * What a sweep keeps
   *************************************************************************/

  /** A tile's weight in a potential that every visit which moves something
      lowers: one more than its distance from the target edge. */
  function PotentialOf(d: Direction, n: int): (Location, Option<Tile>) -> int {
    (l: Location, c: Option<Tile>) => if c.Some? then 1 + EdgeDistance(l, d, n) else 0
  }

  function Potential(b: Board, n: nat, d: Direction): int {
    Total(b, Locations(n), PotentialOf(d, n))
  }

  /** Some tile on the board is a merged tile of value `v`. */
  ghost predicate HasMerged(b: Board, v: int) {
    exists l :: l in b && b[l] == Some(Tile(v, true))
  }

  /** Writing two distinct cells of the grid changes a sum by both changes
      of weight. */
  lemma TwoWrites(b: Board, n: nat, w: (Location, Option<Tile>) -> int, p: Location, cp: Option<Tile>, q: Location, cq: Option<Tile>)
    requires IsValidFor(p, n) && IsValidFor(q, n) && p != q
    ensures Total(b[p := cp][q := cq], Locations(n), w)
         == Total(b, Locations(n), w) - w(p, Get(b, p)) + w(p, cp) - w(q, Get(b, q)) + w(q, cq)
  {
    LocationsNoDup(n);
    TotalUpdate(b, Locations(n), w, p, cp);
    TotalUpdate(b[p := cp], Locations(n), w, q, cq);
    assert Get(b[p := cp], q) == Get(b, q);
  }

  /** A sum of weights that vanish on the board is zero. */
  lemma {:induction false} TotalZero(b: Board, s: seq<Location>, w: (Location, Option<Tile>) -> int)
    requires forall l :: l in s ==> w(l, Get(b, l)) == 0
    ensures Total(b, s, w) == 0
    decreases |s|
  {
    if s != [] {
      TotalZero(b, s[1..], w);
    }
  }

  /** Every merged tile sits at a cell visited before (`i`, `j`). */
  ghost predicate MergedBefore(b: Board, n: int, d: Direction, i: int, j: int) {
    forall x :: x in b && b[x].Some? && b[x].value.merged ==> Before(n, d, x, i, j)
  }

  /** What holds of the sweep before the visit at (`i`, `j`), for a sweep
      that started on board `b0` with the won flag `w0`, no points and
      nothing moved:
      - merged tiles sit only at cells already visited;
      - the points are the values of the merged tiles;
      - the sum of the values is kept;
      - each merge turns two tiles into one merged tile;
      - the won flag records a merged tile of the target value;
      - the potential fell by at least the number of moves;
      - with nothing moved the board is the starting board. */
  ghost predicate SweepInv(a: Sweep, b0: Board, w0: bool, n: nat, d: Direction, rule: WinRule, i: int, j: int) {
    && Shaped(a.board, n)
    && MergedBefore(a.board, n, d, i, j)
    && a.points == MergedTotal(a.board, n)
    && ValueTotal(a.board, n) == ValueTotal(b0, n)
    && TileCount(a.board, n) + MergedCount(a.board, n) == TileCount(b0, n)
    && (a.won <==> w0 || (rule.stop && HasMerged(a.board, rule.target)))
    && Potential(a.board, n, d) + a.moved <= Potential(b0, n, d)
    && (a.moved == 0 ==> a.board == b0)
  }

  /** The sweep starts with the invariant on a board of the grid's shape
      without merge flags. */
  lemma SweepStarts(b0: Board, w0: bool, n: nat, d: Direction, rule: WinRule)
    requires Shaped(b0, n) && Unflagged(b0)
    ensures SweepInv(Sweep(b0, 0, w0, 0), b0, w0, n, d, rule, 0, 0)
  {
    TotalZero(b0, Locations(n), MergedValueOf);
    TotalZero(b0, Locations(n), MergedOf);
  }

  /** Only the cells written change which merged tiles are on the board. */
  lemma MergedAfterWrites(b: Board, p: Location, cp: Option<Tile>, q: Location, cq: Option<Tile>, v: int)
    requires p in b && q in b && p != q
    requires b[p].Some? ==> !b[p].value.merged
    requires b[q].Some? ==> !b[q].value.merged
    requires cq.Some? ==> !cq.value.merged
    ensures HasMerged(b[p := cp][q := cq], v) <==> HasMerged(b, v) || cp == Some(Tile(v, true))
  {
    var nb := b[p := cp][q := cq];
    if HasMerged(b, v) {
      var x :| x in b && b[x] == Some(Tile(v, true));
      assert nb[x] == b[x];
    }
    if cp == Some(Tile(v, true)) {
      assert nb[p] == cp;
    }
    if HasMerged(nb, v) {
      var x :| x in nb && nb[x] == Some(Tile(v, true));
      if x != p {
        assert b[x] == nb[x];
      }
    }
  }

  /** Merging `t` at `l` into the unmerged `o` at `next`: the merged value
      joins the merged total, the value total stays, one tile goes and one
      merged tile comes, and the potential falls. */
  lemma MergeTotals(b: Board, n: nat, d: Direction, l: Location, t: Tile, next: Location, o: Tile)
    requires IsValidFor(l, n) && IsValidFor(next, n) && next != l
    requires Get(b, l) == Some(t) && Get(b, next) == Some(o) && !o.merged && !t.merged
    ensures var nb := b[next := Some(Merge(o, t))][l := None];
      && MergedTotal(nb, n) == MergedTotal(b, n) + Merge(o, t).value
      && ValueTotal(nb, n) == ValueTotal(b, n)
      && TileCount(nb, n) == TileCount(b, n) - 1
      && MergedCount(nb, n) == MergedCount(b, n) + 1
      && Potential(nb, n, d) < Potential(b, n, d)
  {
    var m := Merge(o, t);
    EdgeDistanceAlong(l, d, n, 0);
    AlongZero(l, d, 0);
    TwoWrites(b, n, MergedValueOf, next, Some(m), l, None);
    TwoWrites(b, n, ValueOf, next, Some(m), l, None);
    TwoWrites(b, n, TileOf, next, Some(m), l, None);
    TwoWrites(b, n, MergedOf, next, Some(m), l, None);
    TwoWrites(b, n, PotentialOf(d, n), next, Some(m), l, None);
  }

  /** Writing an unmerged tile or nothing at the visited cell `q`, and at
      `p` anything whose merge flag is set only if `p` was visited, keeps
      every merged tile at a visited cell once `q` counts as visited. */
  lemma MergedStayBefore(b: Board, n: nat, d: Direction, i: int, j: int, p: Location, cp: Option<Tile>, q: Location, cq: Option<Tile>)
    requires Shaped(b, n) && 0 <= i < n && 0 <= j < n && q == Cell(n, d, i, j) && IsValidFor(p, n)
    requires MergedBefore(b, n, d, i, j)
    requires cp.Some? && cp.value.merged ==> Before(n, d, p, i, j)
    requires cq.Some? ==> !cq.value.merged
    ensures MergedBefore(b[p := cp][q := cq], n, d, i, j + 1)
  {
    var nb := b[p := cp][q := cq];
    forall x | x in nb && nb[x].Some? && nb[x].value.merged
      ensures Before(n, d, x, i, j + 1)
    {
      RankInvolution(n, DirX(d), i);
      RankInvolution(n, DirY(d), j);
      CellPositions(n, d, i, j, q);
      if x != q {
        CellPositions(n, d, i, j, x);
      }
    }
  }

  /** What an admissible merge at (`i`, `j`) says about the cells it
      touches: the target is a different cell of the grid, visited
      earlier, holding an unmerged tile of the same value as the visited
      cell. */
  lemma MergeFacts(b: Board, n: nat, d: Direction, i: int, j: int, k: nat)
    requires 0 <= i < n && 0 <= j < n
    requires Admissible(b, Cell(n, d, i, j), d, n, MergeAt(k))
    ensures var l := Cell(n, d, i, j);
      var next := Along(l, d, k + 1);
      && IsValidFor(l, n) && IsValidFor(next, n) && next != l && Before(n, d, next, i, j)
      && Get(b, l).Some? && Get(b, next).Some?
      && Get(b, next).value.value == Get(b, l).value.value && !Get(b, next).value.merged
  {
    var l := Cell(n, d, i, j);
    CellPositions(n, d, i, j, l);
    RankInvolution(n, DirX(d), i);
    RankInvolution(n, DirY(d), j);
    AlongZero(l, d, k + 1);
    AheadComesFirst(n, d, l, k + 1);
  }

  /** An admissible merge at (`i`, `j`) keeps the invariant: the tile `t`
      at the visited cell `l` merges into the unmerged tile `o` of equal
      value at `next`, a cell visited earlier. */
  lemma MergeStep(a: Sweep, b0: Board, w0: bool, n: nat, d: Direction, rule: WinRule, i: int, j: int,
                  l: Location, t: Tile, next: Location, o: Tile)
    requires SweepInv(a, b0, w0, n, d, rule, i, j)
    requires 0 <= i < n && 0 <= j < n && l == Cell(n, d, i, j)
    requires IsValidFor(next, n) && next != l && Before(n, d, next, i, j)
    requires Get(a.board, l) == Some(t) && Get(a.board, next) == Some(o)
    requires o.value == t.value && !o.merged
    ensures var m := Merge(o, t);
      SweepInv(Sweep(a.board[next := Some(m)][l := None], a.points + m.value,
                     a.won || (m.value == rule.target && rule.stop), a.moved + 1),
               b0, w0, n, d, rule, i, j + 1)
  {
    var m := Merge(o, t);
    CellPositions(n, d, i, j, l);
    assert !t.merged;
    MergeTotals(a.board, n, d, l, t, next, o);
    MergedAfterWrites(a.board, next, Some(m), l, None, rule.target);
    MergedStayBefore(a.board, n, d, i, j, next, Some(m), l, None);
  }

  /** The sweep after a merge, spelled out. */
  lemma ApplyMergeIs(a: Sweep, l: Location, d: Direction, n: int, rule: WinRule, k: nat)
    requires Admissible(a.board, l, d, n, MergeAt(k))
    ensures var m := Merge(Get(a.board, Along(l, d, k + 1)).value, Get(a.board, l).value);
      Apply(a, l, d, n, rule, MergeAt(k))
        == Sweep(a.board[Along(l, d, k + 1) := Some(m)][l := None], a.points + m.value,
                 a.won || (m.value == rule.target && rule.stop), a.moved + 1)
  {
  }

  /** An admissible merge at (`i`, `j`) keeps the invariant. */
  lemma ApplyMerge(a: Sweep, b0: Board, w0: bool, n: nat, d: Direction, rule: WinRule, i: int, j: int, k: nat)
    requires SweepInv(a, b0, w0, n, d, rule, i, j)
    requires 0 <= i < n && 0 <= j < n
    requires Admissible(a.board, Cell(n, d, i, j), d, n, MergeAt(k))
    ensures SweepInv(Apply(a, Cell(n, d, i, j), d, n, rule, MergeAt(k)), b0, w0, n, d, rule, i, j + 1)
  {
    MergeFacts(a.board, n, d, i, j, k);
    var l := Cell(n, d, i, j);
    var next := Along(l, d, k + 1);
    ApplyMergeIs(a, l, d, n, rule, k);
    MergeStep(a, b0, w0, n, d, rule, i, j, l, Get(a.board, l).value, next, Get(a.board, next).value);
  }

  /** Sliding `t` from `l` to the empty cell `f`, `k` steps ahead: no
      total changes and the potential falls by `k`. */
  lemma SlideTotals(b: Board, n: nat, d: Direction, l: Location, t: Tile, k: int)
    requires IsValidFor(l, n) && IsValidFor(Along(l, d, k), n) && k != 0
    requires Get(b, l) == Some(t) && Get(b, Along(l, d, k)) == None && !t.merged
    ensures var nb := b[Along(l, d, k) := Some(t)][l := None];
      && MergedTotal(nb, n) == MergedTotal(b, n)
      && ValueTotal(nb, n) == ValueTotal(b, n)
      && TileCount(nb, n) == TileCount(b, n)
      && MergedCount(nb, n) == MergedCount(b, n)
      && Potential(nb, n, d) == Potential(b, n, d) - k
  {
    var f := Along(l, d, k);
    AlongZero(l, d, k);
    EdgeDistanceAlong(l, d, n, k);
    TwoWrites(b, n, MergedValueOf, f, Some(t), l, None);
    TwoWrites(b, n, ValueOf, f, Some(t), l, None);
    TwoWrites(b, n, TileOf, f, Some(t), l, None);
    TwoWrites(b, n, MergedOf, f, Some(t), l, None);
    TwoWrites(b, n, PotentialOf(d, n), f, Some(t), l, None);
  }

  /** An admissible slide at (`i`, `j`) keeps the invariant: the tile `t`
      at the visited cell moves to the empty cell `k >= 1` steps ahead. */
  lemma SlideStep(a: Sweep, b0: Board, w0: bool, n: nat, d: Direction, rule: WinRule, i: int, j: int, k: nat)
    requires SweepInv(a, b0, w0, n, d, rule, i, j)
    requires 0 <= i < n && 0 <= j < n
    requires Admissible(a.board, Cell(n, d, i, j), d, n, Slide(k))
    ensures SweepInv(Apply(a, Cell(n, d, i, j), d, n, rule, Slide(k)), b0, w0, n, d, rule, i, j + 1)
  {
    var l := Cell(n, d, i, j);
    var t := Get(a.board, l).value;
    var f := Along(l, d, k);
    CellPositions(n, d, i, j, l);
    assert !t.merged;
    SlideTotals(a.board, n, d, l, t, k);
    AlongZero(l, d, k);
    MergedAfterWrites(a.board, f, Some(t), l, None, rule.target);
    MergedStayBefore(a.board, n, d, i, j, f, Some(t), l, None);
  }

  /** A visit that changes nothing keeps the invariant. */
  lemma StayStep(a: Sweep, b0: Board, w0: bool, n: nat, d: Direction, rule: WinRule, i: int, j: int)
    requires SweepInv(a, b0, w0, n, d, rule, i, j)
    requires 0 <= i < n && 0 <= j < n
    ensures SweepInv(a, b0, w0, n, d, rule, i, j + 1)
  {
    forall x | x in a.board && a.board[x].Some? && a.board[x].value.merged
      ensures Before(n, d, x, i, j + 1)
    {
      CellPositions(n, d, i, j, x);
    }
  }

  /** Every admissible action at (`i`, `j`) keeps the invariant. */
  lemma ApplyStep(a: Sweep, b0: Board, w0: bool, n: nat, d: Direction, rule: WinRule, i: int, j: int, act: Action)
    requires SweepInv(a, b0, w0, n, d, rule, i, j)
    requires 0 <= i < n && 0 <= j < n
    requires Admissible(a.board, Cell(n, d, i, j), d, n, act)
    ensures SweepInv(Apply(a, Cell(n, d, i, j), d, n, rule, act), b0, w0, n, d, rule, i, j + 1)
  {
    match act
    case Stay => StayStep(a, b0, w0, n, d, rule, i, j);
    case Slide(k) => SlideStep(a, b0, w0, n, d, rule, i, j, k);
    case MergeAt(k) => ApplyMerge(a, b0, w0, n, d, rule, i, j, k);
  }

  /** Every visit keeps the invariant. */
  lemma VisitStep(a: Sweep, b0: Board, w0: bool, n: nat, d: Direction, rule: WinRule, i: nat, j: nat)
    requires SweepInv(a, b0, w0, n, d, rule, i, j)
    requires i < n && j < n
    ensures SweepInv(ColumnStep(a, n, d, rule, i, j), b0, w0, n, d, rule, i, j + 1)
  {
    var l := Cell(n, d, i, j);
    CellPositions(n, d, i, j, l);
    ApplyStep(a, b0, w0, n, d, rule, i, j, Decide(a.board, l, d, n));
  }

  /** Induction over the inner loop for any property `P` of the sweep and
      the position reached that every visit keeps. */
  lemma {:induction false} ColumnInduction(P: (Sweep, nat) -> bool, a: Sweep, n: nat, d: Direction, rule: WinRule, i: nat, j: nat)
    requires i < n && j <= n && P(a, j)
    requires forall s: Sweep, k: nat {:trigger ColumnStep(s, n, d, rule, i, k)} ::
      k < n && P(s, k) ==> P(ColumnStep(s, n, d, rule, i, k), k + 1)
    ensures P(SweepColumn(a, n, d, rule, i, j), n)
    decreases n - j
  {
    if j < n {
      ColumnInduction(P, ColumnStep(a, n, d, rule, i, j), n, d, rule, i, j + 1);
    }
  }

  /** The inner loop keeps the invariant to the end of the column. */
  lemma ColumnKeeps(a: Sweep, b0: Board, w0: bool, n: nat, d: Direction, rule: WinRule, i: nat, j: nat)
    requires SweepInv(a, b0, w0, n, d, rule, i, j)
    requires i < n && j <= n
    ensures SweepInv(SweepColumn(a, n, d, rule, i, j), b0, w0, n, d, rule, i, n)
  {
    var P := (s: Sweep, k: nat) => SweepInv(s, b0, w0, n, d, rule, i, k);
    forall s: Sweep, k: nat | k < n && P(s, k)
      ensures P(ColumnStep(s, n, d, rule, i, k), k + 1)
    {
      VisitStep(s, b0, w0, n, d, rule, i, k);
    }
    ColumnInduction(P, a, n, d, rule, i, j);
  }

  /** Finishing a column is starting the next one. */
  lemma NextColumn(a: Sweep, b0: Board, w0: bool, n: nat, d: Direction, rule: WinRule, i: nat)
    requires SweepInv(a, b0, w0, n, d, rule, i, n) && i < n
    ensures SweepInv(a, b0, w0, n, d, rule, i + 1, 0)
  {
    forall x | x in a.board && a.board[x].Some? && a.board[x].value.merged
      ensures Before(n, d, x, i + 1, 0)
    {
      CellPositions(n, d, i, 0, x);
    }
  }

  /** Induction over the outer loop for any property `Q` of the sweep and
      the column reached that every column keeps. */
  lemma {:induction false} SweepInduction(Q: (Sweep, nat) -> bool, a: Sweep, n: nat, d: Direction, rule: WinRule, i: nat)
    requires i <= n && Q(a, i)
    requires forall s: Sweep, k: nat {:trigger SweepColumn(s, n, d, rule, k, 0)} ::
      k < n && Q(s, k) ==> Q(SweepColumn(s, n, d, rule, k, 0), k + 1)
    ensures Q(SweepFrom(a, n, d, rule, i), n)
    decreases n - i
  {
    if i < n {
      SweepInduction(Q, SweepColumn(a, n, d, rule, i, 0), n, d, rule, i + 1);
    }
  }

  /** The outer loop keeps the invariant to the end of the traversal. */
  lemma SweepKeeps(a: Sweep, b0: Board, w0: bool, n: nat, d: Direction, rule: WinRule, i: nat)
    requires SweepInv(a, b0, w0, n, d, rule, i, 0) && i <= n
    ensures SweepInv(SweepFrom(a, n, d, rule, i), b0, w0, n, d, rule, n, 0)
  {
    var Q := (s: Sweep, k: nat) => SweepInv(s, b0, w0, n, d, rule, k, 0);
    forall s: Sweep, k: nat | k < n && Q(s, k)
      ensures Q(SweepColumn(s, n, d, rule, k, 0), k + 1)
    {
      ColumnKeeps(s, b0, w0, n, d, rule, k, 0);
      NextColumn(SweepColumn(s, n, d, rule, k, 0), b0, w0, n, d, rule, k);
    }
    SweepInduction(Q, a, n, d, rule, i);
  }

  /** `traverseGrid` with the lambda of `move`, from a board without merge
      flags, no points and nothing moved. */
  function Traverse(b0: Board, won: bool, n: nat, d: Direction, rule: WinRule): (s: Sweep)
  {
    SweepFrom(Sweep(b0, 0, won, 0), n, d, rule, 0)
  }

  /** The move's traversal on a board of the grid's shape without merge
      flags:
      - the board keeps its shape;
      - the points are the sum of the values of the merged tiles, each
        merge having produced one of them;
      - the sum of the tile values is kept;
      - every merge turns two tiles into one merged tile, so no tile merges
        twice;
      - the won flag is set exactly when it was, or a merge produced the
        target and the rule stops there;
      - something moved exactly when the board changed. */
  lemma TraverseOutcome(b0: Board, won: bool, n: nat, d: Direction, rule: WinRule)
    requires Shaped(b0, n) && Unflagged(b0)
    ensures var s := Traverse(b0, won, n, d, rule);
      && Shaped(s.board, n)
      && s.points == MergedTotal(s.board, n)
      && ValueTotal(s.board, n) == ValueTotal(b0, n)
      && TileCount(s.board, n) + MergedCount(s.board, n) == TileCount(b0, n)
      && (s.won <==> won || (rule.stop && HasMerged(s.board, rule.target)))
      && (s.moved == 0 <==> s.board == b0)
  {
    SweepStarts(b0, won, n, d, rule);
    SweepKeeps(Sweep(b0, 0, won, 0), b0, won, n, d, rule, 0);
  }
}

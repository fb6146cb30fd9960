/** The live game's board (`gameGrid` in fx2048/src/game2048/GameManager.java
    and src/game2048/GameManager.java): a map from locations to tiles in
    which Java `null` is `None`. This module holds what both copies share
    outside the move itself: reading a cell, the `locations` list, sums over
    the board, merge availability, the grid snapshot handed to the player
    and the mapping from the player's codes to directions. */
module LiveBoard {
  import opened Base
  import opened Rows
  import opened Geometry
  import opened Cells
  import opened PlayerGrid

  type Board = map<Location, Option<Tile>>

  /** `gameGrid.get(l)`: a missing key and a `null` value both read as
      `null`. */
  function Get(b: Board, l: Location): (c: Option<Tile>)
    ensures l !in b ==> c == None
    ensures l in b ==> c == b[l]
  {
    if l in b then b[l] else None
  }

  /** The board's keys are exactly the grid cells, as after
      `initializeLocationsInGameGrid`; every later write goes to a cell of
      the grid. */
  ghost predicate Shaped(b: Board, n: int) {
    forall l :: l in b <==> IsValidFor(l, n)
  }

  /** `initializeLocationsInGameGrid()`: every cell of the grid is set to
      `null`; any other key keeps its entry. */
  function InitializeLocations(b: Board, n: nat): (r: Board)
    ensures forall l :: IsValidFor(l, n) ==> l in r && r[l] == None
    ensures forall l :: l in b && !IsValidFor(l, n) ==> l in r && r[l] == b[l]
    ensures r.Keys == b.Keys + OnBoard(n)
  {
    map l | l in b.Keys + OnBoard(n) :: if IsValidFor(l, n) then None else b[l]
  }

  /** The fresh game's empty map becomes an empty board of the right
      shape. */
  lemma InitializedIsShaped(n: nat)
    ensures Shaped(InitializeLocations(map[], n), n)
    ensures forall l :: Get(InitializeLocations(map[], n), l) == None
  {
  }

  /*************************************************************************
   * The `locations` list and sums over it
   *************************************************************************/

  /** The cells of column `x` in increasing `y`. */
  function Column(n: nat, x: int): (s: seq<Location>)
    ensures |s| == n
    ensures forall j :: 0 <= j < n ==> s[j] == Location(x, j)
  {
    seq(n, j => Location(x, j))
  }

  /** The columns `x..n-1`, one after the other. */
  function LocationsFrom(n: nat, x: nat): (s: seq<Location>)
    ensures forall l :: l in s <==> x <= l.x < n && 0 <= l.y < n
    decreases n - x
  {
    if x >= n then []
    else
      var c := Column(n, x);
      assert forall l :: l in c <==> l.x == x && 0 <= l.y < n by {
        forall l: Location | l.x == x && 0 <= l.y < n
          ensures l in c
        {
          assert c[l.y] == l;
        }
      }
      c + LocationsFrom(n, x + 1)
  }

  /** The `locations` list built by `createGrid`: `Location(i, j)` with
      `i` outer and `j` inner. */
  function Locations(n: nat): (s: seq<Location>)
    ensures forall l :: l in s <==> IsValidFor(l, n)
  {
    LocationsFrom(n, 0)
  }

  /** No location occurs twice. */
  ghost predicate NoDup(s: seq<Location>) {
    forall i, j :: 0 <= i < j < |s| ==> s[i] != s[j]
  }

  lemma {:induction false} LocationsFromNoDup(n: nat, x: nat)
    ensures NoDup(LocationsFrom(n, x))
    decreases n - x
  {
    if x < n {
      LocationsFromNoDup(n, x + 1);
      var c := Column(n, x);
      var rest := LocationsFrom(n, x + 1);
      var s := c + rest;
      forall i, j | 0 <= i < j < |s|
        ensures s[i] != s[j]
      {
        if j >= |c| {
          assert s[j] == rest[j - |c|] && s[j] in rest;
          if i >= |c| {
            assert s[i] == rest[i - |c|];
          }
        }
      }
    }
  }

  lemma LocationsNoDup(n: nat)
    ensures NoDup(Locations(n))
  {
    LocationsFromNoDup(n, 0);
  }

  /** The sum of `w` over the cells `s`. */
  function Total(b: Board, s: seq<Location>, w: (Location, Option<Tile>) -> int): int
    decreases |s|
  {
    if s == [] then 0 else w(s[0], Get(b, s[0])) + Total(b, s[1..], w)
  }

  /** A sum reads only the cells it ranges over. */
  lemma {:induction false} TotalFrame(a: Board, b: Board, s: seq<Location>, w: (Location, Option<Tile>) -> int)
    requires forall l :: l in s ==> Get(a, l) == Get(b, l)
    ensures Total(a, s, w) == Total(b, s, w)
    decreases |s|
  {
    if s != [] {
      TotalFrame(a, b, s[1..], w);
    }
  }

  /** Writing one cell changes a sum by that cell's change of weight. */
  lemma {:induction false} TotalUpdate(b: Board, s: seq<Location>, w: (Location, Option<Tile>) -> int, l: Location, c: Option<Tile>)
    requires NoDup(s) && l in s
    ensures Total(b[l := c], s, w) == Total(b, s, w) - w(l, Get(b, l)) + w(l, c)
    decreases |s|
  {
    if s[0] == l {
      assert forall k :: k in s[1..] ==> k != l by {
        forall k | k in s[1..]
          ensures k != l
        {
          var i :| 0 <= i < |s[1..]| && s[1..][i] == k;
          assert s[i + 1] == k;
        }
      }
      TotalFrame(b[l := c], b, s[1..], w);
    } else {
      assert NoDup(s[1..]) by {
        forall i, j | 0 <= i < j < |s[1..]|
          ensures s[1..][i] != s[1..][j]
        {
          assert s[1..][i] == s[i + 1] && s[1..][j] == s[j + 1];
        }
      }
      TotalUpdate(b, s[1..], w, l, c);
    }
  }

  /** A sum of non-negative weights is non-negative. */
  lemma {:induction false} TotalNonNeg(b: Board, s: seq<Location>, w: (Location, Option<Tile>) -> int)
    requires forall l, c :: w(l, c) >= 0
    ensures Total(b, s, w) >= 0
    decreases |s|
  {
    if s != [] {
      TotalNonNeg(b, s[1..], w);
    }
  }

  /** The weights the move keeps track of. */
  function ValueOf(l: Location, c: Option<Tile>): int {
    match c case Some(t) => t.value case None => 0
  }

  function MergedValueOf(l: Location, c: Option<Tile>): int {
    match c case Some(t) => if t.merged then t.value else 0 case None => 0
  }

  function TileOf(l: Location, c: Option<Tile>): int {
    match c case Some(_) => 1 case None => 0
  }

  function MergedOf(l: Location, c: Option<Tile>): int {
    match c case Some(t) => if t.merged then 1 else 0 case None => 0
  }

  /** The sum of the tile values, the sum of the values of merged tiles,
      the number of tiles and the number of merged tiles on the grid. */
  function ValueTotal(b: Board, n: nat): int { Total(b, Locations(n), ValueOf) }
  function MergedTotal(b: Board, n: nat): int { Total(b, Locations(n), MergedValueOf) }
  function TileCount(b: Board, n: nat): int { Total(b, Locations(n), TileOf) }
  function MergedCount(b: Board, n: nat): int { Total(b, Locations(n), MergedOf) }

  /*************************************************************************
   * Empty cells and merge availability
   *************************************************************************/

  /** `gameGrid.values()...noneMatch(Objects::isNull)`: no entry of the map
      is `null`. */
  predicate NoNullEntry(b: Board) {
    forall l :: l in b ==> b[l].Some?
  }

  /** The free cells in the order of the `locations` list, as
      `findRandomAvailableLocation` collects them. */
  function FreeFrom(b: Board, s: seq<Location>): (r: seq<Location>)
    ensures forall l :: l in r <==> l in s && Get(b, l) == None
    decreases |s|
  {
    if s == [] then []
    else (if Get(b, s[0]) == None then [s[0]] else []) + FreeFrom(b, s[1..])
  }

  function Available(b: Board, n: nat): (r: seq<Location>)
    ensures forall l :: l in r <==> IsValidFor(l, n) && Get(b, l) == None
  {
    FreeFrom(b, Locations(n))
  }

  /** `findRandomAvailableLocation()`: the shuffle followed by a random
      index is the choice `pick` (any natural number; it is reduced modulo
      the number of free cells); `None` is the `null` returned when no cell
      is free. */
  function RandomAvailable(b: Board, n: nat, pick: nat): (r: Option<Location>)
    ensures r.None? <==> forall l :: IsValidFor(l, n) ==> Get(b, l) != None
    ensures r.Some? ==> IsValidFor(r.value, n) && Get(b, r.value) == None
  {
    var free := Available(b, n);
    if |free| == 0 then None
    else
      assert free[pick % |free|] in free;
      Some(free[pick % |free|])
  }

  /** Every free cell is the outcome of some choice. */
  lemma EveryFreeCellCanBePicked(b: Board, n: nat, l: Location)
    requires IsValidFor(l, n) && Get(b, l) == None
    ensures exists pick: nat :: RandomAvailable(b, n, pick) == Some(l)
  {
    var free := Available(b, n);
    assert l in free;
    var i :| 0 <= i < |free| && free[i] == l;
    ModOfSmaller(i, |free|);
    assert RandomAvailable(b, n, i) == Some(l);
  }

  lemma ModOfSmaller(i: nat, m: nat)
    requires i < m
    ensures i % m == i
  {
  }

  /** The tile at `l` can merge with its neighbour along `d`, as the lambda
      of `mergeMovementsAvailable` tests it. */
  predicate MergeableAt(b: Board, n: int, l: Location, d: Direction) {
    Get(b, l).Some? && IsValidFor(Offset(l, d), n) && IsMergeable(Get(b, l).value, Get(b, Offset(l, d)))
  }

  /** The count `traverseGrid` returns for direction `d`. The traversal
      lists are in whatever order the last move sorted them; a count does
      not depend on the order, so the `locations` order is used. */
  function MergeableFound(b: Board, n: int, d: Direction, s: seq<Location>): (k: nat)
    ensures k > 0 <==> exists l :: l in s && MergeableAt(b, n, l, d)
    decreases |s|
  {
    if s == [] then 0
    else
      (if MergeableAt(b, n, s[0], d) then 1 else 0) + MergeableFound(b, n, d, s[1..])
  }

  /** `mergeMovementsAvailable()`: some tile has an equal neighbour above
      it or to its left. */
  function MergeMovementsAvailable(b: Board, n: nat): (r: bool)
    ensures r <==> exists l :: IsValidFor(l, n) && (MergeableAt(b, n, l, Up) || MergeableAt(b, n, l, Left))
  {
    MergeableFound(b, n, Up, Locations(n)) > 0 || MergeableFound(b, n, Left, Locations(n)) > 0
  }

  /** Two tiles side by side, in any of the four directions, with equal
      values. */
  ghost predicate AdjacentPair(b: Board, n: int) {
    exists l, d :: IsValidFor(l, n) && MergeableAt(b, n, l, d)
  }

  /** Looking up and left only loses nothing: a pair found looking down or
      right is the same pair seen from the other tile. */
  lemma MergeAvailableIffAdjacentPair(b: Board, n: nat)
    ensures MergeMovementsAvailable(b, n) <==> AdjacentPair(b, n)
  {
    if AdjacentPair(b, n) {
      var l, d :| IsValidFor(l, n) && MergeableAt(b, n, l, d);
      var o := Offset(l, d);
      if d == Down || d == Right {
        OffsetGoBack(l, d);
        assert MergeableAt(b, n, o, GoBack(d));
      }
    }
  }

  /*************************************************************************
   * The snapshot handed to the player
   *************************************************************************/

  /** The value `creaGriglia` records for a cell: the tile's value, or -1
      when the cell is missing or `null`. */
  function Snapshot(b: Board, l: Location): (v: int)
    ensures Get(b, l).None? ==> v == Empty
    ensures Get(b, l).Some? ==> v == Get(b, l).value.value
  {
    match Get(b, l) case Some(t) => t.value case None => Empty
  }

  /** fx `creaGriglia()`: the shared `QuickGrid` is overwritten at every
      cell of the grid and returned; other keys it holds, such as the
      player's configuration, stay. */
  function CreaGrigliaShared(g: Grid, b: Board, n: nat): (r: Grid)
    ensures r.size == g.size && r.cells.Keys == g.cells.Keys + OnBoard(n)
    ensures forall l :: IsValidFor(l, n) ==> r.cells[l] == Snapshot(b, l)
    ensures forall l :: l in g.cells && !IsValidFor(l, n) ==> r.cells[l] == g.cells[l]
  {
    Grid(g.size, map l | l in g.cells.Keys + OnBoard(n) :: if IsValidFor(l, n) then Snapshot(b, l) else g.cells[l])
  }

  /** src `creaGriglia()`: a fresh `MyGriglia` (size 4) holding exactly
      the cells of the grid. */
  function CreaGrigliaFresh(b: Board, n: nat): (r: Grid)
    ensures r.size == DefaultSize && r.cells.Keys == OnBoard(n)
    ensures forall l :: IsValidFor(l, n) ==> r.cells[l] == Snapshot(b, l)
  {
    Grid(DefaultSize, map l | l in OnBoard(n) :: Snapshot(b, l))
  }

  /** The board a snapshot describes: -1 is an empty cell, any other value
      an unmerged tile. */
  function FromSnapshot(g: Grid, n: nat): (b: Board)
    requires forall l :: IsValidFor(l, n) ==> l in g.cells
    ensures Shaped(b, n)
  {
    map l | l in OnBoard(n) :: if g.cells[l] == Empty then None else Some(NewTile(g.cells[l]))
  }

  /** No tile carries the merge flag. */
  ghost predicate Unflagged(b: Board) {
    forall l :: l in b && b[l].Some? ==> !b[l].value.merged
  }

  /** No tile holds -1, the snapshot's mark for an empty cell. */
  ghost predicate NoMinusOne(b: Board) {
    forall l :: l in b && b[l].Some? ==> b[l].value.value != Empty
  }

  /** Between moves (no merge flag set, no tile of value -1) the snapshot
      loses nothing: the board is recovered from it. On a 4x4 board it is
      a complete player grid, in both versions. */
  lemma SnapshotRoundTrip(g: Grid, b: Board, n: nat)
    requires Shaped(b, n) && Unflagged(b) && NoMinusOne(b)
    ensures FromSnapshot(CreaGrigliaFresh(b, n), n) == b
    ensures FromSnapshot(CreaGrigliaShared(g, b, n), n) == b
    ensures n == DefaultSize ==> Complete(CreaGrigliaFresh(b, n))
    ensures n == DefaultSize && g.size == DefaultSize ==> Complete(CreaGrigliaShared(g, b, n))
  {
    var r := FromSnapshot(CreaGrigliaFresh(b, n), n);
    assert forall l :: l in b ==> r[l] == b[l];
    var r' := FromSnapshot(CreaGrigliaShared(g, b, n), n);
    assert forall l :: l in b ==> r'[l] == b[l];
  }

  /*************************************************************************
   * The player's codes
   *************************************************************************/

  /** `autoMove`'s switch: 0 up, 1 right, 2 down, 3 left; any other code
      throws `InvalidMoveException`. */
  function CodeToDirection(code: int): (r: Outcome<Direction>)
    ensures r.Ok? <==> 0 <= code < 4
    ensures r.Thrown? ==> r.error == InvalidMove
  {
    match code
    case 0 => Ok(Up)
    case 1 => Ok(Right)
    case 2 => Ok(Down)
    case 3 => Ok(Left)
    case _ => Thrown(InvalidMove)
  }

  /** The code of each direction. */
  function DirectionCode(d: Direction): (code: int)
    ensures 0 <= code < 4
  {
    match d
    case Up => 0
    case Right => 1
    case Down => 2
    case Left => 3
  }

  /** The mapping is a bijection between 0..3 and the directions. */
  lemma CodeDirectionRoundTrip(code: int, d: Direction)
    ensures CodeToDirection(DirectionCode(d)) == Ok(d)
    ensures 0 <= code < 4 ==> DirectionCode(CodeToDirection(code).value) == code
  {
  }

  /** The player's grid reads code `m` the way the game moves: codes 0 and
      2 work along columns (fixed `x`), which is where the direction has no
      x component, and the player's target side 1 is the side the vector
      points to when it grows a coordinate. */
  lemma CodeAgreesWithPlayerAxes(m: int)
    requires 0 <= m < 4
    ensures (m == 0 || m == 2) <==> DirX(CodeToDirection(m).value) == 0
    ensures Side(m) == 1 <==> DirX(CodeToDirection(m).value) + DirY(CodeToDirection(m).value) == 1
  {
  }
}

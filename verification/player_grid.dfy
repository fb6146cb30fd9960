/** The automatic player's own grid: a map from locations to tile values
    with -1 for an empty cell, plus the `gridSize` field. Three classes
    share this logic line for line:
    giocatoreAutomatico/src/giocatoreAutomatico/MyGriglia.java,
    giocatoreAutomatico/src/giocatoreAutomatico/QuickGrid.java and
    src/giocatoreAutomatico/MyGriglia.java.

    A move projects the board into `gridSize` lines, runs the line engine
    of module `Rows` on each and writes the lines back. Keys outside the
    board (the player's configuration keys (-1,-1) and (-1,-2)) are never
    touched. */
module PlayerGrid {
  import opened Base
  import opened Rows
  import opened RowLemmas
  import opened Geometry

  datatype Grid = Grid(size: nat, cells: map<Location, int>)

  /** The default `gridSize`. */
  const DefaultSize: nat := 4

  /** Every cell of the board has an entry, as the `Griglia` interface
      demands (16 keys, -1 for empty cells). Reading a missing cell makes
      the source throw a NullPointerException when the `Integer` is
      unboxed, so the operations below require this. */
  ghost predicate Complete(g: Grid) {
    forall l: Location :: IsValidFor(l, g.size) ==> l in g.cells
  }

  /** Cell `j` of line `i` for direction code `m`: codes 0 and 2 (up,
      down) read column `x = i`, every other code reads row `y = i`. */
  function LineLoc(m: int, i: int, j: int): Location {
    if m == 0 || m == 2 then Location(i, j) else Location(j, i)
  }

  /** The Row direction for code `m`: 0 (toward index 0) for up (0) and
      left (3), 1 for everything else. */
  function Side(m: int): (dir: int)
    ensures dir == 0 || dir == 1
    ensures dir == 0 <==> m == 0 || m == 3
  {
    if m == 0 || m == 2 then (if m == 0 then 0 else 1)
    else (if m == 3 then 0 else 1)
  }

  /** Line `i` of the board for code `m`, as loaded into a Row. */
  function Line(g: Grid, m: int, i: int): (s: seq<int>)
    requires Complete(g) && 0 <= i < g.size
    ensures |s| == g.size
    ensures forall j :: 0 <= j < g.size ==> s[j] == g.cells[LineLoc(m, i, j)]
  {
    seq(g.size, j requires 0 <= j < g.size => g.cells[LineLoc(m, i, j)])
  }

  /** `isValida(m)`: some projected line admits the move. */
  predicate IsValida(g: Grid, m: int)
    requires Complete(g)
  {
    AnyFrom(LineAnswers(g, m), 0)
  }

  /** Whether each projected line for code `m` admits the move. */
  function LineAnswers(g: Grid, m: int): (s: seq<bool>)
    requires Complete(g)
    ensures |s| == g.size
    ensures forall i :: 0 <= i < g.size ==> s[i] == ValidRowMove(Build(Line(g, m, i)), Side(m))
  {
    seq(g.size, i requires 0 <= i < g.size => ValidRowMove(Build(Line(g, m, i)), Side(m)))
  }

  /** Some answer at index `i` or later is true. */
  predicate AnyFrom(s: seq<bool>, i: nat)
    decreases |s| - i
  {
    i < |s| && (s[i] || AnyFrom(s, i + 1))
  }

  /** A scan that succeeds names a true answer. */
  lemma {:induction false} AnyFromWitness(s: seq<bool>, i: nat) returns (k: int)
    requires AnyFrom(s, i)
    ensures i <= k < |s| && s[k]
    decreases |s| - i
  {
    if s[i] {
      k := i;
    } else {
      k := AnyFromWitness(s, i + 1);
    }
  }

  /** A true answer at or after `i` makes the scan succeed. */
  lemma {:induction false} AnyFromFound(s: seq<bool>, i: nat, k: int)
    requires i <= k < |s| && s[k]
    ensures AnyFrom(s, i)
    decreases k - i
  {
    if i < k {
      AnyFromFound(s, i + 1, k);
    }
  }

  /** `isValida(m)` holds exactly when some line admits the move. */
  lemma IsValidaIff(g: Grid, m: int)
    requires Complete(g)
    ensures IsValida(g, m) <==> exists i :: 0 <= i < g.size && ValidRowMove(Build(Line(g, m, i)), Side(m))
  {
    var s := LineAnswers(g, m);
    if IsValida(g, m) {
      var k := AnyFromWitness(s, 0);
      assert ValidRowMove(Build(Line(g, m, k)), Side(m));
    } else {
      forall i | 0 <= i < g.size
        ensures !ValidRowMove(Build(Line(g, m, i)), Side(m))
      {
        if s[i] {
          AnyFromFound(s, 0, i);
        }
      }
    }
  }

  /** `isValida(m)` as the source computes it: OR-ing the lines' answers. */
  method CheckValida(g: Grid, m: int) returns (valid: bool)
    requires Complete(g)
    ensures valid <==> exists i :: 0 <= i < g.size && ValidRowMove(Build(Line(g, m, i)), Side(m))
    ensures valid == IsValida(g, m)
  {
    valid := false;
    var i := 0;
    while i < g.size
      invariant 0 <= i <= g.size
      invariant (valid || AnyFrom(LineAnswers(g, m), i)) == IsValida(g, m)
    {
      var row := Build(Line(g, m, i));
      valid := valid || ValidRowMove(row, Side(m));
      i := i + 1;
    }
    IsValidaIff(g, m);
  }

  /** The line index and position of an on-board cell for code `m`. */
  function LineIndex(m: int, l: Location): int {
    if m == 0 || m == 2 then l.x else l.y
  }

  function LinePos(m: int, l: Location): int {
    if m == 0 || m == 2 then l.y else l.x
  }

  lemma LineLocInverse(m: int, l: Location)
    ensures LineLoc(m, LineIndex(m, l), LinePos(m, l)) == l
  {
  }

  /** The value the move writes back into on-board cell `l`. */
  function MovedCell(g: Grid, m: int, l: Location): int
    requires Complete(g) && IsValidFor(l, g.size)
  {
    MoveLine(Line(g, m, LineIndex(m, l)), Side(m))[LinePos(m, l)]
  }

  /** `move(m)`: every line is moved and written back; no key is added or
      removed and off-board keys keep their values. */
  function Move(g: Grid, m: int): (r: Grid)
    requires Complete(g)
    ensures r.size == g.size && r.cells.Keys == g.cells.Keys
    ensures forall l :: l in g.cells && !IsValidFor(l, g.size) ==> r.cells[l] == g.cells[l]
    ensures Complete(r)
  {
    Grid(g.size, map l | l in g.cells :: if IsValidFor(l, g.size) then MovedCell(g, m, l) else g.cells[l])
  }

  /** Each line of the moved board is the line engine's result on the
      corresponding line of the original. */
  lemma MoveMovesEachLine(g: Grid, m: int, i: int)
    requires Complete(g) && 0 <= i < g.size
    ensures Line(Move(g, m), m, i) == MoveLine(Line(g, m, i), Side(m))
  {
    forall j | 0 <= j < g.size
      ensures Line(Move(g, m), m, i)[j] == MoveLine(Line(g, m, i), Side(m))[j]
    {
      MovedCellOnLine(g, m, i, j);
    }
  }

  /** Cell `j` of line `i` after the move. */
  lemma MovedCellOnLine(g: Grid, m: int, i: int, j: int)
    requires Complete(g) && 0 <= i < g.size && 0 <= j < g.size
    ensures IsValidFor(LineLoc(m, i, j), g.size)
    ensures Move(g, m).cells[LineLoc(m, i, j)] == MoveLine(Line(g, m, i), Side(m))[j]
  {
    var l := LineLoc(m, i, j);
    assert LineIndex(m, l) == i && LinePos(m, l) == j;
    assert Move(g, m).cells[l] == MovedCell(g, m, l);
  }

  /** An invalid line is left as it is. */
  lemma InvalidLineUnchanged(s: seq<int>, dir: int)
    requires !ValidRowMove(Build(s), dir)
    ensures MoveLine(s, dir) == s
  {
  }

  /** A move changes the board exactly when `isValida` holds for it. */
  lemma MoveChangesIffValida(g: Grid, m: int)
    requires Complete(g)
    ensures Move(g, m) == g <==> !IsValida(g, m)
  {
    if IsValida(g, m) {
      ValidaMoveChanges(g, m);
    } else {
      InvalidaMoveKeeps(g, m);
    }
  }

  lemma ValidaMoveChanges(g: Grid, m: int)
    requires Complete(g) && IsValida(g, m)
    ensures Move(g, m) != g
  {
    IsValidaIff(g, m);
    var i :| 0 <= i < g.size && ValidRowMove(Build(Line(g, m, i)), Side(m));
    var s := Line(g, m, i);
    MoveChangesIffValid(s, Side(m));
    var j :| 0 <= j < g.size && MoveLine(s, Side(m))[j] != s[j];
    MovedCellOnLine(g, m, i, j);
    assert Move(g, m).cells[LineLoc(m, i, j)] != g.cells[LineLoc(m, i, j)];
  }

  lemma InvalidaMoveKeeps(g: Grid, m: int)
    requires Complete(g) && !IsValida(g, m)
    ensures Move(g, m) == g
  {
    IsValidaIff(g, m);
    forall l | l in g.cells
      ensures Move(g, m).cells[l] == g.cells[l]
    {
      if IsValidFor(l, g.size) {
        var i := LineIndex(m, l);
        InvalidLineUnchanged(Line(g, m, i), Side(m));
        LineLocInverse(m, l);
      }
    }
    assert Move(g, m).cells == g.cells;
  }

  /** Codes other than 0, 2 and 3 behave exactly like 1 (right). */
  lemma OtherCodesMoveRight(g: Grid, m: int)
    requires Complete(g)
    requires m != 0 && m != 2 && m != 3
    ensures IsValida(g, m) == IsValida(g, 1)
    ensures Move(g, m) == Move(g, 1)
  {
    OtherCodesSameLines(g, m);
    OtherCodesSameCells(g, m);
  }

  /** Codes other than 0, 2 and 3 read the same lines as 1. */
  lemma OtherCodesSameLines(g: Grid, m: int)
    requires Complete(g)
    requires m != 0 && m != 2 && m != 3
    ensures IsValida(g, m) == IsValida(g, 1)
    ensures forall i :: 0 <= i < g.size ==> Line(g, m, i) == Line(g, 1, i)
  {
    forall i | 0 <= i < g.size
      ensures Line(g, m, i) == Line(g, 1, i)
    {
    }
    IsValidaIff(g, m);
    IsValidaIff(g, 1);
  }

  /** Codes other than 0, 2 and 3 move every cell as 1 does. */
  lemma OtherCodesSameCells(g: Grid, m: int)
    requires Complete(g)
    requires m != 0 && m != 2 && m != 3
    requires forall i :: 0 <= i < g.size ==> Line(g, m, i) == Line(g, 1, i)
    ensures Move(g, m) == Move(g, 1)
  {
    forall l | l in g.cells && IsValidFor(l, g.size)
      ensures MovedCell(g, m, l) == MovedCell(g, 1, l)
    {
      assert Line(g, m, LineIndex(m, l)) == Line(g, 1, LineIndex(1, l));
    }
    assert Move(g, m).cells == Move(g, 1).cells;
  }

  /** After a valid move the board has an empty cell: the cell at the far
      end of a line that moved. */
  lemma ValidMoveFreesCell(g: Grid, m: int) returns (l: Location)
    requires Complete(g)
    requires IsValida(g, m)
    ensures IsValidFor(l, g.size) && Move(g, m).cells[l] == Empty
  {
    IsValidaIff(g, m);
    var i :| 0 <= i < g.size && ValidRowMove(Build(Line(g, m, i)), Side(m));
    var s := Line(g, m, i);
    ValidMoveLeavesEmpty(s, Side(m));
    var j := if Side(m) == 0 then |s| - 1 else 0;
    MovedCellOnLine(g, m, i, j);
    l := LineLoc(m, i, j);
  }

  /** Every on-board cell is empty or holds a non-negative value. */
  predicate BoardNonNeg(g: Grid) {
    forall l :: l in g.cells && IsValidFor(l, g.size) ==> g.cells[l] == Empty || g.cells[l] >= 0
  }

  /** A move produces no negative tile from non-negative ones. */
  lemma MoveKeepsNonNeg(g: Grid, m: int)
    requires Complete(g) && BoardNonNeg(g)
    ensures BoardNonNeg(Move(g, m))
  {
    forall l | l in g.cells && IsValidFor(l, g.size)
      ensures Move(g, m).cells[l] == Empty || Move(g, m).cells[l] >= 0
    {
      var i := LineIndex(m, l);
      var s := Line(g, m, i);
      assert NonNeg(s) by {
        forall j | 0 <= j < |s|
          ensures s[j] == Empty || s[j] >= 0
        {
          assert IsValidFor(LineLoc(m, i, j), g.size);
        }
      }
      MovePreservesNonNeg(s, Side(m));
    }
  }

  /** The total of the tile values on line `i`. */
  function LineSum(g: Grid, m: int, i: int): int
    requires Complete(g) && 0 <= i < g.size
  {
    Sum(Tiles(Line(g, m, i)))
  }

  /** The total of the tile values over the first `k` lines of code `m`. */
  function LinesTotal(g: Grid, m: int, k: nat): int
    requires Complete(g) && k <= g.size
  {
    if k == 0 then 0 else LinesTotal(g, m, k - 1) + LineSum(g, m, k - 1)
  }

  /** A move keeps the total of the tile values. */
  lemma MoveKeepsTotal(g: Grid, m: int)
    requires Complete(g)
    ensures LinesTotal(Move(g, m), m, g.size) == LinesTotal(g, m, g.size)
  {
    var g' := Move(g, m);
    forall i | 0 <= i < g.size
      ensures LineSum(g', m, i) == LineSum(g, m, i)
    {
      MoveKeepsLineSum(g, m, i);
    }
    TotalsAgree(g', g, m, g.size);
  }

  /** Boards whose lines have the same sums have the same total. */
  lemma {:induction false} TotalsAgree(a: Grid, b: Grid, m: int, k: nat)
    requires Complete(a) && Complete(b) && a.size == b.size && k <= a.size
    requires forall i :: 0 <= i < a.size ==> LineSum(a, m, i) == LineSum(b, m, i)
    ensures LinesTotal(a, m, k) == LinesTotal(b, m, k)
  {
    if k > 0 {
      TotalsAgree(a, b, m, k - 1);
    }
  }

  lemma MoveKeepsLineSum(g: Grid, m: int, i: int)
    requires Complete(g) && 0 <= i < g.size
    ensures LineSum(Move(g, m), m, i) == LineSum(g, m, i)
  {
    MoveMovesEachLine(g, m, i);
    MovePreservesSum(Line(g, m, i), Side(m));
  }

  /*************************************************************************
   * Free cells and insertion
   *************************************************************************/

  /** `freeLocations()`: every key mapped to -1, on or off the board. */
  function FreeLocations(g: Grid): (free: set<Location>)
    ensures forall l :: l in free <==> l in g.cells && g.cells[l] == Empty
  {
    set l | l in g.cells && g.cells[l] == Empty
  }

  /** `add(l, v)`: refused with a RuntimeException when `l` already holds a
      value other than -1; otherwise exactly the entry for `l` is set. */
  function Add(g: Grid, l: Location, v: int): (r: Outcome<Grid>)
    ensures r.Thrown? <==> l in g.cells && g.cells[l] != Empty
    ensures r.Thrown? ==> r.error == LocationTaken
    ensures r.Ok? ==> r.value.size == g.size && r.value.cells.Keys == g.cells.Keys + {l}
    ensures r.Ok? ==> r.value.cells[l] == v
    ensures r.Ok? ==> forall k :: k in g.cells && k != l ==> r.value.cells[k] == g.cells[k]
  {
    if l in g.cells && g.cells[l] != Empty then Thrown(LocationTaken)
    else Ok(Grid(g.size, g.cells[l := v]))
  }

  /** Adding a tile at a free location takes exactly that location out of
      the free set, and a second add there is refused. */
  lemma AddTakesFreeCell(g: Grid, l: Location, v: int)
    requires l in FreeLocations(g)
    requires v != Empty
    ensures Add(g, l, v).Ok?
    ensures FreeLocations(Add(g, l, v).value) == FreeLocations(g) - {l}
    ensures forall w :: Add(Add(g, l, v).value, l, w) == Thrown(LocationTaken)
  {
    var g' := Add(g, l, v).value;
    assert FreeLocations(g') == FreeLocations(g) - {l};
  }

  /** Adding keeps every entry, so a complete board stays complete. */
  lemma AddKeepsComplete(g: Grid, l: Location, v: int)
    requires Complete(g) && Add(g, l, v).Ok?
    ensures Complete(Add(g, l, v).value)
  {
  }

  /*************************************************************************
   * Matrix view
   *************************************************************************/

  /** `toMatrix()`: `matrix[i][j]` is the value at `Location(i, j)`. */
  function ToMatrix(g: Grid): (mat: seq<seq<int>>)
    requires Complete(g)
    ensures |mat| == g.size
    ensures forall i :: 0 <= i < g.size ==> |mat[i]| == g.size
  {
    seq(g.size, i requires 0 <= i < g.size =>
      seq(g.size, j requires 0 <= j < g.size => g.cells[Location(i, j)]))
  }

  /** The grid a square matrix describes. */
  function FromMatrix(mat: seq<seq<int>>): (g: Grid)
    requires forall i :: 0 <= i < |mat| ==> |mat[i]| == |mat|
    ensures Complete(g)
  {
    Grid(|mat|, map l | l in OnBoard(|mat|) :: mat[l.x][l.y])
  }

  /** The locations of an `n` by `n` board. */
  function OnBoard(n: nat): (s: set<Location>)
    ensures forall l :: l in s <==> IsValidFor(l, n)
  {
    set x, y | 0 <= x < n && 0 <= y < n :: Location(x, y)
  }

  /** Column `i` of the matrix is the line the up and down moves use. */
  lemma MatrixRowsAreColumns(g: Grid, i: int)
    requires Complete(g) && 0 <= i < g.size
    ensures ToMatrix(g)[i] == Line(g, 0, i) == Line(g, 2, i)
  {
  }

  /** The matrix view loses nothing on the board, and a square matrix
      survives the round trip through a grid. */
  lemma MatrixRoundTrip(g: Grid, mat: seq<seq<int>>)
    requires Complete(g)
    requires forall i :: 0 <= i < |mat| ==> |mat[i]| == |mat|
    ensures FromMatrix(ToMatrix(g)).size == g.size
    ensures forall l :: IsValidFor(l, g.size) ==> FromMatrix(ToMatrix(g)).cells[l] == g.cells[l]
    ensures ToMatrix(FromMatrix(mat)) == mat
  {
    var back := ToMatrix(FromMatrix(mat));
    forall i | 0 <= i < |mat|
      ensures back[i] == mat[i]
    {
      assert forall j :: 0 <= j < |mat| ==> back[i][j] == mat[i][j];
    }
  }
}

/** Text rendering of grids and the constructors of the render-only grid
    wrappers.

    The player grids (giocatoreAutomatico MyGriglia and QuickGrid,
    src/giocatoreAutomatico/MyGriglia.java) and the game's shared grid
    fx2048/src/game2048/QuickGrid.java print rows of constant `y`, each cell
    as a tab and its value with -1 shown as 0, each row ended by a newline.
    src/game2048/MyGriglia.java prints the same layout with -1 as it is. */
module Render {
  import opened Base
  import opened Geometry
  import opened PlayerGrid

  /*************************************************************************
   * Integer.toString
   *************************************************************************/

  predicate IsDigit(c: char) {
    '0' <= c <= '9'
  }

  function DigitChar(d: int): (c: char)
    requires 0 <= d < 10
    ensures IsDigit(c)
  {
    ('0' as int + d) as char
  }

  function DigitValue(c: char): (d: int)
    requires IsDigit(c)
    ensures 0 <= d < 10
  {
    c as int - '0' as int
  }

  /** Decimal digits of `n`, most significant first, with no leading zero. */
  function NatToString(n: nat): (s: string)
    ensures 1 <= |s|
    ensures forall k :: 0 <= k < |s| ==> IsDigit(s[k])
    ensures |s| > 1 ==> s[0] != '0'
    decreases n
  {
    if n < 10 then [DigitChar(n)] else NatToString(n / 10) + [DigitChar(n % 10)]
  }

  /** `Integer.toString(v)`: a minus sign before the digits of a negative
      value. */
  function IntToString(v: int): (s: string)
    ensures 1 <= |s|
    ensures s[0] == '-' <==> v < 0
  {
    if v < 0 then "-" + NatToString(-v) else NatToString(v)
  }

  /** Reading decimal digits back. */
  function ParseNat(s: string): nat
    requires forall k :: 0 <= k < |s| ==> IsDigit(s[k])
  {
    if |s| == 0 then 0 else ParseNat(s[..|s| - 1]) * 10 + DigitValue(s[|s| - 1])
  }

  function ParseInt(s: string): int
    requires 1 <= |s|
    requires forall k :: 1 <= k < |s| ==> IsDigit(s[k])
    requires s[0] != '-' ==> IsDigit(s[0])
  {
    if s[0] == '-' then 0 - ParseNat(s[1..]) else ParseNat(s)
  }

  lemma {:induction false} NatRoundTrip(n: nat)
    ensures ParseNat(NatToString(n)) == n
    decreases n
  {
    if n >= 10 {
      var s := NatToString(n);
      assert s[..|s| - 1] == NatToString(n / 10);
      NatRoundTrip(n / 10);
    }
  }

  /** The decimal text of a value determines the value. */
  lemma IntRoundTrip(v: int)
    ensures ParseInt(IntToString(v)) == v
  {
    if v < 0 {
      assert IntToString(v)[1..] == NatToString(-v);
      NatRoundTrip(-v);
    } else {
      NatRoundTrip(v);
    }
  }

  lemma IntToStringInjective(a: int, b: int)
    ensures IntToString(a) == IntToString(b) <==> a == b
  {
    IntRoundTrip(a);
    IntRoundTrip(b);
  }

  /*************************************************************************
   * Grid text
   *************************************************************************/

  /** The text of one cell in the player grids' `toString`: "-1" becomes "0". */
  function Shown(v: int): (s: string) {
    var val := IntToString(v);
    if val == "-1" then "0" else val
  }

  /** The only cells printed as "0" are the empty cells and actual zeros;
      any other value is printed as its own decimal text. */
  lemma ShownZeroIffEmpty(v: int)
    ensures Shown(v) == "0" <==> v == -1 || v == 0
    ensures v != -1 ==> Shown(v) == IntToString(v)
  {
    IntToStringInjective(v, -1);
    IntToStringInjective(v, 0);
    assert IntToString(-1) == "-1";
    assert IntToString(0) == "0";
  }

  /** Whether -1 is shown as 0 (the player grids and the fx QuickGrid) or
      printed literally (src/game2048/MyGriglia.java). */
  function CellText(v: int, blankAsZero: bool): string {
    if blankAsZero then Shown(v) else IntToString(v)
  }

  /** Each piece after a tab. */
  function Tabbed(pieces: seq<string>): string {
    if |pieces| == 0 then ""
    else Tabbed(pieces[..|pieces| - 1]) + "\t" + pieces[|pieces| - 1]
  }

  /** Each line followed by a newline. */
  function Lined(lines: seq<string>): string {
    if |lines| == 0 then ""
    else Lined(lines[..|lines| - 1]) + lines[|lines| - 1] + "\n"
  }

  /** The cells of row `y`, left to right. */
  function RowCells(g: Grid, y: int, blankAsZero: bool): (cells: seq<string>)
    requires Complete(g) && 0 <= y < g.size
    ensures |cells| == g.size
  {
    seq(g.size, x requires 0 <= x < g.size => CellText(g.cells[Location(x, y)], blankAsZero))
  }

  /** The rows of the text, top to bottom. */
  function BoardLines(g: Grid, blankAsZero: bool): (lines: seq<string>)
    requires Complete(g)
    ensures |lines| == g.size
  {
    seq(g.size, y requires 0 <= y < g.size => Tabbed(RowCells(g, y, blankAsZero)))
  }

  /** `toString()` of the player grids and of the fx QuickGrid. */
  function ToString(g: Grid): string
    requires Complete(g)
  {
    Lined(BoardLines(g, true))
  }

  /** `toString()` of src/game2048/MyGriglia.java. */
  function ToStringRaw(g: Grid): string
    requires Complete(g)
  {
    Lined(BoardLines(g, false))
  }

  /** Occurrences of `c` in `s`. */
  function Count(s: string, c: char): nat {
    multiset(s)[c]
  }

  lemma CountThree(a: string, b: string, c: string, ch: char)
    ensures Count(a + b + c, ch) == Count(a, ch) + Count(b, ch) + Count(c, ch)
  {
    assert multiset(a + b + c) == multiset(a) + multiset(b) + multiset(c);
  }

  /** Cell texts hold no tab and no newline. */
  lemma CellTextPlain(v: int, blankAsZero: bool, ch: char)
    requires ch == '\t' || ch == '\n'
    ensures Count(CellText(v, blankAsZero), ch) == 0
  {
    var digits := NatToString(if v < 0 then -v else v);
    assert ch !in digits;
    assert multiset("-" + digits) == multiset("-") + multiset(digits);
  }

  /** Pieces without tabs or newlines give one tab per piece and no
      newline. */
  lemma {:induction false} TabbedShape(pieces: seq<string>, ch: char)
    requires ch == '\t' || ch == '\n'
    requires forall i :: 0 <= i < |pieces| ==> Count(pieces[i], ch) == 0
    ensures Count(Tabbed(pieces), ch) == if ch == '\t' then |pieces| else 0
    decreases |pieces|
  {
    if |pieces| > 0 {
      var init := pieces[..|pieces| - 1];
      TabbedShape(init, ch);
      CountThree(Tabbed(init), "\t", pieces[|pieces| - 1], ch);
    }
  }

  /** Lines without newlines and with `n` tabs each give one newline per
      line and `n` tabs per line. */
  lemma {:induction false} LinedShape(lines: seq<string>, n: nat, ch: char)
    requires ch == '\t' || ch == '\n'
    requires forall i :: 0 <= i < |lines| ==> Count(lines[i], ch) == if ch == '\t' then n else 0
    ensures Count(Lined(lines), ch) == if ch == '\t' then |lines| * n else |lines|
    decreases |lines|
  {
    if |lines| > 0 {
      var init := lines[..|lines| - 1];
      LinedShape(init, n, ch);
      CountThree(Lined(init), lines[|lines| - 1], "\n", ch);
      MulStep(|lines|, n);
    }
  }

  lemma MulStep(k: int, n: int)
    ensures k * n == (k - 1) * n + n
  {
  }

  /** `toString` prints `size` lines of `size` tab-prefixed cells. */
  lemma ToStringShape(g: Grid, blankAsZero: bool, ch: char)
    requires Complete(g)
    requires ch == '\t' || ch == '\n'
    ensures Count(Lined(BoardLines(g, blankAsZero)), ch) == if ch == '\t' then g.size * g.size else g.size
  {
    var lines := BoardLines(g, blankAsZero);
    forall y | 0 <= y < g.size
      ensures Count(lines[y], ch) == if ch == '\t' then g.size else 0
    {
      RowShape(g, y, blankAsZero, ch);
    }
    LinedShape(lines, g.size, ch);
  }

  /** One printed row holds `size` tabs and no newline. */
  lemma RowShape(g: Grid, y: int, blankAsZero: bool, ch: char)
    requires Complete(g) && 0 <= y < g.size
    requires ch == '\t' || ch == '\n'
    ensures Count(Tabbed(RowCells(g, y, blankAsZero)), ch) == if ch == '\t' then g.size else 0
  {
    var cells := RowCells(g, y, blankAsZero);
    forall x | 0 <= x < g.size
      ensures Count(cells[x], ch) == 0
    {
      CellTextPlain(g.cells[Location(x, y)], blankAsZero, ch);
    }
    TabbedShape(cells, ch);
  }

  /** Both renderings have `size` lines of `size` cells. */
  lemma RenderingsShape(g: Grid)
    requires Complete(g)
    ensures Count(ToString(g), '\n') == g.size
    ensures Count(ToString(g), '\t') == g.size * g.size
    ensures Count(ToStringRaw(g), '\n') == g.size
    ensures Count(ToStringRaw(g), '\t') == g.size * g.size
  {
    ToStringShape(g, true, '\n');
    ToStringShape(g, true, '\t');
    ToStringShape(g, false, '\n');
    ToStringShape(g, false, '\t');
  }

  /** On a one-cell board holding -1 the two renderings differ. */
  lemma RawShowsMinusOne()
    ensures ToString(Grid(1, map[Location(0, 0) := -1])) == "\t0\n"
    ensures ToStringRaw(Grid(1, map[Location(0, 0) := -1])) == "\t-1\n"
  {
    OneCellText(-1, true);
    OneCellText(-1, false);
    assert IntToString(-1) == "-1";
    assert CellText(-1, true) == "0";
  }

  /** A one-cell board prints as one tab, the cell's text and a newline. */
  lemma OneCellText(v: int, blankAsZero: bool)
    ensures Complete(Grid(1, map[Location(0, 0) := v]))
    ensures Lined(BoardLines(Grid(1, map[Location(0, 0) := v]), blankAsZero))
         == "\t" + CellText(v, blankAsZero) + "\n"
  {
    var g := Grid(1, map[Location(0, 0) := v]);
    var c := CellText(v, blankAsZero);
    assert RowCells(g, 0, blankAsZero) == [c];
    assert [c][..0] == [];
    assert Tabbed([c]) == "\t" + c;
    assert BoardLines(g, blankAsZero) == ["\t" + c];
    assert ["\t" + c][..0] == [];
  }

  /*************************************************************************
   * Render-only grid constructors
   *************************************************************************/

  /** `(int) Math.sqrt(i)`: the floor of the square root, and 0 for a
      negative argument (the square root is NaN, which casts to 0). */
  function JavaIntSqrt(i: int): (r: nat)
    ensures i < 0 ==> r == 0
    ensures i >= 0 ==> r * r <= i < (r + 1) * (r + 1)
  {
    if i < 0 then 0 else SqrtFrom(i, 0)
  }

  function SqrtFrom(n: nat, r: nat): (s: nat)
    requires r * r <= n
    ensures s * s <= n < (s + 1) * (s + 1)
    decreases n - r * r
  {
    if (r + 1) * (r + 1) > n then r else SqrtFrom(n, r + 1)
  }

  lemma SquareMonotone(a: nat, b: nat)
    requires a <= b
    ensures a * a <= b * b
  {
  }

  /** The integer square root is the only such value. */
  lemma SqrtUnique(n: nat, r: nat)
    requires r * r <= n < (r + 1) * (r + 1)
    ensures JavaIntSqrt(n) == r
  {
    var s := JavaIntSqrt(n);
    if s < r {
      SquareMonotone(s + 1, r);
    } else if r < s {
      SquareMonotone(r + 1, s);
    }
  }

  /** `QuickGrid()` in fx2048/src/game2048/QuickGrid.java and
      `MyGriglia()` in src/game2048/MyGriglia.java: an empty grid of the
      default size. */
  function DefaultRenderGrid(): (g: Grid)
    ensures g.size == DefaultSize && g.cells == map[]
  {
    Grid(DefaultSize, map[])
  }

  /** The largest `int` whose square still fits in an `int`. */
  const LargestSquareRoot: int := 46340

  /** `QuickGrid(i)`: `super(i * i)` asks for an initial capacity of the
      32-bit square of `i`, which throws when it wraps to a negative
      number; otherwise the size is `i`. A negative size is stored as 0:
      `toString` is the only reader of the size and loops zero times for
      either. */
  function QuickGridOfSize(i: int): (r: Outcome<Grid>)
    requires -TwoTo31 <= i < TwoTo31
    ensures r.Thrown? ==> r.error == IllegalArgument
    ensures r.Ok? ==> r.value.cells == map[] && r.value.size == (if i < 0 then 0 else i)
    ensures -LargestSquareRoot <= i <= LargestSquareRoot ==> r.Ok?
  {
    SquareFits(i);
    if Wrap32(i * i) < 0 then Thrown(IllegalArgument)
    else Ok(Grid(if i < 0 then 0 else i, map[]))
  }

  /** Up to 46340 in size the square is an `int` and no wrap-around
      happens. */
  lemma SquareFits(i: int)
    ensures -LargestSquareRoot <= i <= LargestSquareRoot ==> 0 <= i * i < TwoTo31
  {
    var a := if i < 0 then -i else i;
    if a <= LargestSquareRoot {
      assert i * i == a * a;
      MulMonotone(a, LargestSquareRoot, a);
      MulMonotone(a, LargestSquareRoot, LargestSquareRoot);
    }
  }

  lemma MulMonotone(a: nat, b: nat, c: nat)
    requires a <= b
    ensures a * c <= b * c
  {
  }

  /** One past that bound the square wraps to a negative capacity and the
      constructor throws; a negative size that fits builds a grid that
      prints nothing. */
  lemma QuickGridBounds()
    ensures QuickGridOfSize(LargestSquareRoot + 1).Thrown?
    ensures QuickGridOfSize(-LargestSquareRoot - 1).Thrown?
    ensures QuickGridOfSize(-3).Ok? && ToString(QuickGridOfSize(-3).value) == ""
  {
    assert Wrap32((LargestSquareRoot + 1) * (LargestSquareRoot + 1)) < 0;
    assert Wrap32((-LargestSquareRoot - 1) * (-LargestSquareRoot - 1)) < 0;
    assert Wrap32(-3 * -3) == 9;
    assert BoardLines(Grid(0, map[]), true) == [];
  }

  /** `QuickGrid(griglia)`: every entry is copied, configuration keys
      included, and the size is derived from the number of entries. */
  function QuickGridCopy(cells: map<Location, int>): (g: Grid)
    ensures g.cells == cells
    ensures g.size * g.size <= |cells| < (g.size + 1) * (g.size + 1)
  {
    Grid(JavaIntSqrt(|cells|), cells)
  }

  /** `MyGriglia(i)` in src/game2048/MyGriglia.java: `i` is the expected
      number of entries, which `HashMap(int)` rejects when negative, and
      the size is its square root. */
  function RenderGridOfCapacity(i: int): (r: Outcome<Grid>)
    ensures r.Thrown? <==> i < 0
    ensures r.Thrown? ==> r.error == IllegalArgument
    ensures r.Ok? ==> r.value.cells == map[]
    ensures r.Ok? ==> r.value.size * r.value.size <= i < (r.value.size + 1) * (r.value.size + 1)
  {
    if i < 0 then Thrown(IllegalArgument) else Ok(Grid(JavaIntSqrt(i), map[]))
  }

  /** A copied 4x4 board keeps size 4 whether or not the two configuration
      keys are present, and so does `MyGriglia(16)`. */
  lemma CopySizeWithConfigKeys(cells: map<Location, int>)
    requires 16 <= |cells| <= 18
    ensures QuickGridCopy(cells).size == 4
    ensures RenderGridOfCapacity(16).Ok? && RenderGridOfCapacity(16).value.size == 4
  {
    SqrtUnique(|cells|, 4);
    SqrtUnique(16, 4);
  }

  /** The three ways of asking for a 4x4 grid agree: no argument, size 4
      and capacity 16. */
  lemma ConstructorsAgree()
    ensures QuickGridOfSize(4) == Ok(DefaultRenderGrid())
    ensures RenderGridOfCapacity(16) == Ok(DefaultRenderGrid())
  {
    SqrtUnique(16, 4);
  }
}

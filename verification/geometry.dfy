/** Grid coordinates and the four move directions of the live game
    (fx2048/src/game2048/Location.java, fx2048/src/game2048/Direction.java). */
module Geometry {
  import opened Base

  /** A cell of the game grid: `x` is the column, `y` the row. */
  datatype Location = Location(x: int, y: int)

  /** The four moves. */
  datatype Direction = Up | Right | Down | Left

  /** `getX()`: the x component of the direction vector. */
  function DirX(d: Direction): int {
    match d
    case Up => 0
    case Right => 1
    case Down => 0
    case Left => -1
  }

  /** `getY()`: the y component; y grows downwards. */
  function DirY(d: Direction): int {
    match d
    case Up => -1
    case Right => 0
    case Down => 1
    case Left => 0
  }

  /** Every direction vector has exactly one non-zero component, which is
      1 or -1. */
  lemma UnitVector(d: Direction)
    ensures (DirX(d) == 0) != (DirY(d) == 0)
    ensures DirX(d) * DirX(d) + DirY(d) * DirY(d) == 1
  {
  }

  /** `goBack()`: the opposite direction, whose vector is the negation. */
  function GoBack(d: Direction): (r: Direction)
    ensures DirX(r) == -DirX(d) && DirY(r) == -DirY(d)
    ensures r != d
  {
    match d
    case Up => Down
    case Down => Up
    case Left => Right
    case Right => Left
  }

  /** `goBack` is an involution. */
  lemma GoBackInvolution(d: Direction)
    ensures GoBack(GoBack(d)) == d
  {
  }

  /** `offset(d)`: the neighbouring cell one step along `d`. */
  function Offset(l: Location, d: Direction): (r: Location)
    ensures r != l
    ensures (r.x == l.x) != (r.y == l.y)
    ensures r.x - l.x == DirX(d) && r.y - l.y == DirY(d)
  {
    Location(l.x + DirX(d), l.y + DirY(d))
  }

  /** Stepping forward and then back returns to the start. */
  lemma OffsetGoBack(l: Location, d: Direction)
    ensures Offset(Offset(l, d), GoBack(d)) == l
  {
  }

  /** `isValidFor(n)`: both coordinates lie in `0..n-1`. */
  predicate IsValidFor(l: Location, n: int) {
    0 <= l.x < n && 0 <= l.y < n
  }

  /** A step from a cell of the grid leaves the grid exactly when the cell
      lies on the edge the direction points at. */
  lemma OffsetLeavesAtEdge(l: Location, d: Direction, n: int)
    requires IsValidFor(l, n)
    ensures !IsValidFor(Offset(l, d), n) <==>
      match d
      case Up => l.y == 0
      case Right => l.x == n - 1
      case Down => l.y == n - 1
      case Left => l.x == 0
  {
  }

  /** `equals(obj)`: `other` is `None` for Java `null`. Objects of another
      class cannot be represented and are not modelled. */
  function EqualsObject(l: Location, other: Option<Location>): (r: bool)
    ensures r <==> other == Some(l)
  {
    match other
    case None => false
    case Some(o) => if l.x != o.x then false else l.y == o.y
  }

  /** `equals` is an equivalence on non-null locations. */
  lemma EqualsIsEquivalence(a: Location, b: Location, c: Location)
    ensures EqualsObject(a, Some(a))
    ensures EqualsObject(a, Some(b)) == EqualsObject(b, Some(a))
    ensures EqualsObject(a, Some(b)) && EqualsObject(b, Some(c)) ==> EqualsObject(a, Some(c))
    ensures !EqualsObject(a, None)
  {
  }

  /*************************************************************************
   * Java int arithmetic
   *************************************************************************/

  const TwoTo31: int := 0x8000_0000
  const TwoTo32: int := 0x1_0000_0000

  /** The value a Java `int` computation yields for the exact result `v`:
      two's-complement wrap-around into 32 bits. */
  function Wrap32(v: int): (r: int)
    ensures -TwoTo31 <= r < TwoTo31
    ensures (v - r) % TwoTo32 == 0
    ensures -TwoTo31 <= v < TwoTo31 ==> r == v
  {
    (v + TwoTo31) % TwoTo32 - TwoTo31
  }

  /** `hashCode()`: `hash = 7; hash = 97 * hash + x; hash = 97 * hash + y`
      in wrapping `int` arithmetic. Wrapping after every step and wrapping
      once at the end agree, since both are reduction modulo 2^32. */
  function HashCode(l: Location): (h: int)
    ensures -TwoTo31 <= h < TwoTo31
  {
    Wrap32(97 * (97 * 7 + l.x) + l.y)
  }

  /** Equal locations hash alike, and on small boards (coordinates below
      97) the hash is collision-free. */
  lemma HashInjectiveOnSmallGrids(a: Location, b: Location)
    requires 0 <= a.x < 97 && 0 <= a.y < 97
    requires 0 <= b.x < 97 && 0 <= b.y < 97
    ensures HashCode(a) == HashCode(b) <==> a == b
  {
    assert HashCode(a) == 97 * (97 * 7 + a.x) + a.y;
    assert HashCode(b) == 97 * (97 * 7 + b.x) + b.y;
    if a.x < b.x {
      assert 97 * b.x >= 97 * a.x + 97;
    } else if b.x < a.x {
      assert 97 * a.x >= 97 * b.x + 97;
    }
  }

  /** Java's `/` on `int`: the quotient rounds toward zero, so the
      remainder has the sign of the dividend. */
  function JavaDiv(a: int, b: int): (q: int)
    requires b != 0
    ensures a >= 0 && b > 0 ==> q == a / b
    ensures var rem := a - q * b; (if rem < 0 then -rem else rem) < (if b < 0 then -b else b)
    ensures var rem := a - q * b; (a >= 0 ==> rem >= 0) && (a <= 0 ==> rem <= 0)
  {
    if a >= 0 && b > 0 then a / b
    else if a >= 0 then RemainderOverNegative(a, b); -(a / -b)
    else if b > 0 then RemainderOfNegative(a, b); -((-a) / b)
    else RemainderBothNegative(a, b); (-a) / (-b)
  }

  /** The truncating quotient of a non-negative by a negative number
      leaves a non-negative remainder smaller than the divisor's size. */
  lemma RemainderOverNegative(a: int, b: int)
    requires a >= 0 && b < 0
    ensures 0 <= a - (-(a / -b)) * b < -b
  {
    var y := -b;
    var p := a / y;
    assert a == p * y + a % y;
    assert (-p) * b == p * y;
  }

  /** The truncating quotient of a negative by a positive number leaves a
      non-positive remainder smaller than the divisor's size. */
  lemma RemainderOfNegative(a: int, b: int)
    requires a < 0 && b > 0
    ensures -b < a - (-((-a) / b)) * b <= 0
  {
    var x := -a;
    var p := x / b;
    assert x == p * b + x % b;
    assert (-p) * b == -(p * b);
  }

  /** The truncating quotient of two negative numbers leaves a
      non-positive remainder smaller than the divisor's size. */
  lemma RemainderBothNegative(a: int, b: int)
    requires a < 0 && b < 0
    ensures b < a - ((-a) / (-b)) * b <= 0
  {
    var x, y := -a, -b;
    var p := x / y;
    assert x == p * y + x % y;
    assert p * b == -(p * y);
  }

  /** The pixel position of the centre of column `coord` for cells of size
      `cell`, as `getLayoutX`/`getLayoutY` compute it. */
  function LayoutOf(coord: int, cell: int): (r: int)
    ensures r == coord * cell + JavaDiv(cell, 2)
    ensures cell > 0 && coord >= 0 ==> coord * cell <= r < (coord + 1) * cell
  {
    if coord == 0 then JavaDiv(cell, 2) else coord * cell + JavaDiv(cell, 2)
  }

  /** `getLayoutX(cell)`. */
  function LayoutX(l: Location, cell: int): (r: int)
    ensures r == l.x * cell + JavaDiv(cell, 2)
    ensures cell > 0 && l.x >= 0 ==> l.x * cell <= r < (l.x + 1) * cell
  {
    LayoutOf(l.x, cell)
  }

  /** `getLayoutY(cell)`. */
  function LayoutY(l: Location, cell: int): (r: int)
    ensures r == l.y * cell + JavaDiv(cell, 2)
    ensures cell > 0 && l.y >= 0 ==> l.y * cell <= r < (l.y + 1) * cell
  {
    LayoutOf(l.y, cell)
  }

  /** `validFor(d, n)`: the source checks one coordinate per direction, and
      not the coordinate the direction moves along. */
  function ValidFor(l: Location, d: Direction, n: int): (r: bool)
    ensures IsValidFor(l, n) ==> r
  {
    match d
    case Up => l.x >= 0
    case Right => l.y < n
    case Down => l.x < n
    case Left => l.y >= 0
  }

  /** The converse fails: `validFor` accepts cells far off the grid. */
  lemma ValidForIsWeaker()
    ensures ValidFor(Location(-5, 0), Right, 4) && !IsValidFor(Location(-5, 0), 4)
    ensures ValidFor(Location(0, -1), Up, 4) && !IsValidFor(Offset(Location(0, 0), Up), 4)
  {
  }
}

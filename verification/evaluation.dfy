/** The automatic player's position evaluation
    (giocatoreAutomatico/src/giocatoreAutomatico/player/MyGiocatoreAutomatico.java,
    `evaluate`). The cells of the 4x4 board are visited along a snake path:
    column `x = i` for i = 0..3, with `y` ascending when `i` is even and
    descending when it is odd. The k-th visited cell (k = 0..15) weighs
    0.25^k, and the evaluation is the weighted sum of the tile values;
    empty cells (-1) contribute nothing but still advance k.

    The player's `gridSize` field is hard-coded to 4, so the path always
    covers exactly the cells (0..3, 0..3), whatever the grid's own size.
    Every term is an integer times a power of 1/4, so `real` arithmetic is
    exact where the source uses `double`. */
module Evaluator {
  import opened Rows
  import opened Geometry
  import opened PlayerGrid

  /** The player's `gridSize` field. */
  const EvalSize: nat := 4

  /** The player's `evalBase` field. */
  const EvalBase: real := 0.25

  /** `Math.pow(b, e)` for a natural exponent. */
  function Pow(b: real, e: nat): (r: real)
    ensures 0.0 < b ==> 0.0 < r
  {
    if e == 0 then 1.0 else b * Pow(b, e - 1)
  }

  lemma ScaleDown(b: real, x: real, y: real)
    requires 0.0 < b < 1.0 && 0.0 < x && y == b * x
    ensures y < x
  {
  }

  /** Powers of a base below one strictly decrease with the exponent. */
  lemma {:induction false} PowStrictlyDecreasing(b: real, a: nat, c: nat)
    requires 0.0 < b < 1.0 && a < c
    ensures Pow(b, c) < Pow(b, a)
    decreases c - a
  {
    ScaleDown(b, Pow(b, c - 1), Pow(b, c));
    if c - 1 > a {
      PowStrictlyDecreasing(b, a, c - 1);
    }
  }

  /** The cell visited `k`-th on the snake path. */
  function SnakeLoc(k: int): (l: Location)
    requires 0 <= k < EvalSize * EvalSize
    ensures IsValidFor(l, EvalSize)
  {
    var i := k / 4;
    var j := k % 4;
    Location(i, if i % 2 == 0 then j else 3 - j)
  }

  /** The exponent the path gives to an on-board cell. */
  function SnakeIndex(l: Location): (k: int)
    requires IsValidFor(l, EvalSize)
    ensures 0 <= k < EvalSize * EvalSize
    ensures SnakeLoc(k) == l
  {
    4 * l.x + (if l.x % 2 == 0 then l.y else 3 - l.y)
  }

  /** The exponent of the `j`-th cell visited in column `i`. */
  lemma SnakeOfColumn(i: int, j: int)
    requires 0 <= i < EvalSize && 0 <= j < EvalSize
    ensures 0 <= 4 * i + j < EvalSize * EvalSize
    ensures SnakeLoc(4 * i + j) == Location(i, if i % 2 == 0 then j else 3 - j)
  {
    assert (4 * i + j) / 4 == i && (4 * i + j) % 4 == j;
  }

  /** The path visits every cell exactly once: it is a bijection between
      the exponents 0..15 and the board. */
  lemma SnakeIsBijection(k: int, l: Location)
    requires 0 <= k < EvalSize * EvalSize && IsValidFor(l, EvalSize)
    ensures SnakeIndex(SnakeLoc(k)) == k
    ensures SnakeLoc(k) == l <==> SnakeIndex(l) == k
  {
  }

  /** `val * Math.pow(evalBase, exp)`. */
  function Weighted(v: int, k: nat): real {
    v as real * Pow(EvalBase, k)
  }

  lemma ScaleUp(v: real, x: real, y: real, vx: real, vy: real)
    requires 0.0 < v && x < y && vx == v * x && vy == v * y
    ensures vx < vy
  {
  }

  lemma ScalePositive(v: real, x: real, vx: real)
    requires 0.0 < v && 0.0 < x && vx == v * x
    ensures 0.0 < vx
  {
  }

  /** A positive tile weighs more the earlier its cell comes on the path,
      and always more than nothing. */
  lemma WeightedDecreasing(v: int, a: nat, c: nat)
    requires v > 0 && a < c
    ensures 0.0 < Weighted(v, c) < Weighted(v, a)
  {
    PowStrictlyDecreasing(EvalBase, a, c);
    ScaleUp(v as real, Pow(EvalBase, c), Pow(EvalBase, a), Weighted(v, c), Weighted(v, a));
    ScalePositive(v as real, Pow(EvalBase, c), Weighted(v, c));
  }

  /** Every cell the evaluation reads has an entry; reading a missing one
      throws a NullPointerException in the source. */
  ghost predicate CoversEval(g: Grid) {
    forall l :: IsValidFor(l, EvalSize) ==> l in g.cells
  }

  /** The contribution of the `k`-th cell of the path. */
  function Term(g: Grid, k: int): real
    requires CoversEval(g) && 0 <= k < EvalSize * EvalSize
  {
    var v := g.cells[SnakeLoc(k)];
    if v == Empty then 0.0 else Weighted(v, k)
  }

  /** The contributions of the first `k` cells of the path. */
  function EvalPrefix(g: Grid, k: nat): real
    requires CoversEval(g) && k <= EvalSize * EvalSize
  {
    if k == 0 then 0.0 else EvalPrefix(g, k - 1) + Term(g, k - 1)
  }

  /** The value of `evaluate(g)`. */
  function Evaluation(g: Grid): real
    requires CoversEval(g)
  {
    EvalPrefix(g, EvalSize * EvalSize)
  }

  /** `evaluate(g)` as written: two nested loops along the snake path with
      a running exponent that advances for every visited cell. */
  method Evaluate(g: Grid) returns (evaluation: real)
    requires CoversEval(g)
    ensures evaluation == Evaluation(g)
  {
    evaluation := 0.0;
    var exp := 0;
    var i := 0;
    while i < EvalSize
      invariant 0 <= i <= EvalSize
      invariant exp == 4 * i
      invariant evaluation == EvalPrefix(g, exp)
    {
      if i % 2 == 0 {
        var j := 0;
        while j < EvalSize
          invariant 0 <= j <= EvalSize
          invariant exp == 4 * i + j
          invariant evaluation == EvalPrefix(g, exp)
        {
          SnakeOfColumn(i, j);
          PrefixStep(g, exp, Location(i, j));
          var val := g.cells[Location(i, j)];
          if val != Empty {
            evaluation := evaluation + Weighted(val, exp);
          }
          exp := exp + 1;
          j := j + 1;
        }
      } else {
        var j := EvalSize as int - 1;
        while j >= 0
          invariant -1 <= j < EvalSize
          invariant exp == 4 * i + (3 - j)
          invariant evaluation == EvalPrefix(g, exp)
        {
          SnakeOfColumn(i, 3 - j);
          PrefixStep(g, exp, Location(i, j));
          var val := g.cells[Location(i, j)];
          if val != Empty {
            evaluation := evaluation + Weighted(val, exp);
          }
          exp := exp + 1;
          j := j - 1;
        }
      }
      i := i + 1;
    }
  }

  /** One more cell of the path adds its tile's weighted value. */
  lemma PrefixStep(g: Grid, k: nat, l: Location)
    requires CoversEval(g) && k < EvalSize * EvalSize && SnakeLoc(k) == l
    ensures EvalPrefix(g, k + 1) == EvalPrefix(g, k)
      + (if g.cells[l] == Empty then 0.0 else Weighted(g.cells[l], k))
  {
  }

  /** Boards whose path cells agree term by term agree on every prefix. */
  lemma {:induction false} PrefixesAgree(a: Grid, b: Grid, k: nat)
    requires CoversEval(a) && CoversEval(b) && k <= EvalSize * EvalSize
    requires forall i :: 0 <= i < EvalSize * EvalSize ==> Term(a, i) == Term(b, i)
    ensures EvalPrefix(a, k) == EvalPrefix(b, k)
  {
    if k > 0 {
      PrefixesAgree(a, b, k - 1);
    }
  }

  /** The evaluation reads only the 4x4 board: keys outside it, such as the
      configuration keys, and the grid's size make no difference. */
  lemma EvaluationReadsBoardOnly(a: Grid, b: Grid)
    requires CoversEval(a) && CoversEval(b)
    requires forall l :: IsValidFor(l, EvalSize) ==> a.cells[l] == b.cells[l]
    ensures Evaluation(a) == Evaluation(b)
  {
    PrefixesAgree(a, b, EvalSize * EvalSize);
  }

  /** A board of empty cells and non-negative tiles evaluates to at least
      zero. */
  lemma EvaluationNonNeg(g: Grid)
    requires CoversEval(g)
    requires forall l :: IsValidFor(l, EvalSize) ==> g.cells[l] == Empty || g.cells[l] >= 0
    ensures Evaluation(g) >= 0.0
  {
    PrefixNonNeg(g, EvalSize * EvalSize);
  }

  lemma {:induction false} PrefixNonNeg(g: Grid, k: nat)
    requires CoversEval(g) && k <= EvalSize * EvalSize
    requires forall l :: IsValidFor(l, EvalSize) ==> g.cells[l] == Empty || g.cells[l] >= 0
    ensures EvalPrefix(g, k) >= 0.0
  {
    if k > 0 {
      PrefixNonNeg(g, k - 1);
      var v := g.cells[SnakeLoc(k - 1)];
      assert v == Empty || v >= 0;
      assert Pow(EvalBase, k - 1) > 0.0;
    }
  }

  /** Placing value `v` into an empty board cell `l` raises the evaluation
      by exactly `v * 0.25^k`, where `k` is the cell's place on the path. */
  lemma EvaluationOfPlacement(g: Grid, l: Location, v: int)
    requires CoversEval(g) && IsValidFor(l, EvalSize)
    requires g.cells[l] == Empty && v != Empty
    ensures CoversEval(Grid(g.size, g.cells[l := v]))
    ensures Evaluation(Grid(g.size, g.cells[l := v]))
            == Evaluation(g) + Weighted(v, SnakeIndex(l))
  {
    PlacementPrefix(g, l, v, EvalSize * EvalSize);
  }

  lemma {:induction false} PlacementPrefix(g: Grid, l: Location, v: int, k: nat)
    requires CoversEval(g) && IsValidFor(l, EvalSize) && k <= EvalSize * EvalSize
    requires g.cells[l] == Empty && v != Empty
    ensures CoversEval(Grid(g.size, g.cells[l := v]))
    ensures EvalPrefix(Grid(g.size, g.cells[l := v]), k)
            == EvalPrefix(g, k) + (if SnakeIndex(l) < k then Weighted(v, SnakeIndex(l)) else 0.0)
  {
    var g' := Grid(g.size, g.cells[l := v]);
    if k > 0 {
      PlacementPrefix(g, l, v, k - 1);
      SnakeIsBijection(k - 1, l);
      if SnakeIndex(l) == k - 1 {
        assert Term(g', k - 1) == Weighted(v, k - 1);
        assert Term(g, k - 1) == 0.0;
      } else {
        assert Term(g', k - 1) == Term(g, k - 1);
      }
    }
  }

  /** Two worked values: a lone 2 in the first cell of the path weighs 2,
      in the last cell of the second column (index 4) it weighs 2/256. */
  lemma EvaluationExamples(g: Grid)
    requires CoversEval(g)
    requires forall l :: IsValidFor(l, EvalSize) ==> g.cells[l] == Empty
    ensures Evaluation(Grid(g.size, g.cells[Location(0, 0) := 2])) == 2.0
    ensures Evaluation(Grid(g.size, g.cells[Location(1, 3) := 2])) == 2.0 / 256.0
  {
    PrefixEmpty(g, EvalSize * EvalSize);
    EvaluationOfPlacement(g, Location(0, 0), 2);
    EvaluationOfPlacement(g, Location(1, 3), 2);
    assert SnakeIndex(Location(1, 3)) == 4;
    assert Pow(EvalBase, 4) == 1.0 / 256.0;
  }

  lemma {:induction false} PrefixEmpty(g: Grid, k: nat)
    requires CoversEval(g) && k <= EvalSize * EvalSize
    requires forall l :: IsValidFor(l, EvalSize) ==> g.cells[l] == Empty
    ensures EvalPrefix(g, k) == 0.0
  {
    if k > 0 {
      PrefixEmpty(g, k - 1);
    }
  }
}

/** The automatic player's depth-bounded pessimistic search
    (giocatoreAutomatico/src/giocatoreAutomatico/player/MyGiocatoreAutomatico.java,
    `recursiveSearch` and `nextMoveMinimax`).

    For every direction code 0..3 that `isValida` accepts, the search moves
    a copy of the board. At depth 0 the move scores 0. Otherwise it tries a
    2 in every free location of the moved board, keeps the location whose
    evaluation is lowest (the worst insertion), scores the move as the
    moved board's evaluation plus the sub-search's score on the board with
    that 2 inserted, scaled by 0.9^(maxDepth - depth + 1). The best move
    wins, starting from the sentinel (move 0, score -1) and replacing it
    only on a strictly larger score, so ties go to the lower code.

    Among several worst insertions the source keeps the first one its
    `HashSet` yields; that order is not modelled, and `WorstAdd` is some
    minimiser. The search is a ghost definition because of that choice. */
module Search {
  import opened Base
  import opened Geometry
  import opened PlayerGrid
  import opened Evaluator

  /** The base of the score decay passed down the recursion. */
  const Decay: real := 0.9

  /** The value of a move: the search's result pair (move, score). */
  const Sentinel: (int, real) := (0, -1.0)

  /** The boards the search runs on: every cell of a 4x4 board present, as
      `new MyGriglia()` followed by `putAll` of the game's grid gives. */
  ghost predicate SearchBoard(g: Grid) {
    Complete(g) && g.size == EvalSize
  }

  lemma SearchBoardCovers(g: Grid)
    requires SearchBoard(g)
    ensures CoversEval(g)
  {
  }

  /** The evaluation of the board with a 2 added at free location `l`. */
  function AddedEval(g: Grid, l: Location): real
    requires SearchBoard(g) && l in FreeLocations(g)
  {
    AddTakesFreeCell(g, l, 2);
    Evaluation(Add(g, l, 2).value)
  }

  /** The pessimistic evaluation of every free location. */
  function AddedEvals(g: Grid): (e: map<Location, real>)
    requires SearchBoard(g)
    ensures e.Keys == FreeLocations(g)
  {
    map l | l in FreeLocations(g) :: AddedEval(g, l)
  }

  /** Some key of a finite non-empty set has the lowest value. */
  lemma {:induction false} MinimiserExists(e: map<Location, real>, s: set<Location>)
    requires s != {} && s <= e.Keys
    ensures exists l :: l in s && forall l' :: l' in s ==> e[l] <= e[l']
  {
    var a :| a in s;
    if s != {a} {
      MinimiserExists(e, s - {a});
      var b :| b in s - {a} && forall l' :: l' in s - {a} ==> e[b] <= e[l'];
      if e[a] <= e[b] {
        assert forall l' :: l' in s ==> e[a] <= e[l'];
      } else {
        assert forall l' :: l' in s ==> e[b] <= e[l'];
      }
    } else {
      assert forall l' :: l' in s ==> e[a] <= e[l'];
    }
  }

  /** `worstAdd`: a free location where an added 2 evaluates lowest. */
  ghost function WorstAdd(g: Grid): (l: Location)
    requires SearchBoard(g) && FreeLocations(g) != {}
    ensures l in FreeLocations(g)
    ensures forall l' :: l' in FreeLocations(g) ==> AddedEval(g, l) <= AddedEval(g, l')
  {
    var e := AddedEvals(g);
    MinimiserExists(e, e.Keys);
    var l :| l in e.Keys && forall l' :: l' in e.Keys ==> e[l] <= e[l'];
    l
  }

  /** A valid move always leaves a free location to insert into. */
  lemma ValidMoveLeavesFree(g: Grid, m: int)
    requires Complete(g) && IsValida(g, m)
    ensures FreeLocations(Move(g, m)) != {}
  {
    var l := ValidMoveFreesCell(g, m);
    assert l in FreeLocations(Move(g, m));
  }

  /** The board the sub-search runs on: the moved board with a 2 at its
      worst insertion. */
  ghost function Pessimistic(g: Grid, m: int): (r: Grid)
    requires SearchBoard(g) && 0 <= m < 4 && IsValida(g, m)
    ensures SearchBoard(r)
  {
    var moved := Move(g, m);
    ValidMoveLeavesFree(g, m);
    var w := WorstAdd(moved);
    AddTakesFreeCell(moved, w, 2);
    AddKeepsComplete(moved, w, 2);
    Add(moved, w, 2).value
  }

  /** The loop of `recursiveSearch` over the codes `m..3`, given each
      code's score (`None` for a code `isValida` rejects) and the best
      (move, score) so far; only a strictly larger score replaces it. */
  function Pick(scores: seq<Option<real>>, m: nat, best: (int, real)): (r: (int, real))
    requires m <= |scores| && 0 <= best.0 <= m
    ensures r.1 >= best.1 && 0 <= r.0 < |scores| + (if best.0 == m then 1 else 0)
    ensures r == best || (m <= r.0 < |scores| && scores[r.0] == Some(r.1) && r.1 > best.1)
    ensures forall k :: m <= k < |scores| && scores[k].Some? ==> scores[k].value <= r.1
    ensures forall k :: m <= k < r.0 && scores[k].Some? ==> scores[k].value < r.1
    decreases |scores| - m
  {
    if m == |scores| then best
    else if scores[m].Some? && scores[m].value > best.1 then Pick(scores, m + 1, (m, scores[m].value))
    else Pick(scores, m + 1, best)
  }

  /** `res[1] * Math.pow(base, k)` with base 0.9, as `k` scalings by 0.9
      (see `DecayedIsProduct`). */
  function Decayed(sub: real, k: nat): real {
    if k == 0 then sub else 0.9 * Decayed(sub, k - 1)
  }

  /** The scalings agree with the product the source computes. */
  lemma {:induction false} DecayedIsProduct(sub: real, k: nat)
    ensures Decayed(sub, k) == sub * Pow(Decay, k)
  {
    if k > 0 {
      DecayedIsProduct(sub, k - 1);
      Reassociate(Decay, sub, Pow(Decay, k - 1));
    }
  }

  lemma Reassociate(a: real, b: real, c: real)
    ensures a * (b * c) == b * (a * c)
  {
  }

  /** The score of code `m` at `depth`, or `None` when the move is not
      valid. */
  ghost function Score(g: Grid, depth: nat, maxDepth: nat, m: int): (r: Option<real>)
    requires SearchBoard(g) && depth <= maxDepth && 0 <= m < 4
    ensures r.Some? <==> IsValida(g, m)
    ensures r.Some? && depth == 0 ==> r.value == 0.0
    ensures r.Some? && BoardNonNeg(g) ==> r.value > -1.0
    decreases depth, 1
  {
    if !IsValida(g, m) then None
    else if depth == 0 then Some(0.0)
    else Some(DeepScore(g, depth, maxDepth, m))
  }

  /** A valid move's score below depth 0: the moved board's evaluation
      plus the decayed score of the search one level down on the
      pessimistic board. */
  ghost function DeepScore(g: Grid, depth: nat, maxDepth: nat, m: int): (v: real)
    requires SearchBoard(g) && 0 < depth <= maxDepth && 0 <= m < 4 && IsValida(g, m)
    ensures BoardNonNeg(g) ==> v > -1.0
    decreases depth, 0
  {
    MovedEvaluationNonNeg(g, m);
    DecayedSum(Evaluation(Move(g, m)), Search(Pessimistic(g, m), depth - 1, maxDepth).1, maxDepth - depth + 1)
  }

  /** An evaluation plus a sub-score decayed `k` times; above -1 when the
      evaluation is at least 0, the sub-score at least -1 and `k >= 1`. */
  function DecayedSum(e: real, sub: real, k: nat): (v: real)
    requires sub >= -1.0 && k >= 1
    ensures e >= 0.0 ==> v > -1.0
  {
    DecayedAboveMinusOne(sub, k);
    e + Decayed(sub, k)
  }

  /** The scores of the four codes in order. */
  ghost function Scores(g: Grid, depth: nat, maxDepth: nat): (s: seq<Option<real>>)
    requires SearchBoard(g) && depth <= maxDepth
    ensures |s| == 4
    ensures forall m :: 0 <= m < 4 ==> s[m] == Score(g, depth, maxDepth, m)
    decreases depth, 2
  {
    [Score(g, depth, maxDepth, 0), Score(g, depth, maxDepth, 1),
     Score(g, depth, maxDepth, 2), Score(g, depth, maxDepth, 3)]
  }

  /** `recursiveSearch(g, depth, maxDepth, 0.9)`: the result is the
      sentinel or a valid move with its score (see `SearchIsBest` for how
      it compares with the other moves). */
  ghost function Search(g: Grid, depth: nat, maxDepth: nat): (r: (int, real))
    requires SearchBoard(g) && depth <= maxDepth
    ensures 0 <= r.0 < 4 && r.1 >= -1.0
    ensures r == Sentinel || Score(g, depth, maxDepth, r.0) == Some(r.1)
    decreases depth, 3
  {
    Pick(Scores(g, depth, maxDepth), 0, Sentinel)
  }

  /** The search's move scores at least as well as every valid move and
      strictly better than every valid move of a lower code. */
  lemma SearchIsBest(g: Grid, depth: nat, maxDepth: nat)
    requires SearchBoard(g) && depth <= maxDepth
    ensures var r := Search(g, depth, maxDepth);
      forall m :: 0 <= m < 4 && IsValida(g, m) ==> Score(g, depth, maxDepth, m).value <= r.1
    ensures var r := Search(g, depth, maxDepth);
      forall m :: 0 <= m < r.0 && IsValida(g, m) ==> Score(g, depth, maxDepth, m).value < r.1
  {
    assert Search(g, depth, maxDepth) == Pick(Scores(g, depth, maxDepth), 0, Sentinel);
  }

  /** `nextMoveMinimax(g, depth)`: the move of a search from the top. */
  ghost function NextMoveMinimax(g: Grid, depth: nat): (m: int)
    requires SearchBoard(g)
    ensures 0 <= m < 4
  {
    Search(g, depth, depth).0
  }

  /*************************************************************************
   * Properties
   *************************************************************************/

  /** A sub-score of at least -1 stays at least -1 under decay, and above
      -1 once decayed at least once. */
  lemma {:induction false} DecayedAboveMinusOne(sub: real, k: nat)
    requires sub >= -1.0
    ensures Decayed(sub, k) >= -1.0
    ensures k >= 1 ==> Decayed(sub, k) > -1.0
  {
    if k > 0 {
      DecayedAboveMinusOne(sub, k - 1);
    }
  }

  /** Moving keeps a non-negative board's evaluation non-negative. */
  lemma MovedEvaluationNonNeg(g: Grid, m: int)
    requires SearchBoard(g)
    ensures BoardNonNeg(g) ==> Evaluation(Move(g, m)) >= 0.0
  {
    if BoardNonNeg(g) {
      MoveKeepsNonNeg(g, m);
      EvaluationNonNeg(Move(g, m));
    }
  }

  /** On a board without negative tiles the search returns the sentinel
      exactly when no code is valid, and otherwise a valid code. */
  lemma SentinelIffStuck(g: Grid, depth: nat, maxDepth: nat)
    requires SearchBoard(g) && BoardNonNeg(g) && depth <= maxDepth
    ensures Search(g, depth, maxDepth) == Sentinel <==> forall m :: 0 <= m < 4 ==> !IsValida(g, m)
    ensures (exists m :: 0 <= m < 4 && IsValida(g, m)) ==> IsValida(g, Search(g, depth, maxDepth).0)
  {
    var r := Search(g, depth, maxDepth);
    SearchIsBest(g, depth, maxDepth);
    if m :| 0 <= m < 4 && IsValida(g, m) {
      assert Score(g, depth, maxDepth, m).value > -1.0;
    }
  }

  /** At depth 0 every valid move scores 0, so the first valid code wins
      with score 0. */
  lemma DepthZeroFirstValid(g: Grid, maxDepth: nat)
    requires SearchBoard(g)
    requires exists m :: 0 <= m < 4 && IsValida(g, m)
    ensures IsValida(g, Search(g, 0, maxDepth).0)
    ensures Search(g, 0, maxDepth).1 == 0.0
    ensures forall m :: 0 <= m < Search(g, 0, maxDepth).0 ==> !IsValida(g, m)
  {
    SearchIsBest(g, 0, maxDepth);
    var m :| 0 <= m < 4 && IsValida(g, m);
    assert Score(g, 0, maxDepth, m).value == 0.0;
  }

  /** Adding a 2 at a free board cell raises the evaluation by the cell's
      weight on the snake path. */
  lemma AddedEvalOnBoard(g: Grid, l: Location)
    requires SearchBoard(g) && l in FreeLocations(g) && IsValidFor(l, EvalSize)
    ensures AddedEval(g, l) == Evaluation(g) + Weighted(2, SnakeIndex(l))
  {
    AddTakesFreeCell(g, l, 2);
    assert Add(g, l, 2).value == Grid(g.size, g.cells[l := 2]);
    EvaluationOfPlacement(g, l, 2);
  }

  /** Adding at a free key off the board leaves the evaluation unchanged. */
  lemma AddedEvalOffBoard(g: Grid, l: Location)
    requires SearchBoard(g) && l in FreeLocations(g) && !IsValidFor(l, EvalSize)
    ensures AddedEval(g, l) == Evaluation(g)
  {
    AddTakesFreeCell(g, l, 2);
    EvaluationReadsBoardOnly(Add(g, l, 2).value, g);
  }

  /** When every free location is a board cell, the worst insertion is the
      free cell that comes last on the snake path, and it is the only
      minimiser, so the unmodelled iteration order makes no difference. */
  lemma WorstAddIsLastOnPath(g: Grid)
    requires SearchBoard(g) && FreeLocations(g) != {}
    requires forall l :: l in FreeLocations(g) ==> IsValidFor(l, EvalSize)
    ensures forall l :: l in FreeLocations(g) ==> SnakeIndex(l) <= SnakeIndex(WorstAdd(g))
    ensures forall l :: l in FreeLocations(g) && AddedEval(g, l) <= AddedEval(g, WorstAdd(g)) ==> l == WorstAdd(g)
  {
    var w := WorstAdd(g);
    AddedEvalOnBoard(g, w);
    forall l | l in FreeLocations(g)
      ensures SnakeIndex(l) <= SnakeIndex(w)
      ensures AddedEval(g, l) <= AddedEval(g, w) ==> l == w
    {
      AddedEvalOnBoard(g, l);
      if SnakeIndex(l) > SnakeIndex(w) {
        WeightedDecreasing(2, SnakeIndex(w), SnakeIndex(l));
      } else if SnakeIndex(l) < SnakeIndex(w) {
        WeightedDecreasing(2, SnakeIndex(l), SnakeIndex(w));
      } else {
        SnakeIsBijection(SnakeIndex(l), w);
      }
    }
  }

  /** The free-location set also holds any key off the board that maps to
      -1. Such a key never changes the evaluation, so when one exists the
      worst insertion is off the board: the search then puts its 2 there
      and runs the sub-search on an unchanged board. */
  lemma WorstInsertionOffGrid(g: Grid, o: Location)
    requires SearchBoard(g) && o in FreeLocations(g) && !IsValidFor(o, EvalSize)
    ensures !IsValidFor(WorstAdd(g), EvalSize)
    ensures AddedEval(g, WorstAdd(g)) == Evaluation(g)
  {
    var w := WorstAdd(g);
    AddedEvalOffBoard(g, o);
    if IsValidFor(w, EvalSize) {
      AddedEvalOnBoard(g, w);
      assert false;
    }
    AddedEvalOffBoard(g, w);
  }
}

/** The player's move choosers that need no search: the "blind" strategies
    that walk a fixed preference order guided by the `naiveStep` field,
    the random style, and the decoding of the configuration the game hides
    in two off-board keys. The blind strategies are the same line for line
    in giocatoreAutomatico/src/giocatoreAutomatico/player/MyGiocatoreAutomatico.java
    and src/giocatoreAutomatico/MyGiocatoreAutomatico.java. Codes: 0 up,
    1 right, 2 down, 3 left. */
module Strategies {
  import opened Base
  import opened Geometry
  import opened PlayerGrid

  /** What a strategy answers: the code it returns or the exception it
      throws, and the value it leaves in `naiveStep`. */
  datatype Turn = Turn(code: Outcome<int>, step: int)

  /*************************************************************************
   * A reference: the first valid code of a preference list
   *************************************************************************/

  /** The first code of `order` that `isValida` accepts. */
  function FirstValid(g: Grid, order: seq<int>): (r: Option<int>)
    requires Complete(g)
    ensures r.None? <==> forall k :: 0 <= k < |order| ==> !IsValida(g, order[k])
    ensures r.Some? ==> r.value in order && IsValida(g, r.value)
  {
    if order == [] then None
    else if IsValida(g, order[0]) then Some(order[0])
    else FirstValid(g, order[1..])
  }

  /** One step of the search along a preference list. */
  lemma FirstValidCons(g: Grid, a: int, rest: seq<int>)
    requires Complete(g)
    ensures FirstValid(g, [a] + rest) == if IsValida(g, a) then Some(a) else FirstValid(g, rest)
  {
    assert ([a] + rest)[1..] == rest;
  }

  /** The first valid code of three codes, spelled out. */
  lemma FirstValidOfThree(g: Grid, a: int, b: int, c: int)
    requires Complete(g)
    ensures FirstValid(g, [a, b, c])
         == if IsValida(g, a) then Some(a) else if IsValida(g, b) then Some(b)
            else if IsValida(g, c) then Some(c) else None
  {
    FirstValidCons(g, a, [b, c]);
    FirstValidCons(g, b, [c]);
    FirstValidCons(g, c, []);
  }

  /** The first valid code is preceded only by rejected codes. */
  lemma {:induction false} FirstValidIsFirst(g: Grid, order: seq<int>, k: nat)
    requires Complete(g) && k < |order| && FirstValid(g, order).Some?
    requires order[k] == FirstValid(g, order).value
    requires forall i :: 0 <= i < k ==> order[i] != order[k]
    ensures forall i :: 0 <= i < k ==> !IsValida(g, order[i])
  {
    if k > 0 && !IsValida(g, order[0]) {
      DistinctTail(order, k);
      assert FirstValid(g, order) == FirstValid(g, order[1..]);
      FirstValidIsFirst(g, order[1..], k - 1);
      RejectedAfterHead(g, order, k);
    }
  }

  /** Dropping the head keeps a code distinct from those before it. */
  lemma DistinctTail(order: seq<int>, k: nat)
    requires 0 < k < |order|
    requires forall i :: 0 <= i < k ==> order[i] != order[k]
    ensures order[1..][k - 1] == order[k]
    ensures forall i :: 0 <= i < k - 1 ==> order[1..][i] != order[1..][k - 1]
  {
    forall i | 0 <= i < k - 1
      ensures order[1..][i] != order[1..][k - 1]
    {
      assert order[1..][i] == order[i + 1];
    }
  }

  /** A rejected head followed by `k - 1` rejected codes makes `k`
      rejected codes. */
  lemma RejectedAfterHead(g: Grid, order: seq<int>, k: nat)
    requires Complete(g) && 0 < k <= |order| && !IsValida(g, order[0])
    requires forall i :: 0 <= i < k - 1 ==> !IsValida(g, order[1..][i])
    ensures forall i :: 0 <= i < k ==> !IsValida(g, order[i])
  {
    forall i | 0 < i < k
      ensures !IsValida(g, order[i])
    {
      assert order[i] == order[1..][i - 1];
    }
  }

  /*************************************************************************
   * nextMoveBlind
   *************************************************************************/

  /** `nextMoveBlind()` with `naiveStep == step`: each step tries three
      codes in its own order, remembers the step that goes with the code
      it returns, and returns 0 (up) unchecked when none of them is valid;
      a step outside 0..3 throws. */
  function Blind(g: Grid, step: int): (t: Turn)
    requires Complete(g)
    ensures t.code.Ok? <==> 0 <= step <= 3
    ensures t.code.Ok? ==> 0 <= t.code.value < 4 && 0 <= t.step <= 4
    ensures t.code.Ok? && t.code.value != 0 ==> IsValida(g, t.code.value)
    ensures t.code.Thrown? ==> t.code.error == IllegalState && t.step == step
  {
    if step == 0 then
      if IsValida(g, 3) then Turn(Ok(3), 1)
      else if IsValida(g, 1) then Turn(Ok(1), 2)
      else if IsValida(g, 2) then Turn(Ok(2), 3)
      else Turn(Ok(0), 1)
    else if step == 1 then
      if IsValida(g, 2) then Turn(Ok(2), 2)
      else if IsValida(g, 3) then Turn(Ok(3), 1)
      else if IsValida(g, 1) then Turn(Ok(1), 3)
      else Turn(Ok(0), 4)
    else if step == 2 then
      if IsValida(g, 1) then Turn(Ok(1), 3)
      else if IsValida(g, 3) then Turn(Ok(3), 1)
      else if IsValida(g, 2) then Turn(Ok(2), 3)
      else Turn(Ok(0), 1)
    else if step == 3 then
      if IsValida(g, 2) then Turn(Ok(2), 0)
      else if IsValida(g, 3) then Turn(Ok(3), 1)
      else if IsValida(g, 1) then Turn(Ok(1), 3)
      else Turn(Ok(0), 1)
    else Turn(Thrown(IllegalState), step)
  }

  /** The order in which step `step` tries the codes. */
  function BlindOrder(step: int): (order: seq<int>)
    requires 0 <= step <= 3
    ensures |order| == 3 && multiset(order) == multiset{1, 2, 3}
  {
    match step
    case 0 => [3, 1, 2]
    case 1 => [2, 3, 1]
    case 2 => [1, 3, 2]
    case 3 => [2, 3, 1]
  }

  /** The step remembered after step `step` returns code `m`. */
  function BlindNext(step: int, m: int): int
    requires 0 <= step <= 3
  {
    if m == 0 then (if step == 1 then 4 else 1)
    else if m == 3 then 1
    else if m == 1 then (if step == 0 then 2 else 3)
    else if step == 3 then 0
    else if step == 0 then 3
    else (if step == 1 then 2 else 3)
  }

  /** The blind strategy is the first valid code of its step's order,
      with up as the fallback, and the step table above. */
  lemma BlindFollowsTable(g: Grid, step: int)
    requires Complete(g) && 0 <= step <= 3
    ensures Blind(g, step).code
         == Ok(match FirstValid(g, BlindOrder(step)) case Some(m) => m case None => 0)
    ensures Blind(g, step).step == BlindNext(step, Blind(g, step).code.value)
  {
    if step == 0 {
      FirstValidOfThree(g, 3, 1, 2);
    } else if step == 1 {
      FirstValidOfThree(g, 2, 3, 1);
    } else if step == 2 {
      FirstValidOfThree(g, 1, 3, 2);
    } else {
      FirstValidOfThree(g, 2, 3, 1);
    }
  }

  /** Up is returned exactly when none of right, down and left is valid:
      every step tries those three and nothing else. */
  lemma BlindUpIffStuckSideways(g: Grid, step: int)
    requires Complete(g) && 0 <= step <= 3
    ensures Blind(g, step).code == Ok(0) <==> !IsValida(g, 1) && !IsValida(g, 2) && !IsValida(g, 3)
  {
    // each step tries right, down and left, in its own order
    if step == 0 {
    } else if step == 1 {
    } else if step == 2 {
    } else {
    }
  }

  /** Step 1 with right, down and left all invalid leaves the step at 4,
      and the following call then throws `IllegalStateException`. */
  lemma BlindStepFourThrows(g: Grid, h: Grid)
    requires Complete(g) && Complete(h)
    requires !IsValida(g, 1) && !IsValida(g, 2) && !IsValida(g, 3)
    ensures Blind(g, 1) == Turn(Ok(0), 4)
    ensures Blind(h, Blind(g, 1).step) == Turn(Thrown(IllegalState), 4)
  {
  }

  /** Outside that one case the step stays in 0..3, so the strategy keeps
      answering. */
  lemma BlindStepStaysInRange(g: Grid, step: int)
    requires Complete(g) && 0 <= step <= 3
    ensures Blind(g, step).step == 4
        <==> step == 1 && !IsValida(g, 1) && !IsValida(g, 2) && !IsValida(g, 3)
  {
  }

  /*************************************************************************
   * nextMoveBlind2
   *************************************************************************/

  /** Case 1 of `nextMoveBlind2()` (right first). It sets the step to 2
      and, when no code is valid, falls through to the `default` branch
      that throws. */
  function RightFirst(g: Grid): (t: Turn)
    requires Complete(g)
    ensures t.step == 2
  {
    if IsValida(g, 1) then Turn(Ok(1), 2)
    else if IsValida(g, 2) then Turn(Ok(2), 2)
    else if IsValida(g, 3) then Turn(Ok(3), 2)
    else if IsValida(g, 0) then Turn(Ok(0), 2)
    else Turn(Thrown(IllegalState), 2)
  }

  /** `nextMoveBlind2()` with `naiveStep == step`. Case 2 (down first)
      sets the step to 1, keeps it after returning down or right, and puts
      it back to 2 after returning left or up; when no code is valid it
      falls through into case 1. */
  function Blind2(g: Grid, step: int): (t: Turn)
    requires Complete(g)
    ensures t.code.Ok? ==> 0 <= t.code.value < 4 && IsValida(g, t.code.value)
    ensures t.code.Thrown? ==> t.code.error == IllegalState
    ensures step == 1 || step == 2 ==> t.step == 1 || t.step == 2
  {
    if step == 2 then
      if IsValida(g, 2) then Turn(Ok(2), 1)
      else if IsValida(g, 1) then Turn(Ok(1), 1)
      else if IsValida(g, 3) then Turn(Ok(3), 2)
      else if IsValida(g, 0) then Turn(Ok(0), 2)
      else RightFirst(g)
    else if step == 1 then RightFirst(g)
    else Turn(Thrown(IllegalState), step)
  }

  /** The preference order of each step. */
  function Blind2Order(step: int): (order: seq<int>)
    requires step == 1 || step == 2
    ensures multiset(order) == multiset{0, 1, 2, 3}
  {
    if step == 2 then [2, 1, 3, 0] else [1, 2, 3, 0]
  }

  /** The second blind strategy throws exactly when its step is not 1 or
      2 or no code is valid. */
  lemma Blind2ThrowsIffStuck(g: Grid, step: int)
    requires Complete(g)
    ensures Blind2(g, step).code.Thrown?
        <==> !(step == 1 || step == 2) || forall m :: 0 <= m < 4 ==> !IsValida(g, m)
  {
    NoneOfFour(g);
    if step == 1 || step == 2 {
      assert Blind2(g, step).code.Thrown? == RightFirst(g).code.Thrown?;
    }
  }

  /** No code is valid exactly when none of 0, 1, 2 and 3 is; and the
      blind orders' first step finds none exactly then. */
  lemma NoneOfFour(g: Grid)
    requires Complete(g)
    ensures (forall m :: 0 <= m < 4 ==> !IsValida(g, m))
        <==> !IsValida(g, 0) && !IsValida(g, 1) && !IsValida(g, 2) && !IsValida(g, 3)
    ensures RightFirst(g).code.Thrown?
        <==> !IsValida(g, 0) && !IsValida(g, 1) && !IsValida(g, 2) && !IsValida(g, 3)
  {
    if !IsValida(g, 0) && !IsValida(g, 1) && !IsValida(g, 2) && !IsValida(g, 3) {
      forall m | 0 <= m < 4
        ensures !IsValida(g, m)
      {
        assert m == 0 || m == 1 || m == 2 || m == 3;
      }
    }
  }

  /** From step 1 or 2 it returns the first valid code of the step's
      preference order, and throws leaving the step at 2 when there is
      none. */
  lemma Blind2FollowsOrder(g: Grid, step: int)
    requires Complete(g)
    ensures step == 1 || step == 2 ==>
      match FirstValid(g, Blind2Order(step))
      case Some(m) => Blind2(g, step).code == Ok(m)
      case None => Blind2(g, step) == Turn(Thrown(IllegalState), 2)
  {
    if step == 2 {
      FirstValidCons(g, 2, [1, 3, 0]);
      FirstValidOfThree(g, 1, 3, 0);
    } else if step == 1 {
      FirstValidCons(g, 1, [2, 3, 0]);
      FirstValidOfThree(g, 2, 3, 0);
    }
  }

  /** After a down-first try that returned down or right the next try is
      right first; every other answer makes the next try down first. */
  lemma Blind2Alternates(g: Grid, step: int)
    requires Complete(g) && (step == 1 || step == 2) && Blind2(g, step).code.Ok?
    ensures Blind2(g, step).step == 1
        <==> step == 2 && (Blind2(g, step).code.value == 2 || Blind2(g, step).code.value == 1)
  {
  }

  /*************************************************************************
   * The random style
   *************************************************************************/

  /** Style 1: `nextMoveRand()` is drawn until `isValida` accepts it.
      `draws` are the successive values of `rand.nextInt(4)`; `None` means
      the draws ran out before a valid one (the source keeps drawing, for
      ever when no code is valid). */
  function RandomStyle(g: Grid, draws: seq<int>): (r: Option<int>)
    requires Complete(g)
    requires forall k :: 0 <= k < |draws| ==> 0 <= draws[k] < 4
    ensures r.Some? ==> 0 <= r.value < 4 && IsValida(g, r.value)
  {
    FirstValid(g, draws)
  }

  /** With no valid code no sequence of draws ends the loop. */
  lemma RandomStyleStuck(g: Grid, draws: seq<int>)
    requires Complete(g)
    requires forall k :: 0 <= k < |draws| ==> 0 <= draws[k] < 4
    ensures (forall m :: 0 <= m < 4 ==> !IsValida(g, m)) ==> RandomStyle(g, draws) == None
    ensures (exists k :: 0 <= k < |draws| && IsValida(g, draws[k])) ==> RandomStyle(g, draws).Some?
  {
  }

  /*************************************************************************
   * Configuration in off-board keys
   *************************************************************************/

  /** `PLAYING_STYLE_LOCATION` and `DEPTH_LOCATION`. */
  const StyleKey: Location := Location(-1, -1)
  const DepthKey: Location := Location(-1, -2)

  const DefaultStyle: int := 3
  const DefaultDepth: nat := 6

  /** The style: the value under the style key when present, else 3
      (minimax). */
  function Style(g: Grid): (s: int)
    ensures StyleKey in g.cells ==> s == g.cells[StyleKey]
    ensures StyleKey !in g.cells ==> s == DefaultStyle
  {
    if StyleKey in g.cells then g.cells[StyleKey] else DefaultStyle
  }

  /** The search depth: the value under the depth key when present and
      positive, else 6. */
  function SearchDepth(g: Grid): (d: nat)
    ensures d > 0
    ensures DepthKey in g.cells && g.cells[DepthKey] > 0 ==> d == g.cells[DepthKey]
    ensures !(DepthKey in g.cells && g.cells[DepthKey] > 0) ==> d == DefaultDepth
  {
    if DepthKey in g.cells && g.cells[DepthKey] > 0 then g.cells[DepthKey] else DefaultDepth
  }

  /** Both keys lie off every board, so a move never alters the
      configuration. */
  lemma ConfigSurvivesMove(g: Grid, m: int)
    requires Complete(g)
    ensures Style(Move(g, m)) == Style(g)
    ensures SearchDepth(Move(g, m)) == SearchDepth(g)
  {
    assert !IsValidFor(StyleKey, g.size) && !IsValidFor(DepthKey, g.size);
  }
}

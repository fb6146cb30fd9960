/** The line engine of the automatic player (class `Row`): one row or column
    of the grid as a sequence of cell values, `-1` meaning an empty cell.
    The side a move goes to is an int: 0 slides toward index 0 (up or left),
    1 toward the last index (down or right). */
module Rows {
  import opened Base

  /** The value the grids store in an empty cell. */
  const Empty: int := -1

  /*************************************************************************
   * Line vocabulary
   *************************************************************************/

  /** The tiles of a line, in order, without the empty cells. */
  function Tiles(s: seq<int>): (t: seq<int>)
    ensures |t| <= |s|
    ensures forall k :: 0 <= k < |t| ==> t[k] != Empty
  {
    if s == [] then []
    else if s[0] == Empty then Tiles(s[1..])
    else [s[0]] + Tiles(s[1..])
  }

  /** `n` empty cells. */
  function Blanks(n: nat): (b: seq<int>)
    ensures |b| == n
  {
    seq(n, _ => Empty)
  }

  predicate AllEmpty(s: seq<int>) {
    forall i :: 0 <= i < |s| ==> s[i] == Empty
  }

  predicate NoEmpty(s: seq<int>) {
    forall i :: 0 <= i < |s| ==> s[i] != Empty
  }

  /** Sum of the tile values of a sequence of tiles. */
  function Sum(t: seq<int>): int {
    if t == [] then 0 else t[0] + Sum(t[1..])
  }

  /** Some two consecutive tiles (gaps already removed) are equal. */
  predicate HasPair(t: seq<int>) {
    exists k :: 0 <= k < |t| - 1 && t[k] == t[k + 1]
  }

  /*************************************************************************
   * The Row object: its tiles and its `empty` flag
   *************************************************************************/

  datatype Row = Row(tiles: seq<int>, empty: bool)

  /** `new Row()`: no cells, flagged empty. */
  function NewRow(): Row {
    Row([], true)
  }

  /** `Row(ArrayList)`: the flag is set when every cell is `-1`. */
  function FromList(s: seq<int>): (r: Row)
    ensures r.tiles == s
    ensures r.empty <==> forall i :: 0 <= i < |s| ==> s[i] == Empty
  {
    Row(s, AllEmpty(s))
  }

  /** `add(i)`: appends a cell; a non-empty cell clears the flag. */
  function Add(r: Row, v: int): (r': Row)
    ensures r'.tiles == r.tiles + [v]
  {
    Row(r.tiles + [v], r.empty && v == Empty)
  }

  /** The flag says exactly whether every cell is empty. */
  predicate FlagAgrees(r: Row) {
    r.empty == AllEmpty(r.tiles)
  }

  /** `add` keeps the flag truthful. */
  lemma AddKeepsFlag(r: Row, v: int)
    requires FlagAgrees(r)
    ensures FlagAgrees(Add(r, v))
  {
    var s := r.tiles + [v];
    assert forall i :: 0 <= i < |r.tiles| ==> r.tiles[i] == s[i];
    assert s[|r.tiles|] == v;
  }

  /** A line built the way the grids build it: `new Row()` followed by one
      `add` per cell. */
  function Build(s: seq<int>): (r: Row)
    ensures r.tiles == s
  {
    if s == [] then NewRow() else Add(Build(s[..|s| - 1]), s[|s| - 1])
  }

  lemma {:induction false} BuildIsFromList(s: seq<int>)
    ensures Build(s) == FromList(s)
  {
    if s != [] {
      var p := s[..|s| - 1];
      BuildIsFromList(p);
      AddKeepsFlag(Build(p), s[|s| - 1]);
      assert p + [s[|s| - 1]] == s;
    }
  }

  /*************************************************************************
   * Validity: hasFreeSpace, hasSameTile, validRowMove
   *************************************************************************/

  /** The first tile of `t` scanning from its start (the forward scan of
      `hasSameTile`). */
  function FirstTile(t: seq<int>): Option<int> {
    if t == [] then None
    else if t[0] == Empty then FirstTile(t[1..])
    else Some(t[0])
  }

  /** The first tile of `t` scanning from its end (the backward scan). */
  function LastTile(t: seq<int>): Option<int> {
    if t == [] then None
    else if t[|t| - 1] == Empty then LastTile(t[..|t| - 1])
    else Some(t[|t| - 1])
  }

  /** `hasFreeSpace(pos, dir)`: the cell next to `pos` on the target side is
      empty. Note the test is `dir == 1`; every other value looks toward
      index 0. */
  predicate HasFreeSpace(s: seq<int>, pos: int, dir: int)
    requires 0 <= pos < |s|
  {
    if dir == 1 then pos < |s| - 1 && s[pos + 1] == Empty
    else pos > 0 && s[pos - 1] == Empty
  }

  /** `hasSameTile(pos, dir, val)`: the nearest tile past `pos`, skipping
      empty cells, has value `val`. For dir 0 the scan goes toward the end,
      otherwise toward index 0. */
  predicate HasSameTile(s: seq<int>, pos: int, dir: int, val: int)
    requires 0 <= pos < |s|
  {
    if dir == 0 then FirstTile(s[pos + 1..]) == Some(val)
    else LastTile(s[..pos]) == Some(val)
  }

  /** Some tile has an equal tile as its nearest neighbour. */
  predicate SomeSameTile(s: seq<int>, dir: int) {
    exists p :: 0 <= p < |s| && s[p] != Empty && HasSameTile(s, p, dir, s[p])
  }

  /** Some tile has an empty cell right next to it on the target side. */
  predicate SomeFreeSpace(s: seq<int>, dir: int) {
    exists p :: 0 <= p < |s| && s[p] != Empty && HasFreeSpace(s, p, dir)
  }

  /** `validRowMove(dir)`: false on a row flagged empty, otherwise the first
      loop (a mergeable pair) or the second (a free cell). */
  predicate ValidRowMove(r: Row, dir: int) {
    if r.empty then false
    else SomeSameTile(r.tiles, dir) || SomeFreeSpace(r.tiles, dir)
  }

  /*************************************************************************
   * compact
   *************************************************************************/

  /** Index of the first empty cell, or |s|. */
  function FirstEmpty(s: seq<int>, from: nat): (i: nat)
    requires from <= |s|
    ensures from <= i <= |s|
    ensures forall k :: from <= k < i ==> s[k] != Empty
    ensures i < |s| ==> s[i] == Empty
    decreases |s| - from
  {
    if from == |s| then from
    else if s[from] == Empty then from
    else FirstEmpty(s, from + 1)
  }

  /** Index of the first tile at or after `from`, or |s|. */
  function NextTileIndex(s: seq<int>, from: nat): (i: nat)
    requires from <= |s|
    ensures from <= i <= |s|
    ensures forall k :: from <= k < i ==> s[k] == Empty
    ensures i < |s| ==> s[i] != Empty
    decreases |s| - from
  {
    if from == |s| then from
    else if s[from] != Empty then from
    else NextTileIndex(s, from + 1)
  }

  /** `lastFree` for dir 1: the largest index in [1, |s|) holding an empty
      cell (the Java loop stops before index 0), or |s|. */
  function LastFree(s: seq<int>, from: int): (i: nat)
    requires from < |s|
    ensures (1 <= i <= from && s[i] == Empty) || i == |s|
    ensures forall k :: (if i == |s| then 1 else i + 1) <= k <= from ==> s[k] != Empty
    decreases from
  {
    if from < 1 then |s|
    else if s[from] == Empty then from
    else LastFree(s, from - 1)
  }

  /** Index of the first tile at or before `from` scanning down, or -1. */
  function PrevTileIndex(s: seq<int>, from: int): (i: int)
    requires -1 <= from < |s|
    ensures -1 <= i <= from
    ensures forall k :: i < k <= from && 0 <= k ==> s[k] == Empty
    ensures 0 <= i ==> s[i] != Empty
    decreases from + 1
  {
    if from < 0 then -1
    else if s[from] != Empty then from
    else PrevTileIndex(s, from - 1)
  }

  /** `compact(0)`: move the first tile after the first gap into the gap,
      then start over. */
  function CompactStart(s: seq<int>): (r: seq<int>)
    ensures |r| == |s|
    decreases |s| - FirstEmpty(s, 0)
  {
    var free := FirstEmpty(s, 0);
    if free == |s| then s
    else
      var i := NextTileIndex(s, free);
      if i == |s| then s
      else
        var s' := s[free := s[i]][i := Empty];
        assert forall k :: 0 <= k <= free ==> s'[k] != Empty;
        CompactStart(s')
  }

  /** `compact(1)`: the same toward the last index. */
  function CompactEnd(s: seq<int>): (r: seq<int>)
    ensures |r| == |s|
    decreases var f := LastFree(s, |s| - 1); if f == |s| then 0 else f + 1
  {
    var free := LastFree(s, |s| - 1);
    if free == |s| then s
    else
      var i := PrevTileIndex(s, free);
      if i < 0 then s
      else
        var s' := s[free := s[i]][i := Empty];
        assert forall k :: free <= k < |s| ==> s'[k] != Empty;
        CompactEnd(s')
  }

  /** `compact(dir)`: the Java method tests `dir == 0`. */
  function Compact(s: seq<int>, dir: int): (r: seq<int>)
    ensures |r| == |s|
  {
    if dir == 0 then CompactStart(s) else CompactEnd(s)
  }

  /*************************************************************************
   * join
   *************************************************************************/

  /** The dir 0 loop of `join`, from index `i` upward: an equal pair at
      (i, i+1) becomes 2v at i and an empty cell at i+1. */
  function JoinUp(s: seq<int>, i: nat): (r: seq<int>)
    ensures |r| == |s|
    decreases |s| - i
  {
    if i + 1 >= |s| then s
    else if s[i] != Empty && s[i] == s[i + 1] then
      JoinUp(s[i := 2 * s[i]][i + 1 := Empty], i + 1)
    else JoinUp(s, i + 1)
  }

  /** The dir 1 loop, from index `i` downward to 1: an equal pair at
      (i-1, i) becomes an empty cell at i-1 and 2v at i. */
  function JoinDown(s: seq<int>, i: int): (r: seq<int>)
    requires i < |s|
    ensures |r| == |s|
    decreases i
  {
    if i <= 0 then s
    else if s[i] != Empty && s[i] == s[i - 1] then
      JoinDown(s[i := 2 * s[i]][i - 1 := Empty], i - 1)
    else JoinDown(s, i - 1)
  }

  /** `join(dir)`: the Java method tests `dir == 0`. */
  function Join(s: seq<int>, dir: int): (r: seq<int>)
    ensures |r| == |s|
  {
    if dir == 0 then JoinUp(s, 0) else JoinDown(s, |s| - 1)
  }

  /*************************************************************************
   * moveRow
   *************************************************************************/

  /** `moveRow(dir)`: compact, join, compact, only when the move is valid.
      The flag is not recomputed, as in the source. */
  function MoveRow(r: Row, dir: int): (r': Row)
    ensures |r'.tiles| == |r.tiles|
    ensures r'.empty == r.empty
    ensures !ValidRowMove(r, dir) ==> r' == r
  {
    if ValidRowMove(r, dir) then
      Row(Compact(Join(Compact(r.tiles, dir), dir), dir), r.empty)
    else r
  }

  /** What a grid line becomes: the line is loaded into a fresh Row cell by
      cell and moved. */
  function MoveLine(s: seq<int>, dir: int): (r: seq<int>)
    ensures |r| == |s|
  {
    MoveRow(Build(s), dir).tiles
  }

  /*************************************************************************
   * Reference definitions: standard 2048 merging on the tile sequence
   *************************************************************************/

  /** Merging toward index 0: the leading equal pair merges, and the tile it
      produces takes no further part in this pass. */
  function MergeFront(t: seq<int>): (m: seq<int>)
    ensures |m| <= |t|
    ensures NoEmpty(t) ==> NoEmpty(m)
  {
    if |t| < 2 then t
    else if t[0] == t[1] then [2 * t[0]] + MergeFront(t[2..])
    else [t[0]] + MergeFront(t[1..])
  }

  /** Merging toward the last index: the trailing equal pair merges first. */
  function MergeBack(t: seq<int>): (m: seq<int>)
    ensures |m| <= |t|
    ensures NoEmpty(t) ==> NoEmpty(m)
  {
    if |t| < 2 then t
    else if t[|t| - 2] == t[|t| - 1] then MergeBack(t[..|t| - 2]) + [2 * t[|t| - 1]]
    else MergeBack(t[..|t| - 1]) + [t[|t| - 1]]
  }

  /** Number of merges one pass toward index 0 performs. */
  function MergeCount(t: seq<int>): nat
  {
    if |t| < 2 then 0
    else if t[0] == t[1] then 1 + MergeCount(t[2..])
    else MergeCount(t[1..])
  }

  /** Number of merges one pass toward the last index performs. */
  function MergeCountBack(t: seq<int>): nat
  {
    if |t| < 2 then 0
    else if t[|t| - 2] == t[|t| - 1] then 1 + MergeCountBack(t[..|t| - 2])
    else MergeCountBack(t[..|t| - 1])
  }

  /** A line moved by the standard 2048 rule. */
  function ReferenceMove(s: seq<int>, dir: int): (r: seq<int>)
    requires dir == 0 || dir == 1
  {
    var t := Tiles(s);
    if dir == 0 then
      var m := MergeFront(t);
      m + Blanks(|s| - |m|)
    else
      var m := MergeBack(t);
      Blanks(|s| - |m|) + m
  }
}

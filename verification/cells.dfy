/** The tiles of the live game (fx2048/src/game2048/Tile.java): a value and
    the flag that stops a tile from merging twice in one move. The tile's
    own location field always equals the key it is stored under and is not
    modelled separately. */
module Cells {
  import opened Base

  datatype Tile = Tile(value: int, merged: bool)

  /** `newTile(v)`: a fresh, unmerged tile. */
  function NewTile(v: int): (t: Tile)
    ensures t.value == v && !t.merged
  {
    Tile(v, false)
  }

  /** `newRandomTile()`: `draw` is the value of `nextDouble()`; below 0.9
      the tile is a 2, otherwise a 4. */
  function NewRandomTile(draw: real): (t: Tile)
    ensures t.value == 2 || t.value == 4
    ensures !t.merged
    ensures 0.0 <= draw < 0.9 ==> t.value == 2
  {
    NewTile(if draw < 0.9 then 2 else 4)
  }

  /** Both values occur. */
  lemma RandomTileValues()
    ensures NewRandomTile(0.0).value == 2
    ensures NewRandomTile(0.95).value == 4
  {
  }

  /** `t.merge(other)`: `t` absorbs the value of `other` and is flagged. */
  function Merge(t: Tile, other: Tile): (r: Tile)
    ensures r.value == t.value + other.value
    ensures r.merged
  {
    Tile(t.value + other.value, true)
  }

  /** `clearMerge()`: only the flag changes. */
  function ClearMerge(t: Tile): (r: Tile)
    ensures r.value == t.value && !r.merged
  {
    t.(merged := false)
  }

  /** `t.isMergeable(other)`: `other` is present (`Some`) and carries the same
      value; neither merge flag is consulted. */
  function IsMergeable(t: Tile, other: Option<Tile>): (r: bool)
    ensures r <==> other.Some? && other.value.value == t.value
  {
    other != None && t.value == other.value.value
  }

  /** Mergeability is symmetric and blind to the flags; merging two
      mergeable tiles doubles the value, and clearing the flag afterwards
      gives a fresh tile of that value. */
  lemma MergeableMergeDoubles(a: Tile, b: Tile)
    requires IsMergeable(a, Some(b))
    ensures IsMergeable(b, Some(a))
    ensures IsMergeable(ClearMerge(a), Some(ClearMerge(b)))
    ensures Merge(a, b).value == 2 * b.value
    ensures ClearMerge(Merge(a, b)) == NewTile(2 * a.value)
  {
  }

  /** Clearing is idempotent and undoes a merge's flag only. */
  lemma ClearMergeIdempotent(t: Tile)
    ensures ClearMerge(ClearMerge(t)) == ClearMerge(t)
    ensures ClearMerge(NewTile(t.value)) == NewTile(t.value)
  {
  }
}

/** Properties of the line engine: `compact`, `join` and `moveRow` agree with
    the standard 2048 merge, a move changes the line exactly when
    `validRowMove` allows it, and a move preserves the tile sum. */
module RowLemmas {
  import opened Base
  import opened Rows

  /*************************************************************************
   * Tiles and blanks
   *************************************************************************/

  lemma {:induction false} TilesAppend(a: seq<int>, b: seq<int>)
    ensures Tiles(a + b) == Tiles(a) + Tiles(b)
  {
    if a == [] {
      assert a + b == b;
    } else {
      assert (a + b)[0] == a[0];
      assert (a + b)[1..] == a[1..] + b;
      TilesAppend(a[1..], b);
    }
  }

  lemma {:induction false} AllEmptyTiles(s: seq<int>)
    requires AllEmpty(s)
    ensures Tiles(s) == []
  {
    if s != [] {
      AllEmptyTiles(s[1..]);
    }
  }

  lemma {:induction false} NoEmptyTiles(s: seq<int>)
    requires NoEmpty(s)
    ensures Tiles(s) == s
  {
    if s != [] {
      NoEmptyTiles(s[1..]);
      assert s == [s[0]] + s[1..];
    }
  }

  /** The tiles of a line padded with blanks on either side. */
  lemma PaddedTiles(u: seq<int>, k: nat)
    requires NoEmpty(u)
    ensures Tiles(u + Blanks(k)) == u
    ensures Tiles(Blanks(k) + u) == u
  {
    TilesAppend(u, Blanks(k));
    TilesAppend(Blanks(k), u);
    AllEmptyTiles(Blanks(k));
    NoEmptyTiles(u);
  }

  /** The cell next to the padding is the nearest tile. */
  lemma PaddedEnds(u: seq<int>, k: nat)
    ensures u != [] ==> (u + Blanks(k))[0] == u[0]
    ensures u != [] ==> (Blanks(k) + u)[k + |u| - 1] == u[|u| - 1]
  {
  }

  lemma BlanksShorter(m: nat)
    requires m >= 1
    ensures Blanks(m)[..m - 1] == Blanks(m - 1) + []
    ensures Blanks(m)[1..] == [] + Blanks(m - 1)
  {
  }

  /** A line with an empty cell has fewer tiles than cells. */
  lemma {:induction false} EmptyCellLosesTile(s: seq<int>, j: int)
    requires 0 <= j < |s| && s[j] == Empty
    ensures |Tiles(s)| < |s|
  {
    if j > 0 {
      EmptyCellLosesTile(s[1..], j - 1);
    }
  }

  /** A tile doubled is never the empty marker, since -1 is odd. */
  lemma DoubleIsTile(v: int)
    ensures 2 * v != Empty
  {
  }

  /*************************************************************************
   * compact against its reference
   *************************************************************************/

  /** Leading empty cells contribute no tiles. */
  lemma {:induction false} SkipEmpty(s: seq<int>, j: int)
    requires 0 <= j <= |s|
    requires forall k :: 0 <= k < j ==> s[k] == Empty
    ensures Tiles(s) == Tiles(s[j..])
  {
    if j > 0 {
      SkipEmpty(s[1..], j - 1);
      assert s[1..][j - 1..] == s[j..];
    }
  }

  /** Moving the tile at `i` into the gap at `free` keeps the tile order when
      every cell in between is empty. */
  lemma {:induction false} MoveIntoGap(s: seq<int>, free: int, i: int)
    requires 0 <= free < i < |s|
    requires forall k :: free <= k < i ==> s[k] == Empty
    ensures Tiles(s[free := s[i]][i := Empty]) == Tiles(s)
  {
    var s' := s[free := s[i]][i := Empty];
    if free > 0 {
      assert s'[1..] == s[1..][free - 1 := s[i]][i - 1 := Empty];
      MoveIntoGap(s[1..], free - 1, i - 1);
    } else {
      var r := s'[1..];
      assert forall k :: 0 <= k < i ==> r[k] == Empty;
      SkipEmpty(r, i);
      assert r[i..] == s[i + 1..];
      SkipEmpty(s, i);
      assert s[i..][1..] == s[i + 1..];
    }
  }

  /** The tile at `i` moved to a gap at `free` after it, the cells in between
      being empty, keeps the tile order. */
  lemma {:induction false} MoveIntoGapBack(s: seq<int>, i: int, free: int)
    requires 0 <= i < free < |s|
    requires forall k :: i < k <= free ==> s[k] == Empty
    ensures Tiles(s[free := s[i]][i := Empty]) == Tiles(s)
  {
    var s' := s[free := s[i]][i := Empty];
    if i > 0 {
      assert s'[1..] == s[1..][free - 1 := s[i]][i - 1 := Empty];
      MoveIntoGapBack(s[1..], i - 1, free - 1);
    } else {
      var r := s'[1..];
      assert forall k :: 0 <= k < free - 1 ==> r[k] == Empty;
      SkipEmpty(r, free - 1);
      assert r[free - 1..][1..] == s[free + 1..];
      SkipEmpty(s[1..], free);
      assert s[1..][free..] == s[free + 1..];
    }
  }

  /** A line that is tiles up to `j` and blanks from `j` on. */
  lemma TilesThenBlanks(s: seq<int>, j: int)
    requires 0 <= j <= |s|
    requires forall k :: 0 <= k < j ==> s[k] != Empty
    requires forall k :: j <= k < |s| ==> s[k] == Empty
    ensures Tiles(s) == s[..j]
    ensures s == Tiles(s) + Blanks(|s| - |Tiles(s)|)
  {
    var a, b := s[..j], s[j..];
    assert NoEmpty(a);
    assert AllEmpty(b) by {
      forall k | 0 <= k < |b| ensures b[k] == Empty {
        assert b[k] == s[j + k];
      }
    }
    TilesSplit(s, j);
    NoEmptyTiles(a);
    AllEmptyTiles(b);
    assert b == Blanks(|s| - j);
    assert s == a + b;
  }

  /** A line whose first `j` cells are empty is `j` blanks and the rest. */
  lemma PrefixBlanks(s: seq<int>, j: int)
    requires 0 <= j <= |s|
    requires forall k :: 0 <= k < j ==> s[k] == Empty
    ensures s == Blanks(j) + s[j..]
  {
    assert s[..j] == Blanks(j);
    assert s == s[..j] + s[j..];
  }

  /** A line whose cells from `j` on hold tiles has those as its last tiles. */
  lemma SuffixTiles(s: seq<int>, j: int)
    requires 0 <= j <= |s|
    requires forall k :: j <= k < |s| ==> s[k] != Empty
    ensures NoEmpty(s[j..])
  {
    var b := s[j..];
    forall k | 0 <= k < |b| ensures b[k] != Empty {
      assert b[k] == s[j + k];
    }
  }

  /** A line that is blanks up to `j` and tiles from `j` on. */
  lemma BlanksThenTiles(s: seq<int>, j: int)
    requires 0 <= j <= |s|
    requires forall k :: 0 <= k < j ==> s[k] == Empty
    requires forall k :: j <= k < |s| ==> s[k] != Empty
    ensures Tiles(s) == s[j..]
    ensures s == Blanks(|s| - |Tiles(s)|) + Tiles(s)
  {
    SuffixTiles(s, j);
    SkipEmpty(s, j);
    NoEmptyTiles(s[j..]);
    PrefixBlanks(s, j);
  }

  /** `compact(0)` stops once no tile follows the first gap. */
  lemma CompactStartSettled(s: seq<int>)
    requires var f := FirstEmpty(s, 0); f == |s| || NextTileIndex(s, f) == |s|
    ensures CompactStart(s) == s
    ensures s == Tiles(s) + Blanks(|s| - |Tiles(s)|)
  {
    var free := FirstEmpty(s, 0);
    if free == |s| {
      TilesThenBlanks(s, |s|);
    } else {
      TilesThenBlanks(s, free);
    }
  }

  /** `compact(0)` gathers the tiles at the start, in order. */
  lemma {:induction false} CompactStartSpec(s: seq<int>)
    ensures CompactStart(s) == Tiles(s) + Blanks(|s| - |Tiles(s)|)
    decreases |s| - FirstEmpty(s, 0)
  {
    var free := FirstEmpty(s, 0);
    if free == |s| || NextTileIndex(s, free) == |s| {
      CompactStartSettled(s);
    } else {
      var i := NextTileIndex(s, free);
      var s' := s[free := s[i]][i := Empty];
      assert forall k :: 0 <= k <= free ==> s'[k] != Empty;
      MoveIntoGap(s, free, i);
      CompactStartSpec(s');
      assert |s'| == |s| && Tiles(s') == Tiles(s);
      assert CompactStart(s) == CompactStart(s');
    }
  }

  /** `compact(1)` stops once no tile precedes the last gap. */
  lemma CompactEndSettled(s: seq<int>)
    requires var f := LastFree(s, |s| - 1); f == |s| || PrevTileIndex(s, f) < 0
    ensures CompactEnd(s) == s
    ensures s == Blanks(|s| - |Tiles(s)|) + Tiles(s)
  {
    var free := LastFree(s, |s| - 1);
    if free < |s| {
      BlanksThenTiles(s, free + 1);
    } else if s != [] && s[0] == Empty {
      BlanksThenTiles(s, 1);
    } else {
      BlanksThenTiles(s, 0);
    }
  }

  /** `compact(1)` gathers the tiles at the end, in order. */
  lemma {:induction false} CompactEndSpec(s: seq<int>)
    ensures CompactEnd(s) == Blanks(|s| - |Tiles(s)|) + Tiles(s)
    decreases EndMeasure(s), 1
  {
    var free := LastFree(s, |s| - 1);
    if free == |s| || PrevTileIndex(s, free) < 0 {
      CompactEndSettled(s);
    } else {
      CompactEndMoves(s);
    }
  }

  /** How far `compact(1)` may still go: one past its last gap. */
  function EndMeasure(s: seq<int>): nat
  {
    var f := LastFree(s, |s| - 1);
    if f == |s| then 0 else f + 1
  }

  /** One move of `compact(1)` keeps the tiles, and the rest of the
      compaction finishes the job. */
  lemma {:induction false} CompactEndMoves(s: seq<int>)
    requires var f := LastFree(s, |s| - 1); f < |s| && PrevTileIndex(s, f) >= 0
    ensures CompactEnd(s) == Blanks(|s| - |Tiles(s)|) + Tiles(s)
    decreases EndMeasure(s), 0
  {
    var s' := CompactEndStep(s);
    CompactEndSpec(s');
  }

  /** The line after one move of `compact(1)`: same length, same tiles,
      closer to done, and with the same final result. */
  lemma CompactEndStep(s: seq<int>) returns (s': seq<int>)
    requires var f := LastFree(s, |s| - 1); f < |s| && PrevTileIndex(s, f) >= 0
    ensures |s'| == |s| && Tiles(s') == Tiles(s)
    ensures EndMeasure(s') < EndMeasure(s)
    ensures CompactEnd(s) == CompactEnd(s')
  {
    var free := LastFree(s, |s| - 1);
    var i := PrevTileIndex(s, free);
    s' := s[free := s[i]][i := Empty];
    assert forall k :: free <= k < |s| ==> s'[k] != Empty;
    MoveIntoGapBack(s, i, free);
  }

  /*************************************************************************
   * Free space: when compacting changes nothing
   *************************************************************************/

  /** A line of tiles followed by blanks offers no free space toward 0. */
  lemma PaddedEndNoFree(u: seq<int>, k: nat)
    requires NoEmpty(u)
    ensures !SomeFreeSpace(u + Blanks(k), 0)
  {
    var s := u + Blanks(k);
    forall p | 0 <= p < |s| && s[p] != Empty
      ensures !HasFreeSpace(s, p, 0)
    {
      assert p < |u|;
      if p > 0 {
        assert s[p - 1] == u[p - 1];
      }
    }
  }

  /** A line of blanks followed by tiles offers no free space toward the end. */
  lemma PaddedStartNoFree(u: seq<int>, k: nat)
    requires NoEmpty(u)
    ensures !SomeFreeSpace(Blanks(k) + u, 1)
  {
    var s := Blanks(k) + u;
    forall p | 0 <= p < |s| && s[p] != Empty
      ensures !HasFreeSpace(s, p, 1)
    {
      assert p >= k;
      if p < |s| - 1 {
        assert s[p + 1] == u[p + 1 - k];
      }
    }
  }

  /** Free space toward 0 in a line, read from its first cell. */
  lemma FreeSpaceCons(s: seq<int>)
    requires s != []
    ensures SomeFreeSpace(s, 0) <==>
      (|s| > 1 && s[0] == Empty && s[1] != Empty) || SomeFreeSpace(s[1..], 0)
  {
    var r := s[1..];
    if SomeFreeSpace(s, 0) {
      var p :| 0 <= p < |s| && s[p] != Empty && HasFreeSpace(s, p, 0);
      if p >= 2 {
        assert r[p - 1] == s[p] && r[p - 2] == s[p - 1];
        assert HasFreeSpace(r, p - 1, 0);
      }
    }
    if SomeFreeSpace(r, 0) {
      var p :| 0 <= p < |r| && r[p] != Empty && HasFreeSpace(r, p, 0);
      assert s[p + 1] == r[p] && s[p] == r[p - 1];
      assert HasFreeSpace(s, p + 1, 0);
    }
    if |s| > 1 && s[0] == Empty && s[1] != Empty {
      assert HasFreeSpace(s, 1, 0);
    }
  }

  /** Free space toward the end in a line, read from its last cell. */
  lemma FreeSpaceSnoc(s: seq<int>)
    requires s != []
    ensures var n := |s| - 1;
      SomeFreeSpace(s, 1) <==>
        (n > 0 && s[n] == Empty && s[n - 1] != Empty) || SomeFreeSpace(s[..n], 1)
  {
    var n := |s| - 1;
    var r := s[..n];
    if SomeFreeSpace(s, 1) {
      var p :| 0 <= p < |s| && s[p] != Empty && HasFreeSpace(s, p, 1);
      if p + 1 < n {
        assert r[p] == s[p] && r[p + 1] == s[p + 1];
        assert HasFreeSpace(r, p, 1);
      }
    }
    if SomeFreeSpace(r, 1) {
      var p :| 0 <= p < |r| && r[p] != Empty && HasFreeSpace(r, p, 1);
      assert s[p] == r[p] && s[p + 1] == r[p + 1];
      assert HasFreeSpace(s, p, 1);
    }
    if n > 0 && s[n] == Empty && s[n - 1] != Empty {
      assert HasFreeSpace(s, n - 1, 1);
    }
  }

  /** With no free space toward 0 the line is its tiles followed by blanks. */
  lemma {:induction false} NoFreeStart(s: seq<int>)
    requires !SomeFreeSpace(s, 0)
    ensures s == Tiles(s) + Blanks(|s| - |Tiles(s)|)
  {
    if s != [] {
      var r := s[1..];
      FreeSpaceCons(s);
      NoFreeStart(r);
      if s[0] == Empty {
        PaddedEnds(Tiles(r), |r| - |Tiles(r)|);
        assert s == [Empty] + Blanks(|r|);
      } else {
        assert s == [s[0]] + r;
      }
    }
  }

  /** With no free space toward the end the line is blanks followed by its
      tiles. */
  lemma {:induction false} NoFreeEnd(s: seq<int>)
    requires !SomeFreeSpace(s, 1)
    ensures s == Blanks(|s| - |Tiles(s)|) + Tiles(s)
  {
    if s != [] {
      var n := |s| - 1;
      var r := s[..n];
      FreeSpaceSnoc(s);
      NoFreeEnd(r);
      assert s == r + [s[n]];
      TilesAppend(r, [s[n]]);
      var tr := Tiles(r);
      if s[n] == Empty {
        PaddedEnds(tr, |r| - |tr|);
        assert s == Blanks(|r|) + [Empty];
      } else {
        assert Tiles([s[n]]) == [s[n]];
        assert Blanks(|s| - |Tiles(s)|) == Blanks(|r| - |tr|);
      }
    }
  }

  /** `compact(dir)` leaves a line unchanged exactly when no tile has a free
      cell next to it on the target side. */
  lemma CompactFixedIff(s: seq<int>, dir: int)
    requires dir == 0 || dir == 1
    ensures Compact(s, dir) == s <==> !SomeFreeSpace(s, dir)
  {
    var t := Tiles(s);
    if dir == 0 {
      CompactStartSpec(s);
      PaddedEndNoFree(t, |s| - |t|);
      if !SomeFreeSpace(s, 0) {
        NoFreeStart(s);
      }
    } else {
      CompactEndSpec(s);
      PaddedStartNoFree(t, |s| - |t|);
      if !SomeFreeSpace(s, 1) {
        NoFreeEnd(s);
      }
    }
  }

  /** Compacting twice is compacting once. */
  lemma CompactIdempotent(s: seq<int>, dir: int)
    requires dir == 0 || dir == 1
    ensures Compact(Compact(s, dir), dir) == Compact(s, dir)
  {
    var t := Tiles(s);
    var c := Compact(s, dir);
    if dir == 0 {
      CompactStartSpec(s);
      PaddedEndNoFree(t, |s| - |t|);
    } else {
      CompactEndSpec(s);
      PaddedStartNoFree(t, |s| - |t|);
    }
    CompactFixedIff(c, dir);
  }

  /*************************************************************************
   * join against its reference
   *************************************************************************/

  /** Dropping the last cell of blanks followed by tiles. */
  lemma PaddedDropLast(p: seq<int>, m: nat, t: seq<int>)
    requires p == Blanks(m) + t && t != []
    ensures p[|p| - 1] == t[|t| - 1]
    ensures p[..|p| - 1] == Blanks(m) + t[..|t| - 1]
    ensures |t| >= 2 ==> p[|p| - 2] == t[|t| - 2]
  {
  }

  /** Dropping the first cell of tiles followed by blanks. */
  lemma PaddedDropFirst(q: seq<int>, t: seq<int>, m: nat)
    requires q == t + Blanks(m) && t != []
    ensures q[0] == t[0]
    ensures q[1..] == t[1..] + Blanks(m)
    ensures |t| >= 2 ==> q[1] == t[1]
  {
  }

  lemma ConcatAssoc(a: seq<int>, b: seq<int>, c: seq<int>)
    ensures (a + b) + c == a + (b + c)
  {
  }

  /** The tiles of a line split at `i`. */
  lemma TilesSplit(s: seq<int>, i: int)
    requires 0 <= i <= |s|
    ensures Tiles(s) == Tiles(s[..i]) + Tiles(s[i..])
  {
    assert s == s[..i] + s[i..];
    TilesAppend(s[..i], s[i..]);
  }

  /** The first cell after the tiles, or the last before them, is the
      nearest tile, or a blank when there are no tiles. */
  lemma PaddedHead(u: seq<int>, k: nat)
    requires |u| + k > 0
    ensures (u + Blanks(k))[0] == if u == [] then Empty else u[0]
  {
  }

  lemma PaddedLast(k: nat, u: seq<int>)
    requires |u| + k > 0
    ensures (Blanks(k) + u)[k + |u| - 1] == if u == [] then Empty else u[|u| - 1]
  {
  }

  /** One cell appended to, or put in front of, a line. */
  lemma TilesSnoc(p: seq<int>, x: int)
    ensures Tiles(p + [x]) == Tiles(p) + (if x == Empty then [] else [x])
  {
    TilesAppend(p, [x]);
    assert [x][1..] == [];
  }

  lemma TilesCons(x: int, q: seq<int>)
    ensures Tiles([x] + q) == (if x == Empty then [] else [x]) + Tiles(q)
  {
    assert ([x] + q)[1..] == q;
  }

  /** One step of each merge. */
  lemma MergeFrontPair(t: seq<int>)
    requires |t| >= 2 && t[0] == t[1]
    ensures MergeFront(t) == [2 * t[0]] + MergeFront(t[2..])
  {
  }

  lemma MergeFrontKeep(t: seq<int>)
    requires t != [] && (|t| >= 2 ==> t[0] != t[1])
    ensures MergeFront(t) == [t[0]] + MergeFront(t[1..])
  {
    if |t| < 2 {
      assert t[1..] == [];
    }
  }

  lemma MergeBackPair(t: seq<int>)
    requires |t| >= 2 && t[|t| - 2] == t[|t| - 1]
    ensures MergeBack(t) == MergeBack(t[..|t| - 2]) + [2 * t[|t| - 1]]
  {
  }

  lemma MergeBackKeep(t: seq<int>)
    requires t != [] && (|t| >= 2 ==> t[|t| - 2] != t[|t| - 1])
    ensures MergeBack(t) == MergeBack(t[..|t| - 1]) + [t[|t| - 1]]
  {
    if |t| < 2 {
      assert t[..|t| - 1] == [];
    }
  }

  /** Writing two neighbouring cells leaves the rest of the line. */
  lemma UpdatePairAfter(s: seq<int>, i: nat, a: int, b: int)
    requires i + 1 < |s|
    ensures s[i := a][i + 1 := b][i + 2..] == s[i + 2..]
    ensures s[i := a][i + 1 := b][..i + 2] == (s[..i] + [a]) + [b]
  {
  }

  lemma UpdatePairBefore(s: seq<int>, i: int, a: int, b: int)
    requires 0 < i < |s|
    ensures s[i := a][i - 1 := b][..i - 1] == s[..i - 1]
    ensures s[i := a][i - 1 := b][i - 1..] == [b] + ([a] + s[i + 1..])
  {
  }

  /** The shape of the line at an equal pair, dir 0. */
  lemma UpMergeShape(s: seq<int>, i: nat, t: seq<int>, m: nat)
    requires i + 1 < |s|
    requires s[i..] == t + Blanks(m)
    requires NoEmpty(t)
    requires s[i] != Empty && s[i] == s[i + 1]
    ensures |t| >= 2 && t[0] == s[i] && t[1] == s[i]
    ensures s[i + 2..] == t[2..] + Blanks(m)
  {
    PaddedHead(t, m);
    PaddedDropFirst(s[i..], t, m);
    assert s[i + 1..] == s[i..][1..];
    PaddedHead(t[1..], m);
    PaddedDropFirst(s[i + 1..], t[1..], m);
    assert s[i + 2..] == s[i + 1..][1..];
    assert t[1..][1..] == t[2..];
  }

  /** The shape of the line at a tile without an equal successor, dir 0. */
  lemma UpKeepShape(s: seq<int>, i: nat, t: seq<int>, m: nat)
    requires i + 1 < |s|
    requires s[i..] == t + Blanks(m)
    requires NoEmpty(t)
    requires s[i] != Empty && s[i] != s[i + 1]
    ensures t != [] && t[0] == s[i] && (|t| >= 2 ==> t[0] != t[1])
    ensures s[i + 1..] == t[1..] + Blanks(m)
  {
    var q := s[i..];
    PaddedHead(t, m);
    assert q[0] == s[i] && q[1] == s[i + 1];
    PaddedDropFirst(q, t, m);
    assert s[i + 1..] == q[1..];
  }

  lemma PrefixSnoc(s: seq<int>, i: nat)
    requires i < |s|
    ensures s[..i + 1] == s[..i] + [s[i]]
  {
  }

  /** The shape of the line at an equal pair, dir 1. */
  lemma DownMergeShape(s: seq<int>, i: int, t: seq<int>, m: nat)
    requires 0 < i < |s|
    requires s[..i + 1] == Blanks(m) + t
    requires NoEmpty(t)
    requires s[i] != Empty && s[i] == s[i - 1]
    ensures |t| >= 2 && t[|t| - 2] == s[i] && t[|t| - 1] == s[i]
    ensures s[..i - 1] == Blanks(m) + t[..|t| - 2]
  {
    PaddedLast(m, t);
    var u := t[..|t| - 1];
    PaddedDropLast(s[..i + 1], m, t);
    assert s[..i] == s[..i + 1][..i];
    PaddedLast(m, u);
    PaddedDropLast(s[..i], m, u);
    assert s[..i - 1] == s[..i][..i - 1];
    assert u[..|u| - 1] == t[..|t| - 2];
  }

  /** The shape of the line at a tile without an equal predecessor, dir 1. */
  lemma DownKeepShape(s: seq<int>, i: int, t: seq<int>, m: nat)
    requires 0 < i < |s|
    requires s[..i + 1] == Blanks(m) + t
    requires NoEmpty(t)
    requires s[i] != Empty && s[i] != s[i - 1]
    ensures t != [] && t[|t| - 1] == s[i] && (|t| >= 2 ==> t[|t| - 2] != t[|t| - 1])
    ensures s[..i] == Blanks(m) + t[..|t| - 1]
    ensures s[i..] == [s[i]] + s[i + 1..]
  {
    PaddedLast(m, t);
    PaddedDropLast(s[..i + 1], m, t);
    assert s[..i] == s[..i + 1][..i];
  }

  /** The dir 0 loop at an equal pair: the pair merges and the loop resumes
      two cells on, past the cell the merge emptied. */
  lemma JoinUpMergeStep(s: seq<int>, i: nat, t: seq<int>, m: nat)
    requires i + 1 < |s|
    requires s[i..] == t + Blanks(m)
    requires NoEmpty(t)
    requires s[i] != Empty && s[i] == s[i + 1]
    ensures |t| >= 2 && t[0] == t[1]
    ensures var s1 := s[i := 2 * s[i]][i + 1 := Empty];
      && JoinUp(s, i) == JoinUp(s1, i + 2)
      && s1[i + 2..] == t[2..] + Blanks(m)
      && Tiles(s1[..i + 2]) + MergeFront(t[2..]) == Tiles(s[..i]) + MergeFront(t)
  {
    UpMergeShape(s, i, t, m);
    var v := 2 * s[i];
    var s1 := s[i := v][i + 1 := Empty];
    UpdatePairAfter(s, i, v, Empty);
    assert JoinUp(s1, i + 1) == JoinUp(s1, i + 2);
    TilesSnoc(s[..i] + [v], Empty);
    TilesSnoc(s[..i], v);
    MergeFrontPair(t);
    ConcatAssoc(Tiles(s[..i]), [v], MergeFront(t[2..]));
  }

  /** The dir 0 loop at an empty cell: nothing but blanks remain. */
  lemma JoinUpGapStep(s: seq<int>, i: nat, t: seq<int>, m: nat)
    requires i + 1 < |s|
    requires s[i..] == t + Blanks(m)
    requires NoEmpty(t)
    requires s[i] == Empty
    ensures t == [] && m >= 1
    ensures JoinUp(s, i) == JoinUp(s, i + 1)
    ensures s[i + 1..] == [] + Blanks(m - 1)
    ensures Tiles(s[..i + 1]) == Tiles(s[..i])
  {
    PaddedHead(t, m);
    assert s[..i + 1] == s[..i] + [Empty];
    TilesSnoc(s[..i], Empty);
  }

  /** The dir 0 loop at a tile without an equal successor. */
  lemma JoinUpKeepStep(s: seq<int>, i: nat, t: seq<int>, m: nat)
    requires i + 1 < |s|
    requires s[i..] == t + Blanks(m)
    requires NoEmpty(t)
    requires s[i] != Empty && s[i] != s[i + 1]
    ensures t != [] && JoinUp(s, i) == JoinUp(s, i + 1)
    ensures s[i + 1..] == t[1..] + Blanks(m)
    ensures Tiles(s[..i + 1]) + MergeFront(t[1..]) == Tiles(s[..i]) + MergeFront(t)
  {
    UpKeepShape(s, i, t, m);
    PrefixSnoc(s, i);
    TilesSnoc(s[..i], s[i]);
    MergeFrontKeep(t);
    ConcatAssoc(Tiles(s[..i]), [s[i]], MergeFront(t[1..]));
  }

  /** From index `i` on, a compacted suffix `t` followed by blanks is merged
      by the dir 0 loop exactly as `MergeFront` merges `t`. */
  lemma {:induction false} JoinUpSpec(s: seq<int>, i: nat, t: seq<int>, m: nat)
    requires i <= |s|
    requires s[i..] == t + Blanks(m)
    requires NoEmpty(t)
    ensures Tiles(JoinUp(s, i)) == Tiles(s[..i]) + MergeFront(t)
    decreases |s| - i
  {
    if i + 1 >= |s| {
      TilesSplit(s, i);
      PaddedTiles(t, m);
    } else if s[i] != Empty && s[i] == s[i + 1] {
      JoinUpMergeStep(s, i, t, m);
      JoinUpSpec(s[i := 2 * s[i]][i + 1 := Empty], i + 2, t[2..], m);
    } else if s[i] == Empty {
      JoinUpGapStep(s, i, t, m);
      JoinUpSpec(s, i + 1, [], m - 1);
    } else {
      JoinUpKeepStep(s, i, t, m);
      JoinUpSpec(s, i + 1, t[1..], m);
    }
  }

  /** The dir 1 loop at an equal pair: the pair merges and the loop resumes
      two cells down. */
  lemma JoinDownMergeStep(s: seq<int>, i: int, t: seq<int>, m: nat)
    requires 0 < i < |s|
    requires s[..i + 1] == Blanks(m) + t
    requires NoEmpty(t)
    requires s[i] != Empty && s[i] == s[i - 1]
    ensures |t| >= 2 && t[|t| - 2] == t[|t| - 1]
    ensures var s1 := s[i := 2 * s[i]][i - 1 := Empty];
      && JoinDown(s, i) == JoinDown(s1, i - 2)
      && s1[..i - 1] == Blanks(m) + t[..|t| - 2]
      && MergeBack(t[..|t| - 2]) + Tiles(s1[i - 1..]) == MergeBack(t) + Tiles(s[i + 1..])
  {
    DownMergeShape(s, i, t, m);
    var v := 2 * s[i];
    var s1 := s[i := v][i - 1 := Empty];
    UpdatePairBefore(s, i, v, Empty);
    assert JoinDown(s1, i - 1) == JoinDown(s1, i - 2);
    TilesCons(Empty, [v] + s[i + 1..]);
    TilesCons(v, s[i + 1..]);
    MergeBackPair(t);
    ConcatAssoc(MergeBack(t[..|t| - 2]), [v], Tiles(s[i + 1..]));
  }

  /** The dir 1 loop at an empty cell: nothing but blanks remain below. */
  lemma JoinDownGapStep(s: seq<int>, i: int, t: seq<int>, m: nat)
    requires 0 < i < |s|
    requires s[..i + 1] == Blanks(m) + t
    requires NoEmpty(t)
    requires s[i] == Empty
    ensures t == [] && m >= 1
    ensures JoinDown(s, i) == JoinDown(s, i - 1)
    ensures s[..i] == Blanks(m - 1) + []
    ensures Tiles(s[i..]) == Tiles(s[i + 1..])
  {
    PaddedLast(m, t);
    assert s[..i] == s[..i + 1][..i];
    BlanksShorter(m);
    assert s[i..] == [Empty] + s[i + 1..];
    TilesCons(Empty, s[i + 1..]);
  }

  /** The dir 1 loop at a tile without an equal predecessor. */
  lemma JoinDownKeepStep(s: seq<int>, i: int, t: seq<int>, m: nat)
    requires 0 < i < |s|
    requires s[..i + 1] == Blanks(m) + t
    requires NoEmpty(t)
    requires s[i] != Empty && s[i] != s[i - 1]
    ensures t != [] && JoinDown(s, i) == JoinDown(s, i - 1)
    ensures s[..i] == Blanks(m) + t[..|t| - 1]
    ensures MergeBack(t[..|t| - 1]) + Tiles(s[i..]) == MergeBack(t) + Tiles(s[i + 1..])
  {
    DownKeepShape(s, i, t, m);
    TilesCons(s[i], s[i + 1..]);
    MergeBackKeep(t);
    ConcatAssoc(MergeBack(t[..|t| - 1]), [s[i]], Tiles(s[i + 1..]));
  }

  /** The dir 1 loop once it reaches the first cell. */
  lemma JoinDownDone(s: seq<int>, i: int, t: seq<int>, m: nat)
    requires -1 <= i <= 0 && i < |s|
    requires s[..i + 1] == Blanks(m) + t
    requires NoEmpty(t)
    ensures Tiles(JoinDown(s, i)) == MergeBack(t) + Tiles(s[i + 1..])
  {
    TilesSplit(s, i + 1);
    PaddedTiles(t, m);
    assert |t| < 2;
  }

  /** Up to index `i`, blanks followed by a compacted prefix `t` are merged
      by the dir 1 loop exactly as `MergeBack` merges `t`. */
  lemma {:induction false} JoinDownSpec(s: seq<int>, i: int, t: seq<int>, m: nat)
    requires -1 <= i < |s|
    requires s[..i + 1] == Blanks(m) + t
    requires NoEmpty(t)
    ensures Tiles(JoinDown(s, i)) == MergeBack(t) + Tiles(s[i + 1..])
    decreases i + 1, 1
  {
    if i <= 0 {
      JoinDownDone(s, i, t, m);
    } else if s[i] != Empty && s[i] == s[i - 1] {
      JoinDownMerges(s, i, t, m);
    } else if s[i] == Empty {
      JoinDownGaps(s, i, t, m);
    } else {
      JoinDownKeeps(s, i, t, m);
    }
  }

  /** `JoinDownSpec` at an empty cell: only blanks remain below. */
  lemma {:induction false} JoinDownGaps(s: seq<int>, i: int, t: seq<int>, m: nat)
    requires 0 < i < |s|
    requires s[..i + 1] == Blanks(m) + t
    requires NoEmpty(t)
    requires s[i] == Empty
    ensures Tiles(JoinDown(s, i)) == MergeBack(t) + Tiles(s[i + 1..])
    decreases i + 1, 0
  {
    JoinDownGapStep(s, i, t, m);
    JoinDownSpec(s, i - 1, [], m - 1);
    assert Tiles(JoinDown(s, i)) == MergeBack([]) + Tiles(s[i..]);
  }

  /** `JoinDownSpec` at an equal pair. */
  lemma {:induction false} JoinDownMerges(s: seq<int>, i: int, t: seq<int>, m: nat)
    requires 0 < i < |s|
    requires s[..i + 1] == Blanks(m) + t
    requires NoEmpty(t)
    requires s[i] != Empty && s[i] == s[i - 1]
    ensures Tiles(JoinDown(s, i)) == MergeBack(t) + Tiles(s[i + 1..])
    decreases i + 1, 0
  {
    JoinDownMergeStep(s, i, t, m);
    var s1, u := s[i := 2 * s[i]][i - 1 := Empty], t[..|t| - 2];
    JoinDownSpec(s1, i - 2, u, m);
    assert Tiles(JoinDown(s, i)) == MergeBack(u) + Tiles(s1[i - 1..]);
  }

  /** `JoinDownSpec` at a tile without an equal predecessor. */
  lemma {:induction false} JoinDownKeeps(s: seq<int>, i: int, t: seq<int>, m: nat)
    requires 0 < i < |s|
    requires s[..i + 1] == Blanks(m) + t
    requires NoEmpty(t)
    requires s[i] != Empty && s[i] != s[i - 1]
    ensures Tiles(JoinDown(s, i)) == MergeBack(t) + Tiles(s[i + 1..])
    decreases i + 1, 0
  {
    var u := t[..|t| - 1];
    JoinDownKeepStep(s, i, t, m);
    JoinDownSpec(s, i - 1, u, m);
    assert Tiles(JoinDown(s, i)) == MergeBack(u) + Tiles(s[i..]);
  }

  /*************************************************************************
   * moveRow against the reference move
   *************************************************************************/

  /** Compact, join, compact toward index 0 performs the standard move. */
  lemma ThreePassesStart(s: seq<int>)
    ensures CompactStart(JoinUp(CompactStart(s), 0)) == ReferenceMove(s, 0)
  {
    var m := JoinUpCompacted(s);
    CompactStartSpec(JoinUp(CompactStart(s), 0));
  }

  /** The join pass over a line compacted toward index 0 merges its tiles
      as `MergeFront` does. */
  lemma JoinUpCompacted(s: seq<int>) returns (m: seq<int>)
    ensures m == MergeFront(Tiles(s)) && Tiles(JoinUp(CompactStart(s), 0)) == m
  {
    var t := Tiles(s);
    var k := |s| - |t|;
    CompactStartSpec(s);
    var c := CompactStart(s);
    assert c[0..] == t + Blanks(k);
    JoinUpSpec(c, 0, t, k);
    assert c[..0] == [];
    m := MergeFront(t);
  }

  /** Compact, join, compact toward the last index performs the standard
      move. */
  lemma ThreePassesEnd(s: seq<int>)
    ensures CompactEnd(JoinDown(CompactEnd(s), |s| - 1)) == ReferenceMove(s, 1)
  {
    var m := JoinDownCompacted(s);
    CompactEndSpec(JoinDown(CompactEnd(s), |s| - 1));
  }

  /** The join pass over a line compacted toward the last index merges its
      tiles as `MergeBack` does. */
  lemma JoinDownCompacted(s: seq<int>) returns (m: seq<int>)
    ensures m == MergeBack(Tiles(s)) && Tiles(JoinDown(CompactEnd(s), |s| - 1)) == m
  {
    var t := Tiles(s);
    var k := |s| - |t|;
    CompactEndSpec(s);
    var c := CompactEnd(s);
    assert c[..|c|] == Blanks(k) + t;
    JoinDownSpec(c, |c| - 1, t, k);
    assert c[|c|..] == [];
    m := MergeBack(t);
  }

  /** Without an equal adjacent pair the merge changes nothing. */
  lemma {:induction false} NoPairMergeFront(t: seq<int>)
    requires !HasPair(t)
    ensures MergeFront(t) == t
  {
    if |t| >= 2 {
      assert t == [t[0]] + t[1..];
      HasPairCons(t[0], t[1..]);
      NoPairMergeFront(t[1..]);
    }
  }

  lemma {:induction false} NoPairMergeBack(t: seq<int>)
    requires !HasPair(t)
    ensures MergeBack(t) == t
  {
    var n := |t|;
    if n >= 2 {
      assert t == t[..n - 1] + [t[n - 1]];
      HasPairSnoc(t[..n - 1], t[n - 1]);
      NoPairMergeBack(t[..n - 1]);
    }
  }

  /** An equal adjacent pair makes the merge shorter. */
  lemma {:induction false} PairShrinksFront(t: seq<int>)
    requires HasPair(t)
    ensures |MergeFront(t)| < |t|
  {
    if t[0] != t[1] {
      var k :| 0 <= k < |t| - 1 && t[k] == t[k + 1];
      assert t[1..][k - 1] == t[1..][k];
      PairShrinksFront(t[1..]);
    }
  }

  lemma {:induction false} PairShrinksBack(t: seq<int>)
    requires HasPair(t)
    ensures |MergeBack(t)| < |t|
  {
    var n := |t|;
    if t[n - 2] != t[n - 1] {
      var k :| 0 <= k < n - 1 && t[k] == t[k + 1];
      assert t[..n - 1][k] == t[..n - 1][k + 1];
      PairShrinksBack(t[..n - 1]);
    }
  }

  /*************************************************************************
   * hasSameTile against adjacent pairs of tiles
   *************************************************************************/

  lemma {:induction false} FirstTileIsHead(s: seq<int>)
    ensures FirstTile(s) == (if Tiles(s) == [] then None else Some(Tiles(s)[0]))
  {
    if s != [] {
      FirstTileIsHead(s[1..]);
    }
  }

  lemma {:induction false} LastTileIsLast(s: seq<int>)
    ensures LastTile(s) == (var t := Tiles(s); if t == [] then None else Some(t[|t| - 1]))
  {
    if s != [] {
      var n := |s| - 1;
      assert s == s[..n] + [s[n]];
      TilesAppend(s[..n], [s[n]]);
      LastTileIsLast(s[..n]);
    }
  }

  lemma HasPairCons(a: int, t: seq<int>)
    ensures HasPair([a] + t) <==> (t != [] && t[0] == a) || HasPair(t)
  {
    var u := [a] + t;
    if HasPair(u) && !(t != [] && t[0] == a) {
      var k :| 0 <= k < |u| - 1 && u[k] == u[k + 1];
      assert t[k - 1] == t[k];
    }
    if HasPair(t) {
      var k :| 0 <= k < |t| - 1 && t[k] == t[k + 1];
      assert u[k + 1] == u[k + 2];
    }
    if t != [] && t[0] == a {
      assert u[0] == u[1];
    }
  }

  lemma HasPairSnoc(t: seq<int>, a: int)
    ensures HasPair(t + [a]) <==> (t != [] && t[|t| - 1] == a) || HasPair(t)
  {
    var u := t + [a];
    if HasPair(u) && !(t != [] && t[|t| - 1] == a) {
      var k :| 0 <= k < |u| - 1 && u[k] == u[k + 1];
      assert t[k] == t[k + 1];
    }
    if HasPair(t) {
      var k :| 0 <= k < |t| - 1 && t[k] == t[k + 1];
      assert u[k] == u[k + 1];
    }
    if t != [] && t[|t| - 1] == a {
      assert u[|t| - 1] == u[|t|];
    }
  }

  lemma SameTileCons(s: seq<int>)
    requires s != []
    ensures SomeSameTile(s, 0) <==>
      (s[0] != Empty && FirstTile(s[1..]) == Some(s[0])) || SomeSameTile(s[1..], 0)
  {
    var r := s[1..];
    if SomeSameTile(s, 0) && !(s[0] != Empty && FirstTile(r) == Some(s[0])) {
      var p :| 0 <= p < |s| && s[p] != Empty && HasSameTile(s, p, 0, s[p]);
      assert p > 0;
      assert r[p - 1] == s[p] && r[p..] == s[p + 1..];
      assert HasSameTile(r, p - 1, 0, r[p - 1]);
    }
    if SomeSameTile(r, 0) {
      var p :| 0 <= p < |r| && r[p] != Empty && HasSameTile(r, p, 0, r[p]);
      assert r[p] == s[p + 1] && r[p + 1..] == s[p + 2..];
      assert HasSameTile(s, p + 1, 0, s[p + 1]);
    }
    if s[0] != Empty && FirstTile(r) == Some(s[0]) {
      assert HasSameTile(s, 0, 0, s[0]);
    }
  }

  lemma SameTileSnoc(s: seq<int>)
    requires s != []
    ensures var n := |s| - 1;
      SomeSameTile(s, 1) <==>
        (s[n] != Empty && LastTile(s[..n]) == Some(s[n])) || SomeSameTile(s[..n], 1)
  {
    var n := |s| - 1;
    var r := s[..n];
    if SomeSameTile(s, 1) && !(s[n] != Empty && LastTile(r) == Some(s[n])) {
      var p :| 0 <= p < |s| && s[p] != Empty && HasSameTile(s, p, 1, s[p]);
      assert p < n;
      assert r[p] == s[p] && r[..p] == s[..p];
      assert HasSameTile(r, p, 1, r[p]);
    }
    if SomeSameTile(r, 1) {
      var p :| 0 <= p < |r| && r[p] != Empty && HasSameTile(r, p, 1, r[p]);
      assert r[p] == s[p] && r[..p] == s[..p];
      assert HasSameTile(s, p, 1, s[p]);
    }
    if s[n] != Empty && LastTile(r) == Some(s[n]) {
      assert s[..n] == r;
      assert HasSameTile(s, n, 1, s[n]);
    }
  }

  /** The forward `hasSameTile` loop finds a match exactly when the tiles,
      gaps removed, contain an equal adjacent pair. */
  lemma {:induction false} SameTileStartIsPair(s: seq<int>)
    ensures SomeSameTile(s, 0) <==> HasPair(Tiles(s))
  {
    if s != [] {
      var r := s[1..];
      SameTileCons(s);
      SameTileStartIsPair(r);
      FirstTileIsHead(r);
      if s[0] != Empty {
        HasPairCons(s[0], Tiles(r));
      }
    }
  }

  /** The backward `hasSameTile` loop finds a match exactly when the tiles
      contain an equal adjacent pair. */
  lemma {:induction false} SameTileEndIsPair(s: seq<int>)
    ensures SomeSameTile(s, 1) <==> HasPair(Tiles(s))
  {
    if s != [] {
      var n := |s| - 1;
      var r := s[..n];
      SameTileSnoc(s);
      SameTileEndIsPair(r);
      LastTileIsLast(r);
      assert s == r + [s[n]];
      TilesAppend(r, [s[n]]);
      if s[n] != Empty {
        assert Tiles([s[n]]) == [s[n]];
        HasPairSnoc(Tiles(r), s[n]);
      } else {
        assert Tiles(r) + Tiles([s[n]]) == Tiles(r);
      }
    }
  }

  /** `validRowMove` on a line built cell by cell: some tile has an equal
      neighbour or a free cell on the target side. */
  lemma ValidIffPairOrFree(s: seq<int>, dir: int)
    requires dir == 0 || dir == 1
    ensures ValidRowMove(Build(s), dir) <==> HasPair(Tiles(s)) || SomeFreeSpace(s, dir)
  {
    BuildIsFromList(s);
    if dir == 0 {
      SameTileStartIsPair(s);
    } else {
      SameTileEndIsPair(s);
    }
    if AllEmpty(s) {
      AllEmptyTiles(s);
    }
  }

  /*************************************************************************
   * The main theorems
   *************************************************************************/

  /** A grid line is moved as the list constructor's row would be. */
  lemma MoveLineUnfold(s: seq<int>, dir: int)
    ensures MoveLine(s, dir)
         == if ValidRowMove(FromList(s), dir) then Compact(Join(Compact(s, dir), dir), dir) else s
  {
    BuildIsFromList(s);
  }

  /** A line with no equal pair and no free space toward index 0 is already
      in its reference form. */
  lemma StuckStartIsReference(s: seq<int>)
    requires !HasPair(Tiles(s)) && !SomeFreeSpace(s, 0)
    ensures s == ReferenceMove(s, 0)
  {
    NoPairMergeFront(Tiles(s));
    NoFreeStart(s);
  }

  /** The same toward the last index. */
  lemma StuckEndIsReference(s: seq<int>)
    requires !HasPair(Tiles(s)) && !SomeFreeSpace(s, 1)
    ensures s == ReferenceMove(s, 1)
  {
    NoPairMergeBack(Tiles(s));
    NoFreeEnd(s);
  }

  /** `moveRow` on a line built cell by cell is the standard 2048 move. */
  lemma MoveLineIsReference(s: seq<int>, dir: int)
    requires dir == 0 || dir == 1
    ensures MoveLine(s, dir) == ReferenceMove(s, dir)
  {
    MoveLineUnfold(s, dir);
    BuildIsFromList(s);
    ValidIffPairOrFree(s, dir);
    if !ValidRowMove(FromList(s), dir) {
      if dir == 0 {
        StuckStartIsReference(s);
      } else {
        StuckEndIsReference(s);
      }
    } else if dir == 0 {
      ThreePassesStart(s);
    } else {
      ThreePassesEnd(s);
    }
  }

  /** A move changes the line exactly when `validRowMove` says it is valid. */
  lemma MoveChangesIffValid(s: seq<int>, dir: int)
    requires dir == 0 || dir == 1
    ensures MoveLine(s, dir) != s <==> ValidRowMove(Build(s), dir)
  {
    MoveLineIsReference(s, dir);
    ValidIffPairOrFree(s, dir);
    ReferenceChangesIff(s, dir);
  }

  /** An equal pair makes the reference move toward index 0 lose a tile. */
  lemma PairChangesStart(s: seq<int>)
    requires HasPair(Tiles(s))
    ensures ReferenceMove(s, 0) != s
  {
    var m := MergeFront(Tiles(s));
    PairShrinksFront(Tiles(s));
    PaddedTiles(m, |s| - |m|);
  }

  /** Without a pair, a free cell toward index 0 is closed by the move. */
  lemma FreeChangesStart(s: seq<int>)
    requires !HasPair(Tiles(s)) && SomeFreeSpace(s, 0)
    ensures ReferenceMove(s, 0) != s
  {
    var t := Tiles(s);
    NoPairMergeFront(t);
    PaddedEndNoFree(t, |s| - |t|);
  }

  /** An equal pair makes the reference move toward the last index lose a
      tile. */
  lemma PairChangesEnd(s: seq<int>)
    requires HasPair(Tiles(s))
    ensures ReferenceMove(s, 1) != s
  {
    var m := MergeBack(Tiles(s));
    PairShrinksBack(Tiles(s));
    PaddedTiles(m, |s| - |m|);
  }

  /** Without a pair, a free cell toward the last index is closed by the
      move. */
  lemma FreeChangesEnd(s: seq<int>)
    requires !HasPair(Tiles(s)) && SomeFreeSpace(s, 1)
    ensures ReferenceMove(s, 1) != s
  {
    var t := Tiles(s);
    NoPairMergeBack(t);
    PaddedStartNoFree(t, |s| - |t|);
  }

  /** The reference move changes a line exactly when it has an equal pair
      of tiles or a tile with a free cell on the target side. */
  lemma ReferenceChangesIff(s: seq<int>, dir: int)
    requires dir == 0 || dir == 1
    ensures ReferenceMove(s, dir) != s <==> HasPair(Tiles(s)) || SomeFreeSpace(s, dir)
  {
    var pair, free := HasPair(Tiles(s)), SomeFreeSpace(s, dir);
    if dir == 0 {
      if pair {
        PairChangesStart(s);
      } else if free {
        FreeChangesStart(s);
      } else {
        StuckStartIsReference(s);
      }
    } else {
      if pair {
        PairChangesEnd(s);
      } else if free {
        FreeChangesEnd(s);
      } else {
        StuckEndIsReference(s);
      }
    }
  }

  /** A line whose cells are all empty is never a valid move, whatever the
      direction code. */
  lemma AllEmptyNeverValid(s: seq<int>, dir: int)
    requires AllEmpty(s)
    ensures !ValidRowMove(Build(s), dir)
    ensures MoveLine(s, dir) == s
  {
    BuildIsFromList(s);
  }

  /** A valid move leaves fewer merged tiles than cells. */
  lemma ValidMergeShorter(s: seq<int>, dir: int)
    requires dir == 0 || dir == 1
    requires ValidRowMove(Build(s), dir)
    ensures dir == 0 ==> |MergeFront(Tiles(s))| < |s|
    ensures dir == 1 ==> |MergeBack(Tiles(s))| < |s|
  {
    ValidIffPairOrFree(s, dir);
    var t := Tiles(s);
    if HasPair(t) {
      PairShrinksFront(t);
      PairShrinksBack(t);
    } else {
      var p :| 0 <= p < |s| && s[p] != Empty && HasFreeSpace(s, p, dir);
      EmptyCellLosesTile(s, if dir == 1 then p + 1 else p - 1);
    }
  }

  /** After a valid move the line has an empty cell: the last one toward
      index 0, the first one toward the end. */
  lemma ValidMoveLeavesEmpty(s: seq<int>, dir: int)
    requires dir == 0 || dir == 1
    requires ValidRowMove(Build(s), dir)
    ensures MoveLine(s, dir)[if dir == 0 then |s| - 1 else 0] == Empty
  {
    ValidMergeShorter(s, dir);
    MoveLineIsReference(s, dir);
    ReferenceBlankAtEnd(s, dir);
  }

  /** The reference move leaves a blank at the far end once the merge is
      shorter than the line. */
  lemma ReferenceBlankAtEnd(s: seq<int>, dir: int)
    requires dir == 0 || dir == 1
    requires dir == 0 ==> |MergeFront(Tiles(s))| < |s|
    requires dir == 1 ==> |MergeBack(Tiles(s))| < |s|
    ensures ReferenceMove(s, dir)[if dir == 0 then |s| - 1 else 0] == Empty
  {
  }

  /*************************************************************************
   * Conservation
   *************************************************************************/

  lemma {:induction false} SumAppend(a: seq<int>, b: seq<int>)
    ensures Sum(a + b) == Sum(a) + Sum(b)
  {
    if a != [] {
      assert (a + b)[0] == a[0];
      assert (a + b)[1..] == a[1..] + b;
      SumAppend(a[1..], b);
    } else {
      assert a + b == b;
    }
  }

  lemma {:induction false} MergeFrontSumCount(t: seq<int>)
    ensures Sum(MergeFront(t)) == Sum(t)
    ensures |MergeFront(t)| + MergeCount(t) == |t|
  {
    if |t| >= 2 {
      if t[0] == t[1] {
        MergeFrontSumCount(t[2..]);
        assert Sum(t) == t[0] + (t[1] + Sum(t[2..])) by {
          assert t[1..][1..] == t[2..];
        }
      } else {
        MergeFrontSumCount(t[1..]);
      }
    }
  }

  lemma SumSnoc(a: seq<int>, x: int)
    ensures Sum(a + [x]) == Sum(a) + x
  {
    SumAppend(a, [x]);
    assert [x][1..] == [];
  }

  /** The sum of a line split before its last cell. */
  lemma SumInit(t: seq<int>)
    requires t != []
    ensures Sum(t) == Sum(t[..|t| - 1]) + t[|t| - 1]
  {
    assert t == t[..|t| - 1] + [t[|t| - 1]];
    SumSnoc(t[..|t| - 1], t[|t| - 1]);
  }

  lemma {:induction false} MergeBackSumCount(t: seq<int>)
    ensures Sum(MergeBack(t)) == Sum(t)
    ensures |MergeBack(t)| + MergeCountBack(t) == |t|
  {
    var n := |t|;
    if n >= 2 {
      var u := t[..n - 1];
      SumInit(t);
      if t[n - 2] == t[n - 1] {
        MergeBackPair(t);
        MergeBackSumCount(t[..n - 2]);
        SumInit(u);
        assert u[..n - 2] == t[..n - 2];
        SumSnoc(MergeBack(t[..n - 2]), 2 * t[n - 1]);
      } else {
        MergeBackKeep(t);
        MergeBackSumCount(u);
        SumSnoc(MergeBack(u), t[n - 1]);
      }
    }
  }

  /** A move keeps the sum of the tile values, and loses exactly one tile per
      merge. */
  lemma MovePreservesSum(s: seq<int>, dir: int)
    requires dir == 0 || dir == 1
    ensures Sum(Tiles(MoveLine(s, dir))) == Sum(Tiles(s))
    ensures dir == 0 ==> |Tiles(MoveLine(s, dir))| == |Tiles(s)| - MergeCount(Tiles(s))
    ensures dir == 1 ==> |Tiles(MoveLine(s, dir))| == |Tiles(s)| - MergeCountBack(Tiles(s))
  {
    MoveLineIsReference(s, dir);
    ReferenceTiles(s, dir);
    MergeFrontSumCount(Tiles(s));
    MergeBackSumCount(Tiles(s));
  }

  /** The tiles of the reference move are the merged tiles. */
  lemma ReferenceTiles(s: seq<int>, dir: int)
    requires dir == 0 || dir == 1
    ensures Tiles(ReferenceMove(s, dir))
      == if dir == 0 then MergeFront(Tiles(s)) else MergeBack(Tiles(s))
  {
    var t := Tiles(s);
    if dir == 0 {
      var m := MergeFront(t);
      PaddedTiles(m, |s| - |m|);
      assert ReferenceMove(s, dir) == m + Blanks(|s| - |m|);
    } else {
      var m := MergeBack(t);
      PaddedTiles(m, |s| - |m|);
      assert ReferenceMove(s, dir) == Blanks(|s| - |m|) + m;
    }
  }

  /** Tile values never go negative: every cell is empty or non-negative. */
  predicate NonNeg(s: seq<int>) {
    forall i :: 0 <= i < |s| ==> s[i] == Empty || s[i] >= 0
  }

  lemma {:induction false} NonNegTiles(s: seq<int>)
    requires NonNeg(s)
    ensures forall k :: 0 <= k < |Tiles(s)| ==> Tiles(s)[k] >= 0
  {
    if s != [] {
      assert NonNeg(s[1..]) by {
        forall i | 0 <= i < |s[1..]| ensures s[1..][i] == Empty || s[1..][i] >= 0 {
          assert s[1..][i] == s[i + 1];
        }
      }
      NonNegTiles(s[1..]);
    }
  }

  lemma {:induction false} MergeFrontNonNeg(t: seq<int>)
    requires forall k :: 0 <= k < |t| ==> t[k] >= 0
    ensures forall k :: 0 <= k < |MergeFront(t)| ==> MergeFront(t)[k] >= 0
  {
    if |t| >= 2 {
      if t[0] == t[1] {
        MergeFrontNonNeg(t[2..]);
      } else {
        MergeFrontNonNeg(t[1..]);
      }
    }
  }

  lemma {:induction false} MergeBackNonNeg(t: seq<int>)
    requires forall k :: 0 <= k < |t| ==> t[k] >= 0
    ensures forall k :: 0 <= k < |MergeBack(t)| ==> MergeBack(t)[k] >= 0
  {
    var n := |t|;
    if n >= 2 {
      if t[n - 2] == t[n - 1] {
        MergeBackNonNeg(t[..n - 2]);
      } else {
        MergeBackNonNeg(t[..n - 1]);
      }
    }
  }

  /** A move keeps every cell empty or non-negative. */
  lemma MovePreservesNonNeg(s: seq<int>, dir: int)
    requires dir == 0 || dir == 1
    requires NonNeg(s)
    ensures NonNeg(MoveLine(s, dir))
  {
    MoveLineIsReference(s, dir);
    ReferenceNonNeg(s, dir);
  }

  lemma ReferenceNonNeg(s: seq<int>, dir: int)
    requires dir == 0 || dir == 1
    requires NonNeg(s)
    ensures NonNeg(ReferenceMove(s, dir))
  {
    var t := Tiles(s);
    NonNegTiles(s);
    var r := ReferenceMove(s, dir);
    if dir == 0 {
      MergeFrontNonNeg(t);
      var m := MergeFront(t);
      forall i | 0 <= i < |r| ensures r[i] == Empty || r[i] >= 0 {
        if i < |m| { assert r[i] == m[i]; }
      }
    } else {
      MergeBackNonNeg(t);
      var m := MergeBack(t);
      var k := |s| - |m|;
      forall i | 0 <= i < |r| ensures r[i] == Empty || r[i] >= 0 {
        if i >= k { assert r[i] == m[i - k]; }
      }
    }
  }

  /*************************************************************************
   * Worked examples
   *************************************************************************/

  /** The tiles of a line with one blank at the end. */
  lemma TilesBlankLast(a: int, b: int, c: int)
    requires a != Empty && b != Empty && c != Empty
    ensures Tiles([a, b, c, Empty]) == [a, b, c]
  {
    assert [a, b, c, Empty] == [a] + ([b] + ([c] + [Empty]));
    TilesCons(Empty, []);
    TilesCons(c, [Empty]);
    TilesCons(b, [c] + [Empty]);
    TilesCons(a, [b] + ([c] + [Empty]));
  }

  /** Three equal tiles toward index 0: the leading pair merges. */
  lemma ExampleLeadingPair()
    ensures MoveLine([2, 2, 2, -1], 0) == [4, 2, -1, -1]
  {
    MoveLineIsReference([2, 2, 2, -1], 0);
    ReferenceLeadingPair();
  }

  lemma ReferenceLeadingPair()
    ensures ReferenceMove([2, 2, 2, -1], 0) == [4, 2, -1, -1]
  {
    TilesBlankLast(2, 2, 2);
    MergeFrontPair([2, 2, 2]);
    assert [2, 2, 2][2..] == [2];
    assert MergeFront([2, 2, 2]) == [4, 2];
    assert Blanks(2) == [-1, -1];
  }

  /** The three passes on [4, 4, 2, -1] toward the end, one at a time. */
  lemma ExampleCompactEnd()
    ensures Compact([4, 4, 2, -1], 1) == [-1, 4, 4, 2]
  {
    var s := [4, 4, 2, -1];
    CompactEndSpec(s);
    assert s[1..][1..][1..][1..] == [];
    assert Tiles(s) == [4, 4, 2];
  }

  lemma ExampleJoinDown()
    ensures Join([-1, 4, 4, 2], 1) == [-1, -1, 8, 2]
  {
    var c := [-1, 4, 4, 2];
    assert JoinDown(c, 3) == JoinDown(c, 2);
    assert c[2 := 8][1 := Empty] == [-1, -1, 8, 2];
    assert JoinDown([-1, -1, 8, 2], 1) == [-1, -1, 8, 2];
  }

  lemma ExampleCompactDone()
    ensures Compact([-1, -1, 8, 2], 1) == [-1, -1, 8, 2]
  {
    var d := [-1, -1, 8, 2];
    CompactFixedIff(d, 1);
    assert !SomeFreeSpace(d, 1) by {
      forall p | 0 <= p < |d| && d[p] != Empty ensures !HasFreeSpace(d, p, 1) {
        assert p >= 2;
      }
    }
  }

  lemma ExampleMoveEnd()
    ensures MoveLine([4, 4, 2, -1], 1) == [-1, -1, 8, 2]
  {
    MoveLineIsReference([4, 4, 2, -1], 1);
    ReferenceMoveEnd();
  }

  lemma ReferenceMoveEnd()
    ensures ReferenceMove([4, 4, 2, -1], 1) == [-1, -1, 8, 2]
  {
    TilesBlankLast(4, 4, 2);
    MergeBackKeep([4, 4, 2]);
    assert [4, 4, 2][..2] == [4, 4];
    MergeBackPair([4, 4]);
    assert [4, 4][..0] == [];
    assert MergeBack([4, 4, 2]) == [8, 2];
    assert Blanks(2) == [-1, -1];
  }
}

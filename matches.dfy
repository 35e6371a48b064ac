/** The `Match` record of swapmatch3.js and what `Match.resolve` clears. */
module Matches {
  import opened Grid

  /** A matched shape relative to its origin: a horizontal segment in row originY starting at
      originX + offsetX of width lengthX, and a vertical segment in column originX starting at
      originY + offsetY of height lengthY. */
  datatype Match = Match(originX: int, originY: int, offsetX: int, offsetY: int, lengthX: int, lengthY: int)
  {
    function StartX(): int { originX + offsetX }
    function EndX(): int { StartX() + lengthX }
    function StartY(): int { originY + offsetY }
    /** The lowest row the match touches: `startY` in resolveMatchesCascade. */
    function Bottom(): int { StartY() + lengthY - 1 }

    /** Flat index i is written by resolve's first loop, `setCellColor(x, originY, 0)`;
        those indices form one contiguous stretch of the array. */
    predicate InRowSegment(i: int) {
      Idx(StartX(), originY) <= i < Idx(EndX(), originY)
    }

    /** Flat index i is written by resolve's second loop, `setCellColor(originX, y, 0)`. */
    predicate InColumnSegment(i: int) {
      exists y :: StartY() <= y < StartY() + lengthY && i == Idx(originX, y)
    }

    predicate Covers(i: int) {
      InRowSegment(i) || InColumnSegment(i)
    }

    /** resolve's first loop stays inside the array (otherwise setCellColor throws). */
    predicate RowInRange() {
      lengthX <= 0 || (0 <= Idx(StartX(), originY) && Idx(EndX(), originY) <= W * H)
    }

    /** resolve's second loop stays inside the array. */
    predicate ColumnInRange() {
      lengthY <= 0 || (0 <= Idx(originX, StartY()) && Idx(originX, Bottom()) < W * H)
    }
  }

  /** One axis of a match as checkForMatch builds it: either reset to length 1 and offset 0,
      or a run of at least 3 that contains the origin and lies on the board. */
  predicate AxisOk(origin: int, offset: int, length: int, size: int) {
    || (length == 1 && offset == 0)
    || (length >= 3 && -length < offset <= 0 && 0 <= origin + offset && origin + offset + length <= size)
  }

  /** The shape of every match that checkForMatch appends to pendingMatches. */
  predicate WellPlaced(m: Match) {
    && InBoard(m.originX, m.originY)
    && AxisOk(m.originX, m.offsetX, m.lengthX, W)
    && AxisOk(m.originY, m.offsetY, m.lengthY, H)
    && (m.lengthX >= 3 || m.lengthY >= 3)
  }

  /** The cells of a match, as grid coordinates. */
  ghost function Cells(m: Match): set<(int, int)> {
    set x, y | 0 <= x < W && 0 <= y < H && m.Covers(Idx(x, y)) :: (x, y)
  }

  /** The board after `m.resolve()` when it does not throw. */
  function Cleared(b: seq<int>, m: Match): (r: seq<int>)
    ensures |r| == |b|
  {
    seq(|b|, i requires 0 <= i < |b| => if m.Covers(i) then 0 else b[i])
  }

  /** A match built by checkForMatch covers exactly its horizontal segment in row originY and its
      vertical segment in column originX, it never reaches outside the array, and it lies inside
      the columns StartX..EndX-1 and the rows 0..Bottom that resolveMatchesCascade then repairs. */
  lemma CoversCross(m: Match, x: int, y: int)
    requires WellPlaced(m) && InBoard(x, y)
    ensures m.Covers(Idx(x, y)) <==>
              || (y == m.originY && m.StartX() <= x < m.EndX())
              || (x == m.originX && m.StartY() <= y <= m.Bottom())
    ensures m.Covers(Idx(x, y)) ==> m.StartX() <= x < m.EndX() && y <= m.Bottom()
  {
    RowArm(m, x, y);
    ColumnArm(m, x, y);
  }

  /** On the board, the row segment of a well-placed match is the cells StartX..EndX-1 of row originY. */
  lemma RowArm(m: Match, x: int, y: int)
    requires WellPlaced(m) && InBoard(x, y)
    ensures m.InRowSegment(Idx(x, y)) <==> y == m.originY && m.StartX() <= x < m.EndX()
  {
    if m.InRowSegment(Idx(x, y)) {
      assert y * W + x < m.originY * W + W;
      assert m.originY * W <= y * W + x;
    }
  }

  /** On the board, the column segment of a well-placed match is the cells StartY..Bottom of column originX. */
  lemma ColumnArm(m: Match, x: int, y: int)
    requires WellPlaced(m) && InBoard(x, y)
    ensures m.InColumnSegment(Idx(x, y)) <==> x == m.originX && m.StartY() <= y <= m.Bottom()
  {
    if m.InColumnSegment(Idx(x, y)) {
      var k :| m.StartY() <= k < m.StartY() + m.lengthY && Idx(x, y) == Idx(m.originX, k);
      IdxDecode(x, y);
      IdxDecode(m.originX, k);
    }
    if x == m.originX && m.StartY() <= y <= m.Bottom() {
      assert m.StartY() <= y < m.StartY() + m.lengthY && Idx(x, y) == Idx(m.originX, y);
    }
  }

  lemma WellPlacedInRange(m: Match, i: int)
    requires WellPlaced(m)
    ensures m.RowInRange() && m.ColumnInRange()
    ensures m.Covers(i) ==> 0 <= i < W * H
    ensures 0 <= m.StartX() < m.EndX() <= W && 0 <= m.Bottom() < H
  {
  }

  /** Resolving a match twice clears no more than resolving it once. */
  lemma ClearIdempotent(b: seq<int>, m: Match)
    ensures Cleared(Cleared(b, m), m) == Cleared(b, m)
  {
    var once, twice := Cleared(b, m), Cleared(Cleared(b, m), m);
    assert forall i :: 0 <= i < |b| ==> twice[i] == once[i];
  }

  /** Resolving only writes zeros. */
  lemma ClearKeepsBoard(b: seq<int>, m: Match)
    requires IsBoard(b)
    ensures IsBoard(Cleared(b, m))
    ensures forall i :: 0 <= i < |b| && Cleared(b, m)[i] != b[i] ==> Cleared(b, m)[i] == 0 && m.Covers(i)
  {
  }

  /** The row segment and the column segment of a match, as grid coordinates. */
  function Arms(m: Match): set<(int, int)> {
    (set x | m.StartX() <= x < m.EndX() :: (x, m.originY))
    + (set y | m.StartY() <= y <= m.Bottom() :: (m.originX, y))
  }

  /** The cells a match checkForMatch can build clears are its two arms. */
  lemma CellsAreArms(m: Match)
    requires WellPlaced(m)
    ensures Cells(m) == Arms(m)
  {
    forall p | p in Cells(m) ensures p in Arms(m) {
      CoversCross(m, p.0, p.1);
    }
    forall p | p in Arms(m) ensures p in Cells(m) {
      CoversCross(m, p.0, p.1);
      assert InBoard(p.0, p.1) && m.Covers(Idx(p.0, p.1));
    }
  }

  /** A plus shape centred at (1,1). */
  lemma CrossFixture()
    ensures Cells(Match(1, 1, -1, -1, 3, 3)) == {(1, 0), (0, 1), (1, 1), (2, 1), (1, 2)}
  {
    var m := Match(1, 1, -1, -1, 3, 3);
    CellsAreArms(m);
    assert Arms(m) == {(1, 0), (0, 1), (1, 1), (2, 1), (1, 2)};
  }

  /** An L shape with its corner at (0,2). */
  lemma LFixture()
    ensures Cells(Match(0, 2, 0, -2, 3, 3)) == {(0, 0), (0, 1), (0, 2), (1, 2), (2, 2)}
  {
    var m := Match(0, 2, 0, -2, 3, 3);
    CellsAreArms(m);
    assert Arms(m) == {(0, 0), (0, 1), (0, 2), (1, 2), (2, 2)};
  }

  /** A match whose vertical axis was reset covers its row segment and nothing else. */
  lemma RowOnlyCovers(m: Match, i: int)
    requires m.lengthY == 1 && m.offsetY == 0 && m.offsetX <= 0 < m.offsetX + m.lengthX
    ensures m.Covers(i) <==> m.InRowSegment(i)
  {
    if m.InColumnSegment(i) {
      var y :| m.StartY() <= y < m.StartY() + m.lengthY && i == Idx(m.originX, y);
    }
  }

  /** A match whose horizontal axis was reset covers its column segment and nothing else. */
  lemma ColumnOnlyCovers(m: Match, i: int)
    requires m.lengthX == 1 && m.offsetX == 0 && m.offsetY <= 0 < m.offsetY + m.lengthY
    ensures m.Covers(i) <==> m.InColumnSegment(i)
  {
    if m.InRowSegment(i) {
      assert i == Idx(m.originX, m.originY);
    }
  }

  /** The same three-cell run described from two different origins clears the same cells,
      on every board, horizontally and vertically. */
  lemma SameRunFixture(b: seq<int>)
    ensures Cleared(b, Match(0, 0, 0, 0, 3, 1)) == Cleared(b, Match(1, 0, -1, 0, 3, 1))
    ensures Cleared(b, Match(0, 0, 0, 0, 1, 3)) == Cleared(b, Match(0, 1, 0, -1, 1, 3))
  {
    SameRowFixture(b);
    SameColumnFixture(b);
  }

  /** The horizontal half of the fixture above. */
  lemma SameRowFixture(b: seq<int>)
    ensures Cleared(b, Match(0, 0, 0, 0, 3, 1)) == Cleared(b, Match(1, 0, -1, 0, 3, 1))
  {
    SameRowRun(b, Match(0, 0, 0, 0, 3, 1), Match(1, 0, -1, 0, 3, 1));
  }

  /** The vertical half of the fixture above. */
  lemma SameColumnFixture(b: seq<int>)
    ensures Cleared(b, Match(0, 0, 0, 0, 1, 3)) == Cleared(b, Match(0, 1, 0, -1, 1, 3))
  {
    SameColumnRun(b, Match(0, 0, 0, 0, 1, 3), Match(0, 1, 0, -1, 1, 3));
  }

  /** Two matches that cover the same cells clear the same board. */
  lemma SameCoverSameClear(b: seq<int>, a: Match, c: Match)
    requires forall i :: 0 <= i < |b| ==> a.Covers(i) == c.Covers(i)
    ensures Cleared(b, a) == Cleared(b, c)
  {
    assert forall i :: 0 <= i < |b| ==> Cleared(b, a)[i] == Cleared(b, c)[i];
  }

  /** A horizontal run found from any of its cells clears the same cells: only the run's row,
      start and width matter, not which cell was the origin. */
  lemma SameRowRun(b: seq<int>, a: Match, c: Match)
    requires a.lengthY == 1 && a.offsetY == 0 && a.offsetX <= 0 < a.offsetX + a.lengthX
    requires c.lengthY == 1 && c.offsetY == 0 && c.offsetX <= 0 < c.offsetX + c.lengthX
    requires a.originY == c.originY && a.StartX() == c.StartX() && a.lengthX == c.lengthX
    ensures Cleared(b, a) == Cleared(b, c)
  {
    forall i | 0 <= i < |b| ensures a.Covers(i) == c.Covers(i) {
      RowOnlyCovers(a, i);
      RowOnlyCovers(c, i);
    }
    SameCoverSameClear(b, a, c);
  }

  /** A vertical run found from any of its cells clears the same cells. */
  lemma SameColumnRun(b: seq<int>, d: Match, e: Match)
    requires d.lengthX == 1 && d.offsetX == 0 && d.offsetY <= 0 < d.offsetY + d.lengthY
    requires e.lengthX == 1 && e.offsetX == 0 && e.offsetY <= 0 < e.offsetY + e.lengthY
    requires d.originX == e.originX && d.StartY() == e.StartY() && d.lengthY == e.lengthY
    ensures Cleared(b, d) == Cleared(b, e)
  {
    forall i | 0 <= i < |b| ensures d.Covers(i) == e.Covers(i) {
      SameColumnRunCovers(d, e, i);
    }
    SameCoverSameClear(b, d, e);
  }

  /** Two column-only matches over the same run cover the same flat indices. */
  lemma SameColumnRunCovers(d: Match, e: Match, i: int)
    requires d.lengthX == 1 && d.offsetX == 0 && d.offsetY <= 0 < d.offsetY + d.lengthY
    requires e.lengthX == 1 && e.offsetX == 0 && e.offsetY <= 0 < e.offsetY + e.lengthY
    requires d.originX == e.originX && d.StartY() == e.StartY() && d.lengthY == e.lengthY
    ensures d.Covers(i) == e.Covers(i)
  {
    ColumnOnlyCovers(d, i);
    ColumnOnlyCovers(e, i);
    if d.InColumnSegment(i) {
      var y :| d.StartY() <= y < d.StartY() + d.lengthY && i == Idx(d.originX, y);
      assert e.StartY() <= y < e.StartY() + e.lengthY && i == Idx(e.originX, y);
    }
    if e.InColumnSegment(i) {
      var y :| e.StartY() <= y < e.StartY() + e.lengthY && i == Idx(e.originX, y);
      assert d.StartY() <= y < d.StartY() + d.lengthY && i == Idx(d.originX, y);
    }
  }

  /** Some match of ms covers flat index i. */
  predicate AnyCovers(ms: seq<Match>, i: int) {
    exists k :: 0 <= k < |ms| && ms[k].Covers(i)
  }

  /** The first loop of resolveMatchesCascade: every pending match resolved in turn. */
  function ClearAll(b: seq<int>, ms: seq<Match>): (r: seq<int>)
    ensures |r| == |b|
  {
    if ms == [] then b else Cleared(ClearAll(b, ms[..|ms| - 1]), ms[|ms| - 1])
  }

  /** Clearing all pending matches empties exactly the cells some match covers, whatever the order. */
  lemma {:induction false} ClearAllAt(b: seq<int>, ms: seq<Match>)
    ensures forall i :: 0 <= i < |b| ==> ClearAll(b, ms)[i] == if AnyCovers(ms, i) then 0 else b[i]
  {
    if ms != [] {
      var init := ms[..|ms| - 1];
      ClearAllAt(b, init);
      forall i | 0 <= i < |b|
        ensures ClearAll(b, ms)[i] == if AnyCovers(ms, i) then 0 else b[i]
      {
        if AnyCovers(init, i) {
          var k :| 0 <= k < |init| && init[k].Covers(i);
          assert ms[k] == init[k];
        }
        if AnyCovers(ms, i) && !ms[|ms| - 1].Covers(i) {
          var k :| 0 <= k < |ms| && ms[k].Covers(i);
          assert k < |init| && init[k] == ms[k];
        }
      }
    }
  }
}

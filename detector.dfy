/** What `checkForMatch` finds around a cell: the four runs of the origin's colour and the
    Match built from them after short axes are reset. */
module Detector {
  import opened Grid
  import opened Matches

  datatype Option<T> = None | Some(value: T)

  datatype Dir = Up | Down | Left | Right

  /** A cell of the grid by column and row. */
  datatype Pos = Pos(col: int, row: int)

  /** The cell k steps from (x, y) in direction d (row 0 is the top). */
  function Shift(d: Dir, x: int, y: int, k: int): Pos {
    match d
    case Up => Pos(x, y - k)
    case Down => Pos(x, y + k)
    case Left => Pos(x - k, y)
    case Right => Pos(x + k, y)
  }

  /** How many steps from (x, y) in direction d stay on the board. */
  function Room(d: Dir, x: int, y: int): int {
    match d
    case Up => y
    case Down => H - 1 - y
    case Left => x
    case Right => W - 1 - x
  }

  /** Cell p is on the board and has colour c. */
  predicate Holds(b: seq<int>, p: Pos, c: int) {
    InBoard(p.col, p.row) && ColorAt(b, p.col, p.row) == c
  }

  /** One of checkForMatch's while loops: how many consecutive cells next to (x, y) in
      direction d are on the board and have colour c. */
  function Run(b: seq<int>, x: int, y: int, d: Dir, c: int): nat
    decreases Room(d, x, y)
  {
    var next := Shift(d, x, y, 1);
    if Holds(b, next, c) then 1 + Run(b, next.col, next.row, d, c) else 0
  }

  /** A run goes on while the next cell holds the colour ... */
  lemma RunNext(b: seq<int>, x: int, y: int, d: Dir, c: int)
    requires Holds(b, Shift(d, x, y, 1), c)
    ensures Run(b, x, y, d, c) == 1 + Run(b, Shift(d, x, y, 1).col, Shift(d, x, y, 1).row, d, c)
  {
  }

  /** ... and stops at the first cell that does not. */
  lemma RunEnd(b: seq<int>, x: int, y: int, d: Dir, c: int)
    requires !Holds(b, Shift(d, x, y, 1), c)
    ensures Run(b, x, y, d, c) == 0
  {
  }

  /** A run is maximal: its cells all hold c, and the cell just past it does not. */
  lemma RunIsMaximal(b: seq<int>, x: int, y: int, d: Dir, c: int)
    ensures forall k {:trigger Holds(b, Shift(d, x, y, k), c)} :: 1 <= k <= Run(b, x, y, d, c) ==> Holds(b, Shift(d, x, y, k), c)
    ensures !Holds(b, Shift(d, x, y, Run(b, x, y, d, c) + 1), c)
  {
    RunHolds(b, x, y, d, c);
    RunStops(b, x, y, d, c);
  }

  lemma {:induction false} RunHolds(b: seq<int>, x: int, y: int, d: Dir, c: int)
    ensures forall k {:trigger Holds(b, Shift(d, x, y, k), c)} :: 1 <= k <= Run(b, x, y, d, c) ==> Holds(b, Shift(d, x, y, k), c)
    decreases Room(d, x, y)
  {
    var next := Shift(d, x, y, 1);
    if Holds(b, next, c) {
      var n := Run(b, next.col, next.row, d, c);
      RunNext(b, x, y, d, c);
      RunHolds(b, next.col, next.row, d, c);
      forall k {:trigger Holds(b, Shift(d, x, y, k), c)} | 1 < k <= 1 + n ensures Holds(b, Shift(d, x, y, k), c) {
        ShiftNext(d, x, y, k - 1);
        assert Holds(b, Shift(d, next.col, next.row, k - 1), c);
      }
    } else {
      RunEnd(b, x, y, d, c);
    }
  }

  lemma {:induction false} RunStops(b: seq<int>, x: int, y: int, d: Dir, c: int)
    ensures !Holds(b, Shift(d, x, y, Run(b, x, y, d, c) + 1), c)
    decreases Room(d, x, y)
  {
    var next := Shift(d, x, y, 1);
    if Holds(b, next, c) {
      var n := Run(b, next.col, next.row, d, c);
      RunNext(b, x, y, d, c);
      RunStops(b, next.col, next.row, d, c);
      ShiftNext(d, x, y, n + 1);
    } else {
      RunEnd(b, x, y, d, c);
    }
  }

  /** k steps from the next cell are k + 1 steps from the cell. */
  lemma ShiftNext(d: Dir, x: int, y: int, k: int)
    ensures Shift(d, Shift(d, x, y, 1).col, Shift(d, x, y, 1).row, k) == Shift(d, x, y, k + 1)
  {
  }

  /** The k-th cell of a run holds its colour. */
  lemma RunCell(b: seq<int>, x: int, y: int, d: Dir, c: int, k: int)
    requires 1 <= k <= Run(b, x, y, d, c)
    ensures Holds(b, Shift(d, x, y, k), c)
  {
    RunHolds(b, x, y, d, c);
  }

  /** A run from a cell of the board ends on the board, and the cell past it is off the board or
      holds another colour. */
  lemma RunBounds(b: seq<int>, x: int, y: int, d: Dir, c: int)
    requires InBoard(x, y)
    ensures var n := Run(b, x, y, d, c);
            var p, q := Shift(d, x, y, n), Shift(d, x, y, n + 1);
            InBoard(p.col, p.row) && (!InBoard(q.col, q.row) || ColorAt(b, q.col, q.row) != c)
  {
    var n := Run(b, x, y, d, c);
    if n > 0 {
      RunCell(b, x, y, d, c, n);
    }
    RunStops(b, x, y, d, c);
  }

  /** n cells of colour c next to (x, y) make a run of at least n. */
  lemma RunAtLeast(b: seq<int>, x: int, y: int, d: Dir, c: int, n: nat)
    requires forall k {:trigger Holds(b, Shift(d, x, y, k), c)} :: 1 <= k <= n ==> Holds(b, Shift(d, x, y, k), c)
    ensures Run(b, x, y, d, c) >= n
  {
    RunIsMaximal(b, x, y, d, c);
  }

  /** The match checkForMatch builds from the lengths of the four runs around (x, y): an axis
      shorter than 3 is reset to length 1 and offset 0, and nothing is built when both are. */
  function Assemble(x: int, y: int, up: int, down: int, left: int, right: int): Option<Match> {
    var lx: int, offx: int := if 1 + left + right < 3 then 1 else 1 + left + right, if 1 + left + right < 3 then 0 else -left;
    var ly: int, offy: int := if 1 + up + down < 3 then 1 else 1 + up + down, if 1 + up + down < 3 then 0 else -up;
    if lx >= 3 || ly >= 3 then Some(Match(x, y, offx, offy, lx, ly)) else None
  }

  /** `checkForMatch(x, y)` as a value: the match it pushes, or None when it pushes nothing. */
  function Detect(b: seq<int>, x: int, y: int): Option<Match> {
    var c := ColorAt(b, x, y);
    Assemble(x, y, Run(b, x, y, Up, c), Run(b, x, y, Down, c), Run(b, x, y, Left, c), Run(b, x, y, Right, c))
  }

  /** Three cells from (x, y) on in direction d are on the board and have colour c. */
  predicate Line3(b: seq<int>, x: int, y: int, d: Dir, c: int) {
    Holds(b, Pos(x, y), c) && Holds(b, Shift(d, x, y, 1), c) && Holds(b, Shift(d, x, y, 2), c)
  }

  /** Some three horizontally consecutive cells through (x, y) share its colour. */
  predicate RowTriple(b: seq<int>, x: int, y: int) {
    var c := ColorAt(b, x, y);
    Line3(b, x - 2, y, Right, c) || Line3(b, x - 1, y, Right, c) || Line3(b, x, y, Right, c)
  }

  /** Some three vertically consecutive cells through (x, y) share its colour. */
  predicate ColumnTriple(b: seq<int>, x: int, y: int) {
    var c := ColorAt(b, x, y);
    Line3(b, x, y - 2, Down, c) || Line3(b, x, y - 1, Down, c) || Line3(b, x, y, Down, c)
  }

  /** Cells s..s+len-1 of row y are a maximal run of colour c. */
  predicate MaximalRowRun(b: seq<int>, y: int, s: int, len: int, c: int) {
    && 0 <= s && s + len <= W
    && (forall k :: s <= k < s + len ==> ColorAt(b, k, y) == c)
    && (s == 0 || ColorAt(b, s - 1, y) != c)
    && (s + len == W || ColorAt(b, s + len, y) != c)
  }

  /** Cells s..s+len-1 of column x are a maximal run of colour c. */
  predicate MaximalColumnRun(b: seq<int>, x: int, s: int, len: int, c: int) {
    && 0 <= s && s + len <= H
    && (forall k :: s <= k < s + len ==> ColorAt(b, x, k) == c)
    && (s == 0 || ColorAt(b, x, s - 1) != c)
    && (s + len == H || ColorAt(b, x, s + len) != c)
  }

  /** Two cells of colour c next to (x, y) make a run of at least two. */
  lemma RunTwo(b: seq<int>, x: int, y: int, d: Dir, c: int)
    requires Holds(b, Shift(d, x, y, 1), c) && Holds(b, Shift(d, x, y, 2), c)
    ensures Run(b, x, y, d, c) >= 2
  {
    var next := Shift(d, x, y, 1);
    ShiftNext(d, x, y, 1);
    RunNext(b, x, y, d, c);
    RunNext(b, next.col, next.row, d, c);
  }

  /** The horizontal run through the origin has length 3 or more exactly when a horizontal triple exists. */
  lemma RowRunIff(b: seq<int>, x: int, y: int)
    requires InBoard(x, y)
    ensures var c := ColorAt(b, x, y);
            1 + Run(b, x, y, Left, c) + Run(b, x, y, Right, c) >= 3 <==> RowTriple(b, x, y)
  {
    RowTripleOfRun(b, x, y);
    RowRunOfTriple(b, x, y);
  }

  /** A horizontal run of three or more through (x, y) shows up as one of the three row windows. */
  lemma RowTripleOfRun(b: seq<int>, x: int, y: int)
    requires InBoard(x, y)
    ensures var c := ColorAt(b, x, y);
            1 + Run(b, x, y, Left, c) + Run(b, x, y, Right, c) >= 3 ==> RowTriple(b, x, y)
  {
    var c := ColorAt(b, x, y);
    var left, right := Run(b, x, y, Left, c), Run(b, x, y, Right, c);
    if left >= 2 {
      RunCell(b, x, y, Left, c, 1);
      RunCell(b, x, y, Left, c, 2);
      assert Line3(b, x - 2, y, Right, c);
    } else if left >= 1 && right >= 1 {
      RunCell(b, x, y, Left, c, 1);
      RunCell(b, x, y, Right, c, 1);
      assert Line3(b, x - 1, y, Right, c);
    } else if right >= 2 {
      RunCell(b, x, y, Right, c, 1);
      RunCell(b, x, y, Right, c, 2);
      assert Line3(b, x, y, Right, c);
    }
  }

  /** One of the three row windows through (x, y) holding the same colour makes the horizontal run at least three long. */
  lemma RowRunOfTriple(b: seq<int>, x: int, y: int)
    requires InBoard(x, y)
    ensures var c := ColorAt(b, x, y);
            RowTriple(b, x, y) ==> 1 + Run(b, x, y, Left, c) + Run(b, x, y, Right, c) >= 3
  {
    var c := ColorAt(b, x, y);
    if Line3(b, x - 2, y, Right, c) {
      assert Shift(Left, x, y, 1) == Shift(Right, x - 2, y, 1) && Shift(Left, x, y, 2) == Pos(x - 2, y);
      RunTwo(b, x, y, Left, c);
    } else if Line3(b, x - 1, y, Right, c) {
      assert Shift(Left, x, y, 1) == Pos(x - 1, y) && Shift(Right, x, y, 1) == Shift(Right, x - 1, y, 2);
      RunNext(b, x, y, Left, c);
      RunNext(b, x, y, Right, c);
    } else if Line3(b, x, y, Right, c) {
      RunTwo(b, x, y, Right, c);
    }
  }

  /** The vertical run through the origin has length 3 or more exactly when a vertical triple exists. */
  lemma ColumnRunIff(b: seq<int>, x: int, y: int)
    requires InBoard(x, y)
    ensures var c := ColorAt(b, x, y);
            1 + Run(b, x, y, Up, c) + Run(b, x, y, Down, c) >= 3 <==> ColumnTriple(b, x, y)
  {
    ColumnTripleOfRun(b, x, y);
    ColumnRunOfTriple(b, x, y);
  }

  /** A vertical run of three or more through (x, y) shows up as one of the three column windows. */
  lemma ColumnTripleOfRun(b: seq<int>, x: int, y: int)
    requires InBoard(x, y)
    ensures var c := ColorAt(b, x, y);
            1 + Run(b, x, y, Up, c) + Run(b, x, y, Down, c) >= 3 ==> ColumnTriple(b, x, y)
  {
    var c := ColorAt(b, x, y);
    var up, down := Run(b, x, y, Up, c), Run(b, x, y, Down, c);
    if up >= 2 {
      RunCell(b, x, y, Up, c, 1);
      RunCell(b, x, y, Up, c, 2);
      assert Line3(b, x, y - 2, Down, c);
    } else if up >= 1 && down >= 1 {
      RunCell(b, x, y, Up, c, 1);
      RunCell(b, x, y, Down, c, 1);
      assert Line3(b, x, y - 1, Down, c);
    } else if down >= 2 {
      RunCell(b, x, y, Down, c, 1);
      RunCell(b, x, y, Down, c, 2);
      assert Line3(b, x, y, Down, c);
    }
  }

  /** One of the three column windows through (x, y) holding the same colour makes the vertical run at least three long. */
  lemma ColumnRunOfTriple(b: seq<int>, x: int, y: int)
    requires InBoard(x, y)
    ensures var c := ColorAt(b, x, y);
            ColumnTriple(b, x, y) ==> 1 + Run(b, x, y, Up, c) + Run(b, x, y, Down, c) >= 3
  {
    var c := ColorAt(b, x, y);
    if Line3(b, x, y - 2, Down, c) {
      assert Shift(Up, x, y, 1) == Shift(Down, x, y - 2, 1) && Shift(Up, x, y, 2) == Pos(x, y - 2);
      RunTwo(b, x, y, Up, c);
    } else if Line3(b, x, y - 1, Down, c) {
      assert Shift(Up, x, y, 1) == Pos(x, y - 1) && Shift(Down, x, y, 1) == Shift(Down, x, y - 1, 2);
      RunNext(b, x, y, Up, c);
      RunNext(b, x, y, Down, c);
    } else if Line3(b, x, y, Down, c) {
      RunTwo(b, x, y, Down, c);
    }
  }

  /** checkForMatch pushes a match exactly when the origin's colour lines up three in a row
      through the origin, horizontally or vertically. */
  lemma DetectIff(b: seq<int>, x: int, y: int)
    requires InBoard(x, y)
    ensures Detect(b, x, y).Some? <==> RowTriple(b, x, y) || ColumnTriple(b, x, y)
  {
    RowRunIff(b, x, y);
    ColumnRunIff(b, x, y);
  }

  /** The cells of the horizontal run through (x, y) hold c. */
  lemma RowRunCells(b: seq<int>, x: int, y: int, c: int)
    ensures forall k :: x - Run(b, x, y, Left, c) <= k < x + Run(b, x, y, Right, c) + 1 && k != x ==> ColorAt(b, k, y) == c
  {
    forall k | x - Run(b, x, y, Left, c) <= k < x + Run(b, x, y, Right, c) + 1 && k != x ensures ColorAt(b, k, y) == c {
      if k < x {
        RunCell(b, x, y, Left, c, x - k);
      } else {
        RunCell(b, x, y, Right, c, k - x);
      }
    }
  }

  /** The horizontal run through (x, y): the cells x-left..x+right of row y, all of colour c,
      bounded by the edge of the board or by another colour. */
  lemma RowRunMaximal(b: seq<int>, x: int, y: int, c: int, left: int, right: int)
    requires InBoard(x, y) && c == ColorAt(b, x, y)
    requires left == Run(b, x, y, Left, c) && right == Run(b, x, y, Right, c)
    ensures MaximalRowRun(b, y, x - left, 1 + left + right, c)
  {
    RowRunCells(b, x, y, c);
    RowRunEnds(b, x, y, c);
  }

  /** The horizontal run through (x, y) lies on the board and is bounded by its edges or by another colour. */
  lemma RowRunEnds(b: seq<int>, x: int, y: int, c: int)
    requires InBoard(x, y)
    ensures var left, right := Run(b, x, y, Left, c), Run(b, x, y, Right, c);
            && 0 <= x - left && x + right + 1 <= W
            && (x - left == 0 || ColorAt(b, x - left - 1, y) != c)
            && (x + right + 1 == W || ColorAt(b, x + right + 1, y) != c)
  {
    LeftEnd(b, x, y, c);
    RightEnd(b, x, y, c);
  }

  /** The scan to the left stops at column 0 or at a cell of another colour. */
  lemma LeftEnd(b: seq<int>, x: int, y: int, c: int)
    requires InBoard(x, y)
    ensures var left := Run(b, x, y, Left, c);
            0 <= x - left && (x - left == 0 || ColorAt(b, x - left - 1, y) != c)
  {
    RunBounds(b, x, y, Left, c);
  }

  /** The scan to the right stops at the last column or at a cell of another colour. */
  lemma RightEnd(b: seq<int>, x: int, y: int, c: int)
    requires InBoard(x, y)
    ensures var right := Run(b, x, y, Right, c);
            x + right + 1 <= W && (x + right + 1 == W || ColorAt(b, x + right + 1, y) != c)
  {
    RunBounds(b, x, y, Right, c);
  }

  /** The cells of the vertical run through (x, y) hold c. */
  lemma ColumnRunCells(b: seq<int>, x: int, y: int, c: int)
    ensures forall k :: y - Run(b, x, y, Up, c) <= k < y + Run(b, x, y, Down, c) + 1 && k != y ==> ColorAt(b, x, k) == c
  {
    forall k | y - Run(b, x, y, Up, c) <= k < y + Run(b, x, y, Down, c) + 1 && k != y ensures ColorAt(b, x, k) == c {
      if k < y {
        RunCell(b, x, y, Up, c, y - k);
      } else {
        RunCell(b, x, y, Down, c, k - y);
      }
    }
  }

  /** The vertical run through (x, y): the cells y-up..y+down of column x, all of colour c,
      bounded by the edge of the board or by another colour. */
  lemma ColumnRunMaximal(b: seq<int>, x: int, y: int, c: int, up: int, down: int)
    requires InBoard(x, y) && c == ColorAt(b, x, y)
    requires up == Run(b, x, y, Up, c) && down == Run(b, x, y, Down, c)
    ensures MaximalColumnRun(b, x, y - up, 1 + up + down, c)
  {
    ColumnRunCells(b, x, y, c);
    ColumnRunEnds(b, x, y, c);
  }

  /** The vertical run through (x, y) lies on the board and is bounded by its edges or by another colour. */
  lemma ColumnRunEnds(b: seq<int>, x: int, y: int, c: int)
    requires InBoard(x, y)
    ensures var up, down := Run(b, x, y, Up, c), Run(b, x, y, Down, c);
            && 0 <= y - up && y + down + 1 <= H
            && (y - up == 0 || ColorAt(b, x, y - up - 1) != c)
            && (y + down + 1 == H || ColorAt(b, x, y + down + 1) != c)
  {
    UpEnd(b, x, y, c);
    DownEnd(b, x, y, c);
  }

  /** The scan upwards stops at row 0 or at a cell of another colour. */
  lemma UpEnd(b: seq<int>, x: int, y: int, c: int)
    requires InBoard(x, y)
    ensures var up := Run(b, x, y, Up, c);
            0 <= y - up && (y - up == 0 || ColorAt(b, x, y - up - 1) != c)
  {
    RunBounds(b, x, y, Up, c);
  }

  /** The scan downwards stops at the last row or at a cell of another colour. */
  lemma DownEnd(b: seq<int>, x: int, y: int, c: int)
    requires InBoard(x, y)
    ensures var down := Run(b, x, y, Down, c);
            y + down + 1 <= H && (y + down + 1 == H || ColorAt(b, x, y + down + 1) != c)
  {
    RunBounds(b, x, y, Down, c);
  }

  /** The match checkForMatch pushes has the origin it was given; each axis is either reset to
      length 1 and offset 0 (no triple on that axis) or is the maximal run of the origin's colour
      through the origin, lying on the board; and the match is well placed. */
  lemma DetectShape(b: seq<int>, x: int, y: int, m: Match)
    requires InBoard(x, y) && Detect(b, x, y) == Some(m)
    ensures var c := ColorAt(b, x, y);
            && m.originX == x && m.originY == y
            && WellPlaced(m)
            && (m.lengthX >= 3 <==> RowTriple(b, x, y))
            && (m.lengthX < 3 ==> m.lengthX == 1 && m.offsetX == 0)
            && (m.lengthX >= 3 ==> -m.lengthX < m.offsetX <= 0 && MaximalRowRun(b, y, m.StartX(), m.lengthX, c))
            && (m.lengthY >= 3 <==> ColumnTriple(b, x, y))
            && (m.lengthY < 3 ==> m.lengthY == 1 && m.offsetY == 0)
            && (m.lengthY >= 3 ==> -m.lengthY < m.offsetY <= 0 && MaximalColumnRun(b, x, m.StartY(), m.lengthY, c))
  {
    DetectRow(b, x, y, m);
    DetectColumn(b, x, y, m);
  }

  /** The horizontal axis of the match checkForMatch pushes. */
  lemma DetectRow(b: seq<int>, x: int, y: int, m: Match)
    requires InBoard(x, y) && Detect(b, x, y) == Some(m)
    ensures var c := ColorAt(b, x, y);
            && m.originX == x && m.originY == y
            && AxisOk(m.originX, m.offsetX, m.lengthX, W)
            && (m.lengthX >= 3 <==> RowTriple(b, x, y))
            && (m.lengthX < 3 ==> m.lengthX == 1 && m.offsetX == 0)
            && (m.lengthX >= 3 ==> -m.lengthX < m.offsetX <= 0 && MaximalRowRun(b, y, m.StartX(), m.lengthX, c))
  {
    var c := ColorAt(b, x, y);
    var left, right := Run(b, x, y, Left, c), Run(b, x, y, Right, c);
    RowRunIff(b, x, y);
    RowRunMaximal(b, x, y, c, left, right);
    assert m.lengthX >= 3 ==> m.StartX() == x - left && m.lengthX == 1 + left + right;
  }

  /** The vertical axis of the match checkForMatch pushes. */
  lemma DetectColumn(b: seq<int>, x: int, y: int, m: Match)
    requires InBoard(x, y) && Detect(b, x, y) == Some(m)
    ensures var c := ColorAt(b, x, y);
            && m.originX == x && m.originY == y
            && AxisOk(m.originY, m.offsetY, m.lengthY, H)
            && (m.lengthY >= 3 <==> ColumnTriple(b, x, y))
            && (m.lengthY < 3 ==> m.lengthY == 1 && m.offsetY == 0)
            && (m.lengthY >= 3 ==> -m.lengthY < m.offsetY <= 0 && MaximalColumnRun(b, x, m.StartY(), m.lengthY, c))
  {
    var c := ColorAt(b, x, y);
    var up, down := Run(b, x, y, Up, c), Run(b, x, y, Down, c);
    ColumnRunIff(b, x, y);
    ColumnRunMaximal(b, x, y, c, up, down);
    assert m.lengthY >= 3 ==> m.StartY() == y - up && m.lengthY == 1 + up + down;
  }

  /** No two side-by-side cells and no two stacked cells share a colour. */
  predicate DistinctNeighbours(b: seq<int>) {
    forall x, y :: 0 <= x < W && 0 <= y < H ==>
      && (x + 1 < W ==> ColorAt(b, x, y) != ColorAt(b, x + 1, y))
      && (y + 1 < H ==> ColorAt(b, x, y) != ColorAt(b, x, y + 1))
  }

  /** On a board without equal neighbours checkForMatch finds nothing anywhere. */
  lemma NoMatchOnDistinctNeighbours(b: seq<int>, x: int, y: int)
    requires DistinctNeighbours(b) && InBoard(x, y)
    ensures Detect(b, x, y) == None
  {
    DetectIff(b, x, y);
    assert !RowTriple(b, x, y) && !ColumnTriple(b, x, y);
  }
}

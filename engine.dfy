/** The game state of swapmatch3.js, the global `colors` array and the `pendingMatches` list,
    and the functions that update it in place. */
module Engine {
  import opened Grid
  import opened Matches
  import opened Detector
  import opened Generator
  import opened Gravity

  /** Flat index i is a cell of m's column segment above row y: zeroed by resolve's second loop
      before it reaches row y. */
  predicate InColumnBefore(m: Match, i: int, y: int) {
    exists k :: m.StartY() <= k < y && i == Idx(m.originX, k)
  }

  class Board {
    /** The colour of every cell, row after row: 0 is empty, 1..7 a colour. */
    var colors: array<int>
    /** The matches found by checkForMatch and not yet resolved. */
    var pendingMatches: seq<Match>

    ghost predicate Valid()
      reads this
    {
      colors.Length == W * H && AllWellPlaced(pendingMatches)
    }

    /** The page's start-up: empty state, then `init` calls `createBoard`. */
    constructor ()
      ensures Valid() && fresh(colors)
      ensures colors[..] == InitialBoard() && pendingMatches == []
    {
      colors := new int[0];
      pendingMatches := [];
      new;
      CreateBoard();
    }

    /** `createBoard`: a new colour array filled with the fixed starting pattern. */
    method CreateBoard()
      modifies this`colors
      ensures fresh(colors) && colors[..] == InitialBoard()
    {
      var a := new int[W * H];
      for i := 0 to W * H
        invariant forall k :: 0 <= k < i ==> a[k] == InitialColor(k)
      {
        a[i] := i % NUM_COLORS + 1;
        if i % 8 % 3 == 0 {
          a[i] := (a[i] + 1) % NUM_COLORS + 1;
        }
      }
      colors := a;
    }

    /** `getCellColor`: the low three bits of the stored value; 0 off the array. */
    function GetCellColor(x: int, y: int): (c: int)
      reads this, colors
      ensures c == ColorAt(colors[..], x, y)
    {
      var i := Idx(x, y);
      if 0 <= i < colors.Length then colors[i] % 8 else 0
    }

    /** `setCellColor`: fails ("Index out of bounds") when the flat index is off the board,
        otherwise writes that one cell. */
    method SetCellColor(x: int, y: int, color: int) returns (ok: bool)
      requires colors.Length == W * H
      modifies colors
      ensures ok <==> 0 <= Idx(x, y) < W * H
      ensures colors[..] == if ok then old(colors[..])[Idx(x, y) := color] else old(colors[..])
    {
      var i := Idx(x, y);
      if i >= W * H || i < 0 {
        return false;
      }
      colors[i] := color;
      ok := true;
    }

    /** `swapCells`: fails when either flat index is off the board, otherwise exchanges the two cells. */
    method SwapCells(x1: int, y1: int, x2: int, y2: int) returns (ok: bool)
      requires colors.Length == W * H
      modifies colors
      ensures ok <==> 0 <= Idx(x1, y1) < W * H && 0 <= Idx(x2, y2) < W * H
      ensures ok ==> colors[..] == Swapped(old(colors[..]), Idx(x1, y1), Idx(x2, y2))
      ensures !ok ==> colors[..] == old(colors[..])
    {
      var i, j := Idx(x1, y1), Idx(x2, y2);
      if i < 0 || i >= W * H || j < 0 || j >= W * H {
        return false;
      }
      var temp := colors[i];
      colors[i] := colors[j];
      colors[j] := temp;
      ok := true;
    }

    /** `Match.resolve`: zeroes the row segment, then the column segment. It fails at the first cell
        off the array, having zeroed the cells before it; otherwise the result is `Cleared`. */
    method Resolve(m: Match) returns (ok: bool)
      requires colors.Length == W * H
      modifies colors
      ensures ok <==> m.RowInRange() && m.ColumnInRange()
      ensures ok ==> colors[..] == Cleared(old(colors[..]), m)
      ensures forall i :: 0 <= i < W * H && colors[i] != old(colors[i]) ==> colors[i] == 0 && m.Covers(i)
    {
      ok := ClearRowSegment(m);
      if !ok {
        return;
      }
      ghost var mid := colors[..];
      ok := ClearColumnSegment(m);
      if ok {
        forall i | 0 <= i < W * H ensures colors[i] == Cleared(old(colors[..]), m)[i] {
          assert colors[i] == if m.InColumnSegment(i) then 0 else mid[i];
        }
      }
    }

    /** resolve's first loop: `setCellColor(x, originY, 0)` for x from StartX up to EndX, failing
        at the first flat index off the array. */
    method ClearRowSegment(m: Match) returns (ok: bool)
      requires colors.Length == W * H
      modifies colors
      ensures ok <==> m.RowInRange()
      ensures ok ==> forall i :: 0 <= i < W * H ==> colors[i] == if m.InRowSegment(i) then 0 else old(colors[i])
      ensures forall i :: 0 <= i < W * H && colors[i] != old(colors[i]) ==> colors[i] == 0 && m.InRowSegment(i)
    {
      var startX := m.originX + m.offsetX;
      var x := startX;
      while x < startX + m.lengthX
        invariant x == startX || startX < x <= m.EndX()
        invariant x > startX ==> 0 <= Idx(startX, m.originY) && Idx(x, m.originY) <= W * H
        invariant forall i :: 0 <= i < W * H ==>
                    colors[i] == if Idx(startX, m.originY) <= i < Idx(x, m.originY) then 0 else old(colors[i])
      {
        ok := SetCellColor(x, m.originY, 0);
        if !ok {
          return;
        }
        x := x + 1;
      }
      ok := true;
    }

    /** resolve's second loop: `setCellColor(originX, y, 0)` for y from StartY down the column,
        failing at the first flat index off the array. */
    method ClearColumnSegment(m: Match) returns (ok: bool)
      requires colors.Length == W * H
      modifies colors
      ensures ok <==> m.ColumnInRange()
      ensures ok ==> forall i :: 0 <= i < W * H ==> colors[i] == if m.InColumnSegment(i) then 0 else old(colors[i])
      ensures forall i :: 0 <= i < W * H && colors[i] != old(colors[i]) ==> colors[i] == 0 && m.InColumnSegment(i)
    {
      var startY := m.originY + m.offsetY;
      var y := startY;
      while y < startY + m.lengthY
        invariant y == startY || startY < y <= startY + m.lengthY
        invariant y > startY ==> 0 <= Idx(m.originX, startY) && Idx(m.originX, y - 1) < W * H
        invariant forall i :: 0 <= i < W * H ==>
                    colors[i] == if InColumnBefore(m, i, y) then 0 else old(colors[i])
      {
        ok := SetCellColor(m.originX, y, 0);
        if !ok {
          return;
        }
        forall i | 0 <= i < W * H
          ensures InColumnBefore(m, i, y + 1) <==> InColumnBefore(m, i, y) || i == Idx(m.originX, y)
        {
          if i == Idx(m.originX, y) {
            assert m.StartY() <= y < y + 1;
          }
          if InColumnBefore(m, i, y + 1) && i != Idx(m.originX, y) {
            var k :| m.StartY() <= k < y + 1 && i == Idx(m.originX, k);
            assert k < y;
          }
        }
        y := y + 1;
      }
      ok := true;
      forall i | 0 <= i < W * H ensures InColumnBefore(m, i, y) == m.InColumnSegment(i) {
      }
    }

    /** `checkForMatch(originX, originY)`: scans the four directions from the cell and pushes the
        match it finds. The colours are not changed. */
    method CheckForMatch(originX: int, originY: int)
      requires Valid() && InBoard(originX, originY)
      modifies this`pendingMatches
      ensures Valid()
      ensures pendingMatches == old(pendingMatches) + Pushed(colors[..], originX, originY)
    {
      var found := ScanMatch(originX, originY);
      if found.Some? {
        pendingMatches := pendingMatches + [found.value];
      }
      assert AllWellPlaced(pendingMatches) by {
        var pushed := Pushed(colors[..], originX, originY);
        PushedSpec(colors[..], originX, originY);
        forall k | 0 <= k < |pendingMatches| ensures WellPlaced(pendingMatches[k]) {
          if k < |old(pendingMatches)| {
            assert pendingMatches[k] == old(pendingMatches)[k];
          } else {
            assert pendingMatches[k] == pushed[k - |old(pendingMatches)|];
          }
        }
      }
    }

    /** The scan of `checkForMatch`: counts the cells of the origin's colour above, below, left and
        right of it, resets an axis shorter than 3, and gives the match when an axis is 3 or longer. */
    method ScanMatch(originX: int, originY: int) returns (found: Option<Match>)
      requires InBoard(originX, originY)
      ensures found == Detect(colors[..], originX, originY)
    {
      var originColor := GetCellColor(originX, originY);
      var up := CountRun(originX, originY, Up, originColor);
      var down := CountRun(originX, originY, Down, originColor);
      var left := CountRun(originX, originY, Left, originColor);
      var right := CountRun(originX, originY, Right, originColor);
      var lx: int, ly: int, offx: int, offy: int := 1 + left + right, 1 + up + down, -left, -up;
      // don't pass values less than 3: a short axis is reset
      if lx < 3 {
        lx, offx := 1, 0;
      }
      if ly < 3 {
        ly, offy := 1, 0;
      }
      found := if lx >= 3 || ly >= 3 then Some(Match(originX, originY, offx, offy, lx, ly)) else None;
      AssembleReset(originX, originY, up, down, left, right, lx, ly, offx, offy);
    }

    /** One of the four `while` loops of `checkForMatch`: steps from (x, y) in direction d while the
        next cell is on the board and has colour c, and counts the steps. */
    method CountRun(x: int, y: int, d: Dir, c: int) returns (n: int)
      ensures n == Run(colors[..], x, y, d, c)
    {
      ghost var b := colors[..];
      n := 0;
      var cx, cy := x, y;
      var next := Shift(d, cx, cy, 1);
      while InBoard(next.col, next.row) && GetCellColor(next.col, next.row) == c
        invariant next == Shift(d, cx, cy, 1)
        invariant n + Run(b, cx, cy, d, c) == Run(b, x, y, d, c)
        decreases Room(d, cx, cy)
      {
        RunNext(b, cx, cy, d, c);
        n, cx, cy := n + 1, next.col, next.row;
        next := Shift(d, cx, cy, 1);
      }
      RunEnd(b, cx, cy, d, c);
    }

    /** The gravity loop of `resolveMatchesCascade` over column x, `for (y = startY; y > 0; y--)`:
        an empty cell is swapped with the nearest tile above it, or with row 0 when there is none. */
    method DropColumn(x: int, startY: int)
      requires colors.Length == W * H && 0 <= x < W && startY < H
      modifies colors
      ensures colors[..] == DropFrom(old(colors[..]), x, startY)
    {
      var y := startY;
      while y > 0
        invariant y <= startY
        invariant DropFrom(colors[..], x, y) == DropFrom(old(colors[..]), x, startY)
      {
        var nextNonEmptyY := y - 1;
        if GetCellColor(x, y) == 0 {
          ghost var now := colors[..];
          while nextNonEmptyY > 0 && GetCellColor(x, nextNonEmptyY) == 0
            invariant 0 <= nextNonEmptyY <= y - 1
            invariant colors[..] == now
            invariant Above(now, x, nextNonEmptyY) == Above(now, x, y - 1)
          {
            nextNonEmptyY := nextNonEmptyY - 1;
          }
          var ok := SwapCells(x, y, x, nextNonEmptyY);
          assert ok;
        }
        y := y - 1;
      }
    }

    /** The refill loop of `resolveMatchesCascade` for column x: while the cell is empty, write the
        next random colour and go one row down. Writing below the last row throws. */
    method RefillTop(x: int, random: nat -> int, drawn: nat) returns (ok: bool, next: nat)
      requires colors.Length == W * H
      modifies colors
      ensures var o := Refill(old(colors[..]), x, 0, random, drawn);
              colors[..] == o.board && (ok <==> o.Ok?) && (ok ==> next == o.drawn)
    {
      var lowestEmptyRow := 0;
      next := drawn;
      while GetCellColor(x, lowestEmptyRow) == 0
        invariant Refill(colors[..], x, lowestEmptyRow, random, next) == Refill(old(colors[..]), x, 0, random, drawn)
        decreases W * H - Idx(x, lowestEmptyRow)
      {
        ok := SetCellColor(x, lowestEmptyRow, random(next));
        if !ok {
          return;
        }
        next, lowestEmptyRow := next + 1, lowestEmptyRow + 1;
      }
      ok := true;
    }

    /** `resolveMatchesCascade`: resolve every pending match, then for each match let the tiles of
        its span fall and refill the top; finally forget the pending matches. When a refill throws,
        the colours are left as they are at that point and the pending matches are kept. */
    method ResolveMatchesCascade(random: nat -> int) returns (ok: bool)
      requires Valid()
      modifies colors, this`pendingMatches
      ensures Valid()
      ensures var o := Cascade(old(colors[..]), old(pendingMatches), random);
              colors[..] == o.board && (ok <==> o.Ok?)
      ensures pendingMatches == if ok then [] else old(pendingMatches)
    {
      ResolvePending();
      ghost var target := Cascade(old(colors[..]), pendingMatches, random);
      var drawn: nat := 0;
      var i := 0;
      while i < |pendingMatches|
        invariant 0 <= i <= |pendingMatches| && pendingMatches == old(pendingMatches)
        invariant ResolveAll(colors[..], pendingMatches[i..], random, drawn) == target
      {
        ghost var before, rest := colors[..], pendingMatches[i..];
        assert rest[0] == pendingMatches[i] && rest[1..] == pendingMatches[i + 1..];
        var next;
        ok, next := RepairSpan(pendingMatches[i], random, drawn);
        if !ok {
          return;
        }
        drawn := next;
        i := i + 1;
      }
      pendingMatches := [];
      ok := true;
    }

    /** The first loop of `resolveMatchesCascade`: `resolve()` on every pending match in turn. */
    method ResolvePending()
      requires Valid()
      modifies colors
      ensures colors[..] == ClearAll(old(colors[..]), pendingMatches)
    {
      var i := 0;
      while i < |pendingMatches|
        invariant 0 <= i <= |pendingMatches|
        invariant colors[..] == ClearAll(old(colors[..]), pendingMatches[..i])
      {
        WellPlacedInRange(pendingMatches[i], 0);
        var cleared := Resolve(pendingMatches[i]);
        assert cleared;
        assert pendingMatches[..i + 1][..i] == pendingMatches[..i];
        i := i + 1;
      }
      assert pendingMatches[..i] == pendingMatches;
    }

    /** The body of the second loop of `resolveMatchesCascade` for match m: the gravity pass over
        every column of its span from its lowest row, then the refill of those columns. */
    method RepairSpan(m: Match, random: nat -> int, drawn: nat) returns (ok: bool, next: nat)
      requires colors.Length == W * H && WellPlaced(m)
      modifies colors
      ensures var o := ResolveOne(old(colors[..]), m, random, drawn);
              colors[..] == o.board && (ok <==> o.Ok?) && (ok ==> next == o.drawn)
    {
      WellPlacedInRange(m, 0);
      // start at the bottom and work up
      var startY := m.originY + m.offsetY + m.lengthY - 1;
      var startX := m.originX + m.offsetX;
      var endX := startX + m.lengthX;
      assert startY == m.Bottom() && startX == m.StartX() && endX == m.EndX();
      ghost var before := colors[..];
      DropColumns(startX, endX, startY);
      ghost var dropped := colors[..];
      assert dropped == DropSpan(before, m.StartX(), m.EndX(), m.Bottom());
      ok, next := RefillColumns(startX, endX, random, drawn);
      assert ResolveOne(before, m, random, drawn) == RefillSpan(dropped, m.StartX(), m.EndX(), random, drawn);
    }

    /** `for (x = startX; x < endX; x++)` over the gravity pass of each column. */
    method DropColumns(startX: int, endX: int, startY: int)
      requires colors.Length == W * H && 0 <= startX && endX <= W && startY < H
      modifies colors
      ensures colors[..] == DropSpan(old(colors[..]), startX, endX, startY)
    {
      var x := startX;
      while x < endX
        invariant startX <= x && (startX <= endX ==> x <= endX)
        invariant DropSpan(colors[..], x, endX, startY) == DropSpan(old(colors[..]), startX, endX, startY)
      {
        DropColumn(x, startY);
        x := x + 1;
      }
    }

    /** `for (x = startX; x < endX; x++)` over the refill of each column; a throw ends it. */
    method RefillColumns(startX: int, endX: int, random: nat -> int, drawn: nat) returns (ok: bool, next: nat)
      requires colors.Length == W * H
      modifies colors
      ensures var o := RefillSpan(old(colors[..]), startX, endX, random, drawn);
              colors[..] == o.board && (ok <==> o.Ok?) && (ok ==> next == o.drawn)
    {
      next := drawn;
      var x := startX;
      while x < endX
        invariant startX <= x && (startX <= endX ==> x <= endX)
        invariant RefillSpan(colors[..], x, endX, random, next) == RefillSpan(old(colors[..]), startX, endX, random, drawn)
      {
        var filled, after := RefillTop(x, random, next);
        if !filled {
          return false, next;
        }
        next := after;
        x := x + 1;
      }
      ok := true;
    }

    /** The second click of `cellMouseUp` with (sx, sy) selected and (x, y) clicked: a swap of two
        adjacent non-empty cells, kept and cascaded when either cell then holds a match, swapped
        back otherwise. */
    method PlayMove(sx: int, sy: int, x: int, y: int, random: nat -> int) returns (result: MoveResult)
      requires Valid() && InBoard(sx, sy) && InBoard(x, y)
      modifies colors, this`pendingMatches
      ensures Valid()
      ensures var p := PlayOn(old(colors[..]), old(pendingMatches), sx, sy, x, y, random);
              result == p.result && colors[..] == p.board && pendingMatches == p.pending
    {
      if !(AreCellsAdjacent(sx, sy, x, y) && GetCellColor(x, y) != 0 && GetCellColor(sx, sy) != 0) {
        return Rejected;
      }
      var swapped := SwapCells(sx, sy, x, y);
      CheckForMatch(x, y);
      CheckForMatch(sx, sy);
      if |pendingMatches| == 0 {
        // undo illegal move
        swapped := SwapCells(sx, sy, x, y);
        return Undone;
      }
      var ok := ResolveMatchesCascade(random);
      result := if ok then Resolved else Aborted;
    }
  }

  /** The axes checkForMatch pushes, after the reset of short axes, are those Assemble builds. */
  lemma AssembleReset(x: int, y: int, up: int, down: int, left: int, right: int, lx: int, ly: int, offx: int, offy: int)
    requires lx == (if 1 + left + right < 3 then 1 else 1 + left + right)
    requires offx == (if 1 + left + right < 3 then 0 else -left)
    requires ly == (if 1 + up + down < 3 then 1 else 1 + up + down)
    requires offy == (if 1 + up + down < 3 then 0 else -up)
    ensures Assemble(x, y, up, down, left, right) == if lx >= 3 || ly >= 3 then Some(Match(x, y, offx, offy, lx, ly)) else None
  {
  }

  /** What `checkForMatch` pushes onto `pendingMatches`: the match it finds, or nothing. */
  function Pushed(b: seq<int>, x: int, y: int): (ms: seq<Match>)
    ensures |ms| <= 1
  {
    var found := Detect(b, x, y);
    if found.Some? then [found.value] else []
  }

  /** checkForMatch at a cell of the board pushes exactly when the origin's colour lines up three
      in a row through it, and what it pushes is a well-placed match with that origin. */
  lemma PushedSpec(b: seq<int>, x: int, y: int)
    requires InBoard(x, y)
    ensures AllWellPlaced(Pushed(b, x, y))
    ensures Pushed(b, x, y) != [] <==> RowTriple(b, x, y) || ColumnTriple(b, x, y)
    ensures forall m :: m in Pushed(b, x, y) ==> m.originX == x && m.originY == y
  {
    DetectIff(b, x, y);
    if Detect(b, x, y).Some? {
      DetectShape(b, x, y, Detect(b, x, y).value);
    }
  }

  /** How the second click of a move ends: not a legal pair, swapped back, cascaded, or stopped by a
      refill that throws. */
  datatype MoveResult = Rejected | Undone | Resolved | Aborted

  /** The outcome of a move with the colours and the pending matches it leaves. */
  datatype Play = Play(result: MoveResult, board: seq<int>, pending: seq<Match>)

  /** The pending matches after the swap of (sx, sy) with (x, y) and the two calls of checkForMatch,
      the clicked cell first. */
  function Found(b: seq<int>, pending: seq<Match>, sx: int, sy: int, x: int, y: int): (ms: seq<Match>)
    requires |b| == W * H && InBoard(sx, sy) && InBoard(x, y)
  {
    var s := Swapped(b, Idx(sx, sy), Idx(x, y));
    pending + Pushed(s, x, y) + Pushed(s, sx, sy)
  }

  lemma FoundWellPlaced(b: seq<int>, pending: seq<Match>, sx: int, sy: int, x: int, y: int)
    requires |b| == W * H && InBoard(sx, sy) && InBoard(x, y) && AllWellPlaced(pending)
    ensures AllWellPlaced(Found(b, pending, sx, sy, x, y))
  {
    var s := Swapped(b, Idx(sx, sy), Idx(x, y));
    PushedSpec(s, x, y);
    PushedSpec(s, sx, sy);
    var ms := Found(b, pending, sx, sy, x, y);
    var p1, p2 := Pushed(s, x, y), Pushed(s, sx, sy);
    forall k | 0 <= k < |ms| ensures WellPlaced(ms[k]) {
      if k < |pending| {
        assert ms[k] == pending[k];
      } else if k < |pending| + |p1| {
        assert ms[k] == p1[k - |pending|];
      } else {
        assert ms[k] == p2[k - |pending| - |p1|];
      }
    }
  }

  /** Lines 123-134 of `cellMouseUp` on a snapshot of the colours and the pending matches. */
  function PlayOn(b: seq<int>, pending: seq<Match>, sx: int, sy: int, x: int, y: int, random: nat -> int): (p: Play)
    requires |b| == W * H && InBoard(sx, sy) && InBoard(x, y) && AllWellPlaced(pending)
    ensures |p.board| == W * H
  {
    if !(AreCellsAdjacent(sx, sy, x, y) && ColorAt(b, x, y) != 0 && ColorAt(b, sx, sy) != 0) then
      Play(Rejected, b, pending)
    else
      var s := Swapped(b, Idx(sx, sy), Idx(x, y));
      var found := Found(b, pending, sx, sy, x, y);
      if found == [] then
        Play(Undone, Swapped(s, Idx(sx, sy), Idx(x, y)), found)
      else
        FoundWellPlaced(b, pending, sx, sy, x, y);
        match Cascade(s, found, random)
        case Ok(r, _) => Play(Resolved, r, [])
        case Thrown(r) => Play(Aborted, r, found)
  }

  /** A move is refused, and changes nothing, exactly when the two cells are neither grid neighbours
      nor the two ends of a row wrap, or one of them is empty. */
  lemma PlayRejected(b: seq<int>, pending: seq<Match>, sx: int, sy: int, x: int, y: int, random: nat -> int)
    requires IsBoard(b) && InBoard(sx, sy) && InBoard(x, y) && AllWellPlaced(pending)
    ensures var p := PlayOn(b, pending, sx, sy, x, y, random);
            && (p.result == Rejected <==>
                  || !(Orthogonal(sx, sy, x, y) || RowWrap(sx, sy, x, y))
                  || b[Idx(x, y)] == 0 || b[Idx(sx, sy)] == 0)
            && (p.result == Rejected ==> p.board == b && p.pending == pending)
  {
    AdjacentCells(sx, sy, x, y);
  }

  /** An undone move leaves the colours as they were, and it happens only with nothing pending. */
  lemma PlayUndone(b: seq<int>, pending: seq<Match>, sx: int, sy: int, x: int, y: int, random: nat -> int)
    requires |b| == W * H && InBoard(sx, sy) && InBoard(x, y) && AllWellPlaced(pending)
    ensures var p := PlayOn(b, pending, sx, sy, x, y, random);
            p.result == Undone ==> p.board == b && p.pending == [] && pending == []
  {
    SwapSelfInverse(b, Idx(sx, sy), Idx(x, y));
  }

  /** A match left queued by an aborted cascade keeps every later legal move: the swap is never
      undone, whatever the new scans find, and the old matches are cascaded again. */
  lemma PlayStaleQueue(b: seq<int>, pending: seq<Match>, sx: int, sy: int, x: int, y: int, random: nat -> int)
    requires |b| == W * H && InBoard(sx, sy) && InBoard(x, y) && AllWellPlaced(pending) && pending != []
    requires AreCellsAdjacent(sx, sy, x, y) && ColorAt(b, x, y) != 0 && ColorAt(b, sx, sy) != 0
    ensures var p := PlayOn(b, pending, sx, sy, x, y, random);
            p.result == Resolved || p.result == Aborted
  {
    assert pending <= Found(b, pending, sx, sy, x, y);
  }

  /** An aborted move leaves a board of colours and keeps queued every match it started with, followed
      by those the two scans found. */
  lemma PlayAborted(b: seq<int>, pending: seq<Match>, sx: int, sy: int, x: int, y: int, random: nat -> int)
    requires IsBoard(b) && InBoard(sx, sy) && InBoard(x, y) && AllWellPlaced(pending) && InColors(random)
    ensures var p := PlayOn(b, pending, sx, sy, x, y, random);
            p.result == Aborted ==>
              && IsBoard(p.board) && p.pending != [] && pending <= p.pending
              && p.pending == Found(b, pending, sx, sy, x, y)
  {
    PlayKeepsBoard(b, pending, sx, sy, x, y, random);
  }

  /** Every outcome of a move leaves each cell empty or a colour. */
  lemma PlayKeepsBoard(b: seq<int>, pending: seq<Match>, sx: int, sy: int, x: int, y: int, random: nat -> int)
    requires IsBoard(b) && InBoard(sx, sy) && InBoard(x, y) && AllWellPlaced(pending) && InColors(random)
    ensures IsBoard(PlayOn(b, pending, sx, sy, x, y, random).board)
  {
    var p := PlayOn(b, pending, sx, sy, x, y, random);
    if p.result == Undone {
      SwapSelfInverse(b, Idx(sx, sy), Idx(x, y));
    } else if p.result != Rejected {
      var s := Swapped(b, Idx(sx, sy), Idx(x, y));
      var found := Found(b, pending, sx, sy, x, y);
      FoundWellPlaced(b, pending, sx, sy, x, y);
      SwapKeepsBoard(b, Idx(sx, sy), Idx(x, y));
      CascadeSpec(s, found, random, Cascade(s, found, random));
    }
  }

  /** With nothing pending, a legal pair of cells is swapped back exactly when, after the swap,
      neither cell lines up three of its colour along its row or its column. */
  lemma PlayUndoneIff(b: seq<int>, sx: int, sy: int, x: int, y: int, random: nat -> int)
    requires |b| == W * H && InBoard(sx, sy) && InBoard(x, y)
    requires AreCellsAdjacent(sx, sy, x, y) && ColorAt(b, x, y) != 0 && ColorAt(b, sx, sy) != 0
    ensures var s := Swapped(b, Idx(sx, sy), Idx(x, y));
            PlayOn(b, [], sx, sy, x, y, random).result == Undone <==>
              !(RowTriple(s, x, y) || ColumnTriple(s, x, y) || RowTriple(s, sx, sy) || ColumnTriple(s, sx, sy))
  {
    var s := Swapped(b, Idx(sx, sy), Idx(x, y));
    PushedSpec(s, x, y);
    PushedSpec(s, sx, sy);
  }

  /** A resolved move leaves nothing pending and a board of colours: every span it found is refilled,
      no cell that held a tile after the swap is empty, and a full board stays full. */
  lemma PlayResolved(b: seq<int>, pending: seq<Match>, sx: int, sy: int, x: int, y: int, random: nat -> int)
    requires IsBoard(b) && InBoard(sx, sy) && InBoard(x, y) && AllWellPlaced(pending) && InColors(random)
    ensures var p := PlayOn(b, pending, sx, sy, x, y, random);
            var s := Swapped(b, Idx(sx, sy), Idx(x, y));
            p.result == Resolved ==>
              && p.pending == [] && IsBoard(p.board) && NoNewEmpties(s, p.board)
              && (forall m :: m in Found(b, pending, sx, sy, x, y) ==> Repaired(p.board, m))
              && (IsFull(b) ==> IsFull(p.board))
  {
    var p := PlayOn(b, pending, sx, sy, x, y, random);
    if p.result == Resolved {
      var s := Swapped(b, Idx(sx, sy), Idx(x, y));
      var found := Found(b, pending, sx, sy, x, y);
      FoundWellPlaced(b, pending, sx, sy, x, y);
      SwapKeepsBoard(b, Idx(sx, sy), Idx(x, y));
      CascadeSpec(s, found, random, Cascade(s, found, random));
    }
  }

  /** A move on a full board that finds one match aborts exactly when that match clears a whole
      column; otherwise it resolves. */
  lemma PlayAbortsIff(b: seq<int>, sx: int, sy: int, x: int, y: int, random: nat -> int, m: Match)
    requires IsFull(b) && InBoard(sx, sy) && InBoard(x, y) && InColors(random)
    requires AreCellsAdjacent(sx, sy, x, y) && Found(b, [], sx, sy, x, y) == [m]
    ensures var p := PlayOn(b, [], sx, sy, x, y, random);
            && (p.result == Aborted <==> m.lengthY == H)
            && (p.result == Resolved <==> m.lengthY != H)
  {
    var s := Swapped(b, Idx(sx, sy), Idx(x, y));
    FoundWellPlaced(b, [], sx, sy, x, y);
    assert WellPlaced([m][0]);
    assert IsFull(s);
    CascadeOneIff(s, m, random);
  }

  /** From the starting board, moving (1,1) onto (1,0) resolves the row of three it makes at the top
      and leaves the board full, with nothing pending. */
  lemma FirstMoveResolves(random: nat -> int)
    requires InColors(random)
    ensures var p := PlayOn(InitialBoard(), [], 1, 1, 1, 0, random);
            p.result == Resolved && p.pending == [] && IsFull(p.board)
            && Repaired(p.board, Match(1, 0, -1, 0, 3, 1))
  {
    var b := InitialBoard();
    InitialBoardFull();
    InitialBoardHasMove();
    var m := Match(1, 0, -1, 0, 3, 1);
    assert Found(b, [], 1, 1, 1, 0) == [m];
    PlayAbortsIff(b, 1, 1, 1, 0, random, m);
    PlayResolved(b, [], 1, 1, 1, 0, random);
  }
}

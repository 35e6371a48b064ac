/** The starting board of `createBoard`: a fixed arithmetic pattern, no randomness. */
module Generator {
  import opened Grid
  import opened Matches
  import opened Detector

  /** The colour `createBoard` stores at flat index i: `i % 7 + 1`, bumped on columns 0, 3 and 6. */
  function InitialColor(i: nat): (c: int)
    ensures 1 <= c <= NUM_COLORS
  {
    var c := i % NUM_COLORS + 1;
    if i % 8 % 3 == 0 then (c + 1) % NUM_COLORS + 1 else c
  }

  function InitialBoard(): (b: seq<int>)
    ensures |b| == W * H
  {
    seq(W * H, i requires 0 <= i => InitialColor(i))
  }

  /** The colour of cell (x, y) of the starting board: a diagonal pattern `(x + y) % 7 + 1`,
      shifted by two on columns 0, 3 and 6. */
  lemma {:induction false} InitialColorAt(x: int, y: int)
    requires InBoard(x, y)
    ensures InitialBoard()[Idx(x, y)] == (x + y + if x % 3 == 0 then 2 else 0) % NUM_COLORS + 1
  {
    var i := Idx(x, y);
    assert i % 8 == x;
    assert i == 7 * y + (x + y);
    assert i % 7 == (x + y) % 7;
    assert InitialBoard()[i] == InitialColor(i);
    if x % 3 == 0 {
      ModSevenShift(x + y, 2);
    }
  }

  /** Adding k to a remainder modulo 7 and reducing again is adding k first. */
  lemma ModSevenShift(a: int, k: int)
    requires 0 <= k < NUM_COLORS
    ensures (a % NUM_COLORS + k) % NUM_COLORS == (a + k) % NUM_COLORS
  {
    var q, r := a / NUM_COLORS, a % NUM_COLORS;
    assert a == NUM_COLORS * q + r;
    if r + k < NUM_COLORS {
      assert a + k == NUM_COLORS * q + (r + k);
    } else {
      assert a + k == NUM_COLORS * (q + 1) + (r + k - NUM_COLORS);
    }
  }

  /** Every cell of the starting board holds a colour. */
  lemma InitialBoardFull()
    ensures IsFull(InitialBoard())
  {
  }

  /** No two neighbouring cells of the starting board share a colour. */
  lemma InitialNeighboursDistinct()
    ensures DistinctNeighbours(InitialBoard())
  {
    forall x, y | 0 <= x < W && 0 <= y < H
      ensures && (x + 1 < W ==> ColorAt(InitialBoard(), x, y) != ColorAt(InitialBoard(), x + 1, y))
              && (y + 1 < H ==> ColorAt(InitialBoard(), x, y) != ColorAt(InitialBoard(), x, y + 1))
    {
      InitialCellDistinct(x, y);
    }
  }

  /** Cell (x, y) of the starting board differs from its right and its lower neighbour. */
  lemma InitialCellDistinct(x: int, y: int)
    requires InBoard(x, y)
    ensures x + 1 < W ==> ColorAt(InitialBoard(), x, y) != ColorAt(InitialBoard(), x + 1, y)
    ensures y + 1 < H ==> ColorAt(InitialBoard(), x, y) != ColorAt(InitialBoard(), x, y + 1)
  {
    var v := x + y + if x % 3 == 0 then 2 else 0;
    InitialColorAt(x, y);
    if x + 1 < W {
      InitialColorAt(x + 1, y);
      var d := 1 + (if (x + 1) % 3 == 0 then 2 else 0) - (if x % 3 == 0 then 2 else 0);
      ModSevenStep(v, d);
    }
    if y + 1 < H {
      InitialColorAt(x, y + 1);
      ModSevenStep(v, 1);
    }
  }

  /** A step of 1, 3 or -1 changes the remainder modulo 7. */
  lemma ModSevenStep(v: int, d: int)
    requires d == 1 || d == 3 || d == -1
    ensures (v + d) % NUM_COLORS != v % NUM_COLORS
  {
  }

  /** The starting board holds no match: checkForMatch finds nothing at any cell. */
  lemma InitialBoardHasNoMatch(x: int, y: int)
    requires InBoard(x, y)
    ensures Detect(InitialBoard(), x, y) == None
  {
    InitialNeighboursDistinct();
    NoMatchOnDistinctNeighbours(InitialBoard(), x, y);
  }

  /** ... and yet one move makes a match: swapping (1,1) into (1,0) lines up colour 3 along row 0,
      while checkForMatch at (1,1) still finds nothing. */
  lemma InitialBoardHasMove()
    ensures var s := Swapped(InitialBoard(), Idx(1, 1), Idx(1, 0));
            && AreCellsAdjacent(1, 1, 1, 0)
            && Detect(s, 1, 0) == Some(Match(1, 0, -1, 0, 3, 1))
            && Detect(s, 1, 1) == None
  {
    InitialColorAt(0, 0);
    InitialColorAt(1, 0);
    InitialColorAt(2, 0);
    InitialColorAt(3, 0);
    InitialColorAt(1, 1);
    InitialColorAt(0, 1);
    InitialColorAt(2, 1);
    InitialColorAt(1, 2);
  }
}

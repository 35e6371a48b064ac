/** The second loop of `resolveMatchesCascade`: for every pending match, empties bubble to the top of
    each column of its span and the tiles above them fall, then the empties left at the top of those
    columns are refilled with random colours. Column slices are sequences read top (row 0) to bottom. */
module Gravity {
  import opened Grid
  import opened Matches

  /** The tiles of a column slice, top to bottom, with the empty cells left out. */
  function NonEmpty(s: seq<int>): (t: seq<int>)
    ensures |t| <= |s|
    ensures forall k :: 0 <= k < |t| ==> t[k] != 0
  {
    if s == [] then [] else (if s[0] != 0 then [s[0]] else []) + NonEmpty(s[1..])
  }

  function Zeros(n: nat): (z: seq<int>)
    ensures |z| == n && forall k :: 0 <= k < n ==> z[k] == 0
  {
    seq(n, _ => 0)
  }

  /** Where gravity leaves a column slice: its empty cells on top, its tiles below them in their
      original top-to-bottom order. */
  function Settle(s: seq<int>): (r: seq<int>)
    ensures |r| == |s|
  {
    Zeros(|s| - |NonEmpty(s)|) + NonEmpty(s)
  }

  /** No empty cell lies below a tile. */
  predicate Compacted(s: seq<int>) {
    forall i, j :: 0 <= i < j < |s| && s[j] == 0 ==> s[i] == 0
  }

  lemma {:induction false} NonEmptyAppend(s: seq<int>, t: seq<int>)
    ensures NonEmpty(s + t) == NonEmpty(s) + NonEmpty(t)
  {
    if s == [] {
      assert s + t == t;
    } else {
      assert (s + t)[1..] == s[1..] + t;
      NonEmptyAppend(s[1..], t);
    }
  }

  lemma {:induction false} NonEmptyOfEmpties(s: seq<int>)
    requires forall k :: 0 <= k < |s| ==> s[k] == 0
    ensures NonEmpty(s) == []
  {
    if s != [] {
      NonEmptyOfEmpties(s[1..]);
    }
  }

  lemma {:induction false} NonEmptyOfTiles(s: seq<int>)
    requires forall k :: 0 <= k < |s| ==> s[k] != 0
    ensures NonEmpty(s) == s
  {
    if s != [] {
      NonEmptyOfTiles(s[1..]);
      assert [s[0]] + s[1..] == s;
    }
  }

  /** A slice without tiles is a slice of empty cells. */
  lemma {:induction false} NoTilesAllEmpty(s: seq<int>)
    requires NonEmpty(s) == []
    ensures forall k :: 0 <= k < |s| ==> s[k] == 0
  {
    if s != [] {
      NonEmptyAppend([s[0]], s[1..]);
      assert [s[0]] + s[1..] == s;
      NoTilesAllEmpty(s[1..]);
      assert forall k :: 1 <= k < |s| ==> s[k] == s[1..][k - 1];
    }
  }

  /** Settling only moves the empty cells of a slice: it holds the same values. */
  lemma {:induction false} SettlePermutes(s: seq<int>)
    ensures multiset(Settle(s)) == multiset(s)
  {
    if s != [] {
      var rest := s[1..];
      SettlePermutes(rest);
      assert s == [s[0]] + rest;
      var k := |rest| - |NonEmpty(rest)|;
      assert NonEmpty(s) == (if s[0] != 0 then [s[0]] else []) + NonEmpty(rest);
      if s[0] == 0 {
        assert Zeros(k + 1) == [0] + Zeros(k);
      }
    }
  }

  /** Settling keeps the tiles and their order, keeps the slice's contents, and leaves no empty cell
      below a tile. */
  lemma SettleSpec(s: seq<int>)
    ensures NonEmpty(Settle(s)) == NonEmpty(s)
    ensures multiset(Settle(s)) == multiset(s)
    ensures Compacted(Settle(s))
  {
    SettleKeepsTiles(s);
    SettlePermutes(s);
    SettleCompacted(s);
  }

  lemma SettleKeepsTiles(s: seq<int>)
    ensures NonEmpty(Settle(s)) == NonEmpty(s)
  {
    var z := Zeros(|s| - |NonEmpty(s)|);
    NonEmptyAppend(z, NonEmpty(s));
    NonEmptyOfEmpties(z);
    NonEmptyOfTiles(NonEmpty(s));
  }

  lemma SettleCompacted(s: seq<int>)
    ensures Compacted(Settle(s))
  {
    var z, t := Zeros(|s| - |NonEmpty(s)|), NonEmpty(s);
    var r := Settle(s);
    forall i, j | 0 <= i < j < |r| && r[j] == 0 ensures r[i] == 0 {
      if i < |z| {
        assert r[i] == z[i];
      }
    }
  }

  /** A compacted slice is already settled. */
  lemma {:induction false} CompactedIsSettled(t: seq<int>)
    requires Compacted(t)
    ensures t == Settle(t)
  {
    if t != [] {
      if t[0] == 0 {
        var rest := t[1..];
        assert Compacted(rest) by {
          forall i, j | 0 <= i < j < |rest| && rest[j] == 0 ensures rest[i] == 0 {
            assert t[j + 1] == 0;
          }
        }
        CompactedIsSettled(rest);
        NonEmptyAppend([0], rest);
        assert [0] + rest == t;
        var k := |rest| - |NonEmpty(rest)|;
        assert Zeros(k + 1) == [0] + Zeros(k);
      } else {
        NonEmptyOfTiles(t);
      }
    }
  }

  /** A compacted slice holding the same tiles in the same order as s is s settled: gravity has a
      single possible outcome. */
  lemma SettleUnique(s: seq<int>, t: seq<int>)
    requires Compacted(t) && |t| == |s| && NonEmpty(t) == NonEmpty(s)
    ensures t == Settle(s)
  {
    CompactedIsSettled(t);
  }

  lemma SettleIdempotent(s: seq<int>)
    ensures Settle(Settle(s)) == Settle(s)
  {
    SettleSpec(s);
    SettleUnique(Settle(s), Settle(s));
  }

  /** Empty cells between two parts of a slice contribute no tiles. */
  lemma DropEmpties(p: seq<int>, z: seq<int>, q: seq<int>)
    requires forall k :: 0 <= k < |z| ==> z[k] == 0
    ensures NonEmpty(p + z + q) == NonEmpty(p) + NonEmpty(q)
  {
    NonEmptyAppend(p + z, q);
    NonEmptyAppend(p, z);
    NonEmptyOfEmpties(z);
    assert NonEmpty(p) + [] == NonEmpty(p);
  }

  /** The slice around an exchange of an empty cell y with the cell a above it, cut at a and y. */
  lemma CutAroundSwap(c: seq<int>, a: int, y: int)
    requires 0 <= a < y < |c| && c[y] == 0
    requires forall k :: a < k < y ==> c[k] == 0
    ensures c == c[..a] + [c[a]] + c[a + 1..y + 1] + c[y + 1..]
    ensures Swapped(c, y, a) == c[..a] + c[a + 1..y + 1] + [c[a]] + c[y + 1..]
  {
    CutAt(c, a, y);
    CutSwapped(c, a, y);
  }

  /** Column c cut around the tile at a and the empty cell at y below it. */
  lemma CutAt(c: seq<int>, a: int, y: int)
    requires 0 <= a < y < |c|
    ensures c == c[..a] + [c[a]] + c[a + 1..y + 1] + c[y + 1..]
  {
    assert c == c[..a] + c[a..];
    assert c[a..] == [c[a]] + c[a + 1..];
    assert c[a + 1..] == c[a + 1..y + 1] + c[y + 1..];
  }

  /** Moving the tile at a down into the empty cell at y, across empty cells only, shifts the empties up by one. */
  lemma CutSwapped(c: seq<int>, a: int, y: int)
    requires 0 <= a < y < |c| && c[y] == 0
    requires forall k :: a < k < y ==> c[k] == 0
    ensures Swapped(c, y, a) == c[..a] + c[a + 1..y + 1] + [c[a]] + c[y + 1..]
  {
    var zs := c[a + 1..y + 1];
    var d := Swapped(c, y, a);
    assert d == d[..a] + d[a..y] + d[y..];
    assert d[..a] == c[..a];
    assert d[a..y] == zs by {
      forall k | 0 <= k < y - a ensures d[a..y][k] == zs[k] {
        assert d[a + k] == 0 && zs[k] == c[a + 1 + k] == 0;
      }
    }
    assert d[y..] == [c[a]] + c[y + 1..];
  }

  /** Exchanging an empty cell y with the cell a above it, when only empty cells lie between them,
      keeps the tiles and their order. */
  lemma SwapThroughEmpties(c: seq<int>, a: int, y: int)
    requires 0 <= a < y < |c| && c[y] == 0
    requires forall k :: a < k < y ==> c[k] == 0
    ensures NonEmpty(Swapped(c, y, a)) == NonEmpty(c)
  {
    var front, top, zs, back := c[..a], [c[a]], c[a + 1..y + 1], c[y + 1..];
    var nf, nt, nb := NonEmpty(front), NonEmpty(top), NonEmpty(back);
    assert forall k :: 0 <= k < |zs| ==> zs[k] == 0 by {
      forall k | 0 <= k < |zs| ensures zs[k] == 0 {
        assert zs[k] == c[a + 1 + k];
      }
    }
    assert NonEmpty(c) == nf + nt + nb by {
      CutAroundSwap(c, a, y);
      DropEmpties(front + top, zs, back);
      NonEmptyAppend(front, top);
    }
    assert NonEmpty(Swapped(c, y, a)) == nf + nt + nb by {
      CutAroundSwap(c, a, y);
      NonEmptyAppend(front + zs + top, back);
      DropEmpties(front, zs, top);
    }
  }

  /** Rows 0..n-1 of column x of a board, top to bottom. */
  function Column(b: seq<int>, x: int, n: int): (c: seq<int>)
    requires 0 <= x < W && 0 <= n <= H && |b| == W * H
    ensures |c| == n && forall y {:trigger c[y]} {:trigger b[Idx(x, y)]} :: 0 <= y < n ==> c[y] == b[Idx(x, y)]
  {
    seq(n, y requires 0 <= y < n => b[Idx(x, y)])
  }

  /** Swapping two cells of column x swaps the same two entries of the column slice. */
  lemma ColumnOfSwap(b: seq<int>, x: int, y: int, a: int, n: int)
    requires 0 <= x < W && 0 <= a < n && 0 <= y < n <= H && |b| == W * H
    ensures Column(Swapped(b, Idx(x, y), Idx(x, a)), x, n) == Swapped(Column(b, x, n), y, a)
  {
  }

  /** b and r agree on every cell of the board outside rows 0..bottom of column x. */
  predicate SameOutside(b: seq<int>, r: seq<int>, x: int, bottom: int)
    requires |b| == W * H && |r| == W * H
  {
    forall c, y {:trigger r[Idx(c, y)]} :: 0 <= c < W && 0 <= y < H && (c != x || y > bottom) ==> r[Idx(c, y)] == b[Idx(c, y)]
  }

  /** The inner `while` of the gravity pass: from row n upwards, the first row that holds a tile,
      or row 0 when none does. */
  function Above(b: seq<int>, x: int, n: int): (a: int)
    ensures a <= n && (0 <= n ==> 0 <= a)
    ensures a > 0 ==> ColorAt(b, x, a) != 0
    ensures forall k :: a < k <= n ==> ColorAt(b, x, k) == 0
    decreases n
  {
    if n > 0 && ColorAt(b, x, n) == 0 then Above(b, x, n - 1) else n
  }

  /** One step of the gravity pass at row y of column x: an empty cell is swapped with the nearest
      tile above it, or with row 0. */
  function SettleAt(b: seq<int>, x: int, y: int): (r: seq<int>)
    requires 0 <= x < W && 0 < y < H && |b| == W * H
    ensures |r| == |b|
  {
    if ColorAt(b, x, y) == 0 then Swapped(b, Idx(x, y), Idx(x, Above(b, x, y - 1))) else b
  }

  /** The gravity pass over column x, `for (y = startY; y > 0; y--)`. */
  function DropFrom(b: seq<int>, x: int, y: int): (r: seq<int>)
    requires 0 <= x < W && y < H && |b| == W * H
    ensures |r| == |b|
    decreases y
  {
    if y <= 0 then b else DropFrom(SettleAt(b, x, y), x, y - 1)
  }

  /** The gravity pass over the columns x..endX-1 of a match's span, each from row bottom. */
  function DropSpan(b: seq<int>, x: int, endX: int, bottom: int): (r: seq<int>)
    requires 0 <= x && endX <= W && bottom < H && |b| == W * H
    ensures |r| == |b|
    decreases endX - x
  {
    if x >= endX then b else DropSpan(DropFrom(b, x, bottom), x + 1, endX, bottom)
  }

  /** Below row y, rows 0..bottom of column x are already compacted. */
  predicate CompactedBelow(b: seq<int>, x: int, y: int, bottom: int)
    requires 0 <= x < W && bottom < H && |b| == W * H
  {
    forall i, j {:trigger b[Idx(x, i)], b[Idx(x, j)]} :: 0 <= i < j && y < j <= bottom && b[Idx(x, j)] == 0 ==> b[Idx(x, i)] == 0
  }

  /** The exchange at the heart of a gravity step: empty cell y with the nearest tile a above it
      (or with row 0 when there is none). */
  lemma SwapStep(b: seq<int>, x: int, y: int, a: int, bottom: int, s: seq<int>)
    requires IsBoard(b) && 0 <= x < W && 0 <= a < y <= bottom < H
    requires b[Idx(x, y)] == 0 && (a > 0 ==> b[Idx(x, a)] != 0)
    requires forall k {:trigger b[Idx(x, k)]} :: a < k < y ==> b[Idx(x, k)] == 0
    requires CompactedBelow(b, x, y, bottom)
    requires s == Swapped(b, Idx(x, y), Idx(x, a))
    ensures IsBoard(s) && CompactedBelow(s, x, y - 1, bottom)
    ensures NonEmpty(Column(s, x, bottom + 1)) == NonEmpty(Column(b, x, bottom + 1))
    ensures SameOutside(b, s, x, y)
  {
    SwapKeepsBoard(b, Idx(x, y), Idx(x, a));
    SwapStepOutside(b, x, y, a, s);
    SwapStepCompacted(b, x, y, a, bottom, s);
    ColumnOfSwap(b, x, y, a, bottom + 1);
    SwapStepTiles(b, x, y, a, bottom);
  }

  /** The exchange changes no cell outside rows 0..y of column x. */
  lemma SwapStepOutside(b: seq<int>, x: int, y: int, a: int, s: seq<int>)
    requires |b| == W * H && 0 <= x < W && 0 <= a < y < H
    requires s == Swapped(b, Idx(x, y), Idx(x, a))
    ensures SameOutside(b, s, x, y)
  {
    forall c, row {:trigger s[Idx(c, row)]} | 0 <= c < W && 0 <= row < H && (c != x || row > y)
      ensures s[Idx(c, row)] == b[Idx(c, row)]
    {
      assert Idx(c, row) != Idx(x, y) && Idx(c, row) != Idx(x, a);
    }
  }

  /** The exchange extends the compacted part of column x by row y. */
  lemma SwapStepCompacted(b: seq<int>, x: int, y: int, a: int, bottom: int, s: seq<int>)
    requires |b| == W * H && 0 <= x < W && 0 <= a < y <= bottom < H
    requires b[Idx(x, y)] == 0 && (a > 0 ==> b[Idx(x, a)] != 0)
    requires forall k {:trigger b[Idx(x, k)]} :: a < k < y ==> b[Idx(x, k)] == 0
    requires CompactedBelow(b, x, y, bottom)
    requires s == Swapped(b, Idx(x, y), Idx(x, a))
    ensures CompactedBelow(s, x, y - 1, bottom)
  {
    forall i, j {:trigger s[Idx(x, i)], s[Idx(x, j)]} | 0 <= i < j && y - 1 < j <= bottom && s[Idx(x, j)] == 0 ensures s[Idx(x, i)] == 0 {
      if j > y {
        assert b[Idx(x, j)] == 0;
        assert b[Idx(x, i)] == 0 && b[Idx(x, a)] == 0;
      }
    }
  }

  /** The exchange keeps the tiles of rows 0..bottom of column x in their order. */
  lemma SwapStepTiles(b: seq<int>, x: int, y: int, a: int, bottom: int)
    requires |b| == W * H && 0 <= x < W && 0 <= a < y <= bottom < H
    requires b[Idx(x, y)] == 0
    requires forall k {:trigger b[Idx(x, k)]} :: a < k < y ==> b[Idx(x, k)] == 0
    ensures NonEmpty(Swapped(Column(b, x, bottom + 1), y, a)) == NonEmpty(Column(b, x, bottom + 1))
  {
    var col := Column(b, x, bottom + 1);
    assert forall k :: a < k < y ==> col[k] == 0;
    SwapThroughEmpties(col, a, y);
  }

  /** One gravity step keeps the board, the tiles of rows 0..bottom in their order, and extends the
      compacted part of the column by one row. */
  lemma SettleAtStep(b: seq<int>, x: int, y: int, bottom: int, s: seq<int>)
    requires IsBoard(b) && 0 <= x < W && 0 < y <= bottom < H
    requires CompactedBelow(b, x, y, bottom)
    requires s == SettleAt(b, x, y)
    ensures IsBoard(s) && CompactedBelow(s, x, y - 1, bottom)
    ensures NonEmpty(Column(s, x, bottom + 1)) == NonEmpty(Column(b, x, bottom + 1))
    ensures SameOutside(b, s, x, y)
  {
    if ColorAt(b, x, y) == 0 {
      var a := Above(b, x, y - 1);
      assert b[Idx(x, y)] == 0;
      assert a > 0 ==> b[Idx(x, a)] != 0;
      forall k {:trigger b[Idx(x, k)]} | a < k < y ensures b[Idx(x, k)] == 0 {
        assert ColorAt(b, x, k) == 0 && 0 <= Idx(x, k) < |b|;
      }
      SwapStep(b, x, y, a, bottom, s);
    } else {
      assert b[Idx(x, y)] != 0;
    }
  }

  /** The gravity pass from row y keeps the board and the tiles of rows 0..bottom in their order,
      leaves rows 0..bottom compacted and changes no cell outside rows 0..y of column x. */
  lemma {:induction false} DropFromStep(b: seq<int>, x: int, y: int, bottom: int, r: seq<int>)
    requires IsBoard(b) && 0 <= x < W && 0 <= y <= bottom < H
    requires CompactedBelow(b, x, y, bottom)
    requires r == DropFrom(b, x, y)
    ensures IsBoard(r) && Compacted(Column(r, x, bottom + 1))
    ensures NonEmpty(Column(r, x, bottom + 1)) == NonEmpty(Column(b, x, bottom + 1))
    ensures SameOutside(b, r, x, y)
    decreases y
  {
    if y == 0 {
      var col := Column(r, x, bottom + 1);
      forall i, j | 0 <= i < j < |col| && col[j] == 0 ensures col[i] == 0 {
        assert r[Idx(x, j)] == 0;
      }
    } else {
      var s := SettleAt(b, x, y);
      SettleAtStep(b, x, y, bottom, s);
      DropFromStep(s, x, y - 1, bottom, r);
    }
  }

  /** The gravity pass over column x from row bottom settles rows 0..bottom of that column and
      changes nothing else. */
  lemma DropSettles(b: seq<int>, x: int, bottom: int, r: seq<int>)
    requires IsBoard(b) && 0 <= x < W && 0 <= bottom < H
    requires r == DropFrom(b, x, bottom)
    ensures IsBoard(r)
    ensures Column(r, x, bottom + 1) == Settle(Column(b, x, bottom + 1))
    ensures SameOutside(b, r, x, bottom)
  {
    DropFromStep(b, x, bottom, bottom, r);
    SettleUnique(Column(b, x, bottom + 1), Column(r, x, bottom + 1));
  }

  /** Rows 0..bottom of column c of r are those of b, settled. */
  predicate SettledColumn(b: seq<int>, r: seq<int>, c: int, bottom: int)
    requires |b| == W * H && |r| == W * H && 0 <= c < W && 0 <= bottom < H
  {
    Column(r, c, bottom + 1) == Settle(Column(b, c, bottom + 1))
  }

  /** The gravity pass over a match's span settles rows 0..bottom of every column of the span and
      changes no other cell. */
  lemma {:induction false} DropSpanSettles(b: seq<int>, x: int, endX: int, bottom: int, r: seq<int>)
    requires IsBoard(b) && 0 <= x && endX <= W && 0 <= bottom < H
    requires r == DropSpan(b, x, endX, bottom)
    ensures IsBoard(r)
    ensures forall c :: x <= c < endX ==> SettledColumn(b, r, c, bottom)
    ensures forall c, y {:trigger r[Idx(c, y)]} :: 0 <= c < W && 0 <= y < H && (c < x || c >= endX || y > bottom) ==>
              r[Idx(c, y)] == b[Idx(c, y)]
    decreases endX - x
  {
    if x < endX {
      var d := DropFrom(b, x, bottom);
      assert IsBoard(d) by {
        DropSettles(b, x, bottom, d);
      }
      DropSpanSettles(d, x + 1, endX, bottom, r);
      DropSettles(b, x, bottom, d);
      DropSpanStep(b, d, r, x, endX, bottom);
    }
  }

  /** Settling column x (board d) and then the columns x+1..endX-1 (board r) settles x..endX-1. */
  lemma DropSpanStep(b: seq<int>, d: seq<int>, r: seq<int>, x: int, endX: int, bottom: int)
    requires IsBoard(b) && IsBoard(d) && IsBoard(r) && 0 <= x < endX <= W && 0 <= bottom < H
    requires SettledColumn(b, d, x, bottom) && SameOutside(b, d, x, bottom)
    requires forall c :: x + 1 <= c < endX ==> SettledColumn(d, r, c, bottom)
    requires forall c, y {:trigger r[Idx(c, y)]} :: 0 <= c < W && 0 <= y < H && (c < x + 1 || c >= endX || y > bottom) ==>
               r[Idx(c, y)] == d[Idx(c, y)]
    ensures forall c :: x <= c < endX ==> SettledColumn(b, r, c, bottom)
    ensures forall c, y {:trigger r[Idx(c, y)]} :: 0 <= c < W && 0 <= y < H && (c < x || c >= endX || y > bottom) ==>
              r[Idx(c, y)] == b[Idx(c, y)]
  {
    assert Column(r, x, bottom + 1) == Column(d, x, bottom + 1);
    forall c | x < c < endX ensures SettledColumn(b, r, c, bottom) {
      assert SettledColumn(d, r, c, bottom);
      assert Column(d, c, bottom + 1) == Column(b, c, bottom + 1);
    }
  }

  /** What refilling a column gives: the board, and how many random colours have been drawn;
      or the board as it was when `setCellColor` threw. */
  datatype Outcome = Ok(board: seq<int>, drawn: nat) | Thrown(board: seq<int>)

  /** The refill loop over column x, `while (getCellColor(x, row) === 0) setCellColor(x, row++, …)`:
      the k-th colour drawn is random(k). The loop has no row bound: below the last row
      `getCellColor` reads past the array and gets 0, and `setCellColor` throws. */
  function Refill(b: seq<int>, x: int, row: int, random: nat -> int, drawn: nat): (o: Outcome)
    requires |b| == W * H
    ensures |o.board| == W * H
    decreases W * H - Idx(x, row)
  {
    var i := Idx(x, row);
    if ColorAt(b, x, row) != 0 then Ok(b, drawn)
    else if i >= W * H || i < 0 then Thrown(b)
    else Refill(b[i := random(drawn)], x, row + 1, random, drawn + 1)
  }

  /** The first row at or below row that holds a tile in column x, or H when there is none. */
  function FirstTile(b: seq<int>, x: int, row: int): (f: int)
    requires 0 <= row <= H
    ensures row <= f <= H
    ensures forall k :: row <= k < f ==> ColorAt(b, x, k) == 0
    ensures f < H ==> ColorAt(b, x, f) != 0
    decreases H - row
  {
    if row == H || ColorAt(b, x, row) != 0 then row else FirstTile(b, x, row + 1)
  }

  lemma {:induction false} FirstTileAgree(b: seq<int>, r: seq<int>, x: int, row: int)
    requires 0 <= row <= H
    requires forall k :: row <= k < H ==> ColorAt(r, x, k) == ColorAt(b, x, k)
    ensures FirstTile(r, x, row) == FirstTile(b, x, row)
    decreases H - row
  {
    if row < H {
      FirstTileAgree(b, r, x, row + 1);
    }
  }

  /** Every colour the random source can produce is a colour of the board. */
  ghost predicate InColors(random: nat -> int) {
    forall k :: 1 <= random(k) <= NUM_COLORS
  }

  /** Rows row..f-1 of column x of r hold the colours drawn from random, starting with random(drawn). */
  predicate DrawnInto(r: seq<int>, x: int, row: int, f: int, random: nat -> int, drawn: nat)
    requires |r| == W * H && 0 <= x < W && 0 <= row && f <= H
  {
    forall y {:trigger r[Idx(x, y)]} :: row <= y < f ==> r[Idx(x, y)] == random(drawn + y - row)
  }

  /** Boards b and r agree on every cell outside rows row..f-1 of column x. */
  predicate SameOffColumn(b: seq<int>, r: seq<int>, x: int, row: int, f: int)
    requires |b| == W * H && |r| == W * H
  {
    forall c, y {:trigger r[Idx(c, y)]} :: 0 <= c < W && 0 <= y < H && (c != x || y < row || y >= f) ==>
      r[Idx(c, y)] == b[Idx(c, y)]
  }

  /** Refilling column x from row fills exactly the empty cells above its first tile, with the next
      colours drawn, and succeeds exactly when the column below row holds a tile; otherwise it throws
      after filling every row down to the last. */
  lemma {:induction false} RefillSpec(b: seq<int>, x: int, row: int, random: nat -> int, drawn: nat, f: int, o: Outcome)
    requires |b| == W * H && 0 <= x < W && 0 <= row <= H
    requires f == FirstTile(b, x, row) && o == Refill(b, x, row, random, drawn)
    ensures |o.board| == W * H
    ensures o.Ok? <==> f < H
    ensures o.Ok? ==> o.drawn == drawn + f - row
    ensures DrawnInto(o.board, x, row, f, random, drawn)
    ensures SameOffColumn(b, o.board, x, row, f)
    decreases H - row, 1
  {
    if ColorAt(b, x, row) != 0 {
    } else if row == H {
    } else {
      assert o == Refill(b[Idx(x, row) := random(drawn)], x, row + 1, random, drawn + 1);
      RefillSpecWrite(b, x, row, random, drawn, f, o);
    }
  }

  /** The case of RefillSpec where the cell at row is empty and on the board: it is written, and the
      loop goes on one row down. */
  lemma {:induction false} RefillSpecWrite(b: seq<int>, x: int, row: int, random: nat -> int, drawn: nat, f: int, o: Outcome)
    requires |b| == W * H && 0 <= x < W && 0 <= row < H && ColorAt(b, x, row) == 0
    requires f == FirstTile(b, x, row) && o == Refill(b[Idx(x, row) := random(drawn)], x, row + 1, random, drawn + 1)
    ensures |o.board| == W * H
    ensures o.Ok? <==> f < H
    ensures o.Ok? ==> o.drawn == drawn + f - row
    ensures DrawnInto(o.board, x, row, f, random, drawn)
    ensures SameOffColumn(b, o.board, x, row, f)
    decreases H - row, 0
  {
    var b' := b[Idx(x, row) := random(drawn)];
    FirstTileAfterWrite(b, x, row, random(drawn));
    RefillSpec(b', x, row + 1, random, drawn + 1, f, o);
    RefillStep(b, b', o.board, x, row, f, random, drawn);
  }

  /** When the cell at row of column x is empty, the first tile lies below it, and writing that
      cell does not move it. */
  lemma FirstTileAfterWrite(b: seq<int>, x: int, row: int, v: int)
    requires |b| == W * H && 0 <= x < W && 0 <= row < H && ColorAt(b, x, row) == 0
    ensures row < FirstTile(b, x, row)
    ensures FirstTile(b[Idx(x, row) := v], x, row + 1) == FirstTile(b, x, row)
  {
    assert FirstTile(b, x, row) == FirstTile(b, x, row + 1);
    var b' := b[Idx(x, row) := v];
    forall k | row + 1 <= k < H ensures ColorAt(b', x, k) == ColorAt(b, x, k) {
      assert Idx(x, k) != Idx(x, row);
    }
    FirstTileAgree(b, b', x, row + 1);
  }

  /** One write of the refill loop, at row of column x, followed by the rest of the loop (board r). */
  lemma RefillStep(b: seq<int>, b': seq<int>, r: seq<int>, x: int, row: int, f: int, random: nat -> int, drawn: nat)
    requires |b| == W * H && |r| == W * H && 0 <= x < W && 0 <= row < f <= H
    requires b' == b[Idx(x, row) := random(drawn)]
    requires DrawnInto(r, x, row + 1, f, random, drawn + 1) && SameOffColumn(b', r, x, row + 1, f)
    ensures DrawnInto(r, x, row, f, random, drawn) && SameOffColumn(b, r, x, row, f)
  {
    forall y {:trigger r[Idx(x, y)]} | row <= y < f ensures r[Idx(x, y)] == random(drawn + y - row) {
      if y == row {
        assert r[Idx(x, row)] == b'[Idx(x, row)];
      }
    }
    forall c, y {:trigger r[Idx(c, y)]} | 0 <= c < W && 0 <= y < H && (c != x || y < row || y >= f)
      ensures r[Idx(c, y)] == b[Idx(c, y)]
    {
      assert Idx(c, y) != Idx(x, row);
    }
  }

  /** The refill loop `for (x = startX; x < endX; x++)` of a match's span, column after column;
      a throw ends it. */
  function RefillSpan(b: seq<int>, x: int, endX: int, random: nat -> int, drawn: nat): (o: Outcome)
    requires |b| == W * H
    ensures |o.board| == W * H
    decreases endX - x
  {
    if x >= endX then Ok(b, drawn)
    else
      match Refill(b, x, 0, random, drawn)
      case Thrown(r) => Thrown(r)
      case Ok(r, d) => RefillSpan(r, x + 1, endX, random, d)
  }

  /** Writing colours drawn from random into rows row..f-1 of column x of a board, and nothing else,
      gives a board whose rows row..f-1 of column x hold tiles and whose other cells are unchanged. */
  lemma FilledBoard(b: seq<int>, r: seq<int>, x: int, row: int, f: int, random: nat -> int, drawn: nat)
    requires IsBoard(b) && |r| == W * H && InColors(random) && 0 <= x < W && 0 <= row <= f <= H
    requires DrawnInto(r, x, row, f, random, drawn) && SameOffColumn(b, r, x, row, f)
    ensures IsBoard(r)
    ensures forall y {:trigger r[Idx(x, y)]} :: row <= y < f ==> r[Idx(x, y)] != 0
    ensures forall c, y {:trigger r[Idx(c, y)]} :: 0 <= c < W && 0 <= y < H && r[Idx(c, y)] != b[Idx(c, y)] ==>
              c == x && row <= y < f
  {
    forall c, y {:trigger r[Idx(c, y)]} | 0 <= c < W && 0 <= y < H ensures 0 <= r[Idx(c, y)] <= NUM_COLORS {
      if c == x && row <= y < f {
        assert r[Idx(x, y)] == random(drawn + y - row);
      } else {
        assert r[Idx(c, y)] == b[Idx(c, y)];
      }
    }
    BoardByCells(r);
    forall y {:trigger r[Idx(x, y)]} | row <= y < f ensures r[Idx(x, y)] != 0 {
      assert r[Idx(x, y)] == random(drawn + y - row);
    }
  }

  /** Refilling a span fills the empty cells above the first tile of each of its columns and nothing
      else, and succeeds exactly when every column of the span still holds a tile. */
  lemma {:induction false} RefillSpanSpec(b: seq<int>, x: int, endX: int, random: nat -> int, drawn: nat, o: Outcome)
    requires IsBoard(b) && InColors(random) && 0 <= x && endX <= W
    requires o == RefillSpan(b, x, endX, random, drawn)
    ensures IsBoard(o.board)
    ensures o.Ok? <==> forall c :: x <= c < endX ==> FirstTile(b, c, 0) < H
    ensures o.Ok? ==> forall c, y {:trigger o.board[Idx(c, y)]} :: x <= c < endX && 0 <= y < FirstTile(b, c, 0) ==> o.board[Idx(c, y)] != 0
    ensures forall c, y {:trigger o.board[Idx(c, y)]} :: 0 <= c < W && 0 <= y < H && o.board[Idx(c, y)] != b[Idx(c, y)] ==>
              x <= c < endX && y < FirstTile(b, c, 0) && o.board[Idx(c, y)] != 0
    decreases endX - x
  {
    if x < endX {
      var o1 := Refill(b, x, 0, random, drawn);
      var f := FirstTile(b, x, 0);
      RefillSpec(b, x, 0, random, drawn, f, o1);
      FilledBoard(b, o1.board, x, 0, f, random, drawn);
      if o1.Ok? {
        var r := o1.board;
        RefillSpanSpec(r, x + 1, endX, random, o1.drawn, o);
        OtherFirstTiles(b, r, x, f, endX);
        if o.Ok? {
          forall c | x <= c < endX ensures FirstTile(b, c, 0) < H {
            if c > x {
              assert FirstTile(r, c, 0) < H;
            }
          }
        } else {
          var c :| x + 1 <= c < endX && FirstTile(r, c, 0) >= H;
          assert FirstTile(b, c, 0) >= H;
        }
      } else {
        assert o == o1 && f == H;
      }
    }
  }

  /** A refill of column x changes no other column, so their first tiles stay where they were. */
  lemma OtherFirstTiles(b: seq<int>, r: seq<int>, x: int, f: int, endX: int)
    requires |b| == W * H && |r| == W * H && 0 <= x < W && endX <= W
    requires forall c, y {:trigger r[Idx(c, y)]} :: 0 <= c < W && 0 <= y < H && r[Idx(c, y)] != b[Idx(c, y)] ==>
               c == x && 0 <= y < f
    ensures forall c | x < c < endX :: FirstTile(r, c, 0) == FirstTile(b, c, 0)
  {
    forall c | x < c < endX ensures FirstTile(r, c, 0) == FirstTile(b, c, 0) {
      forall k | 0 <= k < H ensures ColorAt(r, c, k) == ColorAt(b, c, k) {
        assert r[Idx(c, k)] == b[Idx(c, k)];
      }
      FirstTileAgree(b, r, c, 0);
    }
  }

  /** One pass of the second loop of `resolveMatchesCascade` for match m: gravity over the columns of
      its horizontal span from its lowest row, then the refill of those columns. */
  function ResolveOne(b: seq<int>, m: Match, random: nat -> int, drawn: nat): (o: Outcome)
    requires |b| == W * H && WellPlaced(m)
    ensures |o.board| == W * H
  {
    RefillSpan(DropSpan(b, m.StartX(), m.EndX(), m.Bottom()), m.StartX(), m.EndX(), random, drawn)
  }

  /** Rows 0..Bottom of every column of m's span hold tiles. */
  predicate Repaired(r: seq<int>, m: Match)
    requires |r| == W * H
  {
    forall c, y {:trigger r[Idx(c, y)]} :: m.StartX() <= c < m.EndX() && 0 <= y <= m.Bottom() && c < W && 0 <= c && y < H ==>
      r[Idx(c, y)] != 0
  }

  /** Every cell empty in r was empty in b. */
  predicate NoNewEmpties(b: seq<int>, r: seq<int>)
    requires |b| == |r|
  {
    forall i :: 0 <= i < |r| && r[i] == 0 ==> b[i] == 0
  }

  /** Column c of b holds no tile. */
  predicate ColumnEmpty(b: seq<int>, c: int)
    requires |b| == W * H && 0 <= c < W
  {
    forall y {:trigger b[Idx(c, y)]} :: 0 <= y < H ==> b[Idx(c, y)] == 0
  }

  /** The tiles of rows 0..bottom of column c of b sit, in their order, at the bottom of that
      stretch of column c of r. */
  predicate KeepsSurvivors(b: seq<int>, r: seq<int>, c: int, bottom: int)
    requires |b| == W * H && |r| == W * H && 0 <= c < W && 0 <= bottom < H
  {
    var tiles := NonEmpty(Column(b, c, bottom + 1));
    Column(r, c, bottom + 1)[bottom + 1 - |tiles|..] == tiles
  }

  /** After gravity from row bottom (board d), column c has no tile left exactly when it had none. */
  lemma SettledColumnEmpty(b: seq<int>, d: seq<int>, c: int, bottom: int)
    requires IsBoard(b) && IsBoard(d) && 0 <= c < W && 0 <= bottom < H
    requires SettledColumn(b, d, c, bottom)
    requires forall y {:trigger d[Idx(c, y)]} :: bottom < y < H ==> d[Idx(c, y)] == b[Idx(c, y)]
    ensures FirstTile(d, c, 0) == H <==> ColumnEmpty(b, c)
  {
    if FirstTile(d, c, 0) == H {
      SettledEmptyBefore(b, d, c, bottom);
    }
    if ColumnEmpty(b, c) {
      SettledEmptyAfter(b, d, c, bottom);
    }
  }

  /** Gravity keeps the tiles of the stretch it settles. */
  lemma SettledTiles(b: seq<int>, d: seq<int>, c: int, bottom: int)
    requires |b| == W * H && |d| == W * H && 0 <= c < W && 0 <= bottom < H
    requires SettledColumn(b, d, c, bottom)
    ensures NonEmpty(Column(d, c, bottom + 1)) == NonEmpty(Column(b, c, bottom + 1))
  {
    SettleKeepsTiles(Column(b, c, bottom + 1));
  }

  /** A column left without tiles by gravity had none before. */
  lemma SettledEmptyBefore(b: seq<int>, d: seq<int>, c: int, bottom: int)
    requires IsBoard(b) && IsBoard(d) && 0 <= c < W && 0 <= bottom < H
    requires SettledColumn(b, d, c, bottom)
    requires forall y {:trigger d[Idx(c, y)]} :: bottom < y < H ==> d[Idx(c, y)] == b[Idx(c, y)]
    requires FirstTile(d, c, 0) == H
    ensures ColumnEmpty(b, c)
  {
    var col := Column(b, c, bottom + 1);
    var settled := Column(d, c, bottom + 1);
    forall y | 0 <= y < H ensures d[Idx(c, y)] == 0 {
      assert ColorAt(d, c, y) == 0;
    }
    assert forall k :: 0 <= k < |settled| ==> settled[k] == 0;
    NonEmptyOfEmpties(settled);
    SettledTiles(b, d, c, bottom);
    NoTilesAllEmpty(col);
    forall y {:trigger b[Idx(c, y)]} | 0 <= y < H ensures b[Idx(c, y)] == 0 {
      if y <= bottom {
        assert col[y] == 0;
      } else {
        assert d[Idx(c, y)] == 0;
      }
    }
  }

  /** A column without tiles has none after gravity either. */
  lemma SettledEmptyAfter(b: seq<int>, d: seq<int>, c: int, bottom: int)
    requires IsBoard(b) && IsBoard(d) && 0 <= c < W && 0 <= bottom < H
    requires SettledColumn(b, d, c, bottom)
    requires forall y {:trigger d[Idx(c, y)]} :: bottom < y < H ==> d[Idx(c, y)] == b[Idx(c, y)]
    requires ColumnEmpty(b, c)
    ensures FirstTile(d, c, 0) == H
  {
    var col := Column(b, c, bottom + 1);
    var settled := Column(d, c, bottom + 1);
    assert forall k :: 0 <= k < |col| ==> col[k] == 0;
    NonEmptyOfEmpties(col);
    SettledTiles(b, d, c, bottom);
    NoTilesAllEmpty(settled);
  }

  /** When column c still holds a tile after gravity (board d), its refill (board r) leaves rows
      0..bottom all holding tiles, with the surviving tiles at the bottom in their order. */
  lemma RefilledColumn(b: seq<int>, d: seq<int>, r: seq<int>, c: int, bottom: int)
    requires IsBoard(b) && IsBoard(d) && |r| == W * H && 0 <= c < W && 0 <= bottom < H
    requires SettledColumn(b, d, c, bottom)
    requires forall y {:trigger r[Idx(c, y)]} :: 0 <= y < H && r[Idx(c, y)] != d[Idx(c, y)] ==> y < FirstTile(d, c, 0)
    requires forall y {:trigger r[Idx(c, y)]} :: 0 <= y < FirstTile(d, c, 0) ==> r[Idx(c, y)] != 0
    requires FirstTile(d, c, 0) < H
    ensures forall y {:trigger r[Idx(c, y)]} :: 0 <= y <= bottom ==> r[Idx(c, y)] != 0
    ensures KeepsSurvivors(b, r, c, bottom)
  {
    RefilledNoEmpty(b, d, r, c, bottom);
    RefilledKeeps(b, d, r, c, bottom);
  }

  /** The refilled column has no empty cell in rows 0..bottom: the cells above the first tile were
      refilled, and those from it down are settled tiles. */
  lemma RefilledNoEmpty(b: seq<int>, d: seq<int>, r: seq<int>, c: int, bottom: int)
    requires IsBoard(b) && IsBoard(d) && |r| == W * H && 0 <= c < W && 0 <= bottom < H
    requires SettledColumn(b, d, c, bottom)
    requires forall y {:trigger r[Idx(c, y)]} :: 0 <= y < H && r[Idx(c, y)] != d[Idx(c, y)] ==> y < FirstTile(d, c, 0)
    requires forall y {:trigger r[Idx(c, y)]} :: 0 <= y < FirstTile(d, c, 0) ==> r[Idx(c, y)] != 0
    ensures forall y {:trigger r[Idx(c, y)]} :: 0 <= y <= bottom ==> r[Idx(c, y)] != 0
  {
    var f := FirstTile(d, c, 0);
    var tiles := NonEmpty(Column(b, c, bottom + 1));
    var z := bottom + 1 - |tiles|;
    var settled := Column(d, c, bottom + 1);
    assert settled == Zeros(z) + tiles;
    SettledFirstTile(b, d, c, bottom);
    forall y {:trigger r[Idx(c, y)]} | 0 <= y <= bottom ensures r[Idx(c, y)] != 0 {
      if y >= f {
        assert r[Idx(c, y)] == d[Idx(c, y)] == settled[y] == tiles[y - z];
      }
    }
  }

  /** The refill leaves the settled tiles at the bottom of rows 0..bottom in place. */
  lemma RefilledKeeps(b: seq<int>, d: seq<int>, r: seq<int>, c: int, bottom: int)
    requires IsBoard(b) && IsBoard(d) && |r| == W * H && 0 <= c < W && 0 <= bottom < H
    requires SettledColumn(b, d, c, bottom)
    requires forall y {:trigger r[Idx(c, y)]} :: 0 <= y < H && r[Idx(c, y)] != d[Idx(c, y)] ==> y < FirstTile(d, c, 0)
    ensures KeepsSurvivors(b, r, c, bottom)
  {
    var tiles := NonEmpty(Column(b, c, bottom + 1));
    var z := bottom + 1 - |tiles|;
    var settled := Column(d, c, bottom + 1);
    var col := Column(r, c, bottom + 1);
    assert settled == Zeros(z) + tiles;
    SettledFirstTile(b, d, c, bottom);
    forall k | 0 <= k < |tiles| ensures col[z + k] == tiles[k] {
      assert r[Idx(c, z + k)] == d[Idx(c, z + k)] == settled[z + k];
    }
    assert col[z..] == tiles;
  }

  /** After gravity from row bottom (board d), the first tile of column c is the top one of the
      tiles that sit at the bottom of that stretch, or lies below the stretch when it has none. */
  lemma SettledFirstTile(b: seq<int>, d: seq<int>, c: int, bottom: int)
    requires |b| == W * H && IsBoard(d) && 0 <= c < W && 0 <= bottom < H
    requires SettledColumn(b, d, c, bottom)
    ensures var z := bottom + 1 - |NonEmpty(Column(b, c, bottom + 1))|;
            z <= FirstTile(d, c, 0) && (z <= bottom ==> FirstTile(d, c, 0) == z)
  {
    var f := FirstTile(d, c, 0);
    var tiles := NonEmpty(Column(b, c, bottom + 1));
    var z := bottom + 1 - |tiles|;
    var settled := Column(d, c, bottom + 1);
    assert settled == Zeros(z) + tiles;
    forall k | 0 <= k < z ensures ColorAt(d, c, k) == 0 {
      assert settled[k] == 0;
    }
    if z <= bottom {
      assert settled[z] == tiles[0];
    }
  }

  /** Column c after gravity from row bottom (board d) and after its refill (board r): it throws
      exactly when the column held no tile; otherwise rows 0..bottom all hold tiles, the surviving
      tiles sit at the bottom of that stretch in their order, and no cell became empty. */
  lemma RepairColumn(b: seq<int>, d: seq<int>, r: seq<int>, c: int, bottom: int)
    requires IsBoard(b) && IsBoard(d) && |r| == W * H && 0 <= c < W && 0 <= bottom < H
    requires SettledColumn(b, d, c, bottom)
    requires forall y {:trigger d[Idx(c, y)]} :: bottom < y < H ==> d[Idx(c, y)] == b[Idx(c, y)]
    requires forall y {:trigger r[Idx(c, y)]} :: 0 <= y < H && r[Idx(c, y)] != d[Idx(c, y)] ==> y < FirstTile(d, c, 0) && r[Idx(c, y)] != 0
    requires FirstTile(d, c, 0) < H ==> forall y {:trigger r[Idx(c, y)]} :: 0 <= y < FirstTile(d, c, 0) ==> r[Idx(c, y)] != 0
    ensures FirstTile(d, c, 0) == H <==> ColumnEmpty(b, c)
    ensures FirstTile(d, c, 0) < H ==> forall y {:trigger r[Idx(c, y)]} :: 0 <= y <= bottom ==> r[Idx(c, y)] != 0
    ensures FirstTile(d, c, 0) < H ==> KeepsSurvivors(b, r, c, bottom)
    ensures FirstTile(d, c, 0) < H ==> forall y {:trigger r[Idx(c, y)]} :: 0 <= y < H && r[Idx(c, y)] == 0 ==> b[Idx(c, y)] == 0
  {
    SettledColumnEmpty(b, d, c, bottom);
    if FirstTile(d, c, 0) < H {
      RefilledColumn(b, d, r, c, bottom);
      forall y {:trigger r[Idx(c, y)]} | 0 <= y < H && r[Idx(c, y)] == 0 ensures b[Idx(c, y)] == 0 {
        assert r[Idx(c, y)] == d[Idx(c, y)];
      }
    }
  }

  /** Resolving one match: the board stays a board and the columns outside the match's span do not
      change; it throws exactly when a column of the span has no tile left at all; otherwise rows
      0..Bottom of every column of the span hold tiles, the surviving tiles of each such column sit
      at the bottom of that stretch in their order, and no cell becomes empty. */
  lemma ResolveOneSpec(b: seq<int>, m: Match, random: nat -> int, drawn: nat, o: Outcome)
    requires IsBoard(b) && WellPlaced(m) && InColors(random)
    requires o == ResolveOne(b, m, random, drawn)
    ensures IsBoard(o.board)
    ensures o.Thrown? <==> exists c :: m.StartX() <= c < m.EndX() && ColumnEmpty(b, c)
    ensures o.Ok? ==> Repaired(o.board, m) && NoNewEmpties(b, o.board)
    ensures o.Ok? ==> forall c :: m.StartX() <= c < m.EndX() ==> KeepsSurvivors(b, o.board, c, m.Bottom())
    ensures forall c, y {:trigger o.board[Idx(c, y)]} :: 0 <= c < W && 0 <= y < H && !(m.StartX() <= c < m.EndX()) ==>
              o.board[Idx(c, y)] == b[Idx(c, y)]
  {
    var sx, ex, bottom := m.StartX(), m.EndX(), m.Bottom();
    WellPlacedInRange(m, 0);
    var d := DropSpan(b, sx, ex, bottom);
    DropSpanSettles(b, sx, ex, bottom, d);
    RefillSpanSpec(d, sx, ex, random, drawn, o);
    var r := o.board;
    forall c, y {:trigger r[Idx(c, y)]} | 0 <= c < W && 0 <= y < H && !(sx <= c < ex) ensures r[Idx(c, y)] == b[Idx(c, y)] {
      assert r[Idx(c, y)] == d[Idx(c, y)];
    }
    if o.Ok? {
      SpanRepaired(b, d, r, m);
    }
    SpanThrowsIff(b, d, sx, ex, bottom);
  }

  /** After gravity over a span (board d), some column of the span has no tile exactly when it had
      none before. */
  lemma SpanThrowsIff(b: seq<int>, d: seq<int>, sx: int, ex: int, bottom: int)
    requires IsBoard(b) && IsBoard(d) && 0 <= sx && ex <= W && 0 <= bottom < H
    requires forall c :: sx <= c < ex ==> SettledColumn(b, d, c, bottom)
    requires forall c, y {:trigger d[Idx(c, y)]} :: 0 <= c < W && 0 <= y < H && (c < sx || c >= ex || y > bottom) ==>
               d[Idx(c, y)] == b[Idx(c, y)]
    ensures (forall c :: sx <= c < ex ==> FirstTile(d, c, 0) < H) <==> !(exists c :: sx <= c < ex && ColumnEmpty(b, c))
  {
    forall c | sx <= c < ex ensures FirstTile(d, c, 0) == H <==> ColumnEmpty(b, c) {
      SettledColumnEmpty(b, d, c, bottom);
    }
    if exists c :: sx <= c < ex && ColumnEmpty(b, c) {
      var c :| sx <= c < ex && ColumnEmpty(b, c);
      assert FirstTile(d, c, 0) == H;
    } else {
      forall c | sx <= c < ex ensures FirstTile(d, c, 0) < H {
        assert !ColumnEmpty(b, c);
      }
    }
  }

  /** The successful case of ResolveOneSpec, given the board d after gravity and r after the refill. */
  lemma SpanRepaired(b: seq<int>, d: seq<int>, r: seq<int>, m: Match)
    requires IsBoard(b) && IsBoard(d) && |r| == W * H && WellPlaced(m)
    requires forall c :: m.StartX() <= c < m.EndX() ==> SettledColumn(b, d, c, m.Bottom())
    requires forall c, y {:trigger d[Idx(c, y)]} :: 0 <= c < W && 0 <= y < H && (c < m.StartX() || c >= m.EndX() || y > m.Bottom()) ==>
               d[Idx(c, y)] == b[Idx(c, y)]
    requires forall c :: m.StartX() <= c < m.EndX() ==> FirstTile(d, c, 0) < H
    requires forall c, y {:trigger r[Idx(c, y)]} :: m.StartX() <= c < m.EndX() && 0 <= y < FirstTile(d, c, 0) ==> r[Idx(c, y)] != 0
    requires forall c, y {:trigger r[Idx(c, y)]} :: 0 <= c < W && 0 <= y < H && r[Idx(c, y)] != d[Idx(c, y)] ==>
               m.StartX() <= c < m.EndX() && y < FirstTile(d, c, 0) && r[Idx(c, y)] != 0
    ensures Repaired(r, m) && NoNewEmpties(b, r)
    ensures forall c :: m.StartX() <= c < m.EndX() ==> KeepsSurvivors(b, r, c, m.Bottom())
  {
    var sx, ex, bottom := m.StartX(), m.EndX(), m.Bottom();
    WellPlacedInRange(m, 0);
    forall c | sx <= c < ex
      ensures KeepsSurvivors(b, r, c, bottom)
    {
      RepairColumn(b, d, r, c, bottom);
    }
    assert Repaired(r, m) by {
      forall c, y {:trigger r[Idx(c, y)]} | sx <= c < ex && 0 <= y <= bottom && c < W && 0 <= c && y < H ensures r[Idx(c, y)] != 0 {
        RepairColumn(b, d, r, c, bottom);
      }
    }
    forall i | 0 <= i < |r| && r[i] == 0 ensures b[i] == 0 {
      var c, y := CellAt(i);
      assert r[Idx(c, y)] == 0;
      if sx <= c < ex {
        RepairColumn(b, d, r, c, bottom);
      } else {
        assert r[Idx(c, y)] == d[Idx(c, y)];
      }
    }
  }

  /** Every match of ms is one checkForMatch can build. */
  predicate AllWellPlaced(ms: seq<Match>) {
    forall k :: 0 <= k < |ms| ==> WellPlaced(ms[k])
  }

  /** The second loop of `resolveMatchesCascade`: each pending match in turn, gravity then refill;
      a throw ends the loop. */
  function ResolveAll(b: seq<int>, ms: seq<Match>, random: nat -> int, drawn: nat): (o: Outcome)
    requires |b| == W * H && AllWellPlaced(ms)
    ensures |o.board| == W * H
    decreases |ms|
  {
    if ms == [] then Ok(b, drawn)
    else
      match ResolveOne(b, ms[0], random, drawn)
      case Thrown(r) => Thrown(r)
      case Ok(r, d) => ResolveAll(r, ms[1..], random, d)
  }

  /** `resolveMatchesCascade` on the colour array: clear every pending match, then repair each
      match's span; the random colours are drawn from random(0) on. */
  function Cascade(b: seq<int>, ms: seq<Match>, random: nat -> int): (o: Outcome)
    requires |b| == W * H && AllWellPlaced(ms)
    ensures |o.board| == W * H
  {
    ResolveAll(ClearAll(b, ms), ms, random, 0)
  }

  /** Column c lies in no match's horizontal span. */
  predicate OutsideSpans(ms: seq<Match>, c: int) {
    forall k :: 0 <= k < |ms| ==> !(ms[k].StartX() <= c < ms[k].EndX())
  }

  /** A repaired span stays repaired while no cell becomes empty. */
  lemma RepairedKept(r: seq<int>, s: seq<int>, m: Match)
    requires |r| == W * H && |s| == W * H
    requires Repaired(r, m) && NoNewEmpties(r, s)
    ensures Repaired(s, m)
  {
    forall c, y {:trigger s[Idx(c, y)]} | m.StartX() <= c < m.EndX() && 0 <= y <= m.Bottom() && c < W && 0 <= c && y < H
      ensures s[Idx(c, y)] != 0
    {
      assert r[Idx(c, y)] != 0;
    }
  }

  /** The second loop of `resolveMatchesCascade`: the board stays a board and columns outside every
      span do not change; when no match throws, every match's span is repaired and no cell became empty. */
  lemma {:induction false} ResolveAllSpec(b: seq<int>, ms: seq<Match>, random: nat -> int, drawn: nat, o: Outcome)
    requires IsBoard(b) && AllWellPlaced(ms) && InColors(random)
    requires o == ResolveAll(b, ms, random, drawn)
    ensures IsBoard(o.board)
    ensures o.Ok? ==> NoNewEmpties(b, o.board)
    ensures o.Ok? ==> forall k :: 0 <= k < |ms| ==> Repaired(o.board, ms[k])
    ensures forall c, y {:trigger o.board[Idx(c, y)]} :: 0 <= c < W && 0 <= y < H && OutsideSpans(ms, c) ==> o.board[Idx(c, y)] == b[Idx(c, y)]
    decreases |ms|
  {
    if ms != [] {
      var o1 := ResolveOne(b, ms[0], random, drawn);
      ResolveOneSpec(b, ms[0], random, drawn, o1);
      if o1.Ok? {
        var r := o1.board;
        var rest := ms[1..];
        assert AllWellPlaced(rest) by {
          forall k | 0 <= k < |rest| ensures WellPlaced(rest[k]) {
            assert rest[k] == ms[k + 1];
          }
        }
        ResolveAllSpec(r, rest, random, o1.drawn, o);
        forall c, y {:trigger o.board[Idx(c, y)]} | 0 <= c < W && 0 <= y < H && OutsideSpans(ms, c) ensures o.board[Idx(c, y)] == b[Idx(c, y)] {
          assert !(ms[0].StartX() <= c < ms[0].EndX());
          assert OutsideSpans(rest, c) by {
            forall k | 0 <= k < |rest| ensures !(rest[k].StartX() <= c < rest[k].EndX()) {
              assert rest[k] == ms[k + 1];
            }
          }
        }
        if o.Ok? {
          forall k | 0 <= k < |ms| ensures Repaired(o.board, ms[k]) {
            if k == 0 {
              RepairedKept(r, o.board, ms[0]);
            } else {
              assert ms[k] == rest[k - 1];
            }
          }
        }
      }
    }
  }

  /** `resolveMatchesCascade`: the board stays a board; when it does not throw, every pending
      match's span is repaired and every cell empty afterwards was already empty before the
      pending matches were cleared. On a full board nothing is left empty. Whether it throws or not,
      columns outside every span keep their colours. */
  lemma CascadeSpec(b: seq<int>, ms: seq<Match>, random: nat -> int, o: Outcome)
    requires IsBoard(b) && AllWellPlaced(ms) && InColors(random)
    requires o == Cascade(b, ms, random)
    ensures IsBoard(o.board)
    ensures o.Ok? ==> forall k :: 0 <= k < |ms| ==> Repaired(o.board, ms[k])
    ensures o.Ok? ==> NoNewEmpties(b, o.board)
    ensures o.Ok? && IsFull(b) ==> IsFull(o.board)
    ensures forall c, y {:trigger o.board[Idx(c, y)]} :: 0 <= c < W && 0 <= y < H && OutsideSpans(ms, c) ==> o.board[Idx(c, y)] == b[Idx(c, y)]
  {
    var cleared := ClearAll(b, ms);
    ClearAllAt(b, ms);
    assert IsBoard(cleared);
    ResolveAllSpec(cleared, ms, random, 0, o);
    ClearedOutsideSpans(b, ms);
    if o.Ok? {
      var r := o.board;
      CoveredRepaired(ms, r);
      forall i | 0 <= i < |r| && r[i] == 0 ensures b[i] == 0 {
        assert cleared[i] == 0;
      }
    }
  }

  /** Clearing the pending matches leaves every column outside their spans as it was. */
  lemma ClearedOutsideSpans(b: seq<int>, ms: seq<Match>)
    requires |b| == W * H && AllWellPlaced(ms)
    ensures forall c, y {:trigger ClearAll(b, ms)[Idx(c, y)]} :: 0 <= c < W && 0 <= y < H && OutsideSpans(ms, c) ==>
              ClearAll(b, ms)[Idx(c, y)] == b[Idx(c, y)]
  {
    ClearAllAt(b, ms);
    forall c, y | 0 <= c < W && 0 <= y < H && OutsideSpans(ms, c) ensures ClearAll(b, ms)[Idx(c, y)] == b[Idx(c, y)] {
      forall k | 0 <= k < |ms| ensures !ms[k].Covers(Idx(c, y)) {
        CoversCross(ms[k], c, y);
      }
    }
  }

  /** Every cell a repaired match covers holds a tile. */
  lemma CoveredRepaired(ms: seq<Match>, r: seq<int>)
    requires |r| == W * H && AllWellPlaced(ms)
    requires forall k :: 0 <= k < |ms| ==> Repaired(r, ms[k])
    ensures forall i :: 0 <= i < |r| && AnyCovers(ms, i) ==> r[i] != 0
  {
    forall i | 0 <= i < |r| && AnyCovers(ms, i) ensures r[i] != 0 {
      var k :| 0 <= k < |ms| && ms[k].Covers(i);
      var x, y := CellAt(i);
      CoversCross(ms[k], x, y);
      assert Repaired(r, ms[k]);
    }
  }

  /** When clearing the pending matches leaves a column of the first match's span without any
      tile, the refill of that column runs off the board: `resolveMatchesCascade` throws. */
  lemma CascadeThrows(b: seq<int>, ms: seq<Match>, random: nat -> int, c: int)
    requires IsBoard(b) && AllWellPlaced(ms) && InColors(random) && ms != []
    requires ms[0].StartX() <= c < ms[0].EndX() && 0 <= c < W && ColumnEmpty(ClearAll(b, ms), c)
    ensures Cascade(b, ms, random).Thrown?
  {
    var cleared := ClearAll(b, ms);
    ClearAllAt(b, ms);
    assert IsBoard(cleared);
    var o1 := ResolveOne(cleared, ms[0], random, 0);
    ResolveOneSpec(cleared, ms[0], random, 0, o1);
  }

  /** Clearing one match from a full board empties a whole column exactly when the match's
      vertical arm is as tall as the board. */
  lemma ClearedColumnEmpty(b: seq<int>, m: Match, c: int)
    requires IsFull(b) && WellPlaced(m) && 0 <= c < W
    ensures ColumnEmpty(ClearAll(b, [m]), c) <==> c == m.originX && m.lengthY == H
  {
    var cleared := ClearAll(b, [m]);
    assert cleared == Cleared(b, m) by {
      assert [m][..0] == [];
    }
    if c == m.originX && m.lengthY == H {
      forall y {:trigger cleared[Idx(c, y)]} | 0 <= y < H ensures cleared[Idx(c, y)] == 0 {
        CoversCross(m, c, y);
      }
    }
    if ColumnEmpty(cleared, c) {
      // a row the match leaves alone in column c
      var y := if c != m.originX then (m.originY + 1) % H else if m.StartY() > 0 then 0 else H - 1;
      CoversCross(m, c, y);
      assert cleared[Idx(c, y)] == 0;
    }
  }

  /** A cascade of one match on a full board throws exactly when the match clears a whole column. */
  lemma CascadeOneIff(b: seq<int>, m: Match, random: nat -> int)
    requires IsFull(b) && WellPlaced(m) && InColors(random)
    ensures AllWellPlaced([m])
    ensures Cascade(b, [m], random).Thrown? <==> m.lengthY == H
  {
    var cleared := ClearAll(b, [m]);
    assert cleared == Cleared(b, m) by {
      assert [m][..0] == [] && [m][0] == m;
      assert ClearAll(b, [m][..0]) == b;
    }
    ClearKeepsBoard(b, m);
    var o1 := ResolveOne(cleared, m, random, 0);
    ResolveAllOne(cleared, m, random, 0);
    WellPlacedInRange(m, 0);
    OneThrowsIff(b, cleared, m, random, o1);
  }

  /** The second loop of `resolveMatchesCascade` over a single match is that match's repair. */
  lemma ResolveAllOne(b: seq<int>, m: Match, random: nat -> int, drawn: nat)
    requires |b| == W * H && WellPlaced(m)
    ensures AllWellPlaced([m])
    ensures ResolveAll(b, [m], random, drawn).Thrown? == ResolveOne(b, m, random, drawn).Thrown?
  {
    assert [m][0] == m && [m][1..] == [];
  }

  /** The single refill step of CascadeOneIff. */
  lemma OneThrowsIff(b: seq<int>, cleared: seq<int>, m: Match, random: nat -> int, o1: Outcome)
    requires IsFull(b) && WellPlaced(m) && InColors(random) && 0 <= m.originX < W
    requires cleared == ClearAll(b, [m]) && IsBoard(cleared)
    requires o1 == ResolveOne(cleared, m, random, 0)
    ensures o1.Thrown? <==> m.lengthY == H
  {
    ResolveOneSpec(cleared, m, random, 0, o1);
    if m.lengthY == H {
      ClearedColumnEmpty(b, m, m.originX);
    }
    if o1.Thrown? {
      var c :| m.StartX() <= c < m.EndX() && ColumnEmpty(cleared, c);
      ClearedColumnEmpty(b, m, c);
    }
  }

  /** The two matches of the fixture below: four tiles of one colour over four of another in column 0. */
  lemma ColumnPairPlaced()
    ensures AllWellPlaced([Match(0, 3, 0, -3, 1, 4), Match(0, 4, 0, 0, 1, 4)])
  {
    var ms := [Match(0, 3, 0, -3, 1, 4), Match(0, 4, 0, 0, 1, 4)];
    assert WellPlaced(ms[0]) && WellPlaced(ms[1]);
  }

  /** Clearing the two matches of the fixture below empties cell (0, y). */
  lemma ColumnPairClearsCell(b: seq<int>, ms: seq<Match>, y: int)
    requires |b| == W * H && 0 <= y < H
    requires ms == [Match(0, 3, 0, -3, 1, 4), Match(0, 4, 0, 0, 1, 4)]
    ensures ClearAll(b, ms)[Idx(0, y)] == 0
  {
    ColumnPairPlaced();
    ClearAllAt(b, ms);
    var k := if y <= 3 then 0 else 1;
    CoversCross(ms[k], 0, y);
    assert ms[k].Covers(Idx(0, y));
  }

  /** ... and so all of column 0. */
  lemma ColumnPairClears(b: seq<int>, ms: seq<Match>)
    requires |b| == W * H
    requires ms == [Match(0, 3, 0, -3, 1, 4), Match(0, 4, 0, 0, 1, 4)]
    ensures ColumnEmpty(ClearAll(b, ms), 0)
  {
    forall y {:trigger ClearAll(b, ms)[Idx(0, y)]} | 0 <= y < H ensures ClearAll(b, ms)[Idx(0, y)] == 0 {
      ColumnPairClearsCell(b, ms, y);
    }
  }

  /** Two vertical matches that together clear all of column 0 (four tiles of one colour above four
      of another) make the refill of column 0 run off the board, whatever the board and the colours
      drawn: `resolveMatchesCascade` throws. */
  lemma CascadeThrowsOnClearedColumn(b: seq<int>, random: nat -> int)
    requires IsBoard(b) && InColors(random)
    ensures AllWellPlaced([Match(0, 3, 0, -3, 1, 4), Match(0, 4, 0, 0, 1, 4)])
    ensures Cascade(b, [Match(0, 3, 0, -3, 1, 4), Match(0, 4, 0, 0, 1, 4)], random).Thrown?
  {
    ColumnPairPlaced();
    ColumnPairClears(b, [Match(0, 3, 0, -3, 1, 4), Match(0, 4, 0, 0, 1, 4)]);
    CascadeThrows(b, [Match(0, 3, 0, -3, 1, 4), Match(0, 4, 0, 0, 1, 4)], random, 0);
  }
}

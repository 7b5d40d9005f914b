/**
 The Connect Four grid as a value: HEIGHT rows of WIDTH cells, row 0 at the
 top and row HEIGHT-1 at the bottom, each cell EMPTY or a player number.
 This module states what the game logic promises (four in a row, a full
 grid, the drop row of a column, the gravity invariant) and proves the facts
 that relate these notions to one another.
 */
module Grid {

  const WIDTH: int := 7
  const HEIGHT: int := 6

  /** The value of a cell nobody has played in (`undefined` in the game). */
  const EMPTY: int := 0

  /** board[y][x] is the cell in row y and column x. */
  type Board = seq<seq<int>>

  ghost predicate WellShaped(g: Board)
  {
    |g| == HEIGHT && forall y :: 0 <= y < HEIGHT ==> |g[y]| == WIDTH
  }

  predicate InBounds(y: int, x: int)
  {
    0 <= y < HEIGHT && 0 <= x < WIDTH
  }

  ghost function EmptyBoard(): Board
  {
    seq(HEIGHT, _ => seq(WIDTH, _ => EMPTY))
  }

  /** The grid after player p's piece is put into cell (y, x). */
  ghost function Place(g: Board, y: int, x: int, p: int): Board
    requires WellShaped(g) && InBounds(y, x)
  {
    g[y := g[y][x := p]]
  }

  // ---------------------------------------------------------------------
  // Four in a row

  /** Cell (y, x) lies on the grid and holds player p. */
  ghost predicate Owns(g: Board, y: int, x: int, p: int)
    requires WellShaped(g)
  {
    InBounds(y, x) && g[y][x] == p
  }

  /** The four cells from (y, x) in steps of (dy, dx) all lie on the grid and hold p. */
  ghost predicate Line(g: Board, y: int, x: int, dy: int, dx: int, p: int)
    requires WellShaped(g)
  {
    && Owns(g, y, x, p)
    && Owns(g, y + dy, x + dx, p)
    && Owns(g, y + 2 * dy, x + 2 * dx, p)
    && Owns(g, y + 3 * dy, x + 3 * dx, p)
  }

  /** A four in a row for p starts at (y, x): rightward, downward, down-right or down-left. */
  ghost predicate WinsFrom(g: Board, y: int, x: int, p: int)
    requires WellShaped(g)
  {
    Line(g, y, x, 0, 1, p) || Line(g, y, x, 1, 0, p) || Line(g, y, x, 1, 1, p) || Line(g, y, x, 1, -1, p)
  }

  ghost predicate HasWin(g: Board, p: int)
    requires WellShaped(g)
  {
    exists y, x :: WinsFrom(g, y, x, p)
  }

  // ---------------------------------------------------------------------
  // Columns, gravity and a full grid

  ghost predicate Full(g: Board)
    requires WellShaped(g)
  {
    forall y, x :: InBounds(y, x) ==> g[y][x] != EMPTY
  }

  ghost predicate ColumnFull(g: Board, x: int)
    requires WellShaped(g) && 0 <= x < WIDTH
  {
    forall y :: 0 <= y < HEIGHT ==> g[y][x] != EMPTY
  }

  /** Row y is where a piece dropped into column x comes to rest:
      it is empty and every cell below it is occupied. */
  ghost predicate IsDropRow(g: Board, x: int, y: int)
    requires WellShaped(g) && 0 <= x < WIDTH
  {
    0 <= y < HEIGHT && g[y][x] == EMPTY && forall i :: y < i < HEIGHT ==> g[i][x] != EMPTY
  }

  /** Gravity: in every column the occupied cells form one block that ends at the bottom row. */
  ghost predicate Settled(g: Board)
    requires WellShaped(g)
  {
    forall x, y, y' :: 0 <= x < WIDTH && 0 <= y <= y' < HEIGHT && g[y][x] != EMPTY ==> g[y'][x] != EMPTY
  }

  // ---------------------------------------------------------------------
  // Counting occupied cells

  ghost function RowCount(row: seq<int>): nat
  {
    if row == [] then 0 else (if row[0] != EMPTY then 1 else 0) + RowCount(row[1..])
  }

  ghost function Count(g: seq<seq<int>>): nat
  {
    if g == [] then 0 else RowCount(g[0]) + Count(g[1..])
  }

  /** Occupied cells of column x in rows lo .. HEIGHT-1. */
  ghost function ColumnFrom(g: Board, x: int, lo: int): nat
    requires WellShaped(g) && 0 <= x < WIDTH && 0 <= lo <= HEIGHT
    decreases HEIGHT - lo
  {
    if lo == HEIGHT then 0 else (if g[lo][x] != EMPTY then 1 else 0) + ColumnFrom(g, x, lo + 1)
  }

  ghost function ColumnCount(g: Board, x: int): nat
    requires WellShaped(g) && 0 <= x < WIDTH
  {
    ColumnFrom(g, x, 0)
  }

  // ---------------------------------------------------------------------
  // Lemmas

  lemma {:induction false} RowCountPlace(row: seq<int>, i: int, p: int)
    requires 0 <= i < |row| && row[i] == EMPTY && p != EMPTY
    ensures RowCount(row[i := p]) == RowCount(row) + 1
  {
    if i == 0 {
      assert row[i := p][1..] == row[1..];
    } else {
      assert row[i := p][1..] == row[1..][i - 1 := p];
      RowCountPlace(row[1..], i - 1, p);
    }
  }

  lemma {:induction false} CountReplaceRow(g: seq<seq<int>>, y: int, r: seq<int>)
    requires 0 <= y < |g|
    ensures Count(g[y := r]) == Count(g) - RowCount(g[y]) + RowCount(r)
  {
    if y == 0 {
      assert g[y := r][1..] == g[1..];
    } else {
      assert g[y := r][1..] == g[1..][y - 1 := r];
      CountReplaceRow(g[1..], y - 1, r);
    }
  }

  /** Putting a piece into an empty cell raises the number of occupied cells by exactly one. */
  lemma PlaceCount(g: Board, y: int, x: int, p: int)
    requires WellShaped(g) && InBounds(y, x) && g[y][x] == EMPTY && p != EMPTY
    ensures Count(Place(g, y, x, p)) == Count(g) + 1
  {
    RowCountPlace(g[y], x, p);
    CountReplaceRow(g, y, g[y][x := p]);
  }

  lemma {:induction false} RowCountRange(row: seq<int>)
    ensures RowCount(row) <= |row|
    ensures RowCount(row) == |row| <==> forall i :: 0 <= i < |row| ==> row[i] != EMPTY
    ensures RowCount(row) == 0 <==> forall i :: 0 <= i < |row| ==> row[i] == EMPTY
  {
    if row != [] {
      RowCountRange(row[1..]);
      assert forall i :: 1 <= i < |row| ==> row[i] == row[1..][i - 1];
    }
  }

  lemma {:induction false} CountRange(g: seq<seq<int>>)
    requires forall y :: 0 <= y < |g| ==> |g[y]| == WIDTH
    ensures Count(g) <= |g| * WIDTH
    ensures Count(g) == |g| * WIDTH <==> forall y, x :: 0 <= y < |g| && 0 <= x < WIDTH ==> g[y][x] != EMPTY
    ensures Count(g) == 0 <==> forall y, x :: 0 <= y < |g| && 0 <= x < WIDTH ==> g[y][x] == EMPTY
  {
    if g != [] {
      RowCountRange(g[0]);
      CountRange(g[1..]);
      assert forall y :: 1 <= y < |g| ==> g[y] == g[1..][y - 1];
    }
  }

  /** The grid is full exactly when all HEIGHT * WIDTH cells are counted as occupied. */
  lemma FullIffCount(g: Board)
    requires WellShaped(g)
    ensures Full(g) <==> Count(g) == HEIGHT * WIDTH
  {
    CountRange(g);
  }

  /** The grid the game starts from: no piece, nothing to fall, no four in a row. */
  lemma EmptyBoardFacts(p: int)
    requires p != EMPTY
    ensures WellShaped(EmptyBoard()) && Count(EmptyBoard()) == 0 && Settled(EmptyBoard())
    ensures !HasWin(EmptyBoard(), p) && !Full(EmptyBoard())
  {
    CountRange(EmptyBoard());
    assert !Full(EmptyBoard()) by {
      assert EmptyBoard()[0][0] == EMPTY;
    }
  }

  lemma {:induction false} SettledColumnFrom(g: Board, x: int, lo: int)
    requires WellShaped(g) && Settled(g) && 0 <= x < WIDTH && 0 <= lo <= HEIGHT
    ensures ColumnFrom(g, x, lo) <= HEIGHT - lo
    ensures forall y :: lo <= y < HEIGHT ==> (g[y][x] != EMPTY <==> y >= HEIGHT - ColumnFrom(g, x, lo))
    decreases HEIGHT - lo
  {
    if lo < HEIGHT {
      SettledColumnFrom(g, x, lo + 1);
    }
  }

  /** On a settled grid, a column with k pieces is full exactly when k == HEIGHT,
      and otherwise its drop row is HEIGHT-1-k. */
  lemma DropRowFromCount(g: Board, x: int)
    requires WellShaped(g) && Settled(g) && 0 <= x < WIDTH
    ensures ColumnFull(g, x) <==> ColumnCount(g, x) == HEIGHT
    ensures forall y :: IsDropRow(g, x, y) <==> ColumnCount(g, x) < HEIGHT && y == HEIGHT - 1 - ColumnCount(g, x)
  {
    SettledColumnFrom(g, x, 0);
  }

  /** A piece dropped onto the drop row of its column keeps the grid settled. */
  lemma PlaceKeepsSettled(g: Board, y: int, x: int, p: int)
    requires WellShaped(g) && Settled(g) && 0 <= x < WIDTH && IsDropRow(g, x, y) && p != EMPTY
    ensures WellShaped(Place(g, y, x, p)) && Settled(Place(g, y, x, p))
  {
  }

  /** Pieces are never removed, so a four in a row, once there, survives every later placement. */
  lemma WinIsPermanent(g: Board, y: int, x: int, q: int, p: int)
    requires WellShaped(g) && InBounds(y, x) && g[y][x] == EMPTY && p != EMPTY
    requires HasWin(g, p)
    ensures HasWin(Place(g, y, x, q), p)
  {
    var y0, x0 :| WinsFrom(g, y0, x0, p);
    var g' := Place(g, y, x, q);
    forall a, b | Owns(g, a, b, p) ensures Owns(g', a, b, p) {
      assert (a, b) != (y, x);
    }
    assert WinsFrom(g', y0, x0, p);
  }
}

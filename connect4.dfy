/**
 One Connect Four session: the grid of cells, whose turn it is, and what a
 click on a column does to them. The grid is a HEIGHT x WIDTH array updated in
 place; the ghost field `cells` is its value as a Grid.Board, and Valid()
 keeps the two in step.
 */
module Connect4 {
  import opened Grid

  datatype Option<T> = None | Some(value: T)

  /** What a click leads to: the game goes on, the player who moved has won, or the grid is full. */
  datatype Outcome = InProgress | PlayerWon(player: int) | Tie

  /** The player whose turn follows p's: 2 after 1, and 1 after anything else. */
  function Other(p: int): (r: int)
    ensures r == 1 || r == 2
    ensures (p == 1 || p == 2) ==> r != p
  {
    if p == 1 then 2 else 1
  }

  /** makeBoard: a fresh HEIGHT x WIDTH grid with every cell empty. */
  method MakeBoard() returns (b: array2<int>)
    ensures fresh(b) && b.Length0 == HEIGHT && b.Length1 == WIDTH
    ensures forall y, x :: 0 <= y < HEIGHT && 0 <= x < WIDTH ==> b[y, x] == EMPTY
  {
    b := new int[HEIGHT, WIDTH];
    for y := 0 to HEIGHT
      invariant forall i, j :: 0 <= i < y && 0 <= j < WIDTH ==> b[i, j] == EMPTY
    {
      for x := 0 to WIDTH
        invariant forall i, j :: 0 <= i < y && 0 <= j < WIDTH ==> b[i, j] == EMPTY
        invariant forall j :: 0 <= j < x ==> b[y, j] == EMPTY
      {
        b[y, x] := EMPTY;
      }
    }
  }

  class Game {
    const board: array2<int>
    var currPlayer: int
    ghost var cells: Board

    ghost predicate Valid()
      reads this, board
    {
      && board.Length0 == HEIGHT && board.Length1 == WIDTH
      && WellShaped(cells)
      && (forall y, x :: InBounds(y, x) ==> board[y, x] == cells[y][x])
      && (currPlayer == 1 || currPlayer == 2)
    }

    /** The state the page starts with: an empty grid and player 1 to move. */
    constructor ()
      ensures Valid() && fresh(board)
      ensures cells == EmptyBoard() && currPlayer == 1
    {
      var b := MakeBoard();
      board := b;
      currPlayer := 1;
      cells := EmptyBoard();
    }

    /** findSpotForCol: the lowest empty row of column x, or None when the column is full. */
    method FindSpotForCol(x: int) returns (spot: Option<int>)
      requires Valid() && 0 <= x < WIDTH
      ensures spot.Some? ==> IsDropRow(cells, x, spot.value)
      ensures spot.None? <==> ColumnFull(cells, x)
    {
      var i := HEIGHT - 1;
      while i >= 0
        invariant -1 <= i < HEIGHT
        invariant forall j :: i < j < HEIGHT ==> cells[j][x] != EMPTY
      {
        if board[i, x] == EMPTY {
          return Some(i);
        }
        i := i - 1;
      }
      return None;
    }

    /** _win: every cell of the group lies on the grid and holds the current player's piece. */
    function Win(group: seq<(int, int)>): (r: bool)
      reads this, board
      requires Valid()
      ensures r <==> forall i :: 0 <= i < |group| ==> Owns(cells, group[i].0, group[i].1, currPlayer)
    {
      if group == [] then true
      else
        var (y, x) := group[0];
        InBounds(y, x) && board[y, x] == currPlayer && Win(group[1..])
    }

    /** The body of checkForWin's scan for one start cell (y, x): the four groups of four cells
        it builds, any of which makes a win. */
    function WinStartsAt(y: int, x: int): (r: bool)
      reads this, board
      requires Valid()
      ensures r <==> WinsFrom(cells, y, x, currPlayer)
    {
      var horiz := [(y, x), (y, x + 1), (y, x + 2), (y, x + 3)];
      var vert := [(y, x), (y + 1, x), (y + 2, x), (y + 3, x)];
      var diagDR := [(y, x), (y + 1, x + 1), (y + 2, x + 2), (y + 3, x + 3)];
      var diagDL := [(y, x), (y + 1, x - 1), (y + 2, x - 2), (y + 3, x - 3)];
      GroupIsLine(cells, horiz, y, x, 0, 1, currPlayer);
      GroupIsLine(cells, vert, y, x, 1, 0, currPlayer);
      GroupIsLine(cells, diagDR, y, x, 1, 1, currPlayer);
      GroupIsLine(cells, diagDL, y, x, 1, -1, currPlayer);
      Win(horiz) || Win(vert) || Win(diagDR) || Win(diagDL)
    }

    /** checkForWin: the scan over every start cell finds a four in a row for the current player
        exactly when there is one. */
    method CheckForWin() returns (won: bool)
      requires Valid()
      ensures won <==> HasWin(cells, currPlayer)
    {
      for y := 0 to HEIGHT
        invariant forall i, j :: 0 <= i < y && 0 <= j < WIDTH ==> !WinsFrom(cells, i, j, currPlayer)
      {
        for x := 0 to WIDTH
          invariant forall i, j :: 0 <= i < y && 0 <= j < WIDTH ==> !WinsFrom(cells, i, j, currPlayer)
          invariant forall j :: 0 <= j < x ==> !WinsFrom(cells, y, j, currPlayer)
        {
          if WinStartsAt(y, x) {
            return true;
          }
        }
      }
      return false;
    }

    /** The tie test of handleClick: every cell of every row is occupied. */
    method BoardIsFull() returns (full: bool)
      requires Valid()
      ensures full <==> Full(cells)
    {
      for y := 0 to HEIGHT
        invariant forall i, j :: 0 <= i < y && 0 <= j < WIDTH ==> cells[i][j] != EMPTY
      {
        for x := 0 to WIDTH
          invariant forall i, j :: 0 <= i < y && 0 <= j < WIDTH ==> cells[i][j] != EMPTY
          invariant forall j :: 0 <= j < x ==> cells[y][j] != EMPTY
        {
          if board[y, x] == EMPTY {
            return false;
          }
        }
      }
      return true;
    }

    /** handleClick on column x: drop the current player's piece, then report a win, else a tie,
        else pass the turn. A click on a full column changes nothing. */
    method HandleClick(x: int) returns (spot: Option<int>, outcome: Outcome)
      requires Valid() && 0 <= x < WIDTH
      modifies this, board
      ensures Valid()
      ensures spot.None? <==> ColumnFull(old(cells), x)
      ensures spot.None? ==> cells == old(cells) && currPlayer == old(currPlayer) && outcome == InProgress
      ensures spot.Some? ==> IsDropRow(old(cells), x, spot.value)
      ensures spot.Some? ==> cells == Place(old(cells), spot.value, x, old(currPlayer))
      ensures spot.Some? ==> Count(cells) == Count(old(cells)) + 1
      ensures spot.Some? ==> (outcome.PlayerWon? <==> HasWin(cells, old(currPlayer)))
      ensures outcome.PlayerWon? ==> outcome.player == old(currPlayer)
      ensures spot.Some? ==> (outcome == Tie <==> !HasWin(cells, old(currPlayer)) && Full(cells))
      ensures currPlayer == if spot.Some? && outcome == InProgress then Other(old(currPlayer)) else old(currPlayer)
      ensures Settled(old(cells)) ==> Settled(cells)
    {
      spot := FindSpotForCol(x);
      if spot.None? {
        return spot, InProgress;
      }
      var y := spot.value;
      board[y, x] := currPlayer;
      PlaceCount(cells, y, x, currPlayer);
      if Settled(cells) {
        PlaceKeepsSettled(cells, y, x, currPlayer);
      }
      cells := Place(cells, y, x, currPlayer);
      var won := CheckForWin();
      if won {
        return spot, PlayerWon(currPlayer);
      }
      var full := BoardIsFull();
      if full {
        return spot, Tie;
      }
      currPlayer := Other(currPlayer);
      outcome := InProgress;
    }
  }

  /** The four cells checked from (y, x) in direction (dy, dx) all hold p exactly when they form a Line. */
  lemma GroupIsLine(g: Board, group: seq<(int, int)>, y: int, x: int, dy: int, dx: int, p: int)
    requires WellShaped(g)
    requires group == [(y, x), (y + dy, x + dx), (y + 2 * dy, x + 2 * dx), (y + 3 * dy, x + 3 * dx)]
    ensures (forall i :: 0 <= i < |group| ==> Owns(g, group[i].0, group[i].1, p)) <==> Line(g, y, x, dy, dx, p)
  {
    if Line(g, y, x, dy, dx, p) {
      forall i | 0 <= i < |group| ensures Owns(g, group[i].0, group[i].1, p) {
        assert i == 0 || i == 1 || i == 2 || i == 3;
      }
    } else {
      assert !Owns(g, group[0].0, group[0].1, p) || !Owns(g, group[1].0, group[1].1, p)
          || !Owns(g, group[2].0, group[2].1, p) || !Owns(g, group[3].0, group[3].1, p);
    }
  }
}

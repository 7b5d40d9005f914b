# Connect Four game logic, modelled in Dafny

This project models the game logic of `connect4.js`: one Connect Four session
on a grid 7 columns wide and 6 rows high. Row 0 is the top row and row 5 the
bottom one. The session keeps two pieces of mutable state: the grid `board`
(`board[y][x]`, each cell empty or holding player 1 or 2) and `currPlayer`.
The model covers four things:

- building the empty grid (`makeBoard`);
- the gravity drop (`findSpotForCol`), which finds the lowest empty row of a column;
- a click on a column (`handleClick`). It writes the piece, checks for a win, then
  for a tie, and otherwise passes the turn between 1 and 2;
- win detection (`checkForWin` and its helper `_win`). It scans every start cell
  for four in a row rightward, downward, down-right and down-left, and counts
  only cells that lie on the grid.

Two modules:

- `Grid` (grid.dfy) describes the grid as a value (`seq<seq<int>>`). It defines
  four in a row (`HasWin`), a full grid, the drop row of a column and the
  gravity invariant (`Settled`). It also counts the occupied cells and proves
  how these notions relate.
- `Connect4` (connect4.dfy) holds the session itself. `Game` is a class with the
  grid as an `array2<int>` updated in place and `currPlayer` as a field. A ghost
  field `cells` holds the grid's value, and `Valid()` keeps it equal to the
  array. Each loop of the source is a method. Each method is proved against the
  `Grid` definitions.

An empty cell (JavaScript `undefined`) is `EMPTY == 0`. `checkForWin` returns
`true` or `undefined`; `CheckForWin` returns `true` or `false`. `handleClick`
shows its result through `endGame` (an `alert`). `HandleClick` instead returns
the row it used (`None` when the column was full) and an `Outcome`:
`InProgress`, `PlayerWon(p)` or `Tie`.

The code has no game-over guard, and the model keeps that. After a win,
`currPlayer` is not switched (the early return at connect4.js:86), and the next
click is still accepted. The grid's gravity invariant and `currPlayer` being 1 or
2 hold across every click. A win, once on the grid, stays there
(`WinIsPermanent`). So after player p wins, every later accepted click drops
another piece of p's and reports p's win again.

## Model

| member | source | states |
|---|---|---|
| Connect4.MakeBoard | connect4.js:16-21 | returns a fresh grid of exactly HEIGHT rows and WIDTH columns whose every cell is empty |
| Connect4.Game.constructor | connect4.js:9-13 | the session starts with the empty grid built by makeBoard and player 1 to move |
| Grid.EmptyBoardFacts | connect4.js:16-21 | the empty grid is well shaped, has zero occupied cells, satisfies the gravity invariant, is not full and holds no four in a row for any player |
| Connect4.Game.FindSpotForCol | connect4.js:49-56 | a returned row is empty and every cell below it in column x is occupied (so it is the largest empty row); null is returned exactly when every cell of column x is occupied |
| Grid.DropRowFromCount | connect4.js:49-55 | on a grid that obeys gravity, a column holding k pieces is full exactly when k == HEIGHT; otherwise its drop row is exactly HEIGHT-1-k |
| Connect4.Game.Win | connect4.js:97-107 | true exactly when every cell of the group lies on the grid and holds currPlayer; one cell off the grid disqualifies the group |
| Connect4.GroupIsLine | connect4.js:111-134 | each group of four cells that checkForWin builds from (y, x) in a direction passes the _win test exactly when the four cells from (y, x) in that direction form a line of the player's pieces |
| Connect4.Game.WinStartsAt | connect4.js:111-136 | the horizontal, vertical and two diagonal groups from (y, x) contain a win exactly when a four in a row for currPlayer starts at (y, x) |
| Connect4.Game.CheckForWin | connect4.js:96-141 | returns true exactly when some start cell and some direction among (0,1), (1,0), (1,1), (1,-1) give four cells on the grid that all hold currPlayer; it changes nothing, so repeated calls on an unchanged grid agree |
| Connect4.Game.BoardIsFull | connect4.js:88 | true exactly when every cell of every row is occupied |
| Grid.FullIffCount | connect4.js:88 | the grid is full exactly when the number of occupied cells is HEIGHT * WIDTH |
| Connect4.Other | connect4.js:92 | the next player is always 1 or 2, and differs from the current one when the current one is 1 or 2 |
| Connect4.Game.HandleClick | connect4.js:72-93 | a click on a full column changes neither the grid nor currPlayer; otherwise exactly the drop-row cell of column x changes, from empty to currPlayer, and the occupied count rises by one; a win is reported exactly when the new grid has a four in a row for the player who moved; a tie exactly when there is no such win and the grid is full; currPlayer flips only when neither happened; the gravity invariant and currPlayer in {1, 2} are preserved |
| Grid.PlaceCount | connect4.js:81 | putting a piece into an empty cell raises the number of occupied cells by exactly one |
| Grid.PlaceKeepsSettled | connect4.js:76-81 | dropping a piece onto the drop row of its column keeps every column's pieces in one block ending at the bottom row |
| Grid.WinIsPermanent | connect4.js:85-86 | a four in a row survives every later placement into an empty cell, since pieces are never removed |

## Left out

- `makeHtmlBoard` (connect4.js:24-46) and `placeInTable` (connect4.js:59-64) only build and update the page; they are not modelled.
- `endGame` (connect4.js:67-69) only shows an `alert`; the model returns an `Outcome` value instead.
- Turning a click into a column with `+evt.target.id` (connect4.js:74) is event plumbing. `HandleClick` takes the column as an integer with `0 <= x < WIDTH`. A non-numeric id would give `NaN`, and that case is not modelled.
- The start-up calls (connect4.js:143-144) and binding the click listener (connect4.js:29) are not modelled; the `Game` constructor stands for the state after start-up.
- `WIDTH` and `HEIGHT` are declared with `let` but never reassigned; they are constants here.
- `makeBoard` pushes rows onto a module-level array. The array could already hold rows, but `makeBoard` is only called once, on an empty array, so the model allocates a fresh grid.

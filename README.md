# N-puzzle client: board helpers and board text form

The n-puzzle game is a Tkinter window (`main.py`) that talks to a puzzle
server over HTTP (`prolog.py`). The server generates boards, applies moves,
decides whether a board is solved and finds solutions; its code is not part
of this repository. What the client computes itself, and what this project
models and proves, is:

- **locating the blank** (`find_empty_tile`): the first cell, in row-major
  order, of a `size * size` board that holds 0;
- **turning a click into a move** (`determine_direction`): the direction the
  blank must move to reach the clicked cell, when that cell is one of the
  blank's four neighbours;
- **colouring a tile** (`get_tile_color`): whether a tile sits where the
  solved board `[1, 2, ..., n - 1, 0]` has it (the green pair) or not (the
  orange pair);
- **writing a board for the server** (`to_array_string`): `[a,b,c]`, the
  elements in decimal, separated by commas.

Files:

- `option.dfy`: module `Options`, the `Option` datatype used for the
  source's `None`.
- `board.dfy`: module `Board`, the helpers of `main.py`. The window keeps
  `board` and `size` as globals; here they are parameters. A board is a
  `seq<int>`, a grid position a `Cell(row, col)`, a direction one of
  `Up | Down | Left | Right`, and a tile colour `InPlace | OutOfPlace`.
  `FindEmptyTile` is a method with the source's two nested loops and early
  return; `DetermineDirection` and `GetTileColor` are functions. Their
  partners are `Step` (moving a cell one step in a direction, the inverse of
  `DetermineDirection`), `Manhattan` and `SolvedBoard`.
- `wire.dfy`: module `Wire`, `to_array_string` of `prolog.py` as the method
  `ToArrayString`, with its loop, proved equal to the function `Render`.
  Python's `str` on integers is `IntToDecimal` (a minus sign before the
  digits of a negative number). `ParseArray` reads the text back. It splits
  the text between the brackets on commas the way Python's `str.split` does,
  and parses each piece as a decimal integer. It is the inverse against
  which the writer is proved.

## Model

| member | source | states |
|---|---|---|
| `Board.FindEmptyTile` | main.py:260-265 | a returned cell is inside the grid, its row-major index is below `size*size` and holds 0, and no earlier index holds 0; None is returned exactly when none of the first `size*size` cells holds 0 |
| `Board.IndexInRange` | main.py:263 | for `0 <= i, j < size` the index `i*size + j` lies in `[0, size*size)` |
| `Board.IndexInverse` | main.py:74 | the row and column come back from the index by division and remainder by `size` |
| `Board.IndexInjective` | main.py:286-288 | distinct in-grid cells have distinct indices, so every button shows its own board entry |
| `Board.CellOfIndex` | main.py:71-75 | every board index `k < size*size` is the index of the in-grid cell `(k / size, k % size)`, so the grid covers the whole board |
| `Board.DetermineDirection` | main.py:268-277 | a direction is returned exactly when the clicked cell is at Manhattan distance 1 from the blank, and moving the blank one step that way lands on the clicked cell |
| `Board.DirectionOffsets` | main.py:269-276 | `Right` exactly for same row and column + 1, `Left` for column - 1, `Down` for row + 1, `Up` for row - 1 |
| `Board.BlankClickIgnored` | main.py:277 | clicking the blank's own cell gives no direction |
| `Board.DirectionOfStep` | main.py:268-277 | for every direction, clicking the blank's neighbour in that direction gives that direction back |
| `Board.ClickMoveStaysInGrid` | main.py:234-236 | when the clicked cell is inside the grid, the move chosen for it keeps the blank inside the grid |
| `Board.GetTileColor` | main.py:59-65 | for an index of the board and a value a board can hold, a tile is in place exactly when it equals the solved board's value at that index |
| `Board.AllInPlaceIffSolved` | main.py:59-65 | every tile of a board with values in `0..n-1` shows as in place exactly when the board is `[1, 2, ..., n - 1, 0]` |
| `Board.MisplacedBlank` | main.py:60-65 | the blank at any index other than the last one shows as out of place |
| `Wire.ToArrayString` | prolog.py:5-12 | the text built by the loop is `[`, the elements' decimal forms joined by commas in order, then `]` |
| `Wire.NatToDecimal` | prolog.py:10 | the decimal form of a natural number is non-empty, all digits, and starts with `0` only for 0 itself |
| `Wire.IntToDecimal` | prolog.py:10 | Python's `str` on an integer is non-empty, has no comma, and starts with `-` exactly for negative numbers |
| `Wire.IntDecimalRoundTrip` | prolog.py:10 | parsing the decimal form of any integer gives the integer back |
| `Wire.RenderBrackets` | prolog.py:6-11 | the text starts with `[` and ends with `]`, and it is `[]` exactly for the empty board |
| `Wire.CommaCount` | prolog.py:8-9 | the text holds `len(board) - 1` commas for a non-empty board and none for the empty one |
| `Wire.RenderLength` | prolog.py:6-11 | the text's length is 2 plus the lengths of the decimal forms plus the number of commas |
| `Wire.SplitJoin` | prolog.py:7-10 | splitting the text between the brackets on commas gives the elements' decimal forms, in order |
| `Wire.RenderRoundTrip` | prolog.py:5-12 | reading back the text written for any board gives that board |

## Left out

- The puzzle engine (board generation, move application, the solved check, the solver): it runs on the server that `PrologService` calls, and that server's code is not part of this model.
- `PrologService` (prolog.py:15-46): HTTP requests to `localhost:8079` and status-code handling, which is network I/O.
- The Tkinter window: theme, start page, game page, grid buttons, win screen, labels, button callbacks (`button_click`, `move_tile`, `solve`), and the timer and delayed replay through `root.after`. This is user interface code, wall-clock time and event-loop scheduling.
- The global session state (`board`, `size`, `moves`, `mode`, `is_solving`, `start_time`): the helpers take `board` and `size` as parameters instead.
- Board.FindEmptyTile: requires the board to hold at least `size * size` cells. On a shorter board the source raises an IndexError once the scan passes the end, and that failure is not modelled. `size` is a natural number, as the window only offers 3, 4 and 5.
- Board.FindEmptyTile: the source's `(None, None)` pair is a single `None`. Passing that pair on to `determine_direction` raises a TypeError in the source. The model's `DetermineDirection` takes cells, so that call cannot be written.
- Board.GetTileColor: the two colour pairs (green/dark green, orange/dark orange) are the two values `InPlace` and `OutOfPlace`. The colour hex codes are not modelled.
- `ParseArray` and its helpers are not in the source. The server reads this text with its own parser, which is not shown. They exist only to state that the written text loses nothing.

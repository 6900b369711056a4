/**
 * The board helpers of the game window (main.py): locating the blank,
 * turning a click into a direction for the blank, and deciding whether a
 * tile shows as "in place". The board is a row-major sequence of
 * `size * size` integers, 0 being the blank; the window keeps `board` and
 * `size` as globals, here they are parameters.
 */
module Board {

  import opened Options

  /** A grid position: row and column, both counted from 0. */
  datatype Cell = Cell(row: int, col: int)

  /** The direction the blank moves; the wire names are "up", "down", "left", "right". */
  datatype Direction = Up | Down | Left | Right

  /** Only whether a tile is in its goal position matters: the green or the orange colour pair. */
  datatype TileColor = InPlace | OutOfPlace

  predicate InGrid(size: int, c: Cell)
  {
    0 <= c.row < size && 0 <= c.col < size
  }

  /** Row-major position of a cell: `i * size + j`. */
  function Index(size: int, c: Cell): int
  {
    c.row * size + c.col
  }

  /** Every in-grid cell has its row-major index inside the board. */
  lemma {:induction false} IndexInRange(size: int, c: Cell)
    requires InGrid(size, c)
    ensures 0 <= Index(size, c) < size * size
  {
    assert c.row * size <= (size - 1) * size by {
      MulMonotone(c.row, size - 1, size);
    }
  }

  lemma {:induction false} MulMonotone(a: int, b: int, k: int)
    requires 0 <= a <= b && 0 <= k
    ensures a * k <= b * k
  {
    var d := b - a;
    assert b * k == a * k + d * k;
  }

  /** The row-major index determines the cell: row and column come back by division. */
  lemma {:induction false} IndexInverse(size: int, c: Cell)
    requires InGrid(size, c)
    ensures Index(size, c) / size == c.row && Index(size, c) % size == c.col
  {
    DivModUnique(Index(size, c), size, c.row, c.col);
  }

  lemma {:induction false} DivModUnique(k: int, size: int, q: int, r: int)
    requires 0 <= r < size && k == q * size + r
    ensures k / size == q && k % size == r
  {
    var q', r' := k / size, k % size;
    assert k == q' * size + r' && 0 <= r' < size;
    assert (q - q') * size == r' - r;
    MultipleBound(q - q', size);
  }

  /** A nonzero multiple of `size` is at least `size` away from 0. */
  lemma {:induction false} MultipleBound(d: int, size: int)
    requires size > 0
    ensures d > 0 ==> d * size >= size
    ensures d < 0 ==> d * size <= -size
  {
    if d > 0 {
      MulMonotone(1, d, size);
    } else if d < 0 {
      MulMonotone(1, -d, size);
    }
  }

  /** Distinct in-grid cells have distinct row-major indices. */
  lemma {:induction false} IndexInjective(size: int, c: Cell, d: Cell)
    requires InGrid(size, c) && InGrid(size, d) && c != d
    ensures Index(size, c) != Index(size, d)
  {
    IndexInverse(size, c);
    IndexInverse(size, d);
  }

  /** Every index of the board is the row-major index of exactly one in-grid cell. */
  lemma {:induction false} CellOfIndex(size: nat, k: int)
    requires 0 <= k < size * size
    ensures InGrid(size, Cell(k / size, k % size)) && Index(size, Cell(k / size, k % size)) == k
  {
    var q, r := k / size, k % size;
    assert k == q * size + r && 0 <= r < size;
  }

  /** Rows are `size` cells long: the next row starts `size` indices later. */
  lemma {:induction false} NextRow(size: int, i: int)
    ensures (i + 1) * size == i * size + size
  {
  }

  /**
   * find_empty_tile: scan the rows, and each row's columns, for the value 0
   * and return the first cell that holds it, or None when no cell does.
   */
  method FindEmptyTile(board: seq<int>, size: nat) returns (blank: Option<Cell>)
    requires size * size <= |board|
    ensures blank.Some? ==> InGrid(size, blank.value) && Index(size, blank.value) < size * size
    ensures blank.Some? ==> board[Index(size, blank.value)] == 0
    ensures blank.Some? ==> forall k :: 0 <= k < Index(size, blank.value) ==> board[k] != 0
    ensures blank.None? <==> forall k :: 0 <= k < size * size ==> board[k] != 0
  {
    var i, rowStart := 0, 0;
    while i < size
      invariant 0 <= i <= size && rowStart == i * size && rowStart <= size * size
      invariant forall k :: 0 <= k < rowStart ==> board[k] != 0
    {
      assert rowStart + size <= size * size by {
        MulMonotone(i + 1, size, size);
        NextRow(size, i);
      }
      var j := 0;
      while j < size
        invariant 0 <= j <= size
        invariant forall k :: 0 <= k < rowStart + j ==> board[k] != 0
      {
        if board[rowStart + j] == 0 {
          assert Index(size, Cell(i, j)) == rowStart + j;
          return Some(Cell(i, j));
        }
        j := j + 1;
      }
      NextRow(size, i);
      i, rowStart := i + 1, rowStart + size;
    }
    assert rowStart == size * size;
    return None;
  }

  function Abs(x: int): nat
  {
    if x < 0 then -x else x
  }

  /** Number of orthogonal steps between two cells. */
  function Manhattan(a: Cell, b: Cell): nat
  {
    Abs(a.row - b.row) + Abs(a.col - b.col)
  }

  /** The cell the blank reaches by moving one step in direction `d`. */
  function Step(c: Cell, d: Direction): Cell
  {
    match d
    case Up => Cell(c.row - 1, c.col)
    case Down => Cell(c.row + 1, c.col)
    case Left => Cell(c.row, c.col - 1)
    case Right => Cell(c.row, c.col + 1)
  }

  /**
   * determine_direction: the direction the blank must move so that it lands
   * on the clicked cell, or None when the clicked cell is not one of the
   * blank's four neighbours (the blank's own cell included).
   */
  function DetermineDirection(blank: Cell, clicked: Cell): (d: Option<Direction>)
    ensures d.Some? <==> Manhattan(blank, clicked) == 1
    ensures d.Some? ==> Step(blank, d.value) == clicked
  {
    if clicked.row == blank.row && clicked.col == blank.col + 1 then Some(Right)
    else if clicked.row == blank.row && clicked.col == blank.col - 1 then Some(Left)
    else if clicked.row == blank.row + 1 && clicked.col == blank.col then Some(Down)
    else if clicked.row == blank.row - 1 && clicked.col == blank.col then Some(Up)
    else None
  }

  /** Each direction names exactly one offset: right is column + 1, left column - 1, down row + 1, up row - 1. */
  lemma DirectionOffsets(blank: Cell, clicked: Cell)
    ensures DetermineDirection(blank, clicked) == Some(Right) <==> clicked == Cell(blank.row, blank.col + 1)
    ensures DetermineDirection(blank, clicked) == Some(Left) <==> clicked == Cell(blank.row, blank.col - 1)
    ensures DetermineDirection(blank, clicked) == Some(Down) <==> clicked == Cell(blank.row + 1, blank.col)
    ensures DetermineDirection(blank, clicked) == Some(Up) <==> clicked == Cell(blank.row - 1, blank.col)
  {
  }

  /** Clicking the blank itself moves nothing. */
  lemma BlankClickIgnored(blank: Cell)
    ensures DetermineDirection(blank, blank) == None
  {
  }

  /** Step is the inverse of DetermineDirection: clicking the neighbour in direction `d` yields `d`. */
  lemma DirectionOfStep(blank: Cell, d: Direction)
    ensures DetermineDirection(blank, Step(blank, d)) == Some(d)
  {
  }

  /** A move chosen by clicking an in-grid cell keeps the blank inside the grid. */
  lemma ClickMoveStaysInGrid(size: int, blank: Cell, clicked: Cell)
    requires InGrid(size, clicked)
    requires DetermineDirection(blank, clicked).Some?
    ensures InGrid(size, Step(blank, DetermineDirection(blank, clicked).value))
  {
  }

  /** The solved board `[1, 2, ..., n - 1, 0]` with n = size * size. */
  function SolvedBoard(size: nat): seq<int>
  {
    seq(size * size, k => if k == size * size - 1 then 0 else k + 1)
  }

  /**
   * get_tile_color: the blank is in place on the last cell, any other value
   * when it equals its index plus one. For a value the board can hold, that
   * is exactly the value the solved board has at that index.
   */
  function GetTileColor(value: int, index: int, size: int): (c: TileColor)
    ensures size >= 0 && 0 <= index < size * size && 0 <= value < size * size ==>
              (c == InPlace <==> value == SolvedBoard(size)[index])
  {
    if value == 0 && index == size * size - 1 then InPlace
    else if index == value - 1 then InPlace
    else OutOfPlace
  }

  /** The values a board of this size holds: 0 to n - 1. */
  predicate ValuesInRange(board: seq<int>, size: nat)
  {
    forall k :: 0 <= k < |board| ==> 0 <= board[k] < size * size
  }

  /** Every tile shows as in place exactly when the board is the solved board. */
  lemma {:induction false} AllInPlaceIffSolved(board: seq<int>, size: nat)
    requires |board| == size * size && ValuesInRange(board, size)
    ensures (forall k :: 0 <= k < |board| ==> GetTileColor(board[k], k, size) == InPlace)
            <==> board == SolvedBoard(size)
  {
    if forall k :: 0 <= k < |board| ==> GetTileColor(board[k], k, size) == InPlace {
      forall k | 0 <= k < |board|
        ensures board[k] == SolvedBoard(size)[k]
      {
        assert GetTileColor(board[k], k, size) == InPlace;
      }
    }
  }

  /** The blank anywhere but the last cell shows as out of place. */
  lemma MisplacedBlank(size: int, index: int)
    requires 0 <= index && index != size * size - 1
    ensures GetTileColor(0, index, size) == OutOfPlace
  {
  }
}

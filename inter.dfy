/**
  The candidate tracker of inter.py: a `Grid` owning the 9×9 board, the
  number picked in the button strip, the cells the user filled in, and a
  per-cell cache of candidates that is refreshed in place.
 */
module Inter {
  import opened Wrappers
  import opened SudokuBoard
  import opened Possibilities

  /** The window measures: `SCREEN_SIZE` (the square board area) and `BUTTON_HEIGHT` (the number strip below it). */
  datatype Screen = Screen(size: nat, buttonHeight: nat) {
    /** `CELL_SIZE = SCREEN_SIZE // GRID_SIZE` is positive. */
    predicate Valid() {
      size >= Size
    }

    function CellSize(): nat {
      size / Size
    }

    /** `SCREEN_SIZE` is a multiple of `GRID_SIZE`, so every board pixel maps into the grid. */
    predicate Exact() {
      size % Size == 0
    }
  }

  /** The cell under a board pixel: `(y // CELL_SIZE, x // CELL_SIZE)`. */
  function CellAt(pos: Pixel, screen: Screen): Cell
    requires screen.Valid()
  {
    (pos.y / screen.CellSize(), pos.x / screen.CellSize())
  }

  /** How a call of `place_number` ends; `IndexError` is the exception a cell index past the board raises. */
  datatype PlaceStatus = Placed | Ignored | IndexError

  /** The board and the user-input set after `place_number`, with how it ended. */
  datatype Placement = Placement(board: Board, inputs: set<Cell>, status: PlaceStatus)

  /**
    The effect of `place_number`: a click inside the board area with a truthy
    number fills the clicked cell and records it as a user input, provided the
    cell is empty; an index past the board raises before anything changes.
   */
  function PlaceEffect(b: Board, inputs: set<Cell>, pos: Pixel, n: Option<int>, screen: Screen): (p: Placement)
    requires WellFormed(b) && screen.Valid()
    ensures WellFormed(p.board)
    ensures p.status == Placed <==>
      pos.x < screen.size && pos.y < screen.size && Truthy(n) && InGrid(CellAt(pos, screen)) && At(b, CellAt(pos, screen)) == 0
    ensures p.status == Placed ==> At(p.board, CellAt(pos, screen)) == n.value && p.inputs == inputs + {CellAt(pos, screen)}
    ensures p.status != Placed ==> p.board == b && p.inputs == inputs
    ensures forall q :: InGrid(q) && q != CellAt(pos, screen) ==> At(p.board, q) == At(b, q)
    ensures forall q :: InGrid(q) && At(b, q) != 0 ==> At(p.board, q) == At(b, q)
    ensures inputs <= p.inputs
  {
    if !(pos.x < screen.size && pos.y < screen.size && Truthy(n)) then
      Placement(b, inputs, Ignored)
    else
      var cell := CellAt(pos, screen);
      if !InGrid(cell) then Placement(b, inputs, IndexError)
      else if At(b, cell) == 0 then Placement(Put(b, cell, n.value), inputs + {cell}, Placed)
      else Placement(b, inputs, Ignored)
  }

  /** The digit a click in the number strip picks: `x // CELL_SIZE + 1`, or `None` outside the strip. */
  function ButtonDigit(pos: Pixel, screen: Screen): Option<int>
    requires screen.Valid()
  {
    if screen.size <= pos.y <= screen.size + screen.buttonHeight then Some(pos.x / screen.CellSize() + 1)
    else None
  }

  /** On an exact screen every pixel of the board area lies over one of the 81 cells. */
  lemma {:induction false} ExactScreenCellInGrid(pos: Pixel, screen: Screen)
    requires screen.Valid() && screen.Exact()
    requires pos.x < screen.size && pos.y < screen.size
    ensures InGrid(CellAt(pos, screen))
  {
    var k := screen.CellSize();
    assert screen.size == Size * k;
    DivBelow(pos.x, k, Size);
    DivBelow(pos.y, k, Size);
  }

  /** On an exact screen `place_number` never raises. */
  lemma {:induction false} ExactScreenPlacementNeverRaises(b: Board, inputs: set<Cell>, pos: Pixel, n: Option<int>, screen: Screen)
    requires WellFormed(b) && screen.Valid() && screen.Exact()
    ensures PlaceEffect(b, inputs, pos, n, screen).status != IndexError
  {
    if pos.x < screen.size && pos.y < screen.size {
      ExactScreenCellInGrid(pos, screen);
    }
  }

  /** When `SCREEN_SIZE` is not a multiple of 9 the last pixels of the board area map past the last column. */
  lemma InexactScreenPlacementRaises()
    ensures WellFormed(Fixture)
    ensures PlaceEffect(Fixture, {}, Pixel(9, 0), Some(1), Screen(10, 40)).status == IndexError
  {
    assert WellFormed(Fixture);
  }

  /**
    On an exact screen a click in the number strip over the board's width
    picks a digit 1..9, which is truthy and so enables `place_number`.
   */
  lemma {:induction false} ButtonDigitIsDigit(pos: Pixel, screen: Screen)
    requires screen.Valid() && screen.Exact() && pos.x < screen.size
    ensures ButtonDigit(pos, screen).Some? ==> 1 <= ButtonDigit(pos, screen).value <= 9
    ensures ButtonDigit(pos, screen).Some? <==> screen.size <= pos.y <= screen.size + screen.buttonHeight
  {
    var k := screen.CellSize();
    assert screen.size == Size * k;
    DivBelow(pos.x, k, Size);
  }

  /** The cells a row-major scan has visited before reaching `(row, col)`. */
  ghost predicate Before(cell: Cell, row: int, col: int) {
    InGrid(cell) && (cell.0 < row || (cell.0 == row && cell.1 < col))
  }

  /** Writing the candidates of `(row, col)` into a cache refreshed up to that cell refreshes it one cell further. */
  lemma RefreshStep(m: map<Cell, set<int>>, b: Board, row: int, col: int, s: set<int>)
    requires WellFormed(b) && InGrid((row, col)) && m.Keys == AllCells
    requires forall cell :: Before(cell, row, col) ==> m[cell] == Candidates(b, cell)
    requires s == Candidates(b, (row, col))
    ensures m[(row, col) := s].Keys == AllCells
    ensures forall cell :: Before(cell, row, col + 1) ==> m[(row, col) := s][cell] == Candidates(b, cell)
  {
    AllCellsAreTheGrid((row, col));
  }

  /** Adding the constructor's entry for `(row, col)` to a cache built up to that cell builds it one cell further. */
  lemma InitStep(m: map<Cell, set<int>>, b: Board, row: int, col: int, m': map<Cell, set<int>>)
    requires WellFormed(b) && InGrid((row, col))
    requires forall cell :: cell in m <==> Before(cell, row, col)
    requires forall cell :: cell in m ==> InGrid(cell) && m[cell] == InitialEntry(b, cell)
    requires m' == m[(row, col) := InitialEntry(b, (row, col))]
    ensures forall cell :: cell in m' <==> Before(cell, row, col + 1)
    ensures forall cell :: cell in m' ==> InGrid(cell) && m'[cell] == InitialEntry(b, cell)
  {
  }

  class Grid {
    var board: array2<int>
    var selectedNumber: Option<int>
    var userInputs: set<Cell>
    var possibilities: map<Cell, set<int>>

    /** The board is 9×9. */
    ghost predicate Shaped()
      reads this
    {
      board.Length0 == Size && board.Length1 == Size
    }

    /** The board is 9×9 and the cache has exactly one entry per cell. */
    ghost predicate Valid()
      reads this
    {
      Shaped() && possibilities.Keys == AllCells
    }

    /** `Grid(board)`: nothing picked, no user inputs, the initial cache. */
    constructor (b: array2<int>)
      requires b.Length0 == Size && b.Length1 == Size
      ensures Valid() && board == b
      ensures selectedNumber == None && userInputs == {}
      ensures possibilities == InitialMap(Snapshot(b))
    {
      board := b;
      selectedNumber := None;
      userInputs := {};
      possibilities := map[];
      new;
      possibilities := InitializePossibilities();
    }

    /** `initialize_possibilities`: every one of the 81 cells keyed, all digits for an empty cell, none for a filled one. */
    method InitializePossibilities() returns (m: map<Cell, set<int>>)
      requires Shaped()
      ensures m.Keys == AllCells
      ensures m == InitialMap(Snapshot(board))
    {
      ghost var b := Snapshot(board);
      m := map[];
      for row := 0 to Size
        invariant forall cell :: cell in m <==> Before(cell, row, 0)
        invariant forall cell :: cell in m ==> m[cell] == InitialEntry(b, cell)
      {
        for col := 0 to Size
          invariant forall cell :: cell in m <==> Before(cell, row, col)
          invariant forall cell :: cell in m ==> m[cell] == InitialEntry(b, cell)
        {
          assert board[row, col] == At(b, (row, col));
          if board[row, col] == 0 {
            InitStep(m, b, row, col, m[(row, col) := Digits]);
            m := m[(row, col) := Digits];
          } else {
            InitStep(m, b, row, col, m[(row, col) := {}]);
            m := m[(row, col) := {}];
          }
        }
      }
      InitialMapByCells(m, b);
    }

    /** `find_possibilities(row, col)`: reads the board only and yields the cell's candidates. */
    method FindPossibilities(row: int, col: int) returns (possible: set<int>)
      requires Shaped() && InGrid((row, col))
      ensures possible == Candidates(Snapshot(board), (row, col))
    {
      if board[row, col] != 0 {
        assert At(Snapshot(board), (row, col)) == board[row, col];
        return {};
      }
      possible := Digits;
      possible := StrikeRow(row, possible);
      possible := StrikeColumn(col, possible);
      possible := StrikeBox(row, col, possible);
    }

    /** The row scan of `find_possibilities`: every value in row `row` is discarded. */
    method StrikeRow(row: int, possible: set<int>) returns (rest: set<int>)
      requires Shaped() && 0 <= row < Size
      ensures rest == possible - RowValues(Snapshot(board), row)
    {
      ghost var b := Snapshot(board);
      rest := possible;
      for i := 0 to Size
        invariant rest == possible - Scan(b, row, row + 1, 0, i)
      {
        assert b[row][i] == board[row, i] by { assert At(b, (row, i)) == board[row, i]; }
        ScanWiden(b, row, row + 1, 0, i);
        ScanCell(b, row, i);
        if board[row, i] in rest {
          rest := rest - {board[row, i]};
        }
      }
    }

    /** The column scan of `find_possibilities`: every value in column `col` is discarded. */
    method StrikeColumn(col: int, possible: set<int>) returns (rest: set<int>)
      requires Shaped() && 0 <= col < Size
      ensures rest == possible - ColValues(Snapshot(board), col)
    {
      ghost var b := Snapshot(board);
      rest := possible;
      for i := 0 to Size
        invariant rest == possible - Scan(b, 0, i, col, col + 1)
      {
        assert b[i][col] == board[i, col] by { assert At(b, (i, col)) == board[i, col]; }
        ScanLengthen(b, 0, i, col, col + 1);
        ScanCell(b, i, col);
        if board[i, col] in rest {
          rest := rest - {board[i, col]};
        }
      }
    }

    /** The box scan of `find_possibilities`: every value in the 3×3 box of `(row, col)` is discarded. */
    method StrikeBox(row: int, col: int, possible: set<int>) returns (rest: set<int>)
      requires Shaped() && InGrid((row, col))
      ensures rest == possible - BoxValues(Snapshot(board), (row, col))
    {
      ghost var b := Snapshot(board);
      rest := possible;
      var boxRow := (row / 3) * 3;
      var boxCol := (col / 3) * 3;
      for i := boxRow to boxRow + 3
        invariant rest == possible - Scan(b, boxRow, i, boxCol, boxCol + 3)
      {
        ghost var before := rest;
        for j := boxCol to boxCol + 3
          invariant rest == before - Scan(b, i, i + 1, boxCol, j)
        {
          assert b[i][j] == board[i, j] by { assert At(b, (i, j)) == board[i, j]; }
          ScanWiden(b, i, i + 1, boxCol, j);
          ScanCell(b, i, j);
          if board[i, j] in rest {
            rest := rest - {board[i, j]};
          }
        }
        ScanLengthen(b, boxRow, i, boxCol, boxCol + 3);
      }
    }

    /** `update_possibilities`: the cache, rewritten in place, holds the candidates of every cell of the current board. */
    method UpdatePossibilities()
      requires Valid()
      modifies this`possibilities
      ensures Valid()
      ensures possibilities == CandidateMap(Snapshot(board))
    {
      ghost var b := Snapshot(board);
      GridCells();
      for row := 0 to Size
        invariant Snapshot(board) == b
        invariant possibilities.Keys == AllCells
        invariant forall cell :: Before(cell, row, 0) ==> possibilities[cell] == Candidates(b, cell)
      {
        for col := 0 to Size
          invariant Snapshot(board) == b
          invariant possibilities.Keys == AllCells
          invariant forall cell :: Before(cell, row, col) ==> possibilities[cell] == Candidates(b, cell)
        {
          assert board[row, col] == At(b, (row, col));
          if board[row, col] == 0 {
            var s := FindPossibilities(row, col);
            RefreshStep(possibilities, b, row, col, s);
            possibilities := possibilities[(row, col) := s];
          } else {
            RefreshStep(possibilities, b, row, col, {});
            possibilities := possibilities[(row, col) := {}];
          }
        }
      }
      CandidateMapByCells(possibilities, b);
    }

    /** `select_number(pos)`: a click in the number strip picks and returns a number; elsewhere nothing changes. */
    method SelectNumber(pos: Pixel, screen: Screen) returns (r: Option<int>)
      requires Valid() && screen.Valid()
      modifies this`selectedNumber
      ensures Valid()
      ensures r == ButtonDigit(pos, screen)
      ensures selectedNumber == if r.Some? then r else old(selectedNumber)
    {
      if screen.size <= pos.y <= screen.size + screen.buttonHeight {
        var col := pos.x / screen.CellSize();
        selectedNumber := Some(col + 1);
        return selectedNumber;
      }
      return None;
    }

    /** `place_number(pos, selected_number)`: the board and the user inputs change as `PlaceEffect` says; the cache is left as it was. */
    method PlaceNumber(pos: Pixel, number: Option<int>, screen: Screen) returns (status: PlaceStatus)
      requires Valid() && screen.Valid()
      modifies board, this`userInputs
      ensures Valid()
      ensures Placement(Snapshot(board), userInputs, status)
           == PlaceEffect(old(Snapshot(board)), old(userInputs), pos, number, screen)
    {
      ghost var b := Snapshot(board);
      ghost var inputs := userInputs;
      if pos.x < screen.size && pos.y < screen.size && Truthy(number) {
        var col := pos.x / screen.CellSize();
        var row := pos.y / screen.CellSize();
        assert (row, col) == CellAt(pos, screen);
        if !(row < Size && col < Size) {
          return IndexError;
        }
        assert board[row, col] == At(b, (row, col));
        if board[row, col] == 0 {
          board[row, col] := number.value;
          userInputs := userInputs + {(row, col)};
          assert PlaceEffect(b, inputs, pos, number, screen) == Placement(Put(b, (row, col), number.value), userInputs, Placed);
          SameCellsSameBoard(Snapshot(board), Put(b, (row, col), number.value));
          return Placed;
        }
      }
      return Ignored;
    }
  }
}

/**
  The board editor of sudoku/sudoku.py: `handle_mouse_events` as a state
  machine over the board, the cursor (`selected`), the picked number
  (`selected_number`) and the given cells (`initial_positions`). `Handle` is
  the transition as a value; `HandleMouseEvents` performs it on the live
  board in place and is proved to agree with it.
 */
module Sudoku {
  import opened Wrappers
  import opened SudokuBoard

  /** The window measures sudoku.py takes from its measures module. */
  datatype Layout = Layout(
    gridSize: nat,          // `GRID_SIZE`: the width and height of the board area in pixels
    blockSize: nat,         // `BLOCK_SIZE`: the width of one cell
    screenHeight: nat,      // `SCREEN_HEIGHT`
    buttonAreaHeight: nat,  // `BUTTON_AREA_HEIGHT`: the strip of algorithm buttons at the bottom
    buttonHeight: nat,      // `BUTTON_HEIGHT`: one number button
    screenWidth: nat,       // `SCREEN_WIDTH`
    buttonWidth: nat,       // `BUTTON_WIDTH`: one algorithm button
    buttonGap: nat)         // `BUTTON_GAP`: the space between two algorithm buttons
  {
    /** Cells and algorithm buttons have a positive width. */
    predicate Valid() {
      blockSize > 0 && buttonWidth + buttonGap > 0
    }

    /** The board area is no wider than nine cells, so every pixel of it lies over a cell. */
    predicate CoversGrid() {
      gridSize <= Size * blockSize
    }
  }

  /** The keys the editor tells apart; `n` and Escape never reach it. */
  datatype Key = Up | Down | Left | Right | Backspace | Delete | OtherKey

  /** The two kinds of event the main loop passes on. */
  datatype Event = MouseDown(button: int) | KeyDown(key: Key)

  /**
    How a call ends: normally, by the `IndexError` a cell index past the board
    raises, or by a click on the algorithm buttons, which hands the board to a
    solver that is not part of this model.
   */
  datatype Status = Handled | IndexError | AlgorithmArea

  /** The board, `selected` and `selected_number` after one event. */
  datatype Outcome = Outcome(board: Board, cursor: Option<Cell>, number: Option<int>, status: Status)

  /** `is_valid(board, number, row, col)`, whose definition is not part of this model. */
  type Validity = (Board, int, int, int) -> bool

  /**
    The cursor never has a negative coordinate: it starts at (0, 0) and is
    only ever set from a click or by a move modulo 9. (A negative index would
    wrap round in Python instead of raising.)
   */
  predicate NonNegative(cursor: Option<Cell>) {
    cursor.Some? ==> cursor.value.0 >= 0 && cursor.value.1 >= 0
  }

  predicate OverGrid(pos: Pixel, layout: Layout) {
    pos.x < layout.gridSize && pos.y < layout.gridSize
  }

  predicate OverNumberButtons(pos: Pixel, layout: Layout) {
    pos.x > layout.gridSize && pos.y < layout.screenHeight - layout.buttonAreaHeight
  }

  predicate OverAlgorithmButtons(pos: Pixel, layout: Layout) {
    layout.screenHeight - layout.buttonAreaHeight <= pos.y <= layout.screenHeight
  }

  /** The cell under a grid pixel: `(y // BLOCK_SIZE, x // BLOCK_SIZE)`. */
  function ClickedCell(pos: Pixel, layout: Layout): Cell
    requires layout.Valid()
  {
    (pos.y / layout.blockSize, pos.x / layout.blockSize)
  }

  /** The number button under a pixel: `(y - 10) // (BUTTON_HEIGHT + 10)`, possibly outside 0..8. */
  function ButtonIndex(pos: Pixel, layout: Layout): int {
    (pos.y - 10) / (layout.buttonHeight + 10)
  }

  /** The number of algorithm buttons: `len(algo_funcs)`, the three solvers `main` passes in. */
  const AlgorithmCount: int := 3

  /** The algorithm button under a pixel of the bottom strip, counted from the centred row of buttons; possibly outside 0..2. */
  function AlgorithmIndex(pos: Pixel, layout: Layout): int
    requires layout.Valid()
  {
    var startX := (layout.screenWidth - (3 * layout.buttonWidth + 2 * layout.buttonGap)) / 2;
    (pos.x - startX) / (layout.buttonWidth + layout.buttonGap)
  }

  /** An arrow key moves the cursor one step, wrapping round modulo 9; other keys leave it. */
  function Move(cursor: Cell, key: Key): Cell {
    match key
    case Up => ((cursor.0 - 1) % Size, cursor.1)
    case Down => ((cursor.0 + 1) % Size, cursor.1)
    case Left => (cursor.0, (cursor.1 - 1) % Size)
    case Right => (cursor.0, (cursor.1 + 1) % Size)
    case _ => cursor
  }

  /** One call of `handle_mouse_events`, as a transition of the editor's state. */
  function Handle(e: Event, pos: Pixel, b: Board, cursor: Option<Cell>, number: Option<int>,
                  givens: set<Cell>, layout: Layout, isValid: Validity): (o: Outcome)
    requires WellFormed(b) && layout.Valid() && NonNegative(cursor)
    ensures WellFormed(o.board) && NonNegative(o.cursor)
  {
    if OverGrid(pos, layout) then
      match e
      case KeyDown(_) => Outcome(b, cursor, number, Handled)
      case MouseDown(button) => GridClick(button, ClickedCell(pos, layout), b, cursor, number, givens, isValid)
    else if e.KeyDown? then
      KeyPress(e.key, b, cursor, number, givens)
    else if OverNumberButtons(pos, layout) then
      var index := ButtonIndex(pos, layout);
      Outcome(b, cursor, if 0 <= index < 9 then Some(index + 1) else number, Handled)
    else if OverAlgorithmButtons(pos, layout) then
      var index := AlgorithmIndex(pos, layout);
      Outcome(b, cursor, number, if 0 <= index < AlgorithmCount then AlgorithmArea else Handled)
    else
      Outcome(b, cursor, number, Handled)
  }

  /**
    A mouse click on the board: the cursor moves to the clicked cell, which
    receives the picked number if it is empty and `is_valid` approves, or is
    cleared by the right button (3) unless it is a given.
   */
  function GridClick(button: int, cell: Cell, b: Board, cursor: Option<Cell>, number: Option<int>,
                     givens: set<Cell>, isValid: Validity): Outcome
    requires WellFormed(b) && cell.0 >= 0 && cell.1 >= 0
  {
    if Truthy(number) && !InGrid(cell) then Outcome(b, cursor, number, IndexError)
    else if Truthy(number) && At(b, cell) == 0 then
      if isValid(b, number.value, cell.0, cell.1) then Outcome(Put(b, cell, number.value), Some(cell), number, Handled)
      else Outcome(b, Some(cell), number, Handled)
    else if button == 3 then
      if cell in givens then Outcome(b, Some(cell), number, Handled)
      else if !InGrid(cell) then Outcome(b, cursor, number, IndexError)
      else Outcome(Put(b, cell, 0), Some(cell), number, Handled)
    else Outcome(b, Some(cell), number, Handled)
  }

  /**
    A key pressed away from the board: an unset cursor starts at (0, 0),
    arrow keys move it, and Backspace or Delete clears the cell under it
    unless that cell is a given.
   */
  function KeyPress(key: Key, b: Board, cursor: Option<Cell>, number: Option<int>, givens: set<Cell>): Outcome
    requires WellFormed(b) && NonNegative(cursor)
  {
    var cell := Move(if cursor.None? then (0, 0) else cursor.value, key);
    if (key == Backspace || key == Delete) && cell !in givens then
      if InGrid(cell) then Outcome(Put(b, cell, 0), Some(cell), number, Handled)
      else Outcome(b, cursor, number, IndexError)
    else Outcome(b, Some(cell), number, Handled)
  }

  /**
    `handle_mouse_events` on the live board: assigns into the board in place
    and updates the cursor and the picked number step by step, ending in the
    state `Handle` describes.
   */
  method HandleMouseEvents(e: Event, pos: Pixel, board: array2<int>, selected: Option<Cell>, selectedNumber: Option<int>,
                           layout: Layout, initialPositions: set<Cell>, isValid: Validity)
    returns (selected': Option<Cell>, selectedNumber': Option<int>, status: Status)
    requires board.Length0 == Size && board.Length1 == Size && layout.Valid() && NonNegative(selected)
    modifies board
    ensures Outcome(Snapshot(board), selected', selectedNumber', status)
         == Handle(e, pos, old(Snapshot(board)), selected, selectedNumber, initialPositions, layout, isValid)
  {
    ghost var b := Snapshot(board);
    selected', selectedNumber', status := selected, selectedNumber, Handled;
    if pos.x < layout.gridSize && pos.y < layout.gridSize {
      if e.MouseDown? {
        assert Handle(e, pos, b, selected, selectedNumber, initialPositions, layout, isValid)
            == GridClick(e.button, ClickedCell(pos, layout), b, selected, selectedNumber, initialPositions, isValid);
        selected', status := ClickCell(e.button, pos.y / layout.blockSize, pos.x / layout.blockSize,
                                       board, selected, selectedNumber, initialPositions, isValid);
      }
    } else if e.KeyDown? {
      assert Handle(e, pos, b, selected, selectedNumber, initialPositions, layout, isValid)
          == KeyPress(e.key, b, selected, selectedNumber, initialPositions);
      selected', status := PressKey(e.key, board, selected, initialPositions);
    } else if pos.x > layout.gridSize && pos.y < layout.screenHeight - layout.buttonAreaHeight {
      var numberIdx := (pos.y - 10) / (layout.buttonHeight + 10);
      if 0 <= numberIdx < 9 {
        selectedNumber' := Some(numberIdx + 1);
      }
    } else if layout.screenHeight - layout.buttonAreaHeight <= pos.y <= layout.screenHeight {
      var startX := (layout.screenWidth - (3 * layout.buttonWidth + 2 * layout.buttonGap)) / 2;
      var buttonIdx := (pos.x - startX) / (layout.buttonWidth + layout.buttonGap);
      if 0 <= buttonIdx < AlgorithmCount {
        status := AlgorithmArea;
      }
    }
  }

  /** The mouse-click branch of `handle_mouse_events` on the live board. */
  method ClickCell(button: int, row: nat, col: nat, board: array2<int>, selected: Option<Cell>, selectedNumber: Option<int>,
                   initialPositions: set<Cell>, isValid: Validity)
    returns (selected': Option<Cell>, status: Status)
    requires board.Length0 == Size && board.Length1 == Size
    modifies board
    ensures var o := GridClick(button, (row, col), old(Snapshot(board)), selected, selectedNumber, initialPositions, isValid);
      Snapshot(board) == o.board && selected' == o.cursor && status == o.status
  {
    ghost var b := Snapshot(board);
    selected', status := Some((row, col)), Handled;
    if Truthy(selectedNumber) && !(row < Size && col < Size) {
      return selected, IndexError;
    }
    if Truthy(selectedNumber) && board[row, col] == 0 {
      if isValid(Snapshot(board), selectedNumber.value, row, col) {
        board[row, col] := selectedNumber.value;
        SameCellsSameBoard(Snapshot(board), Put(b, (row, col), selectedNumber.value));
      }
    } else if button == 3 {
      if (row, col) !in initialPositions {
        if !(row < Size && col < Size) {
          return selected, IndexError;
        }
        board[row, col] := 0;
        SameCellsSameBoard(Snapshot(board), Put(b, (row, col), 0));
      }
    }
  }

  /** The key-press branch of `handle_mouse_events` on the live board. */
  method PressKey(key: Key, board: array2<int>, selected: Option<Cell>, initialPositions: set<Cell>)
    returns (selected': Option<Cell>, status: Status)
    requires board.Length0 == Size && board.Length1 == Size && NonNegative(selected)
    modifies board
    ensures var o := KeyPress(key, old(Snapshot(board)), selected, None, initialPositions);
      Snapshot(board) == o.board && selected' == o.cursor && status == o.status
  {
    ghost var b := Snapshot(board);
    selected', status := selected, Handled;
    if selected'.None? {
      selected' := Some((0, 0));
    }
    var row, col := selected'.value.0, selected'.value.1;
    if key == Up {
      row := (row - 1) % 9;
    } else if key == Down {
      row := (row + 1) % 9;
    } else if key == Left {
      col := (col - 1) % 9;
    } else if key == Right {
      col := (col + 1) % 9;
    }
    selected' := Some((row, col));
    if key == Backspace || key == Delete {
      if (row, col) !in initialPositions {
        if !(row < Size && col < Size) {
          return selected, IndexError;
        }
        board[row, col] := 0;
        SameCellsSameBoard(Snapshot(board), Put(b, (row, col), 0));
      }
    }
  }

  /**
    The edits one event may make, going from board `b` with cursor `cursor`
    and number `number` to outcome `o`: a given cell holding a digit is never
    altered, only the cell under the new cursor can change, every change is
    either a placement `is_valid` approved into an empty cell or a clear of a
    non-given cell, and a raised exception leaves everything as it was.
   */
  ghost predicate AllowedEdit(b: Board, o: Outcome, cursor: Option<Cell>, number: Option<int>,
                              givens: set<Cell>, isValid: Validity)
    requires WellFormed(b) && WellFormed(o.board)
  {
    && (forall g :: g in givens && InGrid(g) && At(b, g) != 0 ==> At(o.board, g) == At(b, g))
    && (forall q :: InGrid(q) && Some(q) != o.cursor ==> At(o.board, q) == At(b, q))
    && (forall q :: InGrid(q) && At(o.board, q) != At(b, q) ==>
          || (At(b, q) == 0 && Truthy(number) && At(o.board, q) == number.value && isValid(b, number.value, q.0, q.1))
          || (At(o.board, q) == 0 && q !in givens))
    && (o.status != Handled ==> o.board == b && o.cursor == cursor && o.number == number)
  }

  /** A click on the board makes only allowed edits. */
  lemma GridClickEditsOnlyAsAllowed(button: int, cell: Cell, b: Board, cursor: Option<Cell>, number: Option<int>,
                                    givens: set<Cell>, isValid: Validity)
    requires WellFormed(b) && cell.0 >= 0 && cell.1 >= 0
    ensures var o := GridClick(button, cell, b, cursor, number, givens, isValid);
      WellFormed(o.board) && o.number == number && AllowedEdit(b, o, cursor, number, givens, isValid)
  {
  }

  /** A key press away from the board makes only allowed edits. */
  lemma KeyPressEditsOnlyAsAllowed(key: Key, b: Board, cursor: Option<Cell>, number: Option<int>, givens: set<Cell>,
                                   isValid: Validity)
    requires WellFormed(b) && NonNegative(cursor)
    ensures var o := KeyPress(key, b, cursor, number, givens);
      WellFormed(o.board) && o.number == number && AllowedEdit(b, o, cursor, number, givens, isValid)
  {
  }

  /**
    The editor's promise for one event: a given cell holding a digit is
    never altered, only the cell under the new cursor can change, every
    change is either a placement `is_valid` approved into an empty cell or
    a clear of a non-given cell, the picked number stays `None` or a digit,
    and a raised exception leaves everything as it was.
   */
  lemma HandleEditsOnlyAsAllowed(e: Event, pos: Pixel, b: Board, cursor: Option<Cell>, number: Option<int>,
                                 givens: set<Cell>, layout: Layout, isValid: Validity)
    requires WellFormed(b) && layout.Valid() && NonNegative(cursor)
    ensures var o := Handle(e, pos, b, cursor, number, givens, layout, isValid);
      && (forall g :: g in givens && InGrid(g) && At(b, g) != 0 ==> At(o.board, g) == At(b, g))
      && (forall q :: InGrid(q) && Some(q) != o.cursor ==> At(o.board, q) == At(b, q))
      && (forall q :: InGrid(q) && At(o.board, q) != At(b, q) ==>
            || (At(b, q) == 0 && Truthy(number) && At(o.board, q) == number.value && isValid(b, number.value, q.0, q.1))
            || (At(o.board, q) == 0 && q !in givens))
      && ((number.None? || 1 <= number.value <= 9) ==> (o.number.None? || 1 <= o.number.value <= 9))
      && (o.status != Handled ==> o.board == b && o.cursor == cursor && o.number == number)
  {
    var o := Handle(e, pos, b, cursor, number, givens, layout, isValid);
    if OverGrid(pos, layout) && e.MouseDown? {
      GridClickEditsOnlyAsAllowed(e.button, ClickedCell(pos, layout), b, cursor, number, givens, isValid);
      assert o == GridClick(e.button, ClickedCell(pos, layout), b, cursor, number, givens, isValid);
    } else if !OverGrid(pos, layout) && e.KeyDown? {
      KeyPressEditsOnlyAsAllowed(e.key, b, cursor, number, givens, isValid);
      assert o == KeyPress(e.key, b, cursor, number, givens);
    } else {
      assert o.board == b && o.cursor == cursor;
    }
  }

  /** One event the main loop hands over, with the mouse position at that moment. */
  datatype Input = Input(event: Event, pos: Pixel)

  /**
    The main loop's repeated calls over one puzzle: events are handled in
    order until the sequence ends, an exception is raised or a click on an
    algorithm button hands the board to a solver. Its own contract only
    keeps the board 9×9; what a run preserves is `RunKeepsGivens`.
   */
  function Run(inputs: seq<Input>, b: Board, cursor: Option<Cell>, number: Option<int>,
               givens: set<Cell>, layout: Layout, isValid: Validity): (o: Outcome)
    requires WellFormed(b) && layout.Valid() && NonNegative(cursor)
    ensures WellFormed(o.board)
    decreases |inputs|
  {
    if inputs == [] then Outcome(b, cursor, number, Handled)
    else
      var step := Handle(inputs[0].event, inputs[0].pos, b, cursor, number, givens, layout, isValid);
      if step.status != Handled then step
      else Run(inputs[1..], step.board, step.cursor, step.number, givens, layout, isValid)
  }

  /** The given cells hold their digits through any number of edits. */
  lemma {:induction false} RunKeepsGivens(inputs: seq<Input>, b: Board, cursor: Option<Cell>, number: Option<int>,
                                          givens: set<Cell>, layout: Layout, isValid: Validity)
    requires WellFormed(b) && layout.Valid() && NonNegative(cursor)
    requires forall g :: g in givens ==> InGrid(g) && At(b, g) != 0
    ensures forall g :: g in givens ==> At(Run(inputs, b, cursor, number, givens, layout, isValid).board, g) == At(b, g)
    decreases |inputs|
  {
    if inputs != [] {
      var step := Handle(inputs[0].event, inputs[0].pos, b, cursor, number, givens, layout, isValid);
      HandleEditsOnlyAsAllowed(inputs[0].event, inputs[0].pos, b, cursor, number, givens, layout, isValid);
      if step.status == Handled {
        RunKeepsGivens(inputs[1..], step.board, step.cursor, step.number, givens, layout, isValid);
      }
    }
  }

  /** A click in the algorithm strip that misses every button changes nothing and lets the main loop go on. */
  lemma MissedAlgorithmClickIsIgnored(button: int, pos: Pixel, b: Board, cursor: Option<Cell>, number: Option<int>,
                                      givens: set<Cell>, layout: Layout, isValid: Validity)
    requires WellFormed(b) && layout.Valid() && NonNegative(cursor)
    requires !OverGrid(pos, layout) && !OverNumberButtons(pos, layout) && OverAlgorithmButtons(pos, layout)
    requires !(0 <= AlgorithmIndex(pos, layout) < AlgorithmCount)
    ensures Handle(MouseDown(button), pos, b, cursor, number, givens, layout, isValid) == Outcome(b, cursor, number, Handled)
  {
  }

  /**
    A click left of the first algorithm button is a miss: the run goes on to
    the next event, here a Backspace that clears the cursor's cell.
   */
  lemma MissedAlgorithmClickDoesNotEndRun()
    ensures WellFormed(Fixture)
    ensures var layout := Layout(90, 10, 100, 20, 30, 200, 40, 10);
      At(Run([Input(MouseDown(1), Pixel(0, 95)), Input(KeyDown(Backspace), Pixel(200, 0))],
             Fixture, Some((0, 0)), None, {}, layout, (b, n, r, c) => true).board, (0, 0)) == 0
  {
    assert WellFormed(Fixture);
  }

  /** A key pressed while the mouse is over the board changes nothing. */
  lemma KeyOverGridIsIgnored(key: Key, pos: Pixel, b: Board, cursor: Option<Cell>, number: Option<int>,
                             givens: set<Cell>, layout: Layout, isValid: Validity)
    requires WellFormed(b) && layout.Valid() && NonNegative(cursor) && OverGrid(pos, layout)
    ensures Handle(KeyDown(key), pos, b, cursor, number, givens, layout, isValid) == Outcome(b, cursor, number, Handled)
  {
  }

  /**
    When the board area is at most nine cells wide, no event raises, and a
    cursor that is unset or on the board stays unset or on the board: clicks
    land on a cell, arrow keys wrap round.
   */
  lemma {:induction false} CursorStaysOnBoard(e: Event, pos: Pixel, b: Board, cursor: Option<Cell>, number: Option<int>,
                                              givens: set<Cell>, layout: Layout, isValid: Validity)
    requires WellFormed(b) && layout.Valid() && layout.CoversGrid()
    requires cursor.None? || InGrid(cursor.value)
    ensures Handle(e, pos, b, cursor, number, givens, layout, isValid).status != IndexError
    ensures var o := Handle(e, pos, b, cursor, number, givens, layout, isValid);
      o.cursor.None? || InGrid(o.cursor.value)
  {
    if OverGrid(pos, layout) {
      DivBelow(pos.x, layout.blockSize, Size);
      DivBelow(pos.y, layout.blockSize, Size);
    }
  }

  /** Arrow keys wrap round: Up from the top row reaches the bottom row, Right from the last column the first. */
  lemma MoveWrapsRound(row: int, col: int)
    requires InGrid((row, col))
    ensures Move((0, col), Up) == (8, col) && Move((8, col), Down) == (0, col)
    ensures Move((row, 8), Right) == (row, 0) && Move((row, 0), Left) == (row, 8)
    ensures InGrid(Move((row, col), Up)) && InGrid(Move((row, col), Down))
    ensures InGrid(Move((row, col), Left)) && InGrid(Move((row, col), Right))
  {
  }

  /** A board area wider than nine cells lets a click with a number picked raise an `IndexError`. */
  lemma WideGridClickRaises()
    ensures WellFormed(Fixture)
    ensures Handle(MouseDown(1), Pixel(0, 9), Fixture, Some((0, 0)), Some(4), {}, Layout(10, 1, 20, 5, 1, 20, 5, 1), (b, n, r, c) => true).status
         == IndexError
  {
    assert WellFormed(Fixture);
  }
}

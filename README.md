# Sudoku candidate tracker and board editor

This project is a Dafny model of the board-editing and candidate layer of a
pygame Sudoku application. That layer has two parts.

- **The candidate tracker, `Grid` in `inter.py`.** `Grid` owns the 9×9 board,
  the number picked in the button strip, the set of cells the user filled in,
  and a cache that maps every cell to its candidate digits. The model's
  `Inter.Grid` is a class over an `array2<int>` board. Its methods are proved
  against pure specifications. `Possibilities.Candidates` is the textbook
  candidate set: the digits 1..9 minus the values in the cell's row, column
  and 3×3 box, and nothing for a filled cell. `Inter.PlaceEffect` is the
  effect of placing a number.
- **The board editor, `handle_mouse_events` in `sudoku/sudoku.py`.** It is a
  state machine over the board, the cursor (`selected`), the picked number
  (`selected_number`) and the given cells (`initial_positions`).
  `Sudoku.Handle` is the transition as a value. `Sudoku.HandleMouseEvents`
  performs it in place on an `array2<int>` board and is proved to end in the
  state `Handle` describes. `Sudoku.Run` chains calls the way the main loop
  does.

Files:

- `board.dfy`: the board as a value (`SudokuBoard`), cells, peers, the
  literal puzzle of `inter.py`, and `Option`.
- `possibilities.dfy`: the candidate specification and its lemmas.
- `inter.dfy`: the `Grid` class.
- `sudoku.dfy`: the event handler.

How the model maps the source:

- The window constants (`SCREEN_SIZE`, `BUTTON_HEIGHT`, `GRID_SIZE`,
  `BLOCK_SIZE`, `SCREEN_HEIGHT`, `BUTTON_AREA_HEIGHT`, `SCREEN_WIDTH`,
  `BUTTON_WIDTH`, `BUTTON_GAP`) are parameters: the `Screen` and `Layout`
  values. The board always has 9 rows and 9 columns. There are three
  algorithm buttons, as in the list of solvers `main` passes in.
- Mouse positions are non-negative pixels. Python's `//` by a positive
  divisor is Dafny's `/`. `(row - 1) % 9` is Dafny's `%`, which gives the
  same non-negative result.
- `is_valid` lives in a module that is not part of this model. It is a
  function parameter, and nothing is assumed about it.
- Indexing the board with a cell past row or column 8 raises `IndexError`
  in Python. The model returns an explicit `IndexError` status and leaves
  the state unchanged, because the exception escapes before any
  assignment. This happens only when the board area is wider than nine
  cells (for `inter.py`, when `SCREEN_SIZE` is not a multiple of 9, since
  `CELL_SIZE = SCREEN_SIZE // 9` rounds down).
  `Inter.ExactScreenPlacementNeverRaises` and `Sudoku.CursorStaysOnBoard`
  rule it out otherwise.

## Model

| member | source | states |
|---|---|---|
| Possibilities.CandidateMembership | inter.py:141-166 | `v` is a candidate of a cell exactly when the cell is empty, `v` is in 1..9, and no cell in the same row, column or 3×3 box holds `v` (both directions) |
| Possibilities.CandidatesAfterPut | inter.py:141-166 | filling an empty cell with `v` empties that cell's candidates and removes exactly `v` from each peer's candidates; every other cell keeps its candidates |
| Possibilities.PlacingCandidateKeepsConsistent | inter.py:141-166 | writing a candidate into a board where no two peers clash leaves a board where no two peers clash |
| Possibilities.StaleCacheCoversCandidates | inter.py:93-99 | after `place_number` fills a cell, the cache as last refreshed still contains every cell's new candidates: skipping the refresh only over-approximates |
| Possibilities.InitialMapCoversCandidates | inter.py:122-130 | the constructor's cache has the 81 cells as keys, contains every cell's true candidates, and equals them (both empty) on filled cells |
| Possibilities.CandidateMapByCells | inter.py:132-139 | a cache with the 81 cells as keys whose every entry is that cell's candidates is the refreshed cache |
| Possibilities.InitialMapByCells | inter.py:122-130 | a cache keyed by exactly the 81 cells whose every entry is all digits for an empty cell and nothing for a filled one is the constructor's cache |
| Possibilities.FixtureCentreIsNakedSingle | inter.py:14-24 | in the literal puzzle, the only candidate of the centre cell (4, 4) is 5 |
| Inter.Grid.constructor | inter.py:38-44 | the new grid keeps the given board (no copy), has no picked number and no user inputs, and its cache is the initial cache of that board |
| Inter.Grid.InitializePossibilities | inter.py:122-130 | the returned dictionary has exactly the 81 cells as keys, maps each empty cell to {1..9} and each filled cell to {} |
| Inter.Grid.FindPossibilities | inter.py:141-166 | returns the cell's candidates: {} for a filled cell, otherwise {1..9} minus the row, column and box values; it has no `modifies` clause, so the board is untouched and two calls give the same set |
| Inter.Grid.StrikeRow | inter.py:148-151 | the row loop removes exactly the values of the cell's row from the working set |
| Inter.Grid.StrikeColumn | inter.py:153-156 | the column loop removes exactly the values of the cell's column |
| Inter.Grid.StrikeBox | inter.py:158-164 | the box loops, starting at `((row // 3) * 3, (col // 3) * 3)`, remove exactly the values of the cell's 3×3 box |
| Inter.Grid.UpdatePossibilities | inter.py:132-139 | after the in-place refresh, every cell's entry is that cell's candidates (so filled cells map to {}); only the cache changes, and it keeps the 81 cells as keys |
| Inter.PlaceEffect | inter.py:93-99 | a cell is filled exactly when the click is inside the board area, the number is truthy, and the cell is on the board and empty; the cell then holds the number and joins the user inputs; otherwise nothing changes; no filled cell is overwritten and no user input is removed |
| Inter.Grid.PlaceNumber | inter.py:93-99 | the board and user inputs end as `PlaceEffect` says; the cache and the picked number are not touched |
| Inter.ExactScreenPlacementNeverRaises | inter.py:93-99 | when `SCREEN_SIZE` is a multiple of 9, placing a number never indexes past the board |
| Inter.ExactScreenCellInGrid | inter.py:94-96 | when `SCREEN_SIZE` is a multiple of 9, every pixel of the board area lies over one of the 81 cells |
| Inter.InexactScreenPlacementRaises | inter.py:94-98 | with a 10-pixel board area, a click at x = 9 with a number picked indexes column 9 and raises |
| Inter.Grid.SelectNumber | inter.py:86-91 | inside the strip `SCREEN_SIZE <= y <= SCREEN_SIZE + BUTTON_HEIGHT`, sets and returns `x // CELL_SIZE + 1`; elsewhere returns None and leaves the picked number as it was |
| Inter.ButtonDigitIsDigit | inter.py:86-91 | when `SCREEN_SIZE` is a multiple of 9, a strip click over the board's width picks a digit in 1..9, and a digit is picked exactly inside the strip |
| Sudoku.Handle | sudoku/sudoku.py:106-163 | one call keeps the board 9×9 and the cursor non-negative |
| Sudoku.HandleMouseEvents | sudoku/sudoku.py:106-163 | the board written in place, the returned cursor and number, and how the call ends are exactly the transition `Handle` describes |
| Sudoku.ClickCell | sudoku/sudoku.py:110-124 | a grid click moves the cursor to `(y // BLOCK_SIZE, x // BLOCK_SIZE)`; it places the picked number into an empty cell only if `is_valid` holds, or clears a non-given cell on button 3 when placement does not apply |
| Sudoku.PressKey | sudoku/sudoku.py:125-147 | an unset cursor starts at (0, 0), arrow keys move it modulo 9, and Backspace/Delete clear the cell under it unless that cell is a given |
| Sudoku.GridClickEditsOnlyAsAllowed | sudoku/sudoku.py:110-124 | a click on the board keeps the picked number, changes at most the new cursor's cell, places only an `is_valid`-approved number into an empty cell or clears a non-given cell, and changes nothing when it raises |
| Sudoku.KeyPressEditsOnlyAsAllowed | sudoku/sudoku.py:125-147 | a key press away from the board keeps the picked number, changes at most the cell under the moved cursor, only by clearing a non-given cell, and changes nothing when it raises |
| Sudoku.HandleEditsOnlyAsAllowed | sudoku/sudoku.py:109-152 | givens holding a digit never change; only the cell under the new cursor may change; every change is an `is_valid`-approved placement into an empty cell or a clear of a non-given cell; the picked number stays None or in 1..9; a raised exception changes nothing |
| Sudoku.RunKeepsGivens | sudoku/sudoku.py:181-201 | over any sequence of events handled by the main loop up to a click on an algorithm button, every given cell keeps its digit |
| Sudoku.Run | sudoku/sudoku.py:181-201 | handling events in order, stopping at a raise or a click on an algorithm button, keeps the board 9×9 |
| Sudoku.MissedAlgorithmClickIsIgnored | sudoku/sudoku.py:154-157 | a click in the algorithm strip whose button index `(x - start_x) // (BUTTON_WIDTH + BUTTON_GAP)` is outside 0..2 changes nothing and the call ends normally |
| Sudoku.MissedAlgorithmClickDoesNotEndRun | sudoku/sudoku.py:154-157 | a click left of the first algorithm button does not stop the run: a following Backspace still clears the cursor's cell |
| Sudoku.KeyOverGridIsIgnored | sudoku/sudoku.py:109-125 | a key pressed while the mouse is over the board changes neither board, cursor nor number |
| Sudoku.CursorStaysOnBoard | sudoku/sudoku.py:109-139 | when the board area is at most nine cells wide, no event raises, and a cursor that is unset or on the board stays unset or on the board |
| Sudoku.MoveWrapsRound | sudoku/sudoku.py:130-137 | arrow keys wrap: Up from row 0 reaches row 8, Down from row 8 reaches row 0, and likewise for columns; every move stays on the board |
| Sudoku.WideGridClickRaises | sudoku/sudoku.py:111-114 | with a board area wider than nine cells, a click at row 9 with a number picked raises `IndexError` |

## Left out

- Rendering is not modelled: `draw_grid`, `draw_numbers`, `draw_number_buttons`, `draw_algo_buttons`, `draw_algorithm_buttons`, the highlight rectangle of `highlight_cell`, and `display_message` with its blocking wait. They are screen output only.
- The solvers, `generate_board` and `is_valid` are not part of this model. They come from modules (`solver`, `grid`, `Backtracking`, `Constraint_propagation`) whose source is not available. `is_valid` is kept as an uninterpreted parameter.
- The solver call of the algorithm-button branch of `handle_mouse_events` (sudoku/sudoku.py:158-162) is not modelled. A click that hits one of the three buttons hands the board to a solver; the model records this as status `AlgorithmArea` with the board unchanged, and `Sudoku.Run` stops there. A click in the strip that misses every button is modelled in full: nothing changes and the run goes on.
- `Grid.select_algo` and the `algo_buttons`/`selected_algo` fields are not modelled. They only select a UI label and print it.
- The pygame event loops (both `main` functions), `select_difficulty`, and the `n` (new puzzle) and Escape keys are not modelled. `Sudoku.Run` models only the repeated `handle_mouse_events` calls over one puzzle. The mouse position comes from `pygame.mouse.get_pos()` and is passed in as a parameter.
- Sudoku.Handle, Sudoku.HandleMouseEvents, Sudoku.Run: these require a cursor with non-negative coordinates. The main loop only produces such cursors, and a negative index would wrap round in Python instead of raising.
- Inter.Grid.PlaceNumber: it returns a status instead of raising. An `IndexError` from a cell past the board is modelled as status `IndexError`, with nothing changed.
- Aliasing between the `board` passed to `Grid(board)` and other holders of the same list is kept (the grid stores the same array), but no other code holding that array is modelled.

/** Option, the value-or-nothing wrapper used for Python's `None`. */
module Wrappers {
  datatype Option<+T> = None | Some(value: T)
}

/**
  The 9×9 Sudoku board as a value: rows of digits, 0 meaning an empty cell.
  Both the candidate tracker and the board editor read and write boards of
  this shape; the editor's live board is an `array2<int>` and `Snapshot`
  turns it into this value.
 */
module SudokuBoard {
  import opened Wrappers

  /** Rows of cell values; `WellFormed` says it is 9×9. */
  type Board = seq<seq<int>>

  /** A cell coordinate `(row, col)`, as the Python tuples are. */
  type Cell = (int, int)

  /** `GRID_SIZE`, the number of rows and of columns. */
  const Size: int := 9

  predicate WellFormed(b: Board) {
    |b| == Size && forall r :: 0 <= r < Size ==> |b[r]| == Size
  }

  predicate InGrid(cell: Cell) {
    0 <= cell.0 < Size && 0 <= cell.1 < Size
  }

  /** The 81 cells, the keys of the possibility cache. */
  const AllCells: set<Cell> := set r, c | 0 <= r < Size && 0 <= c < Size :: (r, c)

  lemma AllCellsAreTheGrid(cell: Cell)
    ensures cell in AllCells <==> InGrid(cell)
  {
    if InGrid(cell) {
      assert cell == (cell.0, cell.1);
    }
  }

  lemma GridCells()
    ensures forall cell :: cell in AllCells <==> InGrid(cell)
  {
    forall cell
      ensures cell in AllCells <==> InGrid(cell)
    {
      AllCellsAreTheGrid(cell);
    }
  }

  function At(b: Board, cell: Cell): int
    requires WellFormed(b) && InGrid(cell)
  {
    b[cell.0][cell.1]
  }

  /** The board with `cell` set to `v` and every other cell as it was. */
  function Put(b: Board, cell: Cell, v: int): (b': Board)
    requires WellFormed(b) && InGrid(cell)
    ensures WellFormed(b')
    ensures At(b', cell) == v
    ensures forall q :: InGrid(q) && q != cell ==> At(b', q) == At(b, q)
  {
    b[cell.0 := b[cell.0][cell.1 := v]]
  }

  /** Two well-formed boards that agree on every cell are the same board. */
  lemma SameCellsSameBoard(b1: Board, b2: Board)
    requires WellFormed(b1) && WellFormed(b2)
    requires forall cell :: InGrid(cell) ==> At(b1, cell) == At(b2, cell)
    ensures b1 == b2
  {
    forall r | 0 <= r < Size
      ensures b1[r] == b2[r]
    {
      forall c | 0 <= c < Size
        ensures b1[r][c] == b2[r][c]
      {
        assert At(b1, (r, c)) == At(b2, (r, c));
      }
    }
  }

  /** The first row (or column) of the 3×3 box holding row (or column) `i`: `(i // 3) * 3`. */
  function BoxOrigin(i: int): int {
    (i / 3) * 3
  }

  /** Cells that share a row, a column or a 3×3 box (every cell is its own peer). */
  predicate Peer(p: Cell, q: Cell) {
    p.0 == q.0 || p.1 == q.1 || (p.0 / 3 == q.0 / 3 && p.1 / 3 == q.1 / 3)
  }

  /** No two distinct peers hold the same nonzero digit. */
  ghost predicate Consistent(b: Board)
    requires WellFormed(b)
  {
    forall p, q :: InGrid(p) && InGrid(q) && p != q && Peer(p, q) && At(b, p) != 0 ==> At(b, p) != At(b, q)
  }

  /** The contents of a 9×9 array as a board value. */
  function Snapshot(a: array2<int>): (b: Board)
    reads a
    requires a.Length0 == Size && a.Length1 == Size
    ensures WellFormed(b)
    ensures forall cell :: InGrid(cell) ==> At(b, cell) == a[cell.0, cell.1]
  {
    seq(Size, r requires 0 <= r < Size reads a => seq(Size, c requires 0 <= c < Size reads a => a[r, c]))
  }

  /** A mouse position in window pixels; pygame reports no negative coordinates. */
  datatype Pixel = Pixel(x: nat, y: nat)

  /** Python truthiness of a selected number: neither `None` nor 0. */
  predicate Truthy(n: Option<int>) {
    n.Some? && n.value != 0
  }

  /** `x < n * k` gives `x / k < n`: a pixel inside `n` cells of width `k` lies over one of them. */
  lemma DivBelow(x: nat, k: nat, n: nat)
    requires k > 0 && x < n * k
    ensures x / k < n
  {
    MulMono(n, x / k, k);
  }

  lemma MulMono(a: nat, b: nat, k: nat)
    ensures a <= b ==> a * k <= b * k
  {
  }

  /** The literal puzzle at the top of inter.py. */
  const Fixture: Board := [
    [5, 3, 0, 0, 7, 0, 0, 0, 0],
    [6, 0, 0, 1, 9, 5, 0, 0, 0],
    [0, 9, 8, 0, 0, 0, 0, 6, 0],
    [8, 0, 0, 0, 6, 0, 0, 0, 3],
    [4, 0, 0, 8, 0, 3, 0, 0, 1],
    [7, 0, 0, 0, 2, 0, 0, 0, 6],
    [0, 6, 0, 0, 0, 0, 2, 8, 0],
    [0, 0, 0, 4, 1, 9, 0, 0, 5],
    [0, 0, 0, 0, 8, 0, 0, 7, 9]
  ]
}

/**
  The candidate ("possibility") set of a cell, as a pure function of the board:
  the digits 1..9 minus every value in the cell's row, its column and its 3×3
  box, and nothing at all for a filled cell. `Inter.Grid.FindPossibilities` is
  proved to compute it; the lemmas here say what it means for the puzzle.
 */
module Possibilities {
  import opened SudokuBoard

  /** `set(range(1, 10))`. */
  const Digits: set<int> := {1, 2, 3, 4, 5, 6, 7, 8, 9}

  /** The values in the rectangle of rows `r0 .. r1 - 1` and columns `c0 .. c1 - 1`, empty cells' 0 included. */
  function Scan(b: Board, r0: int, r1: int, c0: int, c1: int): set<int>
    requires WellFormed(b) && 0 <= r0 <= r1 <= Size && 0 <= c0 <= c1 <= Size
  {
    set i, j | r0 <= i < r1 && c0 <= j < c1 :: b[i][j]
  }

  /** The values in row `row`. */
  function RowValues(b: Board, row: int): set<int>
    requires WellFormed(b) && 0 <= row < Size
  {
    Scan(b, row, row + 1, 0, Size)
  }

  /** The values in column `col`. */
  function ColValues(b: Board, col: int): set<int>
    requires WellFormed(b) && 0 <= col < Size
  {
    Scan(b, 0, Size, col, col + 1)
  }

  /** The values in the 3×3 box whose top-left cell is `(BoxOrigin(row), BoxOrigin(col))`. */
  function BoxValues(b: Board, cell: Cell): set<int>
    requires WellFormed(b) && InGrid(cell)
  {
    var r0, c0 := BoxOrigin(cell.0), BoxOrigin(cell.1);
    Scan(b, r0, r0 + 3, c0, c0 + 3)
  }

  /** A one-cell rectangle holds that cell's value. */
  lemma ScanCell(b: Board, r: int, c: int)
    requires WellFormed(b) && 0 <= r < Size && 0 <= c < Size
    ensures Scan(b, r, r + 1, c, c + 1) == {b[r][c]}
  {
  }

  /** Widening a rectangle by one column adds that column's part. */
  lemma ScanWiden(b: Board, r0: int, r1: int, c0: int, c: int)
    requires WellFormed(b) && 0 <= r0 <= r1 <= Size && 0 <= c0 <= c < Size
    ensures Scan(b, r0, r1, c0, c + 1) == Scan(b, r0, r1, c0, c) + Scan(b, r0, r1, c, c + 1)
  {
  }

  /** Lengthening a rectangle by one row adds that row's part. */
  lemma ScanLengthen(b: Board, r0: int, r: int, c0: int, c1: int)
    requires WellFormed(b) && 0 <= r0 <= r < Size && 0 <= c0 <= c1 <= Size
    ensures Scan(b, r0, r + 1, c0, c1) == Scan(b, r0, r, c0, c1) + Scan(b, r, r + 1, c0, c1)
  {
  }

  /** The candidates of `cell`: none for a filled cell, otherwise the digits no row, column or box value excludes. */
  function Candidates(b: Board, cell: Cell): set<int>
    requires WellFormed(b) && InGrid(cell)
  {
    if At(b, cell) != 0 then {}
    else Digits - RowValues(b, cell.0) - ColValues(b, cell.1) - BoxValues(b, cell)
  }

  /** The refreshed cache: every one of the 81 cells mapped to its candidates. */
  function CandidateMap(b: Board): map<Cell, set<int>>
    requires WellFormed(b)
  {
    map cell | cell in AllCells :: Candidates(b, cell)
  }

  /** A cache keyed by the 81 cells whose every entry is that cell's candidates is the refreshed cache. */
  lemma CandidateMapByCells(m: map<Cell, set<int>>, b: Board)
    requires WellFormed(b) && m.Keys == AllCells
    requires forall cell :: InGrid(cell) ==> m[cell] == Candidates(b, cell)
    ensures m == CandidateMap(b)
  {
    GridCells();
  }

  /** The constructor's entry for a cell: all digits if it is empty, nothing if it is filled. */
  function InitialEntry(b: Board, cell: Cell): set<int>
    requires WellFormed(b) && InGrid(cell)
  {
    if At(b, cell) == 0 then Digits else {}
  }

  /** The cache the constructor builds, one entry per cell. */
  function InitialMap(b: Board): map<Cell, set<int>>
    requires WellFormed(b)
  {
    map cell | cell in AllCells :: InitialEntry(b, cell)
  }

  /** A cache keyed by the 81 cells whose every entry is the constructor's entry is the constructor's cache. */
  lemma InitialMapByCells(m: map<Cell, set<int>>, b: Board)
    requires WellFormed(b)
    requires forall cell :: cell in m <==> InGrid(cell)
    requires forall cell :: cell in m ==> m[cell] == InitialEntry(b, cell)
    ensures m.Keys == AllCells
    ensures m == InitialMap(b)
  {
    GridCells();
  }

  /** The box-origin scan range `BoxOrigin(x) .. BoxOrigin(x) + 2` is exactly the indices in the same third as `x`. */
  lemma BoxSpan(x: int, i: int)
    requires 0 <= x && 0 <= i
    ensures BoxOrigin(x) <= i < BoxOrigin(x) + 3 <==> i / 3 == x / 3
  {
  }

  /**
    The candidate function agrees with the peer-based definition of a Sudoku
    candidate: `v` is a candidate of `cell` exactly when the cell is empty,
    `v` is a digit and no cell sharing its row, column or box holds `v`.
   */
  lemma {:induction false} CandidateMembership(b: Board, cell: Cell, v: int)
    requires WellFormed(b) && InGrid(cell)
    ensures v in Candidates(b, cell) <==>
      At(b, cell) == 0 && 1 <= v <= 9 && forall q :: InGrid(q) && Peer(cell, q) ==> At(b, q) != v
  {
    var (row, col) := cell;
    if At(b, cell) == 0 && 1 <= v <= 9 {
      if v in RowValues(b, row) {
        var i, j :| row <= i < row + 1 && 0 <= j < Size && b[i][j] == v;
        assert Peer(cell, (i, j)) && At(b, (i, j)) == v;
      } else if v in ColValues(b, col) {
        var i, j :| 0 <= i < Size && col <= j < col + 1 && b[i][j] == v;
        assert Peer(cell, (i, j)) && At(b, (i, j)) == v;
      } else if v in BoxValues(b, cell) {
        var i, j :| BoxOrigin(row) <= i < BoxOrigin(row) + 3 && BoxOrigin(col) <= j < BoxOrigin(col) + 3 && b[i][j] == v;
        BoxSpan(row, i);
        BoxSpan(col, j);
        assert Peer(cell, (i, j)) && At(b, (i, j)) == v;
      } else {
        forall q | InGrid(q) && Peer(cell, q)
          ensures At(b, q) != v
        {
          if q.0 == row {
            assert b[row][q.1] in RowValues(b, row);
          } else if q.1 == col {
            assert b[q.0][col] in ColValues(b, col);
          } else {
            BoxSpan(row, q.0);
            BoxSpan(col, q.1);
            assert b[q.0][q.1] in BoxValues(b, cell);
          }
        }
      }
    }
  }

  /**
    Filling an empty cell with `v` empties that cell's candidates and removes
    `v` from the candidates of each of its peers; every other cell keeps its
    candidates.
   */
  lemma {:induction false} CandidatesAfterPut(b: Board, cell: Cell, v: int, q: Cell)
    requires WellFormed(b) && InGrid(cell) && InGrid(q)
    requires At(b, cell) == 0 && v != 0
    ensures q == cell ==> Candidates(Put(b, cell, v), q) == {}
    ensures q != cell ==> Candidates(Put(b, cell, v), q) == Candidates(b, q) - (if Peer(q, cell) then {v} else {})
  {
    var b' := Put(b, cell, v);
    if q != cell {
      forall w
        ensures w in Candidates(b', q) <==> w in Candidates(b, q) - (if Peer(q, cell) then {v} else {})
      {
        CandidateMembership(b', q, w);
        CandidateMembership(b, q, w);
        if w in Candidates(b', q) {
          forall r | InGrid(r) && Peer(q, r)
            ensures At(b, r) != w
          {
            if r != cell {
              assert At(b', r) == At(b, r);
            }
          }
          assert Peer(q, cell) ==> At(b', cell) != w;
        }
        if w in Candidates(b, q) - (if Peer(q, cell) then {v} else {}) {
          forall r | InGrid(r) && Peer(q, r)
            ensures At(b', r) != w
          {
            if r != cell {
              assert At(b', r) == At(b, r);
            }
          }
        }
      }
    }
  }

  /**
    Placing a candidate never creates a clash: a consistent board stays
    consistent when an empty cell receives one of its candidates.
   */
  lemma {:induction false} PlacingCandidateKeepsConsistent(b: Board, cell: Cell, v: int)
    requires WellFormed(b) && InGrid(cell) && Consistent(b)
    requires v in Candidates(b, cell)
    ensures Consistent(Put(b, cell, v))
  {
    CandidateMembership(b, cell, v);
    var b' := Put(b, cell, v);
    forall p, q | InGrid(p) && InGrid(q) && p != q && Peer(p, q) && At(b', p) != 0
      ensures At(b', p) != At(b', q)
    {
      if p == cell {
        assert At(b', q) == At(b, q);
      } else if q == cell {
        assert Peer(cell, p) && At(b', p) == At(b, p);
      } else {
        assert At(b', p) == At(b, p) && At(b', q) == At(b, q);
      }
    }
  }

  /**
    A cache refreshed before an empty cell was filled still covers the new
    candidates of every cell: without a refresh it only over-approximates.
   */
  lemma {:induction false} StaleCacheCoversCandidates(b: Board, cell: Cell, v: int)
    requires WellFormed(b) && InGrid(cell) && At(b, cell) == 0 && v != 0
    ensures forall q :: q in AllCells ==> CandidateMap(Put(b, cell, v))[q] <= CandidateMap(b)[q]
  {
    forall q | q in AllCells
      ensures CandidateMap(Put(b, cell, v))[q] <= CandidateMap(b)[q]
    {
      AllCellsAreTheGrid(q);
      CandidatesAfterPut(b, cell, v, q);
    }
  }

  /**
    The constructor's cache covers the true candidates of every cell and
    agrees with them on filled cells, where both are empty.
   */
  lemma {:induction false} InitialMapCoversCandidates(b: Board)
    requires WellFormed(b)
    ensures InitialMap(b).Keys == CandidateMap(b).Keys == AllCells
    ensures forall q :: q in AllCells ==> CandidateMap(b)[q] <= InitialMap(b)[q]
    ensures forall q :: q in AllCells && At(b, q) != 0 ==> InitialMap(b)[q] == CandidateMap(b)[q] == {}
  {
    forall q | q in AllCells
      ensures CandidateMap(b)[q] <= InitialMap(b)[q]
    {
      AllCellsAreTheGrid(q);
    }
  }

  /** The row values are the nine cells of the row, left to right. */
  lemma RowValuesListed(b: Board, row: int)
    requires WellFormed(b) && 0 <= row < Size
    ensures RowValues(b, row) == {b[row][0], b[row][1], b[row][2], b[row][3], b[row][4],
                                  b[row][5], b[row][6], b[row][7], b[row][8]}
  {
  }

  /** The column values are the nine cells of the column, top to bottom. */
  lemma ColValuesListed(b: Board, col: int)
    requires WellFormed(b) && 0 <= col < Size
    ensures ColValues(b, col) == {b[0][col], b[1][col], b[2][col], b[3][col], b[4][col],
                                  b[5][col], b[6][col], b[7][col], b[8][col]}
  {
  }

  /** The box values are the nine cells of the box, listed row by row. */
  lemma BoxValuesListed(b: Board, cell: Cell)
    requires WellFormed(b) && InGrid(cell)
    ensures var r0, c0 := BoxOrigin(cell.0), BoxOrigin(cell.1);
      BoxValues(b, cell) == {b[r0][c0], b[r0][c0 + 1], b[r0][c0 + 2],
                             b[r0 + 1][c0], b[r0 + 1][c0 + 1], b[r0 + 1][c0 + 2],
                             b[r0 + 2][c0], b[r0 + 2][c0 + 1], b[r0 + 2][c0 + 2]}
  {
  }

  /** In the literal puzzle, the centre cell (4, 4) is a naked single: only 5 fits. */
  lemma FixtureCentreIsNakedSingle()
    ensures WellFormed(Fixture)
    ensures Candidates(Fixture, (4, 4)) == {5}
  {
    assert WellFormed(Fixture);
    RowValuesListed(Fixture, 4);
    ColValuesListed(Fixture, 4);
    BoxValuesListed(Fixture, (4, 4));
  }
}

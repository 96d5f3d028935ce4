// The board completer of the n-rooks solver (src/rooks.ts): place a rook on
// the n-th free row and the n-th free column for every n, in place. On a board
// where no two rooks attack each other this solves the puzzle.

module Rooks {
  import opened Util

  // ---------------------------------------------------------------------------
  // Occupied and free lines

  /** Row r holds a rook. */
  ghost predicate RowOccupied(g: Grid, r: int)
    requires IsBoard(g)
  {
    0 <= r < BOARD_SIZE && exists c :: 0 <= c < BOARD_SIZE && g[r][c] == ROOK
  }

  /** Column c holds a rook. */
  ghost predicate ColOccupied(g: Grid, c: int)
    requires IsBoard(g)
  {
    0 <= c < BOARD_SIZE && exists r :: 0 <= r < BOARD_SIZE && g[r][c] == ROOK
  }

  ghost function FilledRows(g: Grid): set<int>
    requires IsBoard(g)
  {
    set r | 0 <= r < BOARD_SIZE && RowOccupied(g, r)
  }

  ghost function FilledCols(g: Grid): set<int>
    requires IsBoard(g)
  {
    set c | 0 <= c < BOARD_SIZE && ColOccupied(g, c)
  }

  /** The cells that hold a rook. */
  ghost function RookCells(g: Grid): set<(int, int)>
    requires IsBoard(g)
  {
    set r, c | 0 <= r < BOARD_SIZE && 0 <= c < BOARD_SIZE && g[r][c] == ROOK :: (r, c)
  }

  /**
   * Collects the rows and the columns that hold a rook, scanning the board
   * row by row.
   */
  method ScanOccupied(board: array2<bool>) returns (filledRows: set<int>, filledCols: set<int>)
    requires board.Length0 == BOARD_SIZE && board.Length1 == BOARD_SIZE
    ensures filledRows == FilledRows(Cells(board))
    ensures filledCols == FilledCols(Cells(board))
  {
    ghost var g := Cells(board);
    assert IsBoard(g);
    filledRows, filledCols := {}, {};
    for row := 0 to BOARD_SIZE
      invariant forall r :: r in filledRows <==> exists c :: Seen(g, row, 0, r, c)
      invariant forall c :: c in filledCols <==> exists r :: Seen(g, row, 0, r, c)
    {
      for col := 0 to BOARD_SIZE
        invariant forall r :: r in filledRows <==> exists c :: Seen(g, row, col, r, c)
        invariant forall c :: c in filledCols <==> exists r :: Seen(g, row, col, r, c)
      {
        assert g[row][col] == board[row, col];
        ghost var next := col + 1;
        SeenStep(g, row, col, next);
        ghost var rowsBefore, colsBefore := filledRows, filledCols;
        if board[row, col] == ROOK {
          filledRows := filledRows + {row};
          filledCols := filledCols + {col};
        }
        forall r ensures r in filledRows <==> exists c :: Seen(g, row, next, r, c) {
          if c :| Seen(g, row, next, r, c) {
            if Seen(g, row, col, r, c) {
              assert r in rowsBefore;
            }
          }
          if r in rowsBefore {
            var c :| Seen(g, row, col, r, c);
            assert Seen(g, row, next, r, c);
          } else if r in filledRows {
            assert Seen(g, row, next, row, col);
          }
        }
        forall c ensures c in filledCols <==> exists r :: Seen(g, row, next, r, c) {
          if r :| Seen(g, row, next, r, c) {
            if Seen(g, row, col, r, c) {
              assert c in colsBefore;
            }
          }
          if c in colsBefore {
            var r :| Seen(g, row, col, r, c);
            assert Seen(g, row, next, r, c);
          } else if c in filledCols {
            assert Seen(g, row, next, row, col);
          }
        }
      }
      ghost var nextRow := row + 1;
      assert forall r, c :: Seen(g, row, BOARD_SIZE, r, c) <==> Seen(g, nextRow, 0, r, c);
      forall r ensures r in filledRows <==> exists c :: Seen(g, nextRow, 0, r, c) {
        if c :| Seen(g, nextRow, 0, r, c) {
          assert Seen(g, row, BOARD_SIZE, r, c);
        }
        if r in filledRows {
          var c :| Seen(g, row, BOARD_SIZE, r, c);
          assert Seen(g, nextRow, 0, r, c);
        }
      }
      forall c ensures c in filledCols <==> exists r :: Seen(g, nextRow, 0, r, c) {
        if r :| Seen(g, nextRow, 0, r, c) {
          assert Seen(g, row, BOARD_SIZE, r, c);
        }
        if c in filledCols {
          var r :| Seen(g, row, BOARD_SIZE, r, c);
          assert Seen(g, nextRow, 0, r, c);
        }
      }
    }
    forall r ensures r in filledRows <==> r in FilledRows(g) {
      if r in filledRows {
        var c :| Seen(g, BOARD_SIZE, 0, r, c);
        assert RowOccupied(g, r);
      }
      if r in FilledRows(g) {
        var c :| 0 <= c < BOARD_SIZE && g[r][c] == ROOK;
        assert Seen(g, BOARD_SIZE, 0, r, c);
      }
    }
    forall c ensures c in filledCols <==> c in FilledCols(g) {
      if c in filledCols {
        var r :| Seen(g, BOARD_SIZE, 0, r, c);
        assert ColOccupied(g, c);
      }
      if c in FilledCols(g) {
        var r :| 0 <= r < BOARD_SIZE && g[r][c] == ROOK;
        assert Seen(g, BOARD_SIZE, 0, r, c);
      }
    }
  }

  /**
   * The indices 0 .. n-1 that are not in `filled`, in ascending order: the
   * list [0, 1, ..., n-1] filtered by "not filled".
   */
  function FreeIndices(n: nat, filled: set<int>): seq<int> {
    if n == 0 then []
    else FreeIndices(n - 1, filled) + (if n - 1 in filled then [] else [n - 1])
  }

  /**
   * `free` lists, in strictly ascending order, exactly the indices 0 .. n-1
   * that are not in `filled`.
   */
  ghost predicate ListsFree(free: seq<int>, n: int, filled: set<int>) {
    (forall k :: 0 <= k < |free| ==> 0 <= free[k] < n && free[k] !in filled) &&
    (forall x :: 0 <= x < n && x !in filled ==> x in free) &&
    (forall i, j :: 0 <= i < j < |free| ==> free[i] < free[j])
  }

  /** FreeIndices lists the unfilled indices below n, in ascending order. */
  lemma {:induction false} FreeIndicesSpec(n: nat, filled: set<int>)
    ensures ListsFree(FreeIndices(n, filled), n, filled)
  {
    if n > 0 {
      FreeIndicesSpec(n - 1, filled);
      var prev := FreeIndices(n - 1, filled);
      assert forall k :: 0 <= k < |prev| ==> prev[k] < n - 1;
    }
  }

  /** FreeIndices looks at `filled` only below n. */
  lemma {:induction false} FreeIndicesBelow(n: nat, s: set<int>, t: set<int>)
    requires forall x :: 0 <= x < n ==> (x in s <==> x in t)
    ensures FreeIndices(n, s) == FreeIndices(n, t)
  {
    if n > 0 {
      FreeIndicesBelow(n - 1, s, t);
    }
  }

  /** When every filled index is below n, the free ones are the other n - |filled|. */
  lemma {:induction false} FreeIndicesCount(n: nat, filled: set<int>)
    requires forall x :: x in filled ==> 0 <= x < n
    ensures |FreeIndices(n, filled)| == n - |filled|
  {
    if n == 0 {
      assert forall x :: x !in filled;
      assert filled == {};
    } else if n - 1 in filled {
      var rest := filled - {n - 1};
      assert |FreeIndices(n, filled)| == n - |filled| by {
        FreeIndicesCount(n - 1, rest);
        FreeIndicesBelow(n - 1, filled, rest);
        assert FreeIndices(n, filled) == FreeIndices(n - 1, filled);
      }
    } else {
      assert |FreeIndices(n, filled)| == n - |filled| by {
        FreeIndicesCount(n - 1, filled);
        assert FreeIndices(n, filled) == FreeIndices(n - 1, filled) + [n - 1];
      }
    }
  }

  /** Nothing is filled: every index is free, in order. */
  lemma {:induction false} FreeIndicesNoneFilled(n: nat)
    ensures FreeIndices(n, {}) == seq(n, i => i)
  {
    if n > 0 {
      FreeIndicesNoneFilled(n - 1);
    }
  }

  ghost function FreeRows(g: Grid): seq<int>
    requires IsBoard(g)
  {
    FreeIndices(BOARD_SIZE, FilledRows(g))
  }

  ghost function FreeCols(g: Grid): seq<int>
    requires IsBoard(g)
  {
    FreeIndices(BOARD_SIZE, FilledCols(g))
  }

  lemma FreeLines(g: Grid)
    requires IsBoard(g)
    ensures ListsFree(FreeRows(g), BOARD_SIZE, FilledRows(g))
    ensures ListsFree(FreeCols(g), BOARD_SIZE, FilledCols(g))
  {
    FreeIndicesSpec(BOARD_SIZE, FilledRows(g));
    FreeIndicesSpec(BOARD_SIZE, FilledCols(g));
  }

  // ---------------------------------------------------------------------------
  // Counting: on a non-attacking board, as many rows as columns are free

  function Key(p: (int, int), byRow: bool): int {
    if byRow then p.0 else p.1
  }

  ghost function Project(cells: set<(int, int)>, byRow: bool): set<int> {
    set p | p in cells :: Key(p, byRow)
  }

  /** Projecting a set of cells one-to-one onto rows (or columns) keeps its size. */
  lemma {:induction false} ProjectCount(cells: set<(int, int)>, byRow: bool)
    requires forall p, q :: p in cells && q in cells && p != q ==> Key(p, byRow) != Key(q, byRow)
    ensures |Project(cells, byRow)| == |cells|
  {
    if cells != {} {
      var p :| p in cells;
      var rest := cells - {p};
      ProjectCount(rest, byRow);
      assert Project(cells, byRow) == Project(rest, byRow) + {Key(p, byRow)};
      assert Key(p, byRow) !in Project(rest, byRow);
    }
  }

  /** On a non-attacking board every rook fills its own row and its own column. */
  lemma FilledCount(g: Grid)
    requires IsBoard(g) && NonAttacking(g)
    ensures |FilledRows(g)| == |RookCells(g)| == |FilledCols(g)|
  {
    var cells := RookCells(g);
    forall p, q | p in cells && q in cells && p != q
      ensures Key(p, true) != Key(q, true) && Key(p, false) != Key(q, false)
    {
      assert !Attacks(g, p.0, p.1, q.0, q.1);
    }
    ProjectCount(cells, true);
    ProjectCount(cells, false);
    assert FilledRows(g) == Project(cells, true) by {
      forall r | r in FilledRows(g) ensures r in Project(cells, true) {
        var c :| 0 <= c < BOARD_SIZE && g[r][c] == ROOK;
        assert (r, c) in cells;
      }
    }
    assert FilledCols(g) == Project(cells, false) by {
      forall c | c in FilledCols(g) ensures c in Project(cells, false) {
        var r :| 0 <= r < BOARD_SIZE && g[r][c] == ROOK;
        assert (r, c) in cells;
      }
    }
  }

  /**
   * On a non-attacking board there are exactly as many free rows as free
   * columns, so pairing the i-th free row with the i-th free column never
   * runs past the end of the free columns.
   */
  lemma FreeCountsAgree(g: Grid)
    requires IsBoard(g) && NonAttacking(g)
    ensures |FreeRows(g)| == |FreeCols(g)|
  {
    FilledCount(g);
    FreeIndicesCount(BOARD_SIZE, FilledRows(g));
    FreeIndicesCount(BOARD_SIZE, FilledCols(g));
  }

  // ---------------------------------------------------------------------------
  // The completed board

  /** One of the first n pairs (freeRows[k], freeCols[k]) is the cell (r, c). */
  ghost predicate Paired(freeRows: seq<int>, freeCols: seq<int>, n: int, r: int, c: int) {
    exists k :: 0 <= k < n && k < |freeRows| && k < |freeCols| && freeRows[k] == r && freeCols[k] == c
  }

  /**
   * The board after completion: the original rooks, plus one rook on the
   * k-th free row and the k-th free column for every k.
   */
  ghost function Completion(g: Grid): (h: Grid)
    requires IsBoard(g)
    ensures IsBoard(h)
  {
    var freeRows, freeCols := FreeRows(g), FreeCols(g);
    seq(BOARD_SIZE, r requires 0 <= r < BOARD_SIZE =>
      seq(BOARD_SIZE, c requires 0 <= c < BOARD_SIZE =>
        g[r][c] == ROOK || Paired(freeRows, freeCols, |freeRows|, r, c)))
  }

  lemma CompletionAt(g: Grid, r: int, c: int)
    requires IsBoard(g) && InBoard(r, c)
    ensures Completion(g)[r][c] == (g[r][c] == ROOK || Paired(FreeRows(g), FreeCols(g), |FreeRows(g)|, r, c))
  {
  }

  /** Row r holds exactly one rook. */
  ghost predicate ExactlyOneInRow(h: Grid, r: int)
    requires IsBoard(h) && 0 <= r < BOARD_SIZE
  {
    exists c :: 0 <= c < BOARD_SIZE && h[r][c] == ROOK &&
      forall c' :: 0 <= c' < BOARD_SIZE && h[r][c'] == ROOK ==> c' == c
  }

  /** Column c holds exactly one rook. */
  ghost predicate ExactlyOneInCol(h: Grid, c: int)
    requires IsBoard(h) && 0 <= c < BOARD_SIZE
  {
    exists r :: 0 <= r < BOARD_SIZE && h[r][c] == ROOK &&
      forall r' :: 0 <= r' < BOARD_SIZE && h[r'][c] == ROOK ==> r' == r
  }

  /** A full solution: one rook on every row and one on every column. */
  ghost predicate Solved(h: Grid)
    requires IsBoard(h)
  {
    (forall r :: 0 <= r < BOARD_SIZE ==> ExactlyOneInRow(h, r)) &&
    (forall c :: 0 <= c < BOARD_SIZE ==> ExactlyOneInCol(h, c))
  }

  /** The pairs written by the completer lie on free rows and free columns. */
  lemma PairedIsFree(g: Grid, r: int, c: int)
    requires IsBoard(g)
    requires Paired(FreeRows(g), FreeCols(g), |FreeRows(g)|, r, c)
    ensures InBoard(r, c) && !RowOccupied(g, r) && !ColOccupied(g, c)
  {
    FreeLines(g);
    var k :| 0 <= k < |FreeRows(g)| && k < |FreeCols(g)| && FreeRows(g)[k] == r && FreeCols(g)[k] == c;
    assert r !in FilledRows(g) && c !in FilledCols(g);
  }

  /** Completing a non-attacking board adds no attacking pair. */
  lemma CompletionNonAttacking(g: Grid)
    requires IsBoard(g) && NonAttacking(g)
    ensures NonAttacking(Completion(g))
  {
    FreeLines(g);
    var h := Completion(g);
    var freeRows, freeCols := FreeRows(g), FreeCols(g);
    forall r1, c1, r2, c2 | InBoard(r1, c1) && InBoard(r2, c2) && h[r1][c1] == ROOK && h[r2][c2] == ROOK && (r1 != r2 || c1 != c2)
      ensures r1 != r2 && c1 != c2
    {
      CompletionAt(g, r1, c1);
      CompletionAt(g, r2, c2);
      var placed1 := Paired(freeRows, freeCols, |freeRows|, r1, c1);
      var placed2 := Paired(freeRows, freeCols, |freeRows|, r2, c2);
      if placed1 && placed2 {
        var k1 :| 0 <= k1 < |freeRows| && k1 < |freeCols| && freeRows[k1] == r1 && freeCols[k1] == c1;
        var k2 :| 0 <= k2 < |freeRows| && k2 < |freeCols| && freeRows[k2] == r2 && freeCols[k2] == c2;
        assert k1 != k2;
      } else if placed1 {
        PairedIsFree(g, r1, c1);
        assert RowOccupied(g, r2) && ColOccupied(g, c2);
      } else if placed2 {
        PairedIsFree(g, r2, c2);
        assert RowOccupied(g, r1) && ColOccupied(g, c1);
      } else {
        assert !Attacks(g, r1, c1, r2, c2);
      }
    }
    assert forall r1, c1, r2, c2 :: !Attacks(h, r1, c1, r2, c2);
  }

  /** After completion of a non-attacking board no row and no column is empty. */
  lemma CompletionFillsLines(g: Grid)
    requires IsBoard(g) && NonAttacking(g)
    ensures forall r :: 0 <= r < BOARD_SIZE ==> RowOccupied(Completion(g), r)
    ensures forall c :: 0 <= c < BOARD_SIZE ==> ColOccupied(Completion(g), c)
  {
    FreeLines(g);
    var h := Completion(g);
    var freeRows, freeCols := FreeRows(g), FreeCols(g);
    FreeCountsAgree(g);
    forall r | 0 <= r < BOARD_SIZE ensures RowOccupied(h, r) {
      if RowOccupied(g, r) {
        var c :| 0 <= c < BOARD_SIZE && g[r][c] == ROOK;
        CompletionAt(g, r, c);
      } else {
        assert r !in FilledRows(g);
        var k :| 0 <= k < |freeRows| && freeRows[k] == r;
        CompletionAt(g, r, freeCols[k]);
        assert Paired(freeRows, freeCols, |freeRows|, r, freeCols[k]);
      }
    }
    forall c | 0 <= c < BOARD_SIZE ensures ColOccupied(h, c) {
      if ColOccupied(g, c) {
        var r :| 0 <= r < BOARD_SIZE && g[r][c] == ROOK;
        CompletionAt(g, r, c);
      } else {
        assert c !in FilledCols(g);
        var k :| 0 <= k < |freeCols| && freeCols[k] == c;
        CompletionAt(g, freeRows[k], c);
        assert Paired(freeRows, freeCols, |freeRows|, freeRows[k], c);
      }
    }
  }

  /** A non-attacking board with no empty row and no empty column is solved. */
  lemma FullNonAttackingIsSolved(h: Grid)
    requires IsBoard(h) && NonAttacking(h)
    requires forall r :: 0 <= r < BOARD_SIZE ==> RowOccupied(h, r)
    requires forall c :: 0 <= c < BOARD_SIZE ==> ColOccupied(h, c)
    ensures Solved(h)
    ensures |RookCells(h)| == BOARD_SIZE
  {
    forall r | 0 <= r < BOARD_SIZE ensures ExactlyOneInRow(h, r) {
      assert RowOccupied(h, r);
      var c :| 0 <= c < BOARD_SIZE && h[r][c] == ROOK;
      forall c' | 0 <= c' < BOARD_SIZE && h[r][c'] == ROOK ensures c' == c {
        assert !Attacks(h, r, c, r, c');
      }
    }
    forall c | 0 <= c < BOARD_SIZE ensures ExactlyOneInCol(h, c) {
      assert ColOccupied(h, c);
      var r :| 0 <= r < BOARD_SIZE && h[r][c] == ROOK;
      forall r' | 0 <= r' < BOARD_SIZE && h[r'][c] == ROOK ensures r' == r {
        assert !Attacks(h, r, c, r', c);
      }
    }
    FilledCount(h);
    assert FilledRows(h) == {0, 1, 2, 3, 4, 5, 6, 7};
  }

  /**
   * Completing a non-attacking board yields a non-attacking board with
   * exactly one rook on every row and on every column, eight rooks in all.
   */
  lemma CompletionSolves(g: Grid)
    requires IsBoard(g) && NonAttacking(g)
    ensures NonAttacking(Completion(g))
    ensures Solved(Completion(g))
    ensures |RookCells(Completion(g))| == BOARD_SIZE
  {
    CompletionNonAttacking(g);
    CompletionFillsLines(g);
    FullNonAttackingIsSolved(Completion(g));
  }

  /**
   * Completion cannot repair a board: the completed board is non-attacking
   * exactly when the original one was.
   */
  lemma CompletionKeepsAttack(g: Grid)
    requires IsBoard(g)
    ensures NonAttacking(Completion(g)) <==> NonAttacking(g)
  {
    if NonAttacking(g) {
      CompletionNonAttacking(g);
    } else {
      var r1, c1, r2, c2 :| Attacks(g, r1, c1, r2, c2);
      CompletionExtends(g);
      assert Attacks(Completion(g), r1, c1, r2, c2);
    }
  }

  /**
   * Completion only adds rooks: every original rook stays, and a cell whose
   * row or column already held a rook keeps its original value.
   */
  lemma CompletionExtends(g: Grid)
    requires IsBoard(g)
    ensures forall r, c :: InBoard(r, c) && g[r][c] == ROOK ==> Completion(g)[r][c] == ROOK
    ensures forall r, c :: InBoard(r, c) && (RowOccupied(g, r) || ColOccupied(g, c)) ==>
      Completion(g)[r][c] == g[r][c]
  {
    forall r, c | InBoard(r, c) && (RowOccupied(g, r) || ColOccupied(g, c))
      ensures Completion(g)[r][c] == g[r][c]
    {
      CompletionAt(g, r, c);
      if Paired(FreeRows(g), FreeCols(g), |FreeRows(g)|, r, c) {
        PairedIsFree(g, r, c);
      }
    }
  }

  /** Cell (r, c) holds a rook in h that it did not hold in g. */
  ghost predicate Added(g: Grid, h: Grid, r: int, c: int)
    requires IsBoard(g) && IsBoard(h)
  {
    InBoard(r, c) && g[r][c] != ROOK && h[r][c] == ROOK
  }

  /** Every rook of g is also a rook of h. */
  ghost predicate Extends(g: Grid, h: Grid)
    requires IsBoard(g) && IsBoard(h)
  {
    forall r, c :: InBoard(r, c) && g[r][c] == ROOK ==> h[r][c] == ROOK
  }

  /** Of two rooks that h adds to g, the one on the lower row is on the lower column. */
  ghost predicate OrderPreserving(g: Grid, h: Grid)
    requires IsBoard(g) && IsBoard(h)
  {
    forall r1, c1, r2, c2 :: Added(g, h, r1, c1) && Added(g, h, r2, c2) && r1 < r2 ==> c1 < c2
  }

  /**
   * The added rooks form the order-preserving pairing of free rows with free
   * columns: of two added rooks, the one on the lower row is on the lower
   * column.
   */
  lemma CompletionPreservesOrder(g: Grid)
    requires IsBoard(g)
    ensures OrderPreserving(g, Completion(g))
  {
    FreeLines(g);
    var h, freeRows, freeCols := Completion(g), FreeRows(g), FreeCols(g);
    forall r1, c1, r2, c2 | Added(g, h, r1, c1) && Added(g, h, r2, c2) && r1 < r2
      ensures c1 < c2
    {
      CompletionAt(g, r1, c1);
      CompletionAt(g, r2, c2);
      var k1 :| 0 <= k1 < |freeRows| && k1 < |freeCols| && freeRows[k1] == r1 && freeCols[k1] == c1;
      var k2 :| 0 <= k2 < |freeRows| && k2 < |freeCols| && freeRows[k2] == r2 && freeCols[k2] == c2;
      assert k1 < k2;
    }
  }

  /** A strictly increasing map from 0 .. n-1 into 0 .. n-1 maps each k to at least k. */
  lemma {:induction false} IncreasingAtLeast(sigma: seq<int>, k: int)
    requires forall i, j :: 0 <= i < j < |sigma| ==> sigma[i] < sigma[j]
    requires forall i :: 0 <= i < |sigma| ==> 0 <= sigma[i] < |sigma|
    requires 0 <= k < |sigma|
    ensures sigma[k] >= k
  {
    if k > 0 {
      IncreasingAtLeast(sigma, k - 1);
    }
  }

  /** A strictly increasing map from 0 .. n-1 into 0 .. n-1 maps each k to at most k. */
  lemma {:induction false} IncreasingAtMost(sigma: seq<int>, k: int)
    requires forall i, j :: 0 <= i < j < |sigma| ==> sigma[i] < sigma[j]
    requires forall i :: 0 <= i < |sigma| ==> 0 <= sigma[i] < |sigma|
    requires 0 <= k < |sigma|
    ensures sigma[k] <= k
    decreases |sigma| - k
  {
    if k < |sigma| - 1 {
      IncreasingAtMost(sigma, k + 1);
    }
  }

  /** The column of a rook on row r of h (0 when the row is empty). */
  ghost function RookInRow(h: Grid, r: int): (c: int)
    requires IsBoard(h)
    ensures RowOccupied(h, r) ==> 0 <= c < BOARD_SIZE && h[r][c] == ROOK
  {
    if RowOccupied(h, r) then var c :| 0 <= c < BOARD_SIZE && h[r][c] == ROOK; c else 0
  }

  /** A position of x in s (0 when x does not occur). */
  ghost function IndexOf(s: seq<int>, x: int): (j: int)
    ensures x in s ==> 0 <= j < |s| && s[j] == x
  {
    if x in s then var j :| 0 <= j < |s| && s[j] == x; j else 0
  }

  /**
   * In a solved extension of a non-attacking board, the rook on a row that is
   * free in g is an added rook, and it stands on a column that is free in g.
   */
  lemma FreeRowRook(g: Grid, h: Grid, r: int)
    requires IsBoard(g) && IsBoard(h) && Solved(h) && Extends(g, h)
    requires 0 <= r < BOARD_SIZE && !RowOccupied(g, r)
    ensures Added(g, h, r, RookInRow(h, r))
    ensures RookInRow(h, r) in FreeCols(g)
  {
    FreeLines(g);
    assert ExactlyOneInRow(h, r);
    var c := RookInRow(h, r);
    assert 0 <= c < BOARD_SIZE;
    assert ExactlyOneInCol(h, c);
    assert !ColOccupied(g, c);
    assert c !in FilledCols(g);
  }

  /**
   * In a solved extension of a non-attacking board, every added rook stands
   * on a row that is free in g.
   */
  lemma AddedOnFreeRow(g: Grid, h: Grid, r: int, c: int)
    requires IsBoard(g) && IsBoard(h) && Solved(h) && Extends(g, h)
    requires Added(g, h, r, c)
    ensures !RowOccupied(g, r)
  {
    assert ExactlyOneInRow(h, r);
  }

  /**
   * In a solved, order-preserving extension of a non-attacking board, the
   * rook on the k-th free row stands on the k-th free column.
   */
  lemma FreeRowRooksInOrder(g: Grid, h: Grid)
    requires IsBoard(g) && NonAttacking(g) && IsBoard(h)
    requires Solved(h) && Extends(g, h) && OrderPreserving(g, h)
    ensures |FreeRows(g)| == |FreeCols(g)|
    ensures forall k :: 0 <= k < |FreeRows(g)| ==> RookInRow(h, FreeRows(g)[k]) == FreeCols(g)[k]
  {
    FreeLines(g);
    var freeRows, freeCols := FreeRows(g), FreeCols(g);
    FreeCountsAgree(g);
    var m := |freeRows|;
    // sigma[k]: the index among the free columns of the rook on the k-th free row
    var sigma := seq(m, k requires 0 <= k < m => IndexOf(freeCols, RookInRow(h, freeRows[k])));
    forall k | 0 <= k < m
      ensures Added(g, h, freeRows[k], RookInRow(h, freeRows[k]))
      ensures 0 <= sigma[k] < m && freeCols[sigma[k]] == RookInRow(h, freeRows[k])
    {
      assert freeRows[k] !in FilledRows(g);
      FreeRowRook(g, h, freeRows[k]);
    }
    forall i, j | 0 <= i < j < m ensures sigma[i] < sigma[j] {
      assert freeRows[i] < freeRows[j];
    }
    forall k | 0 <= k < m ensures RookInRow(h, freeRows[k]) == freeCols[k] {
      IncreasingAtLeast(sigma, k);
      IncreasingAtMost(sigma, k);
    }
  }

  /**
   * In a solved, order-preserving extension of a non-attacking board, every
   * added rook is one of the pairs (freeRows[k], freeCols[k]).
   */
  lemma AddedIsPaired(g: Grid, h: Grid, r: int, c: int)
    requires IsBoard(g) && NonAttacking(g) && IsBoard(h)
    requires Solved(h) && Extends(g, h) && OrderPreserving(g, h)
    requires Added(g, h, r, c)
    ensures Paired(FreeRows(g), FreeCols(g), |FreeRows(g)|, r, c)
  {
    FreeLines(g);
    var freeRows, freeCols := FreeRows(g), FreeCols(g);
    FreeRowRooksInOrder(g, h);
    AddedOnFreeRow(g, h, r, c);
    assert r !in FilledRows(g);
    var k :| 0 <= k < |freeRows| && freeRows[k] == r;
    assert ExactlyOneInRow(h, r);
    assert RookInRow(h, r) == freeCols[k];
  }

  /**
   * The pairing is canonical: a solved board that keeps every rook of a
   * non-attacking board g and adds its rooks in row and column order is the
   * completion of g.
   */
  lemma CompletionIsUnique(g: Grid, h: Grid)
    requires IsBoard(g) && NonAttacking(g) && IsBoard(h)
    requires Solved(h) && Extends(g, h) && OrderPreserving(g, h)
    ensures h == Completion(g)
  {
    FreeLines(g);
    var freeRows, freeCols := FreeRows(g), FreeCols(g);
    FreeRowRooksInOrder(g, h);
    forall r, c | InBoard(r, c) ensures h[r][c] == Completion(g)[r][c] {
      CompletionAt(g, r, c);
      if g[r][c] == ROOK {
      } else if Paired(freeRows, freeCols, |freeRows|, r, c) {
        var k :| 0 <= k < |freeRows| && k < |freeCols| && freeRows[k] == r && freeCols[k] == c;
        assert freeRows[k] !in FilledRows(g);
        FreeRowRook(g, h, r);
      } else if h[r][c] == ROOK {
        AddedIsPaired(g, h, r, c);
      }
    }
    GridExtensionality(h, Completion(g));
  }

  /** The board with a rook on every cell (i, i). */
  function Diagonal(): (g: Grid)
    ensures IsBoard(g)
  {
    seq(BOARD_SIZE, r => seq(BOARD_SIZE, c => r == c))
  }

  /** The empty board is completed to the main diagonal. */
  lemma CompletionOfEmpty()
    ensures Completion(EmptyBoard()) == Diagonal()
  {
    var g := EmptyBoard();
    assert FilledRows(g) == {};
    assert FilledCols(g) == {};
    FreeIndicesNoneFilled(BOARD_SIZE);
    forall r, c | InBoard(r, c) ensures Completion(g)[r][c] == Diagonal()[r][c] {
      CompletionAt(g, r, c);
      if r == c {
        assert FreeRows(g)[r] == r && FreeCols(g)[r] == c;
      }
    }
    GridExtensionality(Completion(g), Diagonal());
  }

  /** A board with a rook on every row is left as it is. */
  lemma CompletionOfFull(g: Grid)
    requires IsBoard(g)
    requires forall r :: 0 <= r < BOARD_SIZE ==> RowOccupied(g, r)
    ensures Completion(g) == g
  {
    CompletionExtends(g);
    GridExtensionality(Completion(g), g);
  }

  /** The empty board with a rook on each of the given cells. */
  function WithRooks(rooks: set<(int, int)>): (g: Grid)
    ensures IsBoard(g)
    ensures forall r, c :: InBoard(r, c) ==> (g[r][c] == ROOK <==> (r, c) in rooks)
  {
    seq(BOARD_SIZE, r => seq(BOARD_SIZE, c => (r, c) in rooks))
  }

  /** The four-rook board of CompletionOfFourRooks. */
  function FourRooks(): set<(int, int)> {
    {(0, 1), (2, 5), (4, 2), (6, 7)}
  }

  lemma FourRooksFreeLines()
    ensures FreeRows(WithRooks(FourRooks())) == [1, 3, 5, 7]
    ensures FreeCols(WithRooks(FourRooks())) == [0, 3, 4, 6]
  {
    var g := WithRooks(FourRooks());
    forall r ensures r in FilledRows(g) <==> r in {0, 2, 4, 6} {
      if r in {0, 2, 4, 6} {
        assert g[0][1] && g[2][5] && g[4][2] && g[6][7];
      }
    }
    forall c ensures c in FilledCols(g) <==> c in {1, 2, 5, 7} {
      if c in {1, 2, 5, 7} {
        assert g[0][1] && g[2][5] && g[4][2] && g[6][7];
      }
    }
    assert FilledRows(g) == {0, 2, 4, 6};
    assert FilledCols(g) == {1, 2, 5, 7};
    FourRooksFreeIndices();
  }

  lemma FourRooksFreeIndices()
    ensures FreeIndices(BOARD_SIZE, {0, 2, 4, 6}) == [1, 3, 5, 7]
    ensures FreeIndices(BOARD_SIZE, {1, 2, 5, 7}) == [0, 3, 4, 6]
  {
  }

  lemma FourRooksPaired(r: int, c: int)
    ensures Paired([1, 3, 5, 7], [0, 3, 4, 6], 4, r, c) <==> (r, c) in FourRooksAdded()
  {
    var freeRows, freeCols := [1, 3, 5, 7], [0, 3, 4, 6];
    if (r, c) in FourRooksAdded() {
      var k := if r == 1 then 0 else if r == 3 then 1 else if r == 5 then 2 else 3;
      assert freeRows[k] == r && freeCols[k] == c;
    }
  }

  /** The rooks the completion adds to the four-rook board. */
  function FourRooksAdded(): set<(int, int)> {
    {(1, 0), (3, 3), (5, 4), (7, 6)}
  }

  lemma FourRooksCell(g: Grid, r: int, c: int)
    requires g == WithRooks(FourRooks()) && InBoard(r, c)
    ensures Completion(g)[r][c] == ROOK <==> (r, c) in FourRooks() || (r, c) in FourRooksAdded()
  {
    FourRooksFreeLines();
    assert FreeRows(g) == [1, 3, 5, 7] && FreeCols(g) == [0, 3, 4, 6];
    CompletionAt(g, r, c);
    FourRooksPaired(r, c);
  }

  /** Four rooks placed: the free rows 1, 3, 5, 7 meet the free columns 0, 3, 4, 6. */
  lemma CompletionOfFourRooks()
    ensures Completion(WithRooks(FourRooks())) == WithRooks(FourRooks() + FourRooksAdded())
  {
    var g := WithRooks(FourRooks());
    var h := WithRooks(FourRooks() + FourRooksAdded());
    forall r, c | InBoard(r, c) ensures Completion(g)[r][c] == h[r][c] {
      FourRooksCell(g, r, c);
    }
    GridExtensionality(Completion(g), h);
  }

  /** The seven-rook board: only row 2 and column 5 are still free. */
  function SevenRooks(): set<(int, int)> {
    {(0, 6), (1, 1), (3, 3), (4, 7), (5, 0), (6, 2), (7, 4)}
  }

  lemma SevenRooksFreeLines()
    ensures FreeRows(WithRooks(SevenRooks())) == [2]
    ensures FreeCols(WithRooks(SevenRooks())) == [5]
  {
    var g := WithRooks(SevenRooks());
    forall r ensures r in FilledRows(g) <==> r in {0, 1, 3, 4, 5, 6, 7} {
      if r in {0, 1, 3, 4, 5, 6, 7} {
        assert g[0][6] && g[1][1] && g[3][3] && g[4][7] && g[5][0] && g[6][2] && g[7][4];
      }
    }
    forall c ensures c in FilledCols(g) <==> c in {0, 1, 2, 3, 4, 6, 7} {
      if c in {0, 1, 2, 3, 4, 6, 7} {
        assert g[0][6] && g[1][1] && g[3][3] && g[4][7] && g[5][0] && g[6][2] && g[7][4];
      }
    }
    assert FilledRows(g) == {0, 1, 3, 4, 5, 6, 7};
    assert FilledCols(g) == {0, 1, 2, 3, 4, 6, 7};
    SevenRooksFreeIndices();
  }

  lemma SevenRooksFreeIndices()
    ensures FreeIndices(BOARD_SIZE, {0, 1, 3, 4, 5, 6, 7}) == [2]
    ensures FreeIndices(BOARD_SIZE, {0, 1, 2, 3, 4, 6, 7}) == [5]
  {
  }

  /** The rook the completion adds to the seven-rook board. */
  function SevenRooksAdded(): set<(int, int)> {
    {(2, 5)}
  }

  lemma SevenRooksPaired(r: int, c: int)
    ensures Paired([2], [5], 1, r, c) <==> (r, c) in SevenRooksAdded()
  {
    if (r, c) in SevenRooksAdded() {
      assert [2][0] == r && [5][0] == c;
    }
  }

  lemma SevenRooksCell(g: Grid, r: int, c: int)
    requires g == WithRooks(SevenRooks()) && InBoard(r, c)
    ensures Completion(g)[r][c] == ROOK <==> (r, c) in SevenRooks() || (r, c) in SevenRooksAdded()
  {
    SevenRooksFreeLines();
    assert FreeRows(g) == [2] && FreeCols(g) == [5];
    CompletionAt(g, r, c);
    SevenRooksPaired(r, c);
  }

  /** Seven rooks placed: the only square left is (2, 5). */
  lemma CompletionOfSevenRooks()
    ensures Completion(WithRooks(SevenRooks())) == WithRooks(SevenRooks() + SevenRooksAdded())
  {
    var g := WithRooks(SevenRooks());
    var h := WithRooks(SevenRooks() + SevenRooksAdded());
    forall r, c | InBoard(r, c) ensures Completion(g)[r][c] == h[r][c] {
      SevenRooksCell(g, r, c);
    }
    GridExtensionality(Completion(g), h);
  }

  /** Two rooks on row 3 make the board invalid. */
  lemma SharedRowAttacks()
    ensures !NonAttacking(WithRooks({(0, 0), (1, 1), (2, 2), (3, 3), (3, 4)}))
  {
    assert Attacks(WithRooks({(0, 0), (1, 1), (2, 2), (3, 3), (3, 4)}), 3, 3, 3, 4);
  }

  // ---------------------------------------------------------------------------
  // The completer

  /**
   * Completes a board in place and returns the same board: scans for the
   * filled rows and columns, lists the free ones in ascending order and puts
   * a rook on (freeRows[i], freeCols[i]) for every i. The board is not
   * checked first; on an attacking board the two lists can differ in length,
   * and a step whose column index is past the end of freeCols touches no
   * square.
   */
  method SolveBoard(board: array2<bool>) returns (solved: array2<bool>)
    requires board.Length0 == BOARD_SIZE && board.Length1 == BOARD_SIZE
    modifies board
    ensures solved == board
    ensures Cells(board) == Completion(old(Cells(board)))
    ensures forall r, c :: InBoard(r, c) && old(board[r, c]) == ROOK ==> board[r, c] == ROOK
    ensures NonAttacking(Cells(board)) <==> NonAttacking(old(Cells(board)))
    ensures NonAttacking(old(Cells(board))) ==> Solved(Cells(board))
  {
    ghost var g := Cells(board);
    var filledRows, filledCols := ScanOccupied(board);
    var freeRows := FreeIndices(BOARD_SIZE, filledRows);
    var freeCols := FreeIndices(BOARD_SIZE, filledCols);
    FreeLines(g);
    for i := 0 to |freeRows|
      invariant forall r, c :: InBoard(r, c) ==>
        board[r, c] == (g[r][c] == ROOK || Paired(freeRows, freeCols, i, r, c))
    {
      ghost var next := i + 1;
      if i < |freeCols| {
        forall r, c | InBoard(r, c)
          ensures Paired(freeRows, freeCols, next, r, c) ==
            (Paired(freeRows, freeCols, i, r, c) || (r == freeRows[i] && c == freeCols[i]))
        {
          if r == freeRows[i] && c == freeCols[i] {
            assert Paired(freeRows, freeCols, next, r, c);
          }
        }
        board[freeRows[i], freeCols[i]] := ROOK;
      } else {
        assert forall r, c :: Paired(freeRows, freeCols, next, r, c) == Paired(freeRows, freeCols, i, r, c);
      }
    }
    if NonAttacking(g) {
      CompletionSolves(g);
    }
    CompletionKeepsAttack(g);
    CompletionExtends(g);
    forall r, c | InBoard(r, c) ensures Cells(board)[r][c] == Completion(g)[r][c] {
      CompletionAt(g, r, c);
    }
    GridExtensionality(Cells(board), Completion(g));
    return board;
  }
}

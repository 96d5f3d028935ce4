// The board representation, the input validators and the label conversion
// of the n-rooks solver (src/util.ts).

module Util {

  /** A rook on a cell is written as `true`. */
  const ROOK: bool := true

  /** The board is BOARD_SIZE x BOARD_SIZE. */
  const BOARD_SIZE: int := 8

  /** Character code of 'A', the label of row 0. */
  const A_ASCII: int := 65

  /** The value of a board: rows of occupancy flags, indexed [row][column]. */
  type Grid = seq<seq<bool>>

  ghost predicate IsBoard(g: Grid) {
    |g| == BOARD_SIZE && forall r :: 0 <= r < BOARD_SIZE ==> |g[r]| == BOARD_SIZE
  }

  predicate InBoard(r: int, c: int) {
    0 <= r < BOARD_SIZE && 0 <= c < BOARD_SIZE
  }

  /** The current contents of an array board, as a value. */
  ghost function Cells(a: array2<bool>): (g: Grid)
    reads a
    ensures |g| == a.Length0
    ensures forall r :: 0 <= r < a.Length0 ==> |g[r]| == a.Length1
    ensures forall r, c :: 0 <= r < a.Length0 && 0 <= c < a.Length1 ==> g[r][c] == a[r, c]
  {
    seq(a.Length0, r reads a requires 0 <= r < a.Length0 =>
      seq(a.Length1, c reads a requires 0 <= c < a.Length1 => a[r, c]))
  }

  /** Two grids of board shape with the same cells are the same grid. */
  lemma GridExtensionality(g: Grid, h: Grid)
    requires IsBoard(g) && IsBoard(h)
    requires forall r, c :: InBoard(r, c) ==> g[r][c] == h[r][c]
    ensures g == h
  {
    forall r | 0 <= r < BOARD_SIZE
      ensures g[r] == h[r]
    {
      assert forall c :: 0 <= c < BOARD_SIZE ==> g[r][c] == h[r][c] by {
        forall c | 0 <= c < BOARD_SIZE ensures g[r][c] == h[r][c] {
          assert InBoard(r, c);
        }
      }
    }
  }

  /** The rooks at (r1, c1) and (r2, c2) are two different rooks on one row or one column. */
  ghost predicate Attacks(g: Grid, r1: int, c1: int, r2: int, c2: int)
    requires IsBoard(g)
  {
    InBoard(r1, c1) && InBoard(r2, c2) && g[r1][c1] == ROOK && g[r2][c2] == ROOK &&
    (r1 != r2 || c1 != c2) && (r1 == r2 || c1 == c2)
  }

  /** No two rooks share a row or a column. */
  ghost predicate NonAttacking(g: Grid)
    requires IsBoard(g)
  {
    forall r1, c1, r2, c2 :: !Attacks(g, r1, c1, r2, c2)
  }

  /** The all-empty board (EMPTY_BOARD). */
  function EmptyBoard(): (g: Grid)
    ensures IsBoard(g)
    ensures forall r, c :: InBoard(r, c) ==> g[r][c] != ROOK
  {
    seq(BOARD_SIZE, _ => seq(BOARD_SIZE, _ => !ROOK))
  }

  /** The empty board is valid. */
  lemma EmptyBoardNonAttacking()
    ensures NonAttacking(EmptyBoard())
  {
  }

  /** A board whose only rook is at (r, c) is valid. */
  lemma SingleRookNonAttacking(g: Grid, r: int, c: int)
    requires IsBoard(g) && InBoard(r, c)
    requires forall r', c' :: InBoard(r', c') && g[r'][c'] == ROOK ==> r' == r && c' == c
    ensures NonAttacking(g)
  {
  }

  // ---------------------------------------------------------------------------
  // Board validation (validateBoard)

  /**
   * Cell (r, c) holds a rook and comes before (i, j) in row-major order: it
   * has been visited by a row-major scan that is about to look at (i, j).
   */
  ghost predicate Seen(g: Grid, i: int, j: int, r: int, c: int)
    requires IsBoard(g)
  {
    InBoard(r, c) && (r < i || (r == i && c < j)) && g[r][c] == ROOK
  }

  /** Visiting cell (i, j) adds it to the visited rooks if it holds one, and nothing else. */
  lemma SeenStep(g: Grid, i: int, j: int, next: int)
    requires IsBoard(g) && InBoard(i, j) && next == j + 1
    ensures forall r, c :: Seen(g, i, next, r, c) <==> Seen(g, i, j, r, c) || (r == i && c == j && g[i][j] == ROOK)
  {
  }

  /** No two rooks visited before (i, j) attack each other. */
  ghost predicate SeenNonAttacking(g: Grid, i: int, j: int)
    requires IsBoard(g)
  {
    forall r1, c1, r2, c2 :: Seen(g, i, j, r1, c1) && Seen(g, i, j, r2, c2) && (r1 != r2 || c1 != c2) ==>
      r1 != r2 && c1 != c2
  }

  /**
   * Scans the board row by row, remembering the rows and columns that hold a
   * rook, and stops at the first rook whose row or column was seen before.
   */
  method ValidateBoard(board: array2<bool>) returns (valid: bool)
    requires board.Length0 == BOARD_SIZE && board.Length1 == BOARD_SIZE
    ensures valid <==> NonAttacking(Cells(board))
  {
    ghost var g := Cells(board);
    assert IsBoard(g);
    var filledRows: set<int> := {};
    var filledCols: set<int> := {};
    for row := 0 to BOARD_SIZE
      invariant forall r :: r in filledRows <==> exists c :: Seen(g, row, 0, r, c)
      invariant forall c :: c in filledCols <==> exists r :: Seen(g, row, 0, r, c)
      invariant SeenNonAttacking(g, row, 0)
    {
      for col := 0 to BOARD_SIZE
        invariant forall r :: r in filledRows <==> exists c :: Seen(g, row, col, r, c)
        invariant forall c :: c in filledCols <==> exists r :: Seen(g, row, col, r, c)
        invariant SeenNonAttacking(g, row, col)
      {
        assert g[row][col] == board[row, col];
        ghost var next := col + 1;
        SeenStep(g, row, col, next);
        ghost var rowsBefore, colsBefore := filledRows, filledCols;
        if board[row, col] == ROOK {
          if row in filledRows || col in filledCols {
            if row in filledRows {
              ghost var c :| Seen(g, row, col, row, c);
              assert Attacks(g, row, c, row, col);
            } else {
              ghost var r :| Seen(g, row, col, r, col);
              assert Attacks(g, r, col, row, col);
            }
            return false;
          }
          filledRows := filledRows + {row};
          filledCols := filledCols + {col};
          forall r1, c1, r2, c2 | Seen(g, row, next, r1, c1) && Seen(g, row, next, r2, c2) && (r1 != r2 || c1 != c2)
            ensures r1 != r2 && c1 != c2
          {
            if r1 == row && c1 == col {
              assert Seen(g, row, col, r2, c2);
              assert r2 in rowsBefore && c2 in colsBefore;
            } else if r2 == row && c2 == col {
              assert Seen(g, row, col, r1, c1);
              assert r1 in rowsBefore && c1 in colsBefore;
            }
          }
        }
        forall r ensures r in filledRows <==> exists c :: Seen(g, row, next, r, c) {
          if c :| Seen(g, row, next, r, c) {
            if Seen(g, row, col, r, c) {
              assert r in rowsBefore;
            }
          }
          if r in rowsBefore {
            var c :| Seen(g, row, col, r, c);
            assert Seen(g, row, next, r, c);
          } else if r in filledRows {
            assert Seen(g, row, next, row, col);
          }
        }
        forall c ensures c in filledCols <==> exists r :: Seen(g, row, next, r, c) {
          if r :| Seen(g, row, next, r, c) {
            if Seen(g, row, col, r, c) {
              assert c in colsBefore;
            }
          }
          if c in colsBefore {
            var r :| Seen(g, row, col, r, c);
            assert Seen(g, row, next, r, c);
          } else if c in filledCols {
            assert Seen(g, row, next, row, col);
          }
        }
      }
      ghost var nextRow := row + 1;
      assert forall r, c :: Seen(g, row, BOARD_SIZE, r, c) <==> Seen(g, nextRow, 0, r, c);
      forall r ensures r in filledRows <==> exists c :: Seen(g, nextRow, 0, r, c) {
        if c :| Seen(g, nextRow, 0, r, c) {
          assert Seen(g, row, BOARD_SIZE, r, c);
        }
        if r in filledRows {
          var c :| Seen(g, row, BOARD_SIZE, r, c);
          assert Seen(g, nextRow, 0, r, c);
        }
      }
      forall c ensures c in filledCols <==> exists r :: Seen(g, nextRow, 0, r, c) {
        if r :| Seen(g, nextRow, 0, r, c) {
          assert Seen(g, row, BOARD_SIZE, r, c);
        }
        if c in filledCols {
          var r :| Seen(g, row, BOARD_SIZE, r, c);
          assert Seen(g, nextRow, 0, r, c);
        }
      }
    }
    forall r1, c1, r2, c2 ensures !Attacks(g, r1, c1, r2, c2) {
      if Attacks(g, r1, c1, r2, c2) {
        assert Seen(g, BOARD_SIZE, 0, r1, c1) && Seen(g, BOARD_SIZE, 0, r2, c2);
      }
    }
    return true;
  }

  // ---------------------------------------------------------------------------
  // Cell labels (validateInput, convertCell)

  /** A label of the form [A-H][1-8]: a row letter followed by a column digit. */
  predicate IsCellLabel(s: string) {
    |s| == 2 && 'A' <= s[0] <= 'H' && '1' <= s[1] <= '8'
  }

  predicate AllCellLabels(cells: seq<string>) {
    forall i :: 0 <= i < |cells| ==> IsCellLabel(cells[i])
  }

  predicate Distinct<T(==)>(s: seq<T>) {
    forall i, j :: 0 <= i < j < |s| ==> s[i] != s[j]
  }

  function Elements<T>(s: seq<T>): set<T> {
    set k | 0 <= k < |s| :: s[k]
  }

  /** A sequence has as many distinct elements as entries exactly when no entry repeats. */
  lemma {:induction false} ElementsCount<T>(s: seq<T>)
    ensures |Elements(s)| <= |s|
    ensures |Elements(s)| == |s| <==> Distinct(s)
  {
    if s != [] {
      var init, last := s[..|s| - 1], s[|s| - 1];
      ElementsCount(init);
      assert Elements(s) == Elements(init) + {last} by {
        forall x | x in Elements(s) ensures x in Elements(init) + {last} {
          var k :| 0 <= k < |s| && s[k] == x;
          if k < |s| - 1 { assert init[k] == x; }
        }
        forall x | x in Elements(init) ensures x in Elements(s) {
          var k :| 0 <= k < |init| && init[k] == x;
          assert s[k] == x;
        }
      }
      if last in Elements(init) {
        var k :| 0 <= k < |init| && init[k] == last;
        assert s[k] == s[|s| - 1];
        assert !Distinct(s);
      } else {
        assert Distinct(s) <==> Distinct(init) by {
          if Distinct(init) {
            forall i, j | 0 <= i < j < |s| ensures s[i] != s[j] {
              if j < |s| - 1 {
                assert init[i] == s[i] && init[j] == s[j];
              } else {
                assert init[i] == s[i];
              }
            }
          }
          if Distinct(s) {
            forall i, j | 0 <= i < j < |init| ensures init[i] != init[j] {
              assert init[i] == s[i] && init[j] == s[j];
            }
          }
        }
      }
    }
  }

  /**
   * Accepts a list of labels exactly when every label is a cell of the board
   * and no label is given twice. The first malformed label rejects at once;
   * duplicates are detected afterwards by comparing the number of distinct
   * labels with the number of labels.
   */
  method ValidateInput(cells: seq<string>) returns (valid: bool)
    ensures valid <==> AllCellLabels(cells) && Distinct(cells)
  {
    var cellSet: set<string> := {};
    for i := 0 to |cells|
      invariant cellSet == Elements(cells[..i])
      invariant AllCellLabels(cells[..i])
    {
      if !IsCellLabel(cells[i]) {
        return false;
      }
      assert cells[..i + 1] == cells[..i] + [cells[i]];
      assert Elements(cells[..i + 1]) == cellSet + {cells[i]} by {
        forall x | x in Elements(cells[..i + 1]) ensures x in cellSet + {cells[i]} {
          var k :| 0 <= k < i + 1 && cells[..i + 1][k] == x;
          if k < i { assert cells[..i][k] == x; }
        }
        forall x | x in cellSet ensures x in Elements(cells[..i + 1]) {
          var k :| 0 <= k < i && cells[..i][k] == x;
          assert cells[..i + 1][k] == x;
        }
        assert cells[..i + 1][i] == cells[i];
      }
      cellSet := cellSet + {cells[i]};
    }
    assert cells[..|cells|] == cells;
    ElementsCount(cells);
    if |cellSet| < |cells| {
      return false;
    }
    return true;
  }

  /** The label of cell (row, col): the inverse of ConvertCell. */
  function CellLabel(row: int, col: int): (s: string)
    requires InBoard(row, col)
    ensures IsCellLabel(s)
  {
    [(A_ASCII + row) as char, ('1' as int + col) as char]
  }

  /** A JavaScript number as far as ConvertCell can produce one: an integer or NaN. */
  datatype Number = Int(value: int) | NaN

  /** Subtraction of an integer; NaN absorbs it. */
  function Minus(x: Number, k: int): Number {
    if x.NaN? then NaN else Int(x.value - k)
  }

  /** The characters that JavaScript's Number() treats as white space or line terminators. */
  predicate IsJsSpace(ch: char) {
    ch == '\t' || ch == '\n' || ch == '\U{000B}' || ch == '\U{000C}' || ch == '\r' || ch == ' ' ||
    ch == '\U{00A0}' || ch == '\U{1680}' || ('\U{2000}' <= ch <= '\U{200A}') ||
    ch == '\U{2028}' || ch == '\U{2029}' || ch == '\U{202F}' || ch == '\U{205F}' ||
    ch == '\U{3000}' || ch == '\U{FEFF}'
  }

  /**
   * Unary plus on a one-character string: a decimal digit is its value, a
   * white-space character is an empty numeral and so 0, anything else is NaN.
   */
  function UnaryPlus(ch: char): Number {
    if '0' <= ch <= '9' then Int(ch as int - '0' as int)
    else if IsJsSpace(ch) then Int(0)
    else NaN
  }

  /**
   * Converts a label to (row, column): the row is the character code of the
   * first character minus that of 'A', the column the second character read
   * as a number, minus one. A missing character reads as NaN.
   */
  function ConvertCell(cell: string): (rc: (Number, Number))
    ensures IsCellLabel(cell) ==>
      rc.0.Int? && rc.1.Int? && InBoard(rc.0.value, rc.1.value) && CellLabel(rc.0.value, rc.1.value) == cell
    ensures |cell| == 0 ==> rc == (NaN, NaN)
    ensures |cell| == 1 ==> rc.0.Int? && rc.1 == NaN
  {
    var row := if |cell| == 0 then NaN else Int(cell[0] as int - A_ASCII);
    var col := if |cell| < 2 then NaN else UnaryPlus(cell[1]);
    (row, Minus(col, 1))
  }

  /** Every cell of the board round-trips through its label. */
  lemma ConvertCellLabel(row: int, col: int)
    requires InBoard(row, col)
    ensures ConvertCell(CellLabel(row, col)) == (Int(row), Int(col))
  {
  }

  /** Distinct valid labels name distinct cells. */
  lemma ConvertCellInjective(a: string, b: string)
    requires IsCellLabel(a) && IsCellLabel(b) && a != b
    ensures ConvertCell(a) != ConvertCell(b)
  {
  }

  /**
   * The documented example "A5" is row 0, column 4; labels that fail the
   * label check still convert, to NaN or to out-of-board numbers.
   */
  lemma ConvertCellExamples()
    ensures ConvertCell("A5") == (Int(0), Int(4))
    ensures ConvertCell("I4") == (Int(8), Int(3))
    ensures ConvertCell("A9") == (Int(0), Int(8))
    ensures ConvertCell("A ") == (Int(0), Int(-1))
    ensures ConvertCell("Ax") == (Int(0), NaN)
    ensures ConvertCell("") == (NaN, NaN)
  {
  }

  /** "A9" is not a square; a repeated "A1" is a duplicate; four distinct squares pass. */
  lemma CellLabelExamples()
    ensures !AllCellLabels(["A1", "B2", "C3", "I4"])
    ensures !AllCellLabels(["A9"])
    ensures AllCellLabels(["A1", "A1"])
    ensures !Distinct(["A1", "A1"])
    ensures AllCellLabels(["A1", "H8", "D3", "C7"]) && Distinct(["A1", "H8", "D3", "C7"])
  {
    assert !IsCellLabel(["A1", "B2", "C3", "I4"][3]);
    assert !IsCellLabel(["A9"][0]);
    var dup := ["A1", "A1"];
    assert IsCellLabel(dup[0]) && IsCellLabel(dup[1]);
    assert dup[0] == dup[1];
    var valid := ["A1", "H8", "D3", "C7"];
    forall i, j | 0 <= i < j < |valid| ensures valid[i] != valid[j] {
      assert valid[i][0] != valid[j][0];
    }
  }
}

/** Rule checking over a board snapshot: the local placement rule and the
    two-pass completion check. */
module Validation {
  import opened Board

  /** The value `num` sits on some peer of `at`: placing `num` at `at` would
      repeat it in a row, a column or a box. */
  ghost predicate Clashes(board: Grid, at: Cell, num: int) {
    exists q: Cell :: Peer(q, at) && At(board, q) == num
  }

  // The placement rule scans the row, then the column, then the box, each
  // by index, exactly as the game does.

  /** Columns `c..8` of `row`, other than `col`, do not hold `num`. */
  function RowClear(board: Grid, row: int, col: int, num: int, c: int): (ok: bool)
    requires 0 <= row < GridSize && 0 <= c <= GridSize
    ensures ok <==> forall j :: c <= j < GridSize && j != col ==> board[row][j] != num
    decreases GridSize - c
  {
    c == GridSize || ((c == col || board[row][c] != num) && RowClear(board, row, col, num, c + 1))
  }

  /** Rows `r..8` of `col`, other than `row`, do not hold `num`. */
  function ColClear(board: Grid, row: int, col: int, num: int, r: int): (ok: bool)
    requires 0 <= col < GridSize && 0 <= r <= GridSize
    ensures ok <==> forall i :: r <= i < GridSize && i != row ==> board[i][col] != num
    decreases GridSize - r
  {
    r == GridSize || ((r == row || board[r][col] != num) && ColClear(board, row, col, num, r + 1))
  }

  /** Columns `c..startCol+2` of box row `r`, other than the cell itself,
      do not hold `num`. */
  function BoxRowClear(board: Grid, row: int, col: int, num: int, r: int, c: int): (ok: bool)
    requires 0 <= r < GridSize && 0 <= col < GridSize
    requires BoxStart(col) <= c <= BoxStart(col) + BoxSize
    ensures ok <==> forall j :: c <= j < BoxStart(col) + BoxSize && (r != row || j != col) ==> board[r][j] != num
    decreases BoxStart(col) + BoxSize - c
  {
    c == BoxStart(col) + BoxSize
    || (((r != row || c != col) ==> board[r][c] != num) && BoxRowClear(board, row, col, num, r, c + 1))
  }

  /** Box rows `r..startRow+2` do not hold `num` anywhere but at the cell itself. */
  function BoxClear(board: Grid, row: int, col: int, num: int, r: int): (ok: bool)
    requires 0 <= row < GridSize && 0 <= col < GridSize
    requires BoxStart(row) <= r <= BoxStart(row) + BoxSize
    ensures ok <==> forall i, j ::
                      (r <= i < BoxStart(row) + BoxSize && BoxStart(col) <= j < BoxStart(col) + BoxSize
                       && (i != row || j != col)) ==> board[i][j] != num
    decreases BoxStart(row) + BoxSize - r
  {
    r == BoxStart(row) + BoxSize
    || (BoxRowClear(board, row, col, num, r, BoxStart(col)) && BoxClear(board, row, col, num, r + 1))
  }

  /** Two in-grid cells lie in the same box exactly when each lies in the
      three rows and three columns that start at the other's box corner. */
  lemma SameBoxIsBoxRange(a: Cell, q: Cell)
    ensures SameBox(q, a) <==>
              BoxStart(a.row) <= q.row < BoxStart(a.row) + BoxSize
              && BoxStart(a.col) <= q.col < BoxStart(a.col) + BoxSize
  {
  }

  /** The placement rule: an empty value never conflicts; any other value is
      valid exactly when no peer of the cell holds it. The cell's own value
      is never counted against it. */
  function IsValidPlacement(board: Grid, row: int, col: int, num: int): (ok: bool)
    requires 0 <= row < GridSize && 0 <= col < GridSize
    ensures num == 0 ==> ok
    ensures ok <==> num == 0 || !Clashes(board, Coord(row, col), num)
  {
    var ok := num == 0
      || (RowClear(board, row, col, num, 0)
          && ColClear(board, row, col, num, 0)
          && BoxClear(board, row, col, num, BoxStart(row)));
    PlacementMeansNoClash(board, Coord(row, col), num);
    ok
  }

  lemma PlacementMeansNoClash(board: Grid, at: Cell, num: int)
    ensures (RowClear(board, at.row, at.col, num, 0)
             && ColClear(board, at.row, at.col, num, 0)
             && BoxClear(board, at.row, at.col, num, BoxStart(at.row)))
            <==> !Clashes(board, at, num)
  {
    if Clashes(board, at, num) {
      var q: Cell :| Peer(q, at) && At(board, q) == num;
      SameBoxIsBoxRange(at, q);
    } else {
      forall i, j | BoxStart(at.row) <= i < BoxStart(at.row) + BoxSize
                    && BoxStart(at.col) <= j < BoxStart(at.col) + BoxSize
                    && (i != at.row || j != at.col)
        ensures board[i][j] != num
      {
        var q: Cell := Coord(i, j);
        SameBoxIsBoxRange(at, q);
        assert Peer(q, at);
      }
      forall j | 0 <= j < GridSize && j != at.col
        ensures board[at.row][j] != num
      {
        assert Peer(Coord(at.row, j), at);
      }
      forall i | 0 <= i < GridSize && i != at.row
        ensures board[i][at.col] != num
      {
        assert Peer(Coord(i, at.col), at);
      }
    }
  }

  // ---------------------------------------------------------------------
  // The two-pass completion check
  // ---------------------------------------------------------------------

  /** The result of a check, in the order the check gives them precedence.
      Each carries the cells to flag. */
  datatype Outcome =
    | RulesConflict(conflicts: set<Coord>)
    | Incomplete
    | Incorrect(wrong: set<Coord>)
    | Solved
  {
    function Errors(): set<Coord> {
      match this
      case RulesConflict(cs) => cs
      case Incorrect(ws) => ws
      case _ => {}
    }
  }

  /** A player-entered (non-given), non-empty cell whose value breaks the
      placement rule on the current board. */
  predicate Conflicting(initial: Grid, current: Grid, q: Cell) {
    At(initial, q) == 0 && At(current, q) != 0
    && !IsValidPlacement(current, q.row, q.col, At(current, q))
  }

  /** A player-entered cell that differs from the solution. */
  predicate Mismatched(initial: Grid, current: Grid, solution: Grid, q: Cell) {
    At(initial, q) == 0 && At(current, q) != At(solution, q)
  }

  predicate Complete(current: Grid) {
    forall r, c | 0 <= r < GridSize && 0 <= c < GridSize :: current[r][c] != 0
  }

  /** The cells a rule-conflict outcome flags. */
  function ConflictCells(initial: Grid, current: Grid): (cs: set<Coord>)
    ensures forall q :: q in cs ==> InGrid(q) && Conflicting(initial, current, q)
    ensures forall q: Cell :: Conflicting(initial, current, q) ==> q in cs
  {
    AllCellsAreExactlyTheGrid();
    set q | q in AllCells && Conflicting(initial, current, q)
  }

  /** The cells an incorrect outcome flags. */
  function MismatchCells(initial: Grid, current: Grid, solution: Grid): (ws: set<Coord>)
    ensures forall q :: q in ws ==> InGrid(q) && Mismatched(initial, current, solution, q)
    ensures forall q: Cell :: Mismatched(initial, current, solution, q) ==> q in ws
  {
    AllCellsAreExactlyTheGrid();
    set q | q in AllCells && Mismatched(initial, current, solution, q)
  }

  /** The check, stated over whole cell sets: rule conflicts first, then
      completeness, then agreement with the solution. */
  function CheckBoard(initial: Grid, current: Grid, solution: Grid): (o: Outcome)
    // Precedence: a rule conflict is reported whether or not the board is full.
    ensures o.RulesConflict? <==> exists q: Cell :: Conflicting(initial, current, q)
    ensures o.Incomplete? <==> (forall q: Cell :: !Conflicting(initial, current, q)) && !Complete(current)
    ensures o.Solved? <==>
              (forall q: Cell :: !Conflicting(initial, current, q))
              && Complete(current)
              && (forall q: Cell :: !Mismatched(initial, current, solution, q))
    // Each outcome flags exactly its own cells, and never a given.
    ensures o.RulesConflict? ==>
              forall q :: q in o.conflicts <==> InGrid(q) && Conflicting(initial, current, q)
    ensures o.Incorrect? ==>
              forall q :: q in o.wrong <==> InGrid(q) && Mismatched(initial, current, solution, q)
    ensures forall q :: q in o.Errors() ==> InGrid(q) && At(initial, q) == 0
  {
    var conflicts := ConflictCells(initial, current);
    if conflicts != {} then
      RulesConflict(conflicts)
    else if !Complete(current) then
      Incomplete
    else
      var wrong := MismatchCells(initial, current, solution);
      if wrong == {} then Solved else Incorrect(wrong)
  }

  /** One row of the first pass: the row's rule-breaking player cells, and
      whether the row has no empty cell. */
  method ScanRulesRow(initial: Grid, current: Grid, r: int) returns (errors: set<Coord>, isComplete: bool)
    requires 0 <= r < GridSize
    ensures forall q :: q in errors ==> InGrid(q) && q.row == r && Conflicting(initial, current, q)
    ensures forall q: Cell :: q.row == r && Conflicting(initial, current, q) ==> q in errors
    ensures isComplete <==> forall j | 0 <= j < GridSize :: current[r][j] != 0
  {
    errors := {};
    isComplete := true;
    var c := 0;
    while c < GridSize
      invariant 0 <= c <= GridSize
      invariant forall q :: q in errors ==> InGrid(q) && q.row == r && q.col < c && Conflicting(initial, current, q)
      invariant forall q: Cell :: q.row == r && q.col < c && Conflicting(initial, current, q) ==> q in errors
      invariant isComplete <==> forall j | 0 <= j < c :: current[r][j] != 0
    {
      var value := current[r][c];
      var isFixed := initial[r][c] != 0;
      if value == 0 {
        isComplete := false;
      } else if !isFixed && !IsValidPlacement(current, r, c, value) {
        errors := errors + {Coord(r, c)};
      }
      c := c + 1;
    }
  }

  /** The first pass over all rows: every rule-breaking player cell, and
      whether the board has no empty cell. */
  method ScanRules(initial: Grid, current: Grid) returns (errors: set<Coord>, isComplete: bool)
    ensures errors == ConflictCells(initial, current)
    ensures isComplete == Complete(current)
  {
    errors := {};
    isComplete := true;
    var r := 0;
    while r < GridSize
      invariant 0 <= r <= GridSize
      invariant forall q :: q in errors ==> InGrid(q) && q.row < r && Conflicting(initial, current, q)
      invariant forall q: Cell :: q.row < r && Conflicting(initial, current, q) ==> q in errors
      invariant isComplete <==> forall i, j | 0 <= i < r && 0 <= j < GridSize :: current[i][j] != 0
    {
      var rowErrors, rowComplete := ScanRulesRow(initial, current, r);
      errors := errors + rowErrors;
      isComplete := isComplete && rowComplete;
      r := r + 1;
    }
    var conflicts := ConflictCells(initial, current);
    assert errors == conflicts;
  }

  /** One row of the second pass: the row's player cells that differ from
      the solution. */
  method ScanSolutionRow(initial: Grid, current: Grid, solution: Grid, r: int) returns (wrong: set<Coord>)
    requires 0 <= r < GridSize
    ensures forall q :: q in wrong ==> InGrid(q) && q.row == r && Mismatched(initial, current, solution, q)
    ensures forall q: Cell :: q.row == r && Mismatched(initial, current, solution, q) ==> q in wrong
  {
    wrong := {};
    var c := 0;
    while c < GridSize
      invariant 0 <= c <= GridSize
      invariant forall q :: q in wrong ==> InGrid(q) && q.row == r && q.col < c && Mismatched(initial, current, solution, q)
      invariant forall q: Cell :: q.row == r && q.col < c && Mismatched(initial, current, solution, q) ==> q in wrong
    {
      if initial[r][c] == 0 && current[r][c] != solution[r][c] {
        wrong := wrong + {Coord(r, c)};
      }
      c := c + 1;
    }
  }

  /** The second pass over all rows. */
  method ScanSolution(initial: Grid, current: Grid, solution: Grid) returns (wrong: set<Coord>)
    ensures wrong == MismatchCells(initial, current, solution)
  {
    wrong := {};
    var r := 0;
    while r < GridSize
      invariant 0 <= r <= GridSize
      invariant forall q :: q in wrong ==> InGrid(q) && q.row < r && Mismatched(initial, current, solution, q)
      invariant forall q: Cell :: q.row < r && Mismatched(initial, current, solution, q) ==> q in wrong
    {
      var rowWrong := ScanSolutionRow(initial, current, solution, r);
      wrong := wrong + rowWrong;
      r := r + 1;
    }
    var expected := MismatchCells(initial, current, solution);
    assert wrong == expected;
  }

  /** The check as the game runs it: a first pass that records empty cells
      and collects rule-breaking player cells, an early return on conflicts
      and then on incompleteness, and only then a second pass against the
      solution. It agrees with `CheckBoard` on every input. */
  method ScanCheck(initial: Grid, current: Grid, solution: Grid) returns (o: Outcome)
    ensures o == CheckBoard(initial, current, solution)
  {
    var errors, isComplete := ScanRules(initial, current);
    if errors != {} {
      return RulesConflict(errors);
    }
    if !isComplete {
      return Incomplete;
    }
    var wrong := ScanSolution(initial, current, solution);
    if wrong == {} {
      return Solved;
    }
    return Incorrect(wrong);
  }

  // ---------------------------------------------------------------------
  // What the outcomes mean for a well-formed puzzle
  // ---------------------------------------------------------------------

  /** A full, rule-consistent assignment: every cell holds 1..9 and no two
      peers hold the same value. */
  ghost predicate ValidSolution(solution: Grid) {
    && (forall q: Cell :: 1 <= At(solution, q) <= 9)
    && (forall p: Cell, q: Cell :: Peer(p, q) ==> At(solution, p) != At(solution, q))
  }

  /** Every given of the puzzle agrees with the solution. */
  ghost predicate GivensMatch(initial: Grid, solution: Grid) {
    forall q: Cell :: At(initial, q) != 0 ==> At(solution, q) == At(initial, q)
  }

  /** The current board still shows every given of the puzzle. */
  ghost predicate GivensKept(initial: Grid, current: Grid) {
    forall q: Cell :: At(initial, q) != 0 ==> At(current, q) == At(initial, q)
  }

  lemma {:induction false} SameCellsSameGrid(a: Grid, b: Grid)
    requires forall q: Cell :: At(a, q) == At(b, q)
    ensures a == b
  {
    forall r | 0 <= r < GridSize
      ensures a[r] == b[r]
    {
      forall c | 0 <= c < GridSize
        ensures a[r][c] == b[r][c]
      {
        assert At(a, Coord(r, c)) == At(b, Coord(r, c));
      }
    }
  }

  /** For a well-formed puzzle whose givens are still on the board, the
      check says Solved exactly when the board is the solution. */
  lemma SolvedExactlyAtSolution(initial: Grid, current: Grid, solution: Grid)
    requires ValidSolution(solution)
    requires GivensMatch(initial, solution)
    requires GivensKept(initial, current)
    ensures CheckBoard(initial, current, solution).Solved? <==> current == solution
  {
    if current == solution {
      forall q: Cell
        ensures !Conflicting(initial, current, q)
      {
        assert !Clashes(current, q, At(current, q));
      }
      forall r, c | 0 <= r < GridSize && 0 <= c < GridSize
        ensures current[r][c] != 0
      {
        assert 1 <= At(solution, Coord(r, c));
      }
    }
    if CheckBoard(initial, current, solution).Solved? {
      forall q: Cell
        ensures At(current, q) == At(solution, q)
      {
        assert !Mismatched(initial, current, solution, q);
      }
      SameCellsSameGrid(current, solution);
    }
  }

  /** A player cell that repeats a value held by one of its peers is always
      flagged, and the check reports a rule conflict even when the board
      still has empty cells. */
  lemma RepeatedValueIsFlagged(initial: Grid, current: Grid, solution: Grid, a: Cell, b: Cell)
    requires Peer(a, b)
    requires At(initial, a) == 0
    requires At(current, a) != 0 && At(current, a) == At(current, b)
    ensures CheckBoard(initial, current, solution).RulesConflict?
    ensures a in CheckBoard(initial, current, solution).conflicts
  {
  }
}

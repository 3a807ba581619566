/** The Sudoku encoding: a variable for every empty cell (0) of a 9 x 9 puzzle, in row-major
    order, whose domain is the values 1 .. 9 its row, column and 3 x 3 block do not already
    hold; a constraint that no assigned value repeats in its row, column or block of the
    filled-in board; and a decoder that writes a solution over the puzzle. */
module Sudoku {
  import opened Wrappers
  import opened Assignment

  type Grid = seq<seq<int>>

  /** A cell as (row, column). */
  type Cell = (int, int)

  predicate IsGrid(g: Grid)
  {
    |g| == 9 && forall r :: 0 <= r < 9 ==> |g[r]| == 9
  }

  predicate InGrid(cell: Cell)
  {
    0 <= cell.0 < 9 && 0 <= cell.1 < 9
  }

  /** Column c, top to bottom. */
  function Column(g: Grid, c: int): seq<int>
    requires IsGrid(g) && 0 <= c < 9
  {
    seq(9, k requires 0 <= k < 9 => g[k][c])
  }

  /** The 3 x 3 block holding cell (r, c), row by row. */
  function Block(g: Grid, r: int, c: int): seq<int>
    requires IsGrid(g) && 0 <= r < 9 && 0 <= c < 9
  {
    seq(9, k requires 0 <= k < 9 => g[3 * (r / 3) + k / 3][3 * (c / 3) + k % 3])
  }

  /** The block holds the cell itself, at position 3 * (r % 3) + c % 3. */
  lemma BlockHoldsCell(g: Grid, r: int, c: int)
    requires IsGrid(g) && 0 <= r < 9 && 0 <= c < 9
    ensures g[r][c] in Block(g, r, c)
  {
    var k := 3 * (r % 3) + c % 3;
    assert k / 3 == r % 3 && k % 3 == c % 3;
    assert Block(g, r, c)[k] == g[r][c];
  }

  /** Value v already stands in the row, the column or the block of cell (r, c). */
  predicate Used(g: Grid, r: int, c: int, v: int)
    requires IsGrid(g) && 0 <= r < 9 && 0 <= c < 9
  {
    v in g[r] || v in Column(g, c) || v in Block(g, r, c)
  }

  /** The values from v up to 9 that cell (r, c) can still take, in ascending order. */
  function CandidatesFrom(g: Grid, r: int, c: int, v: int): seq<int>
    requires IsGrid(g) && 0 <= r < 9 && 0 <= c < 9 && 1 <= v
    decreases 10 - v
  {
    if v > 9 then []
    else (if Used(g, r, c, v) then [] else [v]) + CandidatesFrom(g, r, c, v + 1)
  }

  /** The candidates from v are exactly the unused values v .. 9, strictly ascending. */
  lemma {:induction false} CandidatesFromSpec(g: Grid, r: int, c: int, v: int)
    requires IsGrid(g) && 0 <= r < 9 && 0 <= c < 9 && 1 <= v
    ensures var vs := CandidatesFrom(g, r, c, v);
            && (forall x :: x in vs <==> v <= x <= 9 && !Used(g, r, c, x))
            && (forall i, j :: 0 <= i < j < |vs| ==> vs[i] < vs[j])
    decreases 10 - v
  {
    if v <= 9 {
      CandidatesFromSpec(g, r, c, v + 1);
      var rest := CandidatesFrom(g, r, c, v + 1);
      assert forall i :: 0 <= i < |rest| ==> rest[i] in rest;
    }
  }

  /** The domain of an empty cell. */
  function Candidates(g: Grid, cell: Cell): seq<int>
    requires IsGrid(g) && InGrid(cell)
  {
    CandidatesFrom(g, cell.0, cell.1, 1)
  }

  /** Position of a cell in the row-major walk. */
  function Rank(cell: Cell): int
  {
    9 * cell.0 + cell.1
  }

  /** The empty cells before position (r, c) of the row-major walk, in walk order. */
  function EmptyCellsBefore(g: Grid, r: int, c: int): (cells: seq<Cell>)
    requires IsGrid(g) && 0 <= r <= 9 && 0 <= c <= 9 && (r == 9 ==> c == 0)
    ensures forall cell :: cell in cells <==>
              InGrid(cell) && g[cell.0][cell.1] == 0 && Rank(cell) < 9 * r + c
    ensures forall i, j :: 0 <= i < j < |cells| ==> Rank(cells[i]) < Rank(cells[j])
    decreases r, c
  {
    if c == 0 then
      if r == 0 then [] else EmptyCellsBefore(g, r - 1, 9)
    else
      var prefix := EmptyCellsBefore(g, r, c - 1);
      assert forall i :: 0 <= i < |prefix| ==> prefix[i] in prefix;
      prefix + (if g[r][c - 1] == 0 then [(r, c - 1)] else [])
  }

  /** The domains dictionary after the walk reached (r, c): every empty cell passed adds
      its candidates. */
  function TableBefore(g: Grid, r: int, c: int): Table<Cell, int>
    requires IsGrid(g) && 0 <= r <= 9 && 0 <= c <= 9 && (r == 9 ==> c == 0)
    decreases r, c
  {
    if c == 0 then
      if r == 0 then Table([], map[]) else TableBefore(g, r - 1, 9)
    else
      var t := TableBefore(g, r, c - 1);
      if g[r][c - 1] == 0 then Put(t, (r, c - 1), Candidates(g, (r, c - 1))) else t
  }

  /** The Sudoku domains: every empty cell, in row-major order, with its candidates. */
  function SudokuTable(g: Grid): Table<Cell, int>
    requires IsGrid(g)
  {
    TableBefore(g, 9, 0)
  }

  /** The walk so far has listed the empty cells it passed, in walk order, each once and
      with its candidates. */
  lemma {:induction false} TableBeforeSpec(g: Grid, r: int, c: int)
    requires IsGrid(g) && 0 <= r <= 9 && 0 <= c <= 9 && (r == 9 ==> c == 0)
    ensures var t := TableBefore(g, r, c);
            && WellFormed(t) && t.vars == EmptyCellsBefore(g, r, c)
            && forall cell :: cell in t.domains ==> InGrid(cell) && t.domains[cell] == Candidates(g, cell)
    decreases r, c
  {
    if c == 0 {
      if r > 0 {
        TableBeforeSpec(g, r - 1, 9);
      } else {
        var empty: Table<Cell, int> := Table([], map[]);
        assert WellFormed(empty);
      }
    } else {
      TableBeforeSpec(g, r, c - 1);
      if g[r][c - 1] == 0 {
        var t := TableBefore(g, r, c - 1);
        assert (r, c - 1) !in t.vars;
      }
    }
  }

  /** The two nested loops that build the domains dictionary. */
  method SudokuDomains(g: Grid) returns (t: Table<Cell, int>)
    requires IsGrid(g)
    ensures t == SudokuTable(g)
  {
    t := Table([], map[]);
    for r := 0 to 9
      invariant t == TableBefore(g, r, 0)
    {
      for c := 0 to 9
        invariant t == TableBefore(g, r, c)
      {
        if g[r][c] == 0 {
          t := Put(t, (r, c), Candidates(g, (r, c)));
        }
      }
    }
  }

  /** The variables are exactly the empty cells, each listed once. */
  lemma SudokuVariables(g: Grid)
    requires IsGrid(g)
    ensures WellFormed(SudokuTable(g))
    ensures forall cell :: cell in SudokuTable(g).domains <==> InGrid(cell) && g[cell.0][cell.1] == 0
  {
    TableBeforeSpec(g, 9, 0);
  }

  /** A value is in an empty cell's domain exactly when it lies in 1 .. 9 and is not yet
      used in the cell's row, column or block; the domain is ascending. */
  lemma SudokuDomain(g: Grid, cell: Cell)
    requires IsGrid(g) && InGrid(cell) && g[cell.0][cell.1] == 0
    ensures cell in SudokuTable(g).domains
    ensures var dom := SudokuTable(g).domains[cell];
            && (forall v :: v in dom <==>
                  1 <= v <= 9 && v !in g[cell.0] && v !in Column(g, cell.1) && v !in Block(g, cell.0, cell.1))
            && (forall i, j :: 0 <= i < j < |dom| ==> dom[i] < dom[j])
  {
    SudokuVariables(g);
    TableBeforeSpec(g, 9, 0);
    CandidatesFromSpec(g, cell.0, cell.1, 1);
  }

  /** The puzzle with the assigned cells overwritten. */
  function Overlay(g: Grid, a: map<Cell, int>): (b: Grid)
    requires IsGrid(g) && forall cell :: cell in a ==> InGrid(cell)
    ensures IsGrid(b)
  {
    seq(9, r requires 0 <= r < 9 =>
      seq(9, c requires 0 <= c < 9 => if (r, c) in a then a[(r, c)] else g[r][c]))
  }

  lemma OverlayNothing(g: Grid)
    requires IsGrid(g)
    ensures Overlay(g, map[]) == g
  {
    var b := Overlay(g, map[]);
    forall r | 0 <= r < 9
      ensures b[r] == g[r]
    {
    }
  }

  lemma OverlayPut(g: Grid, a: map<Cell, int>, cell: Cell, v: int)
    requires IsGrid(g) && InGrid(cell) && forall x :: x in a ==> InGrid(x)
    ensures var b := Overlay(g, a);
            Overlay(g, a[cell := v]) == b[cell.0 := b[cell.0][cell.1 := v]]
  {
    var b := Overlay(g, a);
    var b' := Overlay(g, a[cell := v]);
    forall r | 0 <= r < 9
      ensures b'[r] == b[cell.0 := b[cell.0][cell.1 := v]][r]
    {
    }
  }

  /** Copies the puzzle and writes every assigned value into the copy. */
  method Fill(g: Grid, a: map<Cell, int>) returns (board: Grid)
    requires IsGrid(g) && forall cell :: cell in a ==> InGrid(cell)
    ensures board == Overlay(g, a)
  {
    board := g;
    var rest := a.Keys;
    OverlayNothing(g);
    assert a - rest == map[];
    while rest != {}
      invariant rest <= a.Keys
      invariant board == Overlay(g, a - rest)
      decreases |rest|
    {
      var cell :| cell in rest;
      OverlayPut(g, a - rest, cell, a[cell]);
      board := board[cell.0 := board[cell.0][cell.1 := a[cell]]];
      assert a - (rest - {cell}) == (a - rest)[cell := a[cell]];
      rest := rest - {cell};
    }
    assert a - rest == a;
  }

  /** Value v stands at most once in row r, column c and the block of (r, c). */
  predicate Unrepeated(b: Grid, r: int, c: int, v: int)
    requires IsGrid(b) && 0 <= r < 9 && 0 <= c < 9
  {
    multiset(b[r])[v] <= 1 && multiset(Column(b, c))[v] <= 1 && multiset(Block(b, r, c))[v] <= 1
  }

  /** The Sudoku constraint on a partial assignment. */
  predicate Consistent(g: Grid, a: map<Cell, int>)
    requires IsGrid(g) && forall cell :: cell in a ==> InGrid(cell)
  {
    var b := Overlay(g, a);
    forall cell :: cell in a ==> Unrepeated(b, cell.0, cell.1, a[cell])
  }

  /** The constraint check: overlay the assignment, then reject at the first assigned value
      that repeats in its row, column or block. */
  method CheckConstraints(g: Grid, a: map<Cell, int>) returns (ok: bool)
    requires IsGrid(g) && forall cell :: cell in a ==> InGrid(cell)
    ensures ok == Consistent(g, a)
  {
    var board := Fill(g, a);
    var rest := a.Keys;
    while rest != {}
      invariant rest <= a.Keys
      invariant forall cell :: cell in a && cell !in rest ==> Unrepeated(board, cell.0, cell.1, a[cell])
      decreases |rest|
    {
      var cell :| cell in rest;
      var r, c, v := cell.0, cell.1, a[cell];
      if multiset(board[r])[v] > 1 {
        return false;
      }
      if multiset(Column(board, c))[v] > 1 {
        return false;
      }
      if multiset(Block(board, r, c))[v] > 1 {
        return false;
      }
      rest := rest - {cell};
    }
    return true;
  }

  /** The constraint holds exactly when every assigned value occurs exactly once in its row,
      its column and its block of the overlaid board. */
  lemma ConsistentIffExactlyOnce(g: Grid, a: map<Cell, int>)
    requires IsGrid(g) && forall cell :: cell in a ==> InGrid(cell)
    ensures var b := Overlay(g, a);
            Consistent(g, a) <==>
              forall cell :: cell in a ==>
                && multiset(b[cell.0])[a[cell]] == 1
                && multiset(Column(b, cell.1))[a[cell]] == 1
                && multiset(Block(b, cell.0, cell.1))[a[cell]] == 1
  {
    var b := Overlay(g, a);
    forall cell | cell in a
      ensures a[cell] in b[cell.0] && a[cell] in Column(b, cell.1) && a[cell] in Block(b, cell.0, cell.1)
    {
      assert b[cell.0][cell.1] == a[cell];
      assert Column(b, cell.1)[cell.0] == a[cell];
      BlockHoldsCell(b, cell.0, cell.1);
    }
  }

  /** The decoder: the puzzle itself when there is no solution, otherwise the puzzle with
      the solution written over it. */
  method Decode(g: Grid, solution: Option<map<Cell, int>>) returns (filled: Grid)
    requires IsGrid(g)
    requires solution.Some? ==> forall cell :: cell in solution.value ==> InGrid(cell)
    ensures solution.None? ==> filled == g
    ensures solution.Some? ==> filled == Overlay(g, solution.value)
  {
    filled := g;
    if solution.None? {
      return;
    }
    filled := Fill(g, solution.value);
  }

  /** Decoding a goal of the search (an assignment of every empty cell from its domain)
      keeps every clue of the puzzle and leaves no cell empty. */
  lemma DecodedGoalIsComplete(g: Grid, a: map<Cell, int>)
    requires IsGrid(g) && Fits(SudokuTable(g), a) && IsGoal(SudokuTable(g), a)
    ensures forall cell :: cell in a ==> InGrid(cell)
    ensures forall r, c :: 0 <= r < 9 && 0 <= c < 9 && g[r][c] != 0 ==> Overlay(g, a)[r][c] == g[r][c]
    ensures forall r, c :: 0 <= r < 9 && 0 <= c < 9 ==> Overlay(g, a)[r][c] != 0
  {
    var t := SudokuTable(g);
    SudokuVariables(g);
    GoalAssignsAll(t, a);
    forall r, c | 0 <= r < 9 && 0 <= c < 9 && g[r][c] == 0
      ensures Overlay(g, a)[r][c] != 0
    {
      SudokuDomain(g, (r, c));
      assert a[(r, c)] in t.domains[(r, c)];
    }
  }
}

/** The Connect-Four board: a 6 x 7 grid of cells holding 0 (empty), -1 (red) or 1
    (yellow). Row 0 is the top row; stones drop to the highest-numbered empty row. Every
    operation is a function of the board value: a move yields a new board. */
module ConnectFour {
  import opened Wrappers

  const Rows: int := 6
  const Cols: int := 7

  type Board = seq<seq<int>>

  /** Raised by a move into a column that is out of range or full. */
  datatype MoveError = InvalidMove

  predicate WellShaped(b: Board)
  {
    |b| == Rows && forall r :: 0 <= r < Rows ==> |b[r]| == Cols
  }

  /** The board a new state starts from when none is given. */
  function EmptyBoard(): (b: Board)
    ensures WellShaped(b)
    ensures forall r, c :: 0 <= r < Rows && 0 <= c < Cols ==> b[r][c] == 0
  {
    seq(Rows, _ => seq(Cols, _ => 0))
  }

  // Heights and free columns

  /** Occupied cells among rows 0 .. n - 1 of column c. */
  function ColumnCount(b: Board, c: int, n: int): (k: nat)
    requires WellShaped(b) && 0 <= c < Cols && 0 <= n <= Rows
    ensures k <= n
  {
    if n == 0 then 0 else ColumnCount(b, c, n - 1) + (if b[n - 1][c] != 0 then 1 else 0)
  }

  /** The stone count of every column, left to right. */
  function Heights(b: Board): (h: seq<int>)
    requires WellShaped(b)
    ensures |h| == Cols
  {
    seq(Cols, c requires 0 <= c < Cols => ColumnCount(b, c, Rows))
  }

  /** Column c has room for another stone. A negative c counts from the right, as list
      indexing does; a column of 7 or more has no height to look up. */
  predicate IsColFree(b: Board, c: int)
    requires WellShaped(b) && -Cols <= c < Cols
  {
    Heights(b)[c % Cols] < Rows
  }

  predicate IsApplicable(b: Board, c: int)
    requires WellShaped(b)
  {
    0 <= c < Cols && IsColFree(b, c)
  }

  /** A column's count is full exactly when every cell is occupied, and zero exactly when
      every cell is empty. */
  lemma {:induction false} ColumnCountSpec(b: Board, c: int, n: int)
    requires WellShaped(b) && 0 <= c < Cols && 0 <= n <= Rows
    ensures ColumnCount(b, c, n) == n <==> forall r :: 0 <= r < n ==> b[r][c] != 0
    ensures ColumnCount(b, c, n) == 0 <==> forall r :: 0 <= r < n ==> b[r][c] == 0
    decreases n
  {
    if n > 0 {
      ColumnCountSpec(b, c, n - 1);
    }
  }

  /** Every height is between 0 and 6; it is 6 exactly when the column has no empty cell
      and 0 exactly when it holds no stone. */
  lemma HeightsSpec(b: Board, c: int)
    requires WellShaped(b) && 0 <= c < Cols
    ensures 0 <= Heights(b)[c] <= Rows
    ensures Heights(b)[c] == Rows <==> forall r :: 0 <= r < Rows ==> b[r][c] != 0
    ensures Heights(b)[c] == 0 <==> forall r :: 0 <= r < Rows ==> b[r][c] == 0
  {
    ColumnCountSpec(b, c, Rows);
  }

  /** A column is free exactly when it has an empty cell, counting a negative column from
      the right. */
  lemma IsColFreeIff(b: Board, c: int)
    requires WellShaped(b) && -Cols <= c < Cols
    ensures IsColFree(b, c) <==> exists row :: 0 <= row < Rows && b[row][c % Cols] == 0
  {
    HeightsSpec(b, c % Cols);
  }

  /** A move is applicable exactly in a column 0 .. 6 with an empty cell. */
  lemma IsApplicableIff(b: Board, c: int)
    requires WellShaped(b)
    ensures IsApplicable(b, c) <==> 0 <= c < Cols && exists row :: 0 <= row < Rows && b[row][c] == 0
  {
    if 0 <= c < Cols {
      IsColFreeIff(b, c);
    }
  }

  /** The free columns from `c` on, in ascending order. */
  function FreeColsFrom(b: Board, c: int): (cols: seq<int>)
    requires WellShaped(b) && 0 <= c <= Cols
    ensures forall i :: 0 <= i < |cols| ==> c <= cols[i] < Cols && IsColFree(b, cols[i])
    ensures forall x :: c <= x < Cols && IsColFree(b, x) ==> x in cols
    ensures forall i, j :: 0 <= i < j < |cols| ==> cols[i] < cols[j]
    decreases Cols - c
  {
    if c == Cols then []
    else if IsColFree(b, c) then [c] + FreeColsFrom(b, c + 1)
    else FreeColsFrom(b, c + 1)
  }

  function FreeCols(b: Board): seq<int>
    requires WellShaped(b)
  {
    FreeColsFrom(b, 0)
  }

  // Moves

  /** Occupied cells of a row. */
  function RowCount(row: seq<int>): (k: nat)
    ensures k <= |row|
  {
    if row == [] then 0 else RowCount(row[..|row| - 1]) + (if row[|row| - 1] != 0 then 1 else 0)
  }

  /** Occupied cells of the whole board (rows 0 .. n - 1). */
  function StoneCount(b: Board, n: int): nat
    requires 0 <= n <= |b|
  {
    if n == 0 then 0 else StoneCount(b, n - 1) + RowCount(b[n - 1])
  }

  /** The colour that moves next: red (-1) on an even stone count, yellow (1) on an odd one. */
  function Mover(b: Board): int
  {
    if StoneCount(b, |b|) % 2 == 0 then -1 else 1
  }

  /** The lowest empty row of column c at or above row r: the argmax of the reversed
      column's empty mask, which is the bottom row when the column has no empty cell. */
  function LowestEmpty(b: Board, c: int, r: int): (k: int)
    requires WellShaped(b) && 0 <= c < Cols && -1 <= r < Rows
    ensures 0 <= k < Rows
    ensures forall r' :: k < r' <= r ==> b[r'][c] != 0
    ensures b[k][c] == 0 || forall r' :: 0 <= r' <= r ==> b[r'][c] != 0
    decreases r + 1
  {
    if r < 0 then Rows - 1
    else if b[r][c] == 0 then r
    else LowestEmpty(b, c, r - 1)
  }

  /** The row a stone dropped into column c lands in. */
  function LandingRow(b: Board, c: int): (row: int)
    requires WellShaped(b) && 0 <= c < Cols
    ensures 0 <= row < Rows
  {
    LowestEmpty(b, c, Rows - 1)
  }

  /** Drops the mover's stone into column c, or fails when the column is out of range or full. */
  function Transition(b: Board, c: int): (r: Result<Board, MoveError>)
    requires WellShaped(b)
    ensures r.Err? <==> !IsApplicable(b, c)
    ensures r.Ok? ==> WellShaped(r.value)
  {
    if !IsApplicable(b, c) then Err(InvalidMove)
    else
      var row := LandingRow(b, c);
      Ok(b[row := b[row][c := Mover(b)]])
  }

  // Four in a row

  datatype Direction = Horizontal | Vertical | Diagonal | AntiDiagonal

  /** The start cells the scan tests a run in direction d from. */
  predicate InRange(r: int, c: int, d: Direction)
  {
    && 0 <= r < Rows && 0 <= c < Cols
    && match d
       case Horizontal => c <= 3
       case Vertical => r <= 2
       case Diagonal => r <= 2 && c <= 3
       case AntiDiagonal => r <= 2 && c >= 3
  }

  /** Row step of direction d. */
  function RowStep(d: Direction): int
  {
    match d
    case Horizontal => 0
    case _ => 1
  }

  /** Column step of direction d. */
  function ColStep(d: Direction): int
  {
    match d
    case Horizontal => 1
    case Vertical => 0
    case Diagonal => 1
    case AntiDiagonal => -1
  }

  /** Four consecutive cells from (r, c) in direction d all hold player p (not empty). */
  predicate RunAt(b: Board, r: int, c: int, d: Direction, p: int)
    requires WellShaped(b)
  {
    var dr, dc := RowStep(d), ColStep(d);
    && p != 0 && InRange(r, c, d)
    && b[r][c] == p && b[r + dr][c + dc] == p
    && b[r + 2 * dr][c + 2 * dc] == p && b[r + 3 * dr][c + 3 * dc] == p
  }

  /** Some run of player p starts at (r, c). */
  predicate RunFrom(b: Board, r: int, c: int, p: int)
    requires WellShaped(b)
  {
    RunAt(b, r, c, Horizontal, p) || RunAt(b, r, c, Vertical, p)
    || RunAt(b, r, c, Diagonal, p) || RunAt(b, r, c, AntiDiagonal, p)
  }

  ghost predicate HasRun(b: Board, p: int)
    requires WellShaped(b)
  {
    exists r, c :: RunFrom(b, r, c, p)
  }

  /** Cell (r', c') comes before cell (r, c) in the row-major scan. */
  predicate Before(r': int, c': int, r: int, c: int)
  {
    r' < r || (r' == r && c' < c)
  }

  /** The player whose stone at (r, c) starts a run, or 0. */
  function WinnerAt(b: Board, r: int, c: int): (w: int)
    requires WellShaped(b) && 0 <= r < Rows && 0 <= c < Cols
    ensures w != 0 ==> RunFrom(b, r, c, w)
    ensures w == 0 ==> forall p :: !RunFrom(b, r, c, p)
  {
    var p := b[r][c];
    if p != 0 && RunFrom(b, r, c, p) then p else 0
  }

  /** The row-major scan from cell (r, c), returning at the first run found. */
  function WinnerFrom(b: Board, r: int, c: int): (w: int)
    requires WellShaped(b) && 0 <= r <= Rows && 0 <= c <= Cols
    ensures w != 0 ==> exists r', c' :: !Before(r', c', r, c) && RunFrom(b, r', c', w)
    ensures w == 0 ==> forall r', c', p :: !Before(r', c', r, c) ==> !RunFrom(b, r', c', p)
    decreases Rows - r, Cols - c
  {
    if r == Rows then 0
    else if c == Cols then WinnerFrom(b, r + 1, 0)
    else if WinnerAt(b, r, c) != 0 then WinnerAt(b, r, c)
    else WinnerFrom(b, r, c + 1)
  }

  function Winner(b: Board): int
    requires WellShaped(b)
  {
    WinnerFrom(b, 0, 0)
  }

  /** The game is over: someone owns four in a row, or every column is full. */
  predicate IsFinal(b: Board)
    requires WellShaped(b)
  {
    Winner(b) != 0 || forall c :: 0 <= c < Cols ==> !IsColFree(b, c)
  }

  /** Plays a sequence of columns, stopping at the first invalid move. */
  function Play(b: Board, moves: seq<int>): (r: Result<Board, MoveError>)
    requires WellShaped(b)
    ensures r.Ok? ==> WellShaped(r.value)
    decreases |moves|
  {
    if moves == [] then Ok(b)
    else
      match Transition(b, moves[0])
      case Err(e) => Err(e)
      case Ok(next) => Play(next, moves[1..])
  }

  /** Column fill respects gravity: each column is occupied in exactly its bottom
      `Heights(b)[c]` cells. */
  ghost predicate Gravity(b: Board)
    requires WellShaped(b)
  {
    forall r, c :: 0 <= r < Rows && 0 <= c < Cols ==> (b[r][c] != 0 <==> r >= Rows - Heights(b)[c])
  }

  // Lemmas about moves

  lemma {:induction false} ColumnHasEmpty(b: Board, c: int, n: int)
    requires WellShaped(b) && 0 <= c < Cols && 0 <= n <= Rows
    requires ColumnCount(b, c, n) < n
    ensures exists r :: 0 <= r < n && b[r][c] == 0
    decreases n
  {
    if ColumnCount(b, c, n - 1) < n - 1 {
      ColumnHasEmpty(b, c, n - 1);
    } else {
      assert b[n - 1][c] == 0;
    }
  }

  /** A move into an applicable column writes the mover's stone into the lowest empty cell
      of that column and leaves every other cell as it was. */
  lemma TransitionDrop(b: Board, c: int)
    requires WellShaped(b) && IsApplicable(b, c)
    ensures var row := LandingRow(b, c);
            var next := Transition(b, c).value;
            && b[row][c] == 0
            && (forall r :: row < r < Rows ==> b[r][c] != 0)
            && next[row][c] == Mover(b)
            && (forall r, k :: 0 <= r < Rows && 0 <= k < Cols && (r != row || k != c) ==> next[r][k] == b[r][k])
  {
    ColumnHasEmpty(b, c, Rows);
  }

  function Occupied(x: int): nat
  {
    if x != 0 then 1 else 0
  }

  lemma {:induction false} ColumnCountUpdate(b: Board, next: Board, c: int, row: int, n: int)
    requires WellShaped(b) && WellShaped(next) && 0 <= c < Cols && 0 <= row < Rows && 0 <= n <= Rows
    requires forall r :: 0 <= r < Rows && r != row ==> next[r][c] == b[r][c]
    ensures ColumnCount(next, c, n)
         == ColumnCount(b, c, n) + (if row < n then Occupied(next[row][c]) - Occupied(b[row][c]) else 0)
    decreases n
  {
    if n > 0 {
      ColumnCountUpdate(b, next, c, row, n - 1);
    }
  }

  lemma {:induction false} RowCountUpdate(row: seq<int>, i: int, v: int)
    requires 0 <= i < |row|
    ensures RowCount(row[i := v]) == RowCount(row) - Occupied(row[i]) + Occupied(v)
    decreases |row|
  {
    var n := |row|;
    if i == n - 1 {
      assert row[i := v][..n - 1] == row[..n - 1];
    } else {
      assert row[i := v][..n - 1] == row[..n - 1][i := v];
      RowCountUpdate(row[..n - 1], i, v);
    }
  }

  lemma {:induction false} StoneCountUpdate(b: Board, r: int, newRow: seq<int>, n: int)
    requires 0 <= r < |b| && 0 <= n <= |b|
    ensures StoneCount(b[r := newRow], n) == StoneCount(b, n) + (if r < n then RowCount(newRow) - RowCount(b[r]) else 0)
    decreases n
  {
    if n > 0 {
      StoneCountUpdate(b, r, newRow, n - 1);
    }
  }

  /** A move raises the moved-in column's height by exactly one, leaves the other heights
      alone, adds one stone to the board and so hands the move to the other colour. */
  lemma TransitionCounts(b: Board, c: int)
    requires WellShaped(b) && IsApplicable(b, c)
    ensures var next := Transition(b, c).value;
            && Heights(next) == Heights(b)[c := Heights(b)[c] + 1]
            && StoneCount(next, Rows) == StoneCount(b, Rows) + 1
            && Mover(next) == -Mover(b)
  {
    var row := LandingRow(b, c);
    var next := Transition(b, c).value;
    TransitionDrop(b, c);
    forall k | 0 <= k < Cols
      ensures Heights(next)[k] == Heights(b)[c := Heights(b)[c] + 1][k]
    {
      ColumnCountUpdate(b, next, k, row, Rows);
    }
    RowCountUpdate(b[row], c, Mover(b));
    StoneCountUpdate(b, row, b[row][c := Mover(b)], Rows);
  }

  /** On a gravity-consistent board the stone lands right on top of the column's stack
      (row 5 minus the height), and the board stays gravity-consistent. */
  lemma TransitionKeepsGravity(b: Board, c: int)
    requires WellShaped(b) && Gravity(b) && IsApplicable(b, c)
    ensures LandingRow(b, c) == Rows - 1 - Heights(b)[c]
    ensures Gravity(Transition(b, c).value)
  {
    TransitionDrop(b, c);
    TransitionCounts(b, c);
    assert b[Rows - 1 - Heights(b)[c]][c] == 0;
  }

  /** Empty cells never start a run, so the scan passes over an empty row. */
  lemma {:induction false} ScanSkipsEmptyRow(b: Board, r: int, c: int)
    requires WellShaped(b) && 0 <= r < Rows && 0 <= c <= Cols
    requires forall k :: 0 <= k < Cols ==> b[r][k] == 0
    ensures WinnerFrom(b, r, c) == WinnerFrom(b, r + 1, 0)
    decreases Cols - c
  {
    if c < Cols {
      ScanSkipsEmptyRow(b, r, c + 1);
    }
  }

  /** No run starts right of the last column. */
  lemma PastRowEndNoRun(b: Board, r: int, c: int, p: int)
    requires WellShaped(b) && c >= Cols
    ensures !RunFrom(b, r, c, p)
  {
  }

  /** Cell (r', c'), at or after (r, c), starts a run of w and no cell from (r, c) up to it
      starts a run of either colour. */
  ghost predicate FirstRun(b: Board, r: int, c: int, r': int, c': int, w: int)
    requires WellShaped(b)
  {
    && !Before(r', c', r, c) && RunFrom(b, r', c', w)
    && forall r'', c'', p :: !Before(r'', c'', r, c) && Before(r'', c'', r', c') ==> !RunFrom(b, r'', c'', p)
  }

  lemma FirstRunAcrossRowEnd(b: Board, r: int, r': int, c': int, w: int)
    requires WellShaped(b) && FirstRun(b, r + 1, 0, r', c', w)
    ensures FirstRun(b, r, Cols, r', c', w)
  {
    forall r'', c'', p | !Before(r'', c'', r, Cols) && Before(r'', c'', r', c')
      ensures !RunFrom(b, r'', c'', p)
    {
      if r'' == r {
        PastRowEndNoRun(b, r'', c'', p);
      }
    }
  }

  lemma FirstRunPastEmptyCell(b: Board, r: int, c: int, r': int, c': int, w: int)
    requires WellShaped(b) && 0 <= r < Rows && 0 <= c < Cols && WinnerAt(b, r, c) == 0
    requires FirstRun(b, r, c + 1, r', c', w)
    ensures FirstRun(b, r, c, r', c', w)
  {
  }

  /** A nonzero scan result belongs to the first run the row-major scan meets: no earlier
      cell starts a run of either colour. */
  lemma {:induction false} WinnerFromIsFirst(b: Board, r: int, c: int)
    requires WellShaped(b) && 0 <= r <= Rows && 0 <= c <= Cols
    ensures var w := WinnerFrom(b, r, c);
            w != 0 ==> exists r', c' :: FirstRun(b, r, c, r', c', w)
    decreases Rows - r, Cols - c
  {
    var w := WinnerFrom(b, r, c);
    if r < Rows && w != 0 {
      if c == Cols {
        WinnerFromIsFirst(b, r + 1, 0);
        var r', c' :| FirstRun(b, r + 1, 0, r', c', w);
        FirstRunAcrossRowEnd(b, r, r', c', w);
      } else if WinnerAt(b, r, c) == 0 {
        WinnerFromIsFirst(b, r, c + 1);
        var r', c' :| FirstRun(b, r, c + 1, r', c', w);
        FirstRunPastEmptyCell(b, r, c, r', c', w);
      } else {
        assert FirstRun(b, r, c, r, c, w);
      }
    }
  }

  /** The winner is nonzero exactly when some player owns four consecutive cells in a row,
      a column or a diagonal, and then it is such a player. */
  lemma WinnerSpec(b: Board)
    requires WellShaped(b)
    ensures Winner(b) != 0 ==> HasRun(b, Winner(b))
    ensures Winner(b) == 0 <==> forall p :: !HasRun(b, p)
  {
    var w := Winner(b);
    if w == 0 {
      forall p, r, c | 0 <= r && 0 <= c
        ensures !RunFrom(b, r, c, p)
      {
        assert !Before(r, c, 0, 0);
      }
    }
  }

  /** The game is over exactly when there is a winner or no column is free. */
  lemma IsFinalIff(b: Board)
    requires WellShaped(b)
    ensures IsFinal(b) <==> Winner(b) != 0 || FreeCols(b) == []
  {
    if FreeCols(b) != [] {
      assert IsColFree(b, FreeCols(b)[0]);
    }
  }

  lemma {:induction false} EmptyColumnCount(c: int, n: int)
    requires 0 <= c < Cols && 0 <= n <= Rows
    ensures ColumnCount(EmptyBoard(), c, n) == 0
    decreases n
  {
    if n > 0 {
      EmptyColumnCount(c, n - 1);
    }
  }

  lemma {:induction false} EmptyStoneCount(n: int)
    requires 0 <= n <= Rows
    ensures StoneCount(EmptyBoard(), n) == 0
    decreases n
  {
    if n > 0 {
      EmptyStoneCount(n - 1);
      EmptyRowCount(EmptyBoard()[n - 1]);
    }
  }

  lemma {:induction false} EmptyRowCount(row: seq<int>)
    requires forall i :: 0 <= i < |row| ==> row[i] == 0
    ensures RowCount(row) == 0
    decreases |row|
  {
    if row != [] {
      EmptyRowCount(row[..|row| - 1]);
    }
  }

  /** The default board: every column empty and free, red to move, no winner, and not final. */
  lemma EmptyBoardFacts()
    ensures Heights(EmptyBoard()) == seq(Cols, _ => 0)
    ensures StoneCount(EmptyBoard(), Rows) == 0 && Mover(EmptyBoard()) == -1
    ensures Gravity(EmptyBoard()) && Winner(EmptyBoard()) == 0 && !IsFinal(EmptyBoard())
  {
    var b := EmptyBoard();
    forall c | 0 <= c < Cols
      ensures Heights(b)[c] == 0
    {
      EmptyColumnCount(c, Rows);
    }
    EmptyStoneCount(Rows);
    assert forall r, c, p :: !RunFrom(b, r, c, p);
    assert IsColFree(b, 0);
  }

  /** One move on a gravity-consistent board, as the scenario below uses it. */
  lemma Drop(b: Board, c: int)
    requires WellShaped(b) && Gravity(b) && 0 <= c < Cols && Heights(b)[c] < Rows
    ensures var row := Rows - 1 - Heights(b)[c];
            && Transition(b, c) == Ok(b[row := b[row][c := Mover(b)]])
            && Gravity(Transition(b, c).value)
            && Heights(Transition(b, c).value) == Heights(b)[c := Heights(b)[c] + 1]
            && Mover(Transition(b, c).value) == -Mover(b)
  {
    TransitionKeepsGravity(b, c);
    TransitionCounts(b, c);
  }

  /** Playing two move lists one after the other is playing their concatenation. */
  lemma {:induction false} PlayAppend(b: Board, xs: seq<int>, ys: seq<int>)
    requires WellShaped(b) && Play(b, xs).Ok?
    ensures Play(b, xs + ys) == Play(Play(b, xs).value, ys)
    decreases |xs|
  {
    if xs != [] {
      var next := Transition(b, xs[0]).value;
      assert Play(b, xs) == Play(next, xs[1..]);
      assert (xs + ys)[0] == xs[0] && (xs + ys)[1..] == xs[1..] + ys;
      assert Play(b, xs + ys) == Play(next, xs[1..] + ys);
      PlayAppend(next, xs[1..], ys);
    } else {
      assert xs + ys == ys;
    }
  }

  /** The first four moves of the scenario below: two stones in each of columns 0 and 1,
      red's at the bottom, and red to move again. */
  lemma ScenarioOpening() returns (b4: Board)
    ensures Play(EmptyBoard(), [0, 1, 0, 1]) == Ok(b4)
    ensures WellShaped(b4) && Gravity(b4) && Heights(b4) == [2, 2, 0, 0, 0, 0, 0] && Mover(b4) == -1
    ensures forall c :: 0 <= c < Cols ==> b4[0][c] == 0 && b4[1][c] == 0
    ensures b4[4][0] == b4[5][0] == -1
  {
    EmptyBoardFacts();
    var b0 := EmptyBoard();
    Drop(b0, 0);
    var b1 := Transition(b0, 0).value;
    Drop(b1, 1);
    var b2 := Transition(b1, 1).value;
    Drop(b2, 0);
    var b3 := Transition(b2, 0).value;
    Drop(b3, 1);
    b4 := Transition(b3, 1).value;
    assert Play(b3, [1]) == Ok(b4);
    assert Play(b2, [0, 1]) == Ok(b4);
    assert Play(b1, [1, 0, 1]) == Ok(b4);
    assert b4[0] == b0[0] && b4[1] == b0[1];
  }

  /** Red opens in column 0 and both colours alternate between columns 0 and 1. After seven
      moves the columns hold 4 and 3 stones, and red owns rows 2 to 5 of column 0. */
  lemma ScenarioBoard() returns (b7: Board)
    ensures Play(EmptyBoard(), [0, 1, 0, 1, 0, 1, 0]) == Ok(b7)
    ensures WellShaped(b7) && Gravity(b7) && Heights(b7) == [4, 3, 0, 0, 0, 0, 0]
    ensures forall c :: 0 <= c < Cols ==> b7[0][c] == 0 && b7[1][c] == 0
    ensures b7[2][0] == b7[3][0] == b7[4][0] == b7[5][0] == -1
  {
    var b4 := ScenarioOpening();
    Drop(b4, 0);
    var b5 := Transition(b4, 0).value;
    Drop(b5, 1);
    var b6 := Transition(b5, 1).value;
    Drop(b6, 0);
    b7 := Transition(b6, 0).value;
    assert Play(b6, [0]) == Ok(b7);
    assert Play(b5, [1, 0]) == Ok(b7);
    assert Play(b4, [0, 1, 0]) == Ok(b7);
    PlayAppend(EmptyBoard(), [0, 1, 0, 1], [0, 1, 0]);
    assert [0, 1, 0, 1] + [0, 1, 0] == [0, 1, 0, 1, 0, 1, 0];
    assert b7[0] == b4[0] && b7[1] == b4[1];
  }

  /** The scenario above ends with red as the winner. */
  lemma RedWinsScenario()
    ensures var r := Play(EmptyBoard(), [0, 1, 0, 1, 0, 1, 0]);
            r.Ok? && Winner(r.value) == -1
  {
    var b := ScenarioBoard();
    VerticalWinAfterEmptyRows(b);
  }

  /** A board whose two top rows are empty and whose column 0 holds red from row 2 down
      has red as its winner: the scan finds no run before (2, 0). */
  lemma VerticalWinAfterEmptyRows(b: Board)
    requires WellShaped(b)
    requires forall c :: 0 <= c < Cols ==> b[0][c] == 0 && b[1][c] == 0
    requires b[2][0] == b[3][0] == b[4][0] == b[5][0] == -1
    ensures Winner(b) == -1
  {
    ScanSkipsEmptyRow(b, 0, 0);
    ScanSkipsEmptyRow(b, 1, 0);
    assert RunAt(b, 2, 0, Vertical, -1);
    assert WinnerAt(b, 2, 0) == -1;
  }

  /** A move is accepted on a board that already has a winner: after the scenario above,
      red has won and yellow can still drop a stone into column 2. */
  lemma MoveAfterWinAccepted()
    ensures var r := Play(EmptyBoard(), [0, 1, 0, 1, 0, 1, 0]);
            r.Ok? && Winner(r.value) != 0 && Transition(r.value, 2).Ok?
  {
    var b := ScenarioBoard();
    VerticalWinAfterEmptyRows(b);
    assert IsColFree(b, 2);
  }
}

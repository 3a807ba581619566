# Pathless tree search, Connect-Four board and four problem encodings

This project models, in Dafny, the core of a small Python search toolkit:

- **`PathlessTreeSearch`** (`pathless_tree_search.dfy`, module `TreeSearch`): a search engine that
  keeps only a frontier of unexpanded nodes and an incumbent goal node (`best`). It is parameterised
  by a successor function, a goal test, an optional "first argument is strictly better" comparator
  and an order name. `reset` restarts from the root node; `step` expands one node; `active` and
  `best` query the state. The engine is a `class` whose `Step` method runs the same loop as the
  source, with its early returns. `Step` is proved against the pure function `StepOf`, and the
  lemmas are proved about `StepOf`.
- **`encode_problem`** (same file, module `Assignment`): turns a dictionary of variable domains and
  a constraint predicate into a search over partial assignments. A Python dictionary with
  insertion-ordered keys is modelled as `Table(vars, domains)`; an assignment is a Dafny `map`.
- **`ConnectState`** (`connect_state.dfy`, module `ConnectFour`): the 6 x 7 Connect-Four board, with
  stone counts and column heights, free columns, the move (`transition`), the row-major
  four-in-a-row scan (`get_winner`) and the end-of-game test. Boards are values, as in the source,
  where every move returns a new state.
- **The four encoders** of `task_encodings.py`. Each is modelled as its domains table (built by the
  source's loops), its constraint, its comparator and its decoder.
  - `sudoku.dfy`: Sudoku.
  - `jobshop.dfy`: job-shop scheduling, with the makespan loop over a load array.
  - `connect4_lookahead.dfy`: Connect-Four lookahead against an opponent policy.
  - `tour_planning.dfy`: tour planning, with the route-length loop.
- **`wrappers.dfy`**: `Option` and `Result`. `Option` models Python's `None`. `Result` models an
  exception the source raises.

## Code and specification

Where the source's own docstrings and the code disagree, the model follows the code.

- **The non-"bfs" order is first-in first-out.** The class docstring promises "BFS and DFS
  exploration" (`pathless_tree_search.py:3-6`), but the second order pops from the back of the
  frontier and inserts children at index 0, so it visits nodes in breadth-first order. `TreeSearch.RunsAgreeFromReset`
  proves this: from a reset, any number of steps under either order keep the same incumbent and
  return values, and the second order's frontier is the "bfs" frontier reversed. No order
  behaves as a stack.
- **Without a comparator, the first goal child ends the step.** It becomes `best` and the frontier is
  emptied, yet `step` returns `False`, although its docstring says it returns `True` when a new best
  solution is found (`pathless_tree_search.py:43`; `TreeSearch.FirstGoalEndsSearch`).
- **With a comparator, the search need not end with the best goal.** The first improving goal child
  makes the step return at once (`pathless_tree_search.py:59-61`), so its later siblings are never
  looked at, and a goal child that does not improve is dropped. `TreeSearch.EarlyReturnMissesBetterGoal`
  exhibits a finite tree with terminating callbacks where a better goal is never found.
- **A board that already has a winner still accepts moves.** The interface docstring says a move
  is invalid when the game is over (`environment_state.py:60`), but `transition` checks only the
  column (`ConnectFour.MoveAfterWinAccepted`).
- **An illegal opponent reply raises an error.** The Connect-Four successor function does not guard
  the reply, so the `ValueError` of `transition` escapes it. It is modelled as an `Err` result of the
  successor function (`ConnectFourLookahead.SuccSpec`).
- **Every encoding explores breadth-first.** The job-shop search passes the order "dfs"
  (`task_encodings.py:95`), which by the first point visits nodes in the same order as "bfs". The other
  three encodings use "bfs".

## Model

| member | source | states |
|---|---|---|
| TreeSearch.OrderOf | pathless_tree_search.py:48-51 | The first discipline is chosen exactly when the order name is "bfs"; every other name selects the second. |
| TreeSearch.PathlessTreeSearch.constructor | pathless_tree_search.py:11-28 | The new search holds the given callbacks and order, its frontier is the root alone and there is no incumbent. |
| TreeSearch.PathlessTreeSearch.Reset | pathless_tree_search.py:30-36 | After a reset the frontier is the root alone, there is no incumbent and the search is active. |
| TreeSearch.PathlessTreeSearch.Step | pathless_tree_search.py:38-68 | The new frontier, incumbent and return value are those of the reference step `StepOf` on the old state, and an incumbent that passed the goal test still does. |
| TreeSearch.PathlessTreeSearch.Best | pathless_tree_search.py:86-96 | The result is the incumbent, which is nothing or a node the goal test accepted. |
| TreeSearch.PathlessTreeSearch.Active | pathless_tree_search.py:70-83 | When the search is not active, a step leaves frontier and incumbent unchanged and returns false. |
| TreeSearch.ExpandCharacterised | pathless_tree_search.py:53-68 | The child loop, by its stopping child: with none, all non-goal children are queued; with one and no comparator, the frontier is emptied and that child becomes the incumbent; with one and a comparator, only the non-goal children before it are queued and the step reports an improvement. |
| TreeSearch.StepFrontier | pathless_tree_search.py:45-68 | A step removes one node, queues only non-goal children of it, and reports an improvement exactly when a comparator is set and a goal child beats the incumbent (or there was none). That child is then the incumbent. |
| TreeSearch.StepKeepsBestGoal | pathless_tree_search.py:54-61 | The incumbent is always absent or a node that satisfies the goal test. |
| TreeSearch.FirstGoalEndsSearch | pathless_tree_search.py:54-58 | Without a comparator, the first goal child becomes the incumbent, the frontier is emptied and the step returns false. |
| TreeSearch.EarlyReturnMissesBetterGoal | pathless_tree_search.py:54-68 | On a root whose children 1 and 2 are both goals, with 2 better, every run ends with an empty frontier and incumbent 1: the better sibling after an improving goal is never examined. |
| TreeSearch.StepMirror | pathless_tree_search.py:48-67 | A step in the second order on the reversed frontier expands the same node as a "bfs" step and leaves the reversed frontier, the same incumbent and the same return value. |
| TreeSearch.RunsAgreeFromReset | pathless_tree_search.py:48-67 | From a reset, any number of steps in either order agree on incumbent and return value, and the second order's frontier is the "bfs" frontier reversed. |
| Assignment.FirstUnassigned | pathless_tree_search.py:116-120 | The position found is the first table variable the assignment lacks: all variables before it are assigned. |
| Assignment.AcceptedFrom | pathless_tree_search.py:123-127 | Every position listed is a domain position from the start position on whose extension the constraint accepts, and the list is strictly ascending. |
| Assignment.AcceptedFromComplete | pathless_tree_search.py:123-127 | Every domain position from the start position on whose extension the constraint accepts is listed. |
| Assignment.Extend | pathless_tree_search.py:121-128 | The children are one per accepted domain position, in domain order: the i-th child extends the parent by the variable with the value at the i-th accepted position. |
| Assignment.ExtendMembers | pathless_tree_search.py:121-128 | There are at most as many children as domain values. Every child extends the parent by the variable with a domain value and passes the constraint, and every accepted value yields a child. |
| Assignment.SuccExtendsFirstUnassigned | pathless_tree_search.py:115-128 | A complete assignment has no successors. Otherwise every successor adds exactly the first unassigned variable, keeps the parent's entries, takes a value of that variable's domain and passes the constraint, and every such accepted extension is a successor. There is one successor per accepted domain position, in domain order. |
| Assignment.ExtendAcceptingAll | pathless_tree_search.py:123-127 | Under a constraint that accepts everything, there is one child per domain value, in domain order. |
| Assignment.GoalIffComplete | pathless_tree_search.py:130-131 | On assignments to table variables, the size test holds exactly when no variable is left unassigned. |
| Assignment.SuccKeepsFit | pathless_tree_search.py:115-128 | Successors of an assignment that uses only table variables and domain values again use only those. |
| Assignment.GoalAssignsAll | pathless_tree_search.py:130-131 | A goal that fits the table assigns exactly the table's variables. |
| Assignment.EncodeProblem | pathless_tree_search.py:99-133 | The search starts from the empty assignment, its successor and goal callbacks are `Succ` and `IsGoal` over the table, and it keeps the given comparator and order. |
| ConnectFour.EmptyBoard | connect_state.py:17-23 | The default board is 6 x 7 and holds no stone. |
| ConnectFour.EmptyBoardFacts | connect_state.py:17-23 | On the default board every height is 0, red (-1) moves first, no one has won, and the game is not over. |
| ConnectFour.HeightsSpec | connect_state.py:88-99 | Every column height is between 0 and 6; it is 6 exactly when the column has no empty cell and 0 exactly when the column holds no stone. |
| ConnectFour.IsColFreeIff | connect_state.py:81-86 | A column is free exactly when it has an empty cell; a negative column counts from the right. |
| ConnectFour.IsApplicableIff | connect_state.py:28-34 | A move is applicable exactly when the column is 0 .. 6 and has an empty cell. |
| ConnectFour.FreeColsFrom | connect_state.py:101-108 | The free columns are exactly the in-range columns with room, in increasing order. |
| ConnectFour.LowestEmpty | connect_state.py:43-44 | The landing row is the lowest empty cell of the column: every cell below it is occupied. |
| ConnectFour.Transition | connect_state.py:36-53 | A move fails exactly when the column is out of range or full; otherwise the result is a 6 x 7 board. |
| ConnectFour.TransitionDrop | connect_state.py:41-52 | The move writes the mover's colour into the landing row of the column and changes nothing else. |
| ConnectFour.TransitionCounts | connect_state.py:45-52 | After a move, the column's height rises by one, the other heights are unchanged, there is one more stone, and the other colour moves next. |
| ConnectFour.TransitionKeepsGravity | connect_state.py:43-44 | On a board where every column is filled from the bottom, the stone lands right on top of the stack, and the board stays filled from the bottom. |
| ConnectFour.WinnerAt | connect_state.py:60-77 | A nonzero result at a cell is a player with four in a row starting there; zero means neither colour has such a run there. |
| ConnectFour.WinnerFrom | connect_state.py:58-79 | The scan from a cell returns a player owning a run that starts at or after that cell, and 0 only when no run starts there or later. |
| ConnectFour.WinnerFromIsFirst | connect_state.py:58-79 | A nonzero result belongs to the first run in row-major order: no earlier cell starts a run of either colour. |
| ConnectFour.WinnerSpec | connect_state.py:56-79 | The winner is nonzero exactly when some player has four in a row horizontally, vertically or diagonally, and then it is such a player. |
| ConnectFour.IsFinalIff | connect_state.py:25-26 | The game is over exactly when there is a winner or no column is free. |
| ConnectFour.PlayAppend | connect_state.py:140-147 | Playing two move lists in turn equals playing their concatenation. |
| ConnectFour.ScenarioBoard | connect_state.py:140-147 | The seven alternating moves in columns 0 and 1 are all valid. Afterwards the heights are 4 and 3, and red holds rows 2-5 of column 0. |
| ConnectFour.RedWinsScenario | connect_state.py:140-149 | After that scenario the winner is red (-1). |
| ConnectFour.MoveAfterWinAccepted | connect_state.py:36-39 | A move into a free column is accepted even after a player has won. |
| ConnectFourLookahead.RootState | task_encodings.py:113-117 | The root is the board after the opponent's opening, with no yellow move. It exists exactly when the opening column is valid, and then it holds one stone with yellow to move. |
| ConnectFourLookahead.GoalMeans | task_encodings.py:119-121 | A goal is a finished game in which yellow has four in a row; when no other colour has four in a row, yellow having one is exactly a goal. |
| ConnectFourLookahead.ChildrenSpec | task_encodings.py:128-140 | The child list fails exactly when some column's opponent reply is needed and invalid. Otherwise it has one child per column, in order. |
| ConnectFourLookahead.SuccSpec | task_encodings.py:123-140 | A final board has no successors. Otherwise there is one successor per free column, in column order. It records the column after the parent's moves and holds yellow's board if that move wins, or else the board after the reply. The successor list fails exactly when a needed reply is invalid. |
| ConnectFourLookahead.ChildrenKeepYellowToMove | task_encodings.py:129-138 | A child of a board with yellow to move is either a yellow win one stone later or again has yellow to move, two stones later. |
| ConnectFourLookahead.DecodeChild | task_encodings.py:142-145 | Decoding a successor gives the parent's decoded moves followed by the free column yellow played. |
| Sudoku.CandidatesFromSpec | task_encodings.py:22-26 | A cell's candidate list holds exactly the values 1-9 not already in its row, column or block, in ascending order. |
| Sudoku.EmptyCellsBefore | task_encodings.py:19-21 | The cells the walk passed that are empty are listed in row-major order. |
| Sudoku.TableBeforeSpec | task_encodings.py:17-26 | The dictionary built so far lists each passed empty cell once, in walk order, with its candidates. |
| Sudoku.SudokuDomains | task_encodings.py:17-26 | The two nested loops build exactly the table of every empty cell with its candidates. |
| Sudoku.SudokuVariables | task_encodings.py:17-26 | The variables are exactly the empty cells, each listed once. |
| Sudoku.SudokuDomain | task_encodings.py:22-26 | A value is in an empty cell's domain exactly when it is in 1-9 and not yet in the cell's row, column or block. The domain is ascending. |
| Sudoku.Fill | task_encodings.py:29-31 | The board copy with every assigned value written in is the puzzle overlaid with the assignment. |
| Sudoku.CheckConstraints | task_encodings.py:28-42 | The check returns true exactly when no assigned value occurs more than once in its row, column or block of the overlaid board. |
| Sudoku.ConsistentIffExactlyOnce | task_encodings.py:33-42 | The constraint holds exactly when every assigned value occurs exactly once in its row, its column and its block. |
| Sudoku.Decode | task_encodings.py:44-50 | Without a solution the decoder returns the puzzle itself; otherwise it returns the puzzle with the solution written over it. |
| Sudoku.DecodedGoalIsComplete | task_encodings.py:44-50 | Decoding a goal of the search keeps every clue and leaves no cell empty. |
| JobShop.JobShopTableSpec | task_encodings.py:72-75 | The variables are the jobs 0 .. n-1, each once and in order, and every job's domain is every machine. |
| JobShop.OneChildPerMachine | task_encodings.py:77-78 | Since the constraint accepts everything, a schedule has one child per machine, which puts the first unassigned job on that machine. |
| JobShop.FitsIsValid | task_encodings.py:72-75 | Every node of the search uses only job indices and machine indices in range. |
| JobShop.Max | task_encodings.py:85 | The maximum is an element of the list and no element exceeds it. |
| JobShop.MakespanIsLargestLoad | task_encodings.py:81-85 | With at least one machine, the makespan is some machine's load, and no machine's load exceeds it. |
| JobShop.Makespan | task_encodings.py:81-85 | The load-array loop followed by the maximum computes the makespan, and fails without machines. |
| JobShop.BetterIsStrictOrder | task_encodings.py:80-86 | The comparator is irreflexive, asymmetric and transitive, and fails exactly when there are no machines. |
| JobShop.Decode | task_encodings.py:88-93 | Without a solution the decoder fails. Otherwise it returns one entry per job, holding that job's machine, or 0 for a job the schedule omits. |
| JobShop.DecodedGoalRoundTrip | task_encodings.py:88-93 | Decoding a goal loses nothing: every entry is a machine, and the list read back as job-to-machine pairs is the schedule. |
| JobShop.TwoMachinesScenario | task_encodings.py:80-86 | With two machines and durations 3 and 3, splitting the jobs gives makespan 3, stacking them gives 6, and the split schedule is better. |
| TourPlanning.OtherCities | task_encodings.py:174 | An inner position's domain holds exactly the cities other than the start and the target, in ascending order. |
| TourPlanning.TourDomains | task_encodings.py:168-174 | The dictionary literal followed by the loop builds exactly the tour table. |
| TourPlanning.TourTableShape | task_encodings.py:168-174 | With at least two cities, the keys are the positions 0 .. n-1 in the order 0, n-1, 1, ..., n-2. Position 0 holds only the start city, position n-1 only the target, and every inner position any other city. |
| TourPlanning.TourTableDegenerate | task_encodings.py:168-171 | With one city, the second entry overwrites the first. With no city, the keys are 0 and -1. |
| TourPlanning.NoRepeatIff | task_encodings.py:176-179 | The constraint holds exactly when no city appears at two positions. |
| TourPlanning.Route | task_encodings.py:182-190 | The running-sum loop computes the route length, stopping at the first missing road (infinite) or at the first missing position (an error). |
| TourPlanning.RouteLengthOfPath | task_encodings.py:182-190 | For a route over positions 0 .. n-1, the length is infinite exactly when two consecutive cities have no road between them. Otherwise it is the sum of the roads between consecutive cities. |
| TourPlanning.BetterIsStrictOrder | task_encodings.py:181-192 | The comparator is a strict order. Two routes without a road never beat each other, and any finite route beats one without a road. |
| TourPlanning.DecodeSpec | task_encodings.py:196-197 | The decoder succeeds exactly on a route that assigns every position below its size, and then lists the cities by position. Without a solution it fails. |
| TourPlanning.DecodedGoalIsTour | task_encodings.py:196-197 | A goal over at least two cities decodes to a route of n cities from the start to the target, with only other cities in between. If it satisfies the constraint, no city repeats. |
| TourPlanning.ThreeCitiesScenario | task_encodings.py:181-192 | With roads 0-1 of length 1 and 1-2 of length 2 and no road 0-2, the route 0, 1, 2 has length 3, the route 0, 2, 1 is infinite, and the first is better. |

## Left out

- `ConnectState.show`, the `__main__` printing and plotting (`connect_state.py:110-150`): display only. The move sequence of the `__main__` block is modelled by `ConnectFour.ScenarioBoard`.
- `environment_state.py`: an abstract base class with no behaviour; `environment_state.py` is not part of this model.
- The top-level functions that assemble each encoder into a search: the tables, constraints, comparators and decoders are modelled, and `Assignment.EncodeProblem` builds the search. As written, `task_encodings.py` calls `encode_problem` without importing it (lines 52, 95 and 194), so those three functions would stop at that call.
- Optimality of the final incumbent: `Run` models any number of steps, but no lemma says the search ends with the best reachable goal, because the code does not deliver it. The early return on an improving goal child drops its later siblings, and `TreeSearch.EarlyReturnMissesBetterGoal` shows a finite tree where the better goal is never found.
- Floating point: tour distances are natural numbers, and the infinity returned for a missing road is the `Infinite` constructor.
- Durations and board cells are unbounded integers: NumPy's fixed-width integer arithmetic is not modelled.
- `ConnectFour.IsApplicable`: an event that is not an `int` makes the source return `None`; every column in the model is an integer.
- `ConnectFour.IsColFree`: requires -7 <= c < 7. Python list indexing wraps a negative column, and the model does the same; a column of 7 or more raises in the source and is excluded.
- `ConnectFourLookahead.Succ`: the opponent policy is a function parameter; a policy that raises or does not return is not modelled.
- `JobShop.MakespanOf` and `JobShop.Better`: these functions accept any schedule, and the load sum skips a job or machine outside the ranges. The source raises an `IndexError` there, or wraps a negative index. So the clause of `JobShop.BetterIsStrictOrder` that says the comparator fails exactly without machines holds as the source behaves only for in-range schedules, which are all the search builds (`JobShop.FitsIsValid`).
- `JobShop.Makespan`: requires every job and machine index in range. In the source, a negative index wraps and a large one raises; every node the search builds is in range (`JobShop.FitsIsValid`).
- `JobShop.Decode`: requires every job index in range, for the same reason.
- `Sudoku.Decode`: requires every cell inside the 9 x 9 grid, for the same reason. `Sudoku.CheckConstraints` has the same requirement.
- `TourPlanning.Route`: requires every city to index the distance matrix. NumPy would wrap a negative index.
- Dictionary iteration order in the Sudoku constraint, the Sudoku decoder, the job-shop makespan and the job-shop decoder: the model visits keys in another order (set order or job order). The results do not depend on the order.

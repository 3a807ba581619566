/** The Connect-4 lookahead encoding: nodes pair a board with the yellow moves played so
    far. The root is the board after the opponent's (red's) opening; a child plays one free
    column for yellow and, unless that wins, the opponent's reply; a goal is a board yellow
    has won. The opponent policy is a parameter. */
module ConnectFourLookahead {
  import opened Wrappers
  import opened ConnectFour

  datatype Node = Node(board: Board, moves: seq<int>)

  /** `n0`: the opponent's opening on the empty board, with no yellow move yet; an opening
      into an invalid column fails as the move itself does. */
  function Root(opponent: Board -> int): Result<Node, MoveError>
  {
    match Transition(EmptyBoard(), opponent(EmptyBoard()))
    case Err(e) => Err(e)
    case Ok(b) => Ok(Node(b, []))
  }

  /** A valid opening leaves one red stone on the board with yellow to move, no winner and
      no yellow move recorded. */
  lemma RootState(opponent: Board -> int)
    ensures Root(opponent).Ok? <==> 0 <= opponent(EmptyBoard()) < Cols
    ensures Root(opponent).Ok? ==>
              var n := Root(opponent).value;
              && WellShaped(n.board) && n.moves == []
              && StoneCount(n.board, Rows) == 1 && Mover(n.board) == 1
  {
    EmptyBoardFacts();
    var c := opponent(EmptyBoard());
    if 0 <= c < Cols {
      TransitionCounts(EmptyBoard(), c);
    }
  }

  /** `goal`: yellow is the winner. */
  predicate Goal(n: Node)
    requires WellShaped(n.board)
  {
    Winner(n.board) == 1
  }

  /** A goal is a finished game in which yellow has four in a row; when no other colour
      has one, four in a row for yellow is all it takes. */
  lemma GoalMeans(n: Node)
    requires WellShaped(n.board)
    ensures Goal(n) ==> IsFinal(n.board) && HasRun(n.board, 1)
    ensures (forall p :: p != 1 ==> !HasRun(n.board, p)) ==> (Goal(n) <==> HasRun(n.board, 1))
  {
    WinnerSpec(n.board);
  }

  /** The board after yellow plays column c. */
  function YellowBoard(b: Board, c: int): Board
    requires WellShaped(b) && IsApplicable(b, c)
  {
    Transition(b, c).value
  }

  /** The child for yellow's column c: yellow's board when the move wins, otherwise the
      board after the opponent's reply, which fails when the reply is invalid. */
  function Child(opponent: Board -> int, b: Board, moves: seq<int>, c: int): Result<Node, MoveError>
    requires WellShaped(b) && IsApplicable(b, c)
  {
    var yb := YellowBoard(b, c);
    if Winner(yb) == 1 then Ok(Node(yb, moves + [c]))
    else
      match Transition(yb, opponent(yb))
      case Err(e) => Err(e)
      case Ok(rb) => Ok(Node(rb, moves + [c]))
  }

  /** The children for the columns `cols`, in order; the first invalid reply fails all. */
  function Children(opponent: Board -> int, b: Board, moves: seq<int>, cols: seq<int>): Result<seq<Node>, MoveError>
    requires WellShaped(b) && forall i :: 0 <= i < |cols| ==> IsApplicable(b, cols[i])
    decreases |cols|
  {
    if cols == [] then Ok([])
    else
      match Child(opponent, b, moves, cols[0])
      case Err(e) => Err(e)
      case Ok(kid) =>
        match Children(opponent, b, moves, cols[1..])
        case Err(e) => Err(e)
        case Ok(rest) => Ok([kid] + rest)
  }

  /** `succ`: no children on a final board, otherwise one per free column. */
  function Succ(opponent: Board -> int, n: Node): Result<seq<Node>, MoveError>
    requires WellShaped(n.board)
  {
    if IsFinal(n.board) then Ok([])
    else Children(opponent, n.board, n.moves, FreeCols(n.board))
  }

  /** The reply to yellow's column c is needed and invalid. */
  predicate ReplyFails(opponent: Board -> int, b: Board, c: int)
    requires WellShaped(b) && IsApplicable(b, c)
  {
    var yb := YellowBoard(b, c);
    Winner(yb) != 1 && !IsApplicable(yb, opponent(yb))
  }

  lemma {:induction false} ChildrenSpec(opponent: Board -> int, b: Board, moves: seq<int>, cols: seq<int>)
    requires WellShaped(b) && forall i :: 0 <= i < |cols| ==> IsApplicable(b, cols[i])
    ensures var r := Children(opponent, b, moves, cols);
            && (r.Err? <==> exists i :: 0 <= i < |cols| && ReplyFails(opponent, b, cols[i]))
            && (r.Ok? ==>
                  |r.value| == |cols| && forall i :: 0 <= i < |cols| ==> r.value[i] == Child(opponent, b, moves, cols[i]).value)
    decreases |cols|
  {
    if cols != [] {
      ChildrenSpec(opponent, b, moves, cols[1..]);
      assert forall i :: 1 <= i < |cols| ==> cols[1..][i - 1] == cols[i];
      if Children(opponent, b, moves, cols[1..]).Err? {
        var i :| 0 <= i < |cols[1..]| && ReplyFails(opponent, b, cols[1..][i]);
        assert ReplyFails(opponent, b, cols[i + 1]);
      }
    }
  }

  /** Yellow may play every free column. */
  lemma FreeColsApplicable(b: Board)
    requires WellShaped(b)
    ensures forall i :: 0 <= i < |FreeCols(b)| ==> IsApplicable(b, FreeCols(b)[i])
  {
  }

  /** A final board has no children. Otherwise the successors fail exactly when some free
      column's opponent reply is needed and invalid; when they do not, there is one child per
      free column, in column order, recording that column after the parent's moves and
      holding yellow's board if the move wins and the board after the reply otherwise. */
  lemma SuccSpec(opponent: Board -> int, n: Node)
    requires WellShaped(n.board)
    ensures IsFinal(n.board) ==> Succ(opponent, n) == Ok([])
    ensures var cols := FreeCols(n.board);
            !IsFinal(n.board) ==>
              && (Succ(opponent, n).Err? <==> exists i :: 0 <= i < |cols| && ReplyFails(opponent, n.board, cols[i]))
              && (Succ(opponent, n).Ok? ==>
                    var kids := Succ(opponent, n).value;
                    && |kids| == |cols|
                    && forall i :: 0 <= i < |cols| ==>
                         var yb := YellowBoard(n.board, cols[i]);
                         && IsColFree(n.board, cols[i])
                         && kids[i].moves == n.moves + [cols[i]]
                         && kids[i].board == (if Winner(yb) == 1 then yb else Transition(yb, opponent(yb)).value))
  {
    FreeColsApplicable(n.board);
    if !IsFinal(n.board) {
      ChildrenSpec(opponent, n.board, n.moves, FreeCols(n.board));
    }
  }

  /** On a board with an odd stone count (yellow to move) every child either is a goal one
      stone later, yellow's winning move, or has an odd count again two stones later, so
      yellow keeps moving with stone 1. */
  lemma ChildrenKeepYellowToMove(opponent: Board -> int, n: Node)
    requires WellShaped(n.board) && StoneCount(n.board, Rows) % 2 == 1
    ensures Mover(n.board) == 1
    ensures Succ(opponent, n).Ok? ==>
              forall i :: 0 <= i < |Succ(opponent, n).value| ==>
                var kid := Succ(opponent, n).value[i];
                && WellShaped(kid.board)
                && ((Goal(kid) && StoneCount(kid.board, Rows) == StoneCount(n.board, Rows) + 1)
                    || StoneCount(kid.board, Rows) == StoneCount(n.board, Rows) + 2)
  {
    SuccSpec(opponent, n);
    if Succ(opponent, n).Ok? && !IsFinal(n.board) {
      var cols := FreeCols(n.board);
      forall i | 0 <= i < |cols|
        ensures var kid := Succ(opponent, n).value[i];
                && WellShaped(kid.board)
                && ((Goal(kid) && StoneCount(kid.board, Rows) == StoneCount(n.board, Rows) + 1)
                    || StoneCount(kid.board, Rows) == StoneCount(n.board, Rows) + 2)
      {
        var yb := YellowBoard(n.board, cols[i]);
        TransitionCounts(n.board, cols[i]);
        if Winner(yb) != 1 {
          TransitionCounts(yb, opponent(yb));
        }
      }
    }
  }

  /** The decoder: yellow's moves of the found node, none without one. */
  function Decode(state: Option<Node>): seq<int>
  {
    match state
    case None => []
    case Some(n) => n.moves
  }

  /** Decoding a child gives the parent's moves plus the free column yellow played, so
      the decoder of any node reached from the root lists yellow's moves in order. */
  lemma DecodeChild(opponent: Board -> int, n: Node, i: int)
    requires WellShaped(n.board) && !IsFinal(n.board) && Succ(opponent, n).Ok?
    requires 0 <= i < |FreeCols(n.board)|
    ensures |Succ(opponent, n).value| == |FreeCols(n.board)|
    ensures var c := FreeCols(n.board)[i];
            0 <= c < Cols && IsColFree(n.board, c)
            && Decode(Some(Succ(opponent, n).value[i])) == Decode(Some(n)) + [c]
  {
    FreeColsApplicable(n.board);
    ChildrenSpec(opponent, n.board, n.moves, FreeCols(n.board));
  }
}

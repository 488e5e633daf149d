/** The game session: the board, whose turn it is, whether the game is still
    active, and the outcome the status line reports. A human click places the
    current mark; when the game goes on, the computer replies with the move the
    minimax search selects. */
module Game {
  import opened Evaluator
  import opened Search

  /** What the status line tells the player. */
  datatype Outcome = InProgress | Won(winner: Mark) | Draw

  /** A snapshot of the session state. */
  datatype Session = Session(board: Board, current: Mark, active: bool, status: Outcome)

  /** The state at page load and after a restart. */
  const Initial: Session := Session(EmptyBoard, X, true, InProgress)

  /** A click on `idx` is acted on only while the game is active and the cell is empty. */
  predicate Clickable(s: Session, idx: Index)
  {
    s.active && s.board[idx] == Empty
  }

  /** The click handler up to the point where it schedules the computer's reply. */
  function Click(s: Session, idx: Index): Session
  {
    if !Clickable(s, idx) then s
    else
      var b := s.board[idx := s.current];
      if CheckWin(b, s.current) then Session(b, s.current, false, Won(s.current))
      else if Full(b) then Session(b, s.current, false, Draw)
      else Session(b, O, s.active, InProgress)
  }

  /** The computer's reply: O plays the cell the search selects. */
  function Reply(s: Session): Session
    requires !Terminal(s.board)
  {
    var k := MinimaxValue(s.board, O).index.value;
    var b := s.board[k := O];
    if CheckWin(b, O) then Session(b, s.current, false, Won(O))
    else if Full(b) then Session(b, s.current, false, Draw)
    else Session(b, X, s.active, InProgress)
  }

  /** The states the session moves between: X to move on a board in play with as
      many Xs as Os, or a finished game whose outcome matches the board. X moves
      first, so there is never more than one X more than there are Os. */
  predicate Inv(s: Session)
  {
    var nx, no := Count(s.board, X), Count(s.board, O);
    (nx == no || nx == no + 1) &&
    (s.active <==> s.status == InProgress) &&
    (s.active ==> s.current == X && nx == no && !Terminal(s.board)) &&
    (s.status.Won? ==> CheckWin(s.board, s.status.winner) && !CheckWin(s.board, Other(s.status.winner))) &&
    (s.status == Draw ==> Full(s.board) && !CheckWin(s.board, X) && !CheckWin(s.board, O))
  }

  /** A click that hands the turn to O leaves a board the search can move on. */
  lemma ClickLeavesPlay(s: Session, idx: Index)
    requires Inv(s) && Clickable(s, idx) && Click(s, idx).active
    ensures !Terminal(Click(s, idx).board)
  {
    TerminalIff(s.board);
    TerminalIff(Click(s, idx).board);
    PlaceKeepsOtherWinless(s.board, idx, X, O);
  }

  /** A click followed, when the click hands the turn to O, by the computer's reply. */
  function Turn(s: Session, idx: Index): Session
    requires Inv(s)
  {
    var s1 := Click(s, idx);
    if Clickable(s, idx) && s1.active then
      ClickLeavesPlay(s, idx);
      Reply(s1)
    else s1
  }

  /** A click is ignored when the game is over or the cell is taken. Otherwise X is
      placed on `idx`; an X line ends the game as an X win and a full board as a
      draw, in both cases before the computer moves; only otherwise does O reply on
      a cell that was empty, after which an O line ends the game as an O win, a
      full board as a draw, and otherwise X is to move again. */
  lemma {:induction false} TurnEffect(s: Session, idx: Index)
    requires Inv(s)
    ensures !Clickable(s, idx) ==> Turn(s, idx) == s
    ensures Clickable(s, idx) ==>
      var b := s.board[idx := X];
      var t := Turn(s, idx);
      if CheckWin(b, X) then t == Session(b, X, false, Won(X))
      else if Full(b) then t == Session(b, X, false, Draw)
      else
        MinimaxValue(b, O).index.Some? &&
        var k := MinimaxValue(b, O).index.value;
        var b2 := b[k := O];
        b[k] == Empty && t.board == b2 &&
        t.status == (if CheckWin(b2, O) then Won(O) else if Full(b2) then Draw else InProgress) &&
        t.active == (t.status == InProgress) && (t.active ==> t.current == X)
  {
    if Clickable(s, idx) {
      var b := s.board[idx := X];
      if !CheckWin(b, X) && !Full(b) {
        ClickLeavesPlay(s, idx);
        assert Turn(s, idx) == Reply(Click(s, idx));
      }
    }
  }

  /** The state between the human's move and the computer's reply. */
  predicate AwaitingReply(s: Session)
  {
    s.active && s.current == O && s.status == InProgress &&
    Count(s.board, X) == Count(s.board, O) + 1 && !Terminal(s.board)
  }

  /** A click on a legal state leaves a legal state or one awaiting the reply. */
  lemma {:induction false} ClickKeepsInv(s: Session, idx: Index)
    requires Inv(s)
    ensures Inv(Click(s, idx)) || (Clickable(s, idx) && AwaitingReply(Click(s, idx)))
  {
    if Clickable(s, idx) {
      assert s.current == X;
      var b := s.board[idx := X];
      CountUpdate(s.board, idx, X, X);
      CountUpdate(s.board, idx, X, O);
      TerminalIff(s.board);
      PlaceKeepsOtherWinless(s.board, idx, X, O);
      if CheckWin(b, X) {
        assert Inv(Click(s, idx));
      } else if Full(b) {
        assert Inv(Click(s, idx));
      } else {
        TerminalIff(b);
        assert AwaitingReply(Click(s, idx));
      }
    }
  }

  /** The computer's reply leads back to a legal state. */
  lemma {:induction false} ReplyKeepsInv(s: Session)
    requires AwaitingReply(s)
    ensures Inv(Reply(s))
  {
    var b := s.board;
    TerminalIff(b);
    var k := MinimaxValue(b, O).index.value;
    var b2 := b[k := O];
    assert Reply(s).board == b2;
    CountUpdate(b, k, O, X);
    CountUpdate(b, k, O, O);
    PlaceKeepsOtherWinless(b, k, O, X);
    TerminalIff(b2);
  }

  /** Every turn keeps the session in a legal state. */
  lemma {:induction false} TurnKeepsInv(s: Session, idx: Index)
    requires Inv(s)
    ensures Inv(Turn(s, idx))
  {
    ClickKeepsInv(s, idx);
    var s1 := Click(s, idx);
    if Clickable(s, idx) && s1.active {
      assert AwaitingReply(s1);
      ReplyKeepsInv(s1);
    }
  }

  /** The restart state is a legal state on a board with room to play. */
  lemma InitialInv()
    ensures Inv(Initial)
    ensures !Full(Initial.board)
  {
    assert Initial.board[0] == Empty;
    CountAbsent(Initial.board, X);
    CountAbsent(Initial.board, O);
    EmptyBoardNoWin(X);
    EmptyBoardNoWin(O);
    TerminalIff(Initial.board);
  }

  /** When X holds cells 0 and 1 and cell 2 is empty, a click on cell 2 reports an
      X win and the game stops before the computer would move. */
  lemma HumanWinEndsGame(s: Session)
    requires Inv(s) && s.active && s.board[0] == X && s.board[1] == X && s.board[2] == Empty
    ensures Turn(s, 2) == Session(s.board[2 := X], X, false, Won(X))
  {
    assert Filled(s.board[2 := X], WinPatterns[0], X);
    TurnEffect(s, 2);
  }

  /** The game as the page holds it: a nine-cell board array, the mark to play,
      the active flag and the outcome shown in the status line. */
  class TicTacToe {
    var board: array<Cell>
    var currentPlayer: Mark
    var gameActive: bool
    var status: Outcome

    ghost predicate Valid()
      reads this, board
    {
      board.Length == 9 && Inv(State())
    }

    function State(): Session
      reads this, board
      requires board.Length == 9
    {
      Session(board[..], currentPlayer, gameActive, status)
    }

    constructor ()
      ensures Valid() && State() == Initial
    {
      board := new Cell[9](_ => Empty);
      currentPlayer := X;
      gameActive := true;
      status := InProgress;
      new;
      assert board[..] == EmptyBoard;
      InitialInv();
    }

    /** The human clicks cell `idx`. The computer's reply, which the page runs after
        a short delay, follows at once. */
    method HandleCellClick(idx: Index)
      requires Valid()
      modifies this, board
      ensures board == old(board) && Valid()
      ensures State() == Turn(old(State()), idx)
    {
      ghost var s := State();
      if !gameActive || board[idx] != Empty {
        TurnKeepsInv(s, idx);
        return;
      }

      board[idx] := currentPlayer;
      assert board[..] == s.board[idx := X];

      if CheckWin(board[..], currentPlayer) {
        status := Won(currentPlayer);
        gameActive := false;
        assert State() == Click(s, idx);
        TurnKeepsInv(s, idx);
        return;
      } else if Full(board[..]) {
        status := Draw;
        gameActive := false;
        assert State() == Click(s, idx);
        TurnKeepsInv(s, idx);
        return;
      }

      currentPlayer := O;
      status := InProgress;
      assert State() == Click(s, idx);
      ClickLeavesPlay(s, idx);
      ComputerMove();
      TurnKeepsInv(s, idx);
    }

    /** The computer plays the cell the search selects on the live board. */
    method ComputerMove()
      requires board.Length == 9 && !Terminal(board[..])
      modifies this, board
      ensures board == old(board)
      ensures State() == Reply(old(State()))
    {
      ghost var s := State();
      var best := Minimax(board, O);
      var k := best.index.value;
      board[k] := O;
      assert board[..] == s.board[k := O];

      if CheckWin(board[..], O) {
        status := Won(O);
        gameActive := false;
      } else if Full(board[..]) {
        status := Draw;
        gameActive := false;
      } else {
        currentPlayer := X;
        status := InProgress;
      }
    }

    /** A fresh empty board, X to move, the game active. */
    method RestartGame()
      modifies this
      ensures fresh(board) && Valid() && State() == Initial
    {
      board := new Cell[9](_ => Empty);
      currentPlayer := X;
      gameActive := true;
      status := InProgress;
      assert board[..] == EmptyBoard;
      InitialInv();
    }
  }
}

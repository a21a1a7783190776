/**
 * The game controller and scoreboard of tic-tac-toe/script.js as pure
 * transitions over one value holding the script's globals (`gameState`,
 * `currentPlayer`, `gameActive`, `gameMode`, `xWins`, `oWins`, `draws`).
 * The class in module Controller updates those globals in place and is
 * proved to follow these transitions; the properties of play are proved
 * here.
 */
module Rules {
  import opened Board
  import opened Policy
  import opened Wrappers

  /** The argument of `updateScore`: a player's win or "draw". */
  datatype Result = Win(winner: Player) | Draw

  datatype Session = Session(
    board: Board,
    current: Player,
    active: bool,
    mode: string,
    xWins: nat,
    oWins: nat,
    draws: nat)

  /** Games recorded on the scoreboard so far. */
  function Games(g: Session): nat
  {
    g.xWins + g.oWins + g.draws
  }

  /** The state reset of `createBoard`. */
  function Reset(g: Session): Session
  {
    g.(board := EmptyBoard, current := X, active := true)
  }

  /** `setMode(selectedMode)` */
  function WithMode(g: Session, mode: string): Session
  {
    g.(mode := mode)
  }

  /** `makeMove(index, player)`: writes the mark, occupied or not. */
  function Place(g: Session, i: nat, p: Player): Session
    requires i < 9
  {
    g.(board := g.board[i := Mark(p)])
  }

  /** `switchTurn()` */
  function Switch(g: Session): Session
  {
    g.(current := Other(g.current))
  }

  /** `updateScore(result)` */
  function Record(g: Session, r: Result): Session
  {
    match r
    case Win(X) => g.(xWins := g.xWins + 1)
    case Win(O) => g.(oWins := g.oWins + 1)
    case Draw => g.(draws := g.draws + 1)
  }

  /** `checkGameOver(player)`: the new session and whether the game ended. */
  function CheckOver(g: Session, p: Player): (Session, bool)
  {
    if IsWinnerFromState(g.board, p) then (Record(g, Win(p)).(active := false), true)
    else if IsFull(g.board) then (Record(g, Draw).(active := false), true)
    else (g, false)
  }

  /** The body of the deferred reply, run at once: O's move, the game-over
      check, and the turn switch if the game goes on. When `getAIMove`
      yields `undefined`, `makeMove` fails at its display update before
      anything else happens, so nothing changes. */
  function AIReply(g: Session, coin: bool, k: nat): Session
    requires DrawFits(g.board, k)
  {
    match AIChoice(g.board, g.mode, coin, k)
    case None => g
    case Some(j) =>
      var (g1, over) := CheckOver(Place(g, j, O), O);
      if over then g1 else Switch(g1)
  }

  /** The synchronous part of `handleCellClick` on cell `i`: the move, the
      game-over check and the turn switch, and whether the computer's reply
      gets scheduled (`isAIPlaying() && currentPlayer === "O"`). A reply is
      scheduled only after a real move into an empty cell. */
  function ClickNow(g: Session, i: nat): (r: (Session, bool))
    requires i < 9
    ensures r.1 ==> g.active && g.board[i] == Empty && r.0.active
    ensures r.1 ==> r.0.board == g.board[i := Mark(g.current)] && r.0.current == O
    ensures r.1 <==> g.active && g.board[i] == Empty && !CheckOver(Place(g, i, g.current), g.current).1
                     && g.mode != "pvp" && g.current == X
    ensures g.mode == "pvp" ==> !r.1
  {
    if !g.active || g.board[i] != Empty then (g, false)
    else
      var (g1, over) := CheckOver(Place(g, i, g.current), g.current);
      if over then (g1, false)
      else
        var g2 := Switch(g1);
        (g2, g2.mode != "pvp" && g2.current == O)
  }

  /** `k` is a position the random draw can produce over the cells that are
      still empty when the reply runs, one fewer than now. */
  predicate ReplyDrawFits(g: Session, k: nat)
  {
    k == 0 || k + 1 < |EmptyIndices(g.board)|
  }

  /** `handleCellClick` on cell `i`, with the computer's reply applied
      right after the human move. */
  function Click(g: Session, i: nat, coin: bool, k: nat): Session
    requires i < 9 && ReplyDrawFits(g, k)
  {
    var (g1, pending) := ClickNow(g, i);
    if pending then
      EmptyCountFill(g.board, i, Mark(g.current));
      AIReply(g1, coin, k)
    else g1
  }

  // ---------------------------------------------------------------------
  // Properties.

  /** The board invariant of alternating play with X first: X has as many
      marks as O or one more; while the game is active it is X's turn
      exactly when the counts are equal, nobody has a line and some cell is
      empty. */
  predicate Consistent(g: Session)
  {
    var nx := Count(g.board, Mark(X));
    var no := Count(g.board, Mark(O));
    && (nx == no || nx == no + 1)
    && (g.active ==>
          && (g.current == X <==> nx == no)
          && !IsWinnerFromState(g.board, X)
          && !IsWinnerFromState(g.board, O)
          && !IsFull(g.board))
  }

  /** A reset gives nine empty cells, X to move and an active game; it keeps
      the mode and every counter; resetting twice is resetting once; and
      the fresh game satisfies the invariant of play. */
  lemma ResetSpec(g: Session)
    ensures var r := Reset(g);
      && r.board == EmptyBoard && r.current == X && r.active
      && r.mode == g.mode && r.xWins == g.xWins && r.oWins == g.oWins && r.draws == g.draws
      && Reset(r) == r
      && Consistent(r)
  {
    EmptyBoardHasNoWinner(X);
    EmptyBoardHasNoWinner(O);
    assert multiset(EmptyBoard)[Mark(X)] == 0 && multiset(EmptyBoard)[Mark(O)] == 0;
  }

  /** Changing the mode is a reset under the new mode: the game in progress
      is not resumed, and each of the three counters stays. */
  lemma ModeChangeResets(g: Session, mode: string)
    ensures var r := Reset(WithMode(g, mode));
      && r.mode == mode && r.board == EmptyBoard && r.current == X && r.active
      && r.xWins == g.xWins && r.oWins == g.oWins && r.draws == g.draws
  {
  }

  /** `switchTurn` toggles between X and O; two switches restore the
      player. */
  lemma SwitchTwice(g: Session)
    ensures Switch(g).current != g.current
    ensures Switch(Switch(g)) == g
  {
    OtherInvolutive(g.current);
  }

  /** `checkGameOver(p)`: a line of `p` is a win for `p` even on a full
      board; a draw needs a full board without a line of `p`; when the game
      ends exactly one counter rises by one and the game is no longer
      active; otherwise nothing changes. */
  lemma CheckOverSpec(g: Session, p: Player)
    ensures var (r, over) := CheckOver(g, p);
      && (over <==> IsWinnerFromState(g.board, p) || IsFull(g.board))
      && (!over ==> r == g)
      && (over ==> !r.active && r.board == g.board && r.current == g.current && r.mode == g.mode
                   && Games(r) == Games(g) + 1)
      && (IsWinnerFromState(g.board, p) ==>
            if p == X then r.xWins == g.xWins + 1 && r.oWins == g.oWins && r.draws == g.draws
            else r.oWins == g.oWins + 1 && r.xWins == g.xWins && r.draws == g.draws)
      && (!IsWinnerFromState(g.board, p) && IsFull(g.board) ==>
            r.draws == g.draws + 1 && r.xWins == g.xWins && r.oWins == g.oWins)
  {
  }

  /** A click while the game is over, or on an occupied cell, changes
      nothing: not the board, the turn, the scores or the active flag. */
  lemma ClickIgnored(g: Session, i: nat, coin: bool, k: nat)
    requires i < 9 && ReplyDrawFits(g, k)
    requires !g.active || g.board[i] != Empty
    ensures Click(g, i, coin, k) == g
  {
  }

  /** A click records at most one result: no counter ever falls, a finished
      game stays finished, the mode never changes, and the number of games
      rises by one exactly when this click ended the game. */
  lemma {:induction false} ClickScoresOnce(g: Session, i: nat, coin: bool, k: nat)
    requires i < 9 && ReplyDrawFits(g, k)
    ensures var r := Click(g, i, coin, k);
      && r.xWins >= g.xWins && r.oWins >= g.oWins && r.draws >= g.draws
      && (r.active ==> g.active)
      && r.mode == g.mode
      && Games(r) == Games(g) + (if g.active && !r.active then 1 else 0)
  {
    if g.active && g.board[i] == Empty {
      CheckOverSpec(Place(g, i, g.current), g.current);
      var (g1, pending) := ClickNow(g, i);
      if pending {
        EmptyCountFill(g.board, i, Mark(g.current));
        match AIChoice(g1.board, g1.mode, coin, k)
        case None =>
        case Some(j) =>
          CheckOverSpec(Place(g1, j, O), O);
      }
    }
  }

  /** One move by the player to move (`makeMove`, `checkGameOver`, then
      `switchTurn` unless the game ended) keeps the invariant of play. */
  lemma MoveKeepsConsistent(g: Session, j: nat)
    requires Consistent(g) && g.active && j < 9 && g.board[j] == Empty
    ensures var (g1, over) := CheckOver(Place(g, j, g.current), g.current);
      Consistent(if over then g1 else Switch(g1))
  {
    var cur := g.current;
    CountFill(g.board, j, cur);
    PlacingKeepsOtherLines(g.board, j, cur, Other(cur));
    OtherInvolutive(cur);
    CheckOverSpec(Place(g, j, cur), cur);
  }

  /** The computer's reply, played on a consistent active board with O to
      move, always finds a cell to play and keeps the invariant of play. */
  lemma ReplyKeepsConsistent(g: Session, coin: bool, k: nat)
    requires Consistent(g) && g.active && g.current == O && DrawFits(g.board, k)
    ensures AIChoice(g.board, g.mode, coin, k).Some?
    ensures Consistent(AIReply(g, coin, k))
  {
    var m := AIChoice(g.board, g.mode, coin, k);
    assert m.Some?;
    MoveKeepsConsistent(g, m.value);
  }

  /** Along the click path the invariant of alternating play is kept: X
      has as many marks as O or one more, the player to move matches the
      counts, and an active game has no line and an empty cell. */
  lemma {:induction false} ClickKeepsConsistent(g: Session, i: nat, coin: bool, k: nat)
    requires i < 9 && ReplyDrawFits(g, k)
    requires Consistent(g)
    ensures Consistent(Click(g, i, coin, k))
  {
    if g.active && g.board[i] == Empty {
      MoveKeepsConsistent(g, i);
      var (g1, pending) := ClickNow(g, i);
      if pending {
        EmptyCountFill(g.board, i, Mark(g.current));
        ReplyKeepsConsistent(g1, coin, k);
        assert Click(g, i, coin, k) == AIReply(g1, coin, k);
      }
    }
  }

  /** Against the computer, a click by X that leaves the game running has
      added exactly one X and one O and gives the turn back to X. */
  lemma {:induction false} ComputerRepliesAtOnce(g: Session, i: nat, coin: bool, k: nat)
    requires i < 9 && ReplyDrawFits(g, k)
    requires Consistent(g) && g.mode != "pvp" && g.current == X
    requires g.active && g.board[i] == Empty
    requires Click(g, i, coin, k).active
    ensures var r := Click(g, i, coin, k);
      && r.current == X
      && Count(r.board, Mark(X)) == Count(g.board, Mark(X)) + 1
      && Count(r.board, Mark(O)) == Count(g.board, Mark(O)) + 1
  {
    var b1 := g.board[i := Mark(X)];
    CountFill(g.board, i, X);
    PlacingKeepsOtherLines(g.board, i, X, O);
    CheckOverSpec(Place(g, i, X), X);
    var (g1, pending) := ClickNow(g, i);
    assert pending;
    EmptyCountFill(g.board, i, Mark(X));
    var m := AIChoice(g1.board, g1.mode, coin, k);
    assert m.Some?;
    CountFill(b1, m.value, O);
    CheckOverSpec(Place(g1, m.value, O), O);
  }

  // ---------------------------------------------------------------------
  // The reply as the source schedules it: 400 ms later, with no check of
  // `gameActive`, of the turn or of a reset in between.

  /** The board after the synchronous part of a real move, whether or not
      it ended the game. */
  lemma ClickNowBoard(g: Session, i: nat)
    requires i < 9 && g.active && g.board[i] == Empty
    ensures ClickNow(g, i).0.board == g.board[i := Mark(g.current)]
    ensures ClickNow(g, i).0.mode == g.mode
  {
    CheckOverSpec(Place(g, i, g.current), g.current);
  }

  /** The board after the reply, whether or not it ended the game. */
  lemma AIReplyBoard(g: Session, coin: bool, k: nat)
    requires DrawFits(g.board, k)
    requires AIChoice(g.board, g.mode, coin, k).Some?
    ensures AIReply(g, coin, k).board == g.board[AIChoice(g.board, g.mode, coin, k).value := Mark(O)]
  {
    CheckOverSpec(Place(g, AIChoice(g.board, g.mode, coin, k).value, O), O);
  }

  /** The opening click of a game against the computer: X's mark lands,
      the game goes on, the turn passes to O and the reply is scheduled. */
  lemma OpeningClick(i: nat, mode: string)
    requires i < 9 && mode != "pvp"
    ensures ClickNow(Session(EmptyBoard, X, true, mode, 0, 0, 0), i)
      == (Session(EmptyBoard[i := Mark(X)], O, true, mode, 0, 0, 0), true)
  {
    var g0 := Session(EmptyBoard, X, true, mode, 0, 0, 0);
    var b1 := EmptyBoard[i := Mark(X)];
    SingleMarkNoLine(b1, i, X);
    assert b1[if i == 0 then 1 else 0] == Empty;
    CheckOverSpec(Place(g0, i, X), X);
  }

  /** A fresh game satisfies the invariant of play. */
  lemma FreshGameConsistent(mode: string)
    ensures Consistent(Session(EmptyBoard, X, true, mode, 0, 0, 0))
  {
    var g0 := Session(EmptyBoard, X, true, mode, 0, 0, 0);
    ResetSpec(g0);
    assert Reset(g0) == g0;
  }

  /** A click on another cell while O's reply is pending writes O's mark
      there, and the board still leaves the computer a move. */
  lemma SecondClick(a: nat, b: nat, mode: string, coin: bool)
    requires a < 9 && b < 9 && a != b
    ensures var g2 := ClickNow(Session(EmptyBoard[a := Mark(X)], O, true, mode, 0, 0, 0), b).0;
      && g2.board == EmptyBoard[a := Mark(X)][b := Mark(O)]
      && g2.mode == mode
      && AIChoice(g2.board, mode, coin, 0).Some?
  {
    var b1 := EmptyBoard[a := Mark(X)];
    var b2 := b1[b := Mark(O)];
    assert b1[b] == Empty;
    ClickNowBoard(Session(b1, O, true, mode, 0, 0, 0), b);
    var c := if a != 0 && b != 0 then 0 else if a != 1 && b != 1 then 1 else 2;
    assert b2[c] == Empty;
    SingleMarkNoLine(b2, a, X);
    SingleMarkNoLine(b2, b, O);
  }

  /** Against the computer, a second click inside the window plays for O,
      and the pending reply then plays for O again: O ends up with more
      marks than X. */
  lemma ClickDuringReplyBreaksAlternation(a: nat, b: nat, mode: string, coin: bool)
    requires a < 9 && b < 9 && a != b && mode != "pvp"
    ensures var g0 := Session(EmptyBoard, X, true, mode, 0, 0, 0);
      var g2 := ClickNow(ClickNow(g0, a).0, b).0;
      && Consistent(g0)
      && ClickNow(g0, a).1
      && DrawFits(g2.board, 0)
      && !Consistent(AIReply(g2, coin, 0))
  {
    FreshGameConsistent(mode);
    OpeningClick(a, mode);
    SecondClick(a, b, mode, coin);
    var g2 := ClickNow(Session(EmptyBoard[a := Mark(X)], O, true, mode, 0, 0, 0), b).0;
    var j := AIChoice(g2.board, mode, coin, 0).value;
    AIReplyBoard(g2, coin, 0);
    EmptyBoardCounts();
    RaceCounts(EmptyBoard, a, b, j);
  }

  /** On a board with no marks, X at one empty cell followed by O at two
      others gives one X and two O. */
  lemma RaceCounts(s: Board, a: nat, b: nat, c: nat)
    requires a < 9 && b < 9 && c < 9 && a != b && b != c && a != c
    requires s[a] == Empty && s[b] == Empty && s[c] == Empty
    requires Count(s, Mark(X)) == 0 && Count(s, Mark(O)) == 0
    ensures var t := s[a := Mark(X)][b := Mark(O)][c := Mark(O)];
      Count(t, Mark(X)) == 1 && Count(t, Mark(O)) == 2
  {
    CountFill(s, a, X);
    CountFill(s[a := Mark(X)], b, O);
    CountFill(s[a := Mark(X)][b := Mark(O)], c, O);
  }

  /** Against the computer, a restart inside the window does not cancel the
      reply: O moves first on the new board and the turn passes to O. */
  lemma ReplyAfterRestartBreaksAlternation(a: nat, mode: string, coin: bool)
    requires a < 9 && mode != "pvp"
    ensures var g0 := Session(EmptyBoard, X, true, mode, 0, 0, 0);
      var g2 := Reset(ClickNow(g0, a).0);
      && ClickNow(g0, a).1
      && Consistent(g2) && g2.current == X
      && !Consistent(AIReply(g2, coin, 0))
  {
    OpeningClick(a, mode);
    var g2 := Session(EmptyBoard, X, true, mode, 0, 0, 0);
    ResetSpec(g2);
    EmptyBoardHasNoWinner(X);
    EmptyBoardHasNoWinner(O);
    var j := AIChoice(EmptyBoard, mode, coin, 0).value;
    AIReplyBoard(g2, coin, 0);
    EmptyBoardCounts();
    CountFill(EmptyBoard, j, O);
  }
}

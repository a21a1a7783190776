/**
 * The game controller of tic-tac-toe/script.js as an object: the script's
 * globals are its fields, the board is a nine-cell array, and each method
 * changes the fields the way the source function does. Every method is
 * proved to follow the matching transition of module Rules.
 */
module Controller {
  import opened Board
  import opened Search
  import opened Policy
  import opened Rules
  import opened Wrappers

  class Game {
    var gameState: array<Cell>
    var currentPlayer: Player
    var gameActive: bool
    var gameMode: string
    var xWins: nat
    var oWins: nat
    var draws: nat

    ghost predicate Valid()
      reads this
    {
      gameState.Length == 9
    }

    /** The globals as one value. */
    ghost function Snap(): Session
      reads this, gameState
      requires Valid()
    {
      Session(gameState[..], currentPlayer, gameActive, gameMode, xWins, oWins, draws)
    }

    /** The initial globals and `initGame`: a fresh board, X to move, the
        selected mode, all counters zero. */
    constructor (mode: string)
      ensures Valid() && fresh(gameState)
      ensures Snap() == Session(EmptyBoard, X, true, mode, 0, 0, 0)
    {
      var cells := new Cell[9](_ => Empty);
      assert cells[..] == EmptyBoard;
      gameState := cells;
      currentPlayer := X;
      gameActive := true;
      gameMode := mode;
      xWins, oWins, draws := 0, 0, 0;
    }

    /** `createBoard`: a new empty board, X to move, the game active; the
        mode and the scoreboard stay. */
    method CreateBoard()
      requires Valid()
      modifies this`gameState, this`gameActive, this`currentPlayer
      ensures Valid() && fresh(gameState)
      ensures Snap() == Reset(old(Snap()))
    {
      gameState := new Cell[9](_ => Empty);
      gameActive := true;
      currentPlayer := X;
      assert gameState[..] == EmptyBoard;
    }

    /** `setMode(selectedMode)` */
    method SetMode(selectedMode: string)
      requires Valid()
      modifies this`gameMode
      ensures Valid()
      ensures Snap() == WithMode(old(Snap()), selectedMode)
    {
      gameMode := selectedMode;
    }

    /** The mode selector's change handler: `setMode`, then `createBoard`. */
    method ChangeMode(selectedMode: string)
      requires Valid()
      modifies this`gameMode, this`gameState, this`gameActive, this`currentPlayer
      ensures Valid() && fresh(gameState)
      ensures Snap() == Reset(WithMode(old(Snap()), selectedMode))
    {
      SetMode(selectedMode);
      CreateBoard();
    }

    /** `makeMove(index, player)` */
    method MakeMove(index: nat, player: Player)
      requires Valid() && index < 9
      modifies gameState
      ensures Valid()
      ensures Snap() == Place(old(Snap()), index, player)
    {
      gameState[index] := Mark(player);
    }

    /** `switchTurn()` */
    method SwitchTurn()
      requires Valid()
      modifies this`currentPlayer
      ensures Valid()
      ensures Snap() == Switch(old(Snap()))
    {
      currentPlayer := if currentPlayer == X then O else X;
    }

    /** `isWinner(player)`, over the live board: `player` owns a row, a
        column or a diagonal. */
    function IsWinner(player: Player): (w: bool)
      reads this, gameState
      requires Valid()
      ensures w <==> HasLine(gameState[..], player)
    {
      WinnerIffLine(gameState[..], player);
      IsWinnerFromState(gameState[..], player)
    }

    /** `isAIPlaying()` */
    function IsAIPlaying(): bool
      reads this
    {
      gameMode != "pvp"
    }

    /** `updateScore(result)` */
    method UpdateScore(result: Result)
      requires Valid()
      modifies this`xWins, this`oWins, this`draws
      ensures Valid()
      ensures Snap() == Record(old(Snap()), result)
    {
      match result
      case Win(X) => xWins := xWins + 1;
      case Win(O) => oWins := oWins + 1;
      case Draw => draws := draws + 1;
    }

    /** `checkGameOver(player)` */
    method CheckGameOver(player: Player) returns (over: bool)
      requires Valid()
      modifies this`gameActive, this`xWins, this`oWins, this`draws
      ensures Valid()
      ensures (Snap(), over) == CheckOver(old(Snap()), player)
    {
      if IsWinner(player) {
        WinnerIffLine(gameState[..], player);
        UpdateScore(Win(player));
        gameActive := false;
        return true;
      }
      if IsFull(gameState[..]) {
        UpdateScore(Draw);
        gameActive := false;
        return true;
      }
      WinnerIffLine(gameState[..], player);
      return false;
    }

    /** `getAIMove(mode)` over the live board, with the random draws as
        parameters; the board is only read. */
    method GetAIMove(mode: string, coin: bool, k: nat) returns (aiMove: Option<nat>)
      requires Valid() && DrawFits(gameState[..], k)
      ensures aiMove == AIChoice(gameState[..], mode, coin, k)
    {
      var emptyIndices := EmptyIndices(gameState[..]);
      if mode == "easy" {
        return RandomPick(emptyIndices, k);
      }
      if mode == "medium" && coin {
        return RandomPick(emptyIndices, k);
      }
      var best := MinimaxSearch(gameState, O);
      aiMove := IndexOf(best);
    }

    /** The callback `handleCellClick` hands to `setTimeout`: O's move, the
        game-over check, and the turn switch if the game goes on. When
        `getAIMove` yields no cell, `makeMove` fails before changing
        anything. */
    method ReplyCallback(coin: bool, k: nat)
      requires Valid() && DrawFits(gameState[..], k)
      modifies this`currentPlayer, this`gameActive, this`xWins, this`oWins, this`draws, gameState
      ensures Valid()
      ensures Snap() == AIReply(old(Snap()), coin, k)
    {
      var aiMove := GetAIMove(gameMode, coin, k);
      match aiMove {
        case None =>
        case Some(j) =>
          MakeMove(j, O);
          var done := CheckGameOver(O);
          if !done {
            SwitchTurn();
          }
      }
    }

    /** `handleCellClick` on cell `index`; in a game against the computer
        O's reply is applied at once. */
    method HandleCellClick(index: nat, coin: bool, k: nat)
      requires Valid() && index < 9 && ReplyDrawFits(Snap(), k)
      modifies this`currentPlayer, this`gameActive, this`xWins, this`oWins, this`draws, gameState
      ensures Valid()
      ensures Snap() == Click(old(Snap()), index, coin, k)
      ensures old(Consistent(Snap())) ==> Consistent(Snap())
    {
      ghost var g := Snap();
      if Consistent(g) {
        ClickKeepsConsistent(g, index, coin, k);
      }
      if !gameActive || gameState[index] != Empty {
        return;
      }
      EmptyCountFill(gameState[..], index, Mark(currentPlayer));
      MakeMove(index, currentPlayer);
      var over := CheckGameOver(currentPlayer);
      if over {
        return;
      }
      SwitchTurn();
      assert ClickNow(g, index) == (Snap(), IsAIPlaying() && currentPlayer == O);
      if IsAIPlaying() && currentPlayer == O {
        ReplyCallback(coin, k);
      }
    }
  }
}

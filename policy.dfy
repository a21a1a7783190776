/**
 * `getAIMove` of tic-tac-toe/script.js. The two calls to `Math.random`
 * are parameters: `coin` is the outcome of `Math.random() < 0.5` in medium
 * mode (true picks the random branch) and `k` is the position
 * `Math.floor(Math.random() * emptyIndices.length)` in the list of empty
 * cells.
 */
module Policy {
  import opened Board
  import opened Search
  import opened Wrappers

  /** `emptyIndices[k]`; reading past the end (an empty list) gives
      `undefined`. */
  function RandomPick(empty: seq<nat>, k: nat): (r: Option<nat>)
    ensures r.Some? <==> k < |empty|
    ensures r.Some? ==> r.value in empty
  {
    if k < |empty| then Some(empty[k]) else None
  }

  /** `k` is a position `Math.floor(Math.random() * n)` can produce for the
      `n` empty cells of `s` (only 0 when there are none). */
  predicate DrawFits(s: Board, k: nat)
  {
    k == 0 || k < |EmptyIndices(s)|
  }

  /** `minimax(gameState, "O").index`: on a board with no winner and an
      empty cell, an empty cell whose score is O's best, the lowest such
      cell on ties; `undefined` on a terminal board. */
  function HardMove(s: Board): (r: Option<nat>)
    ensures r.Some? ==> r.value < 9 && s[r.value] == Empty
    ensures r.Some? <==> !IsWinnerFromState(s, X) && !IsWinnerFromState(s, O) && !IsFull(s)
    ensures r.Some? ==> forall j: nat :: j < 9 && s[j] == Empty ==>
              ChildScore(s, O, j) <= ChildScore(s, O, r.value)
    ensures r.Some? ==> forall j: nat :: j < r.value && s[j] == Empty ==>
              ChildScore(s, O, j) < ChildScore(s, O, r.value)
  {
    MinimaxTerminal(s, O);
    if !IsWinnerFromState(s, X) && !IsWinnerFromState(s, O) && !IsFull(s) then
      MinimaxChoice(s, O);
      IndexOf(Minimax(s, O))
    else
      IndexOf(Minimax(s, O))
  }

  /** `getAIMove(mode)`: "easy" draws a random empty cell, "medium" draws
      one when the coin says so and otherwise plays as hard, and every other
      token (not only "hard") plays the minimax move. On a board that is
      still open (no line, an empty cell) the move is always an empty
      cell. */
  function AIChoice(s: Board, mode: string, coin: bool, k: nat): (r: Option<nat>)
    requires DrawFits(s, k)
    ensures r.Some? ==> r.value < 9 && s[r.value] == Empty
    ensures !IsFull(s) && !IsWinnerFromState(s, X) && !IsWinnerFromState(s, O) ==> r.Some?
    ensures mode == "easy" || (mode == "medium" && coin) ==>
              (r.Some? <==> !IsFull(s)) && (r.Some? ==> r.value == EmptyIndices(s)[k])
    ensures mode != "easy" && !(mode == "medium" && coin) ==> r == HardMove(s)
  {
    var empty := EmptyIndices(s);
    if mode == "easy" then
      RandomPick(empty, k)
    else if mode == "medium" then
      if coin then RandomPick(empty, k) else HardMove(s)
    else
      HardMove(s)
  }

  /** Easy mode can reach every empty cell: for each one some draw picks
      it, whatever the coin. */
  lemma EasyReachesEveryEmptyCell(s: Board, j: nat, coin: bool)
    requires j < 9 && s[j] == Empty
    ensures exists k: nat :: DrawFits(s, k) && AIChoice(s, "easy", coin, k) == Some(j)
  {
    var e := EmptyIndices(s);
    assert j in e;
    var k :| 0 <= k < |e| && e[k] == j;
    assert DrawFits(s, k) && AIChoice(s, "easy", coin, k) == Some(j);
  }

  /** Medium mode plays randomly on one coin outcome and as hard on the
      other. */
  lemma MediumMixesBoth(s: Board, k: nat)
    requires DrawFits(s, k)
    ensures AIChoice(s, "medium", false, k) == AIChoice(s, "hard", true, 0)
    ensures AIChoice(s, "medium", true, k) == AIChoice(s, "easy", false, k)
  {
  }
}

/**
 * `minimax` of tic-tac-toe/script.js. `Minimax` is the search as a
 * function: terminal scores -10 / +10 / 0 (X win first, then O win, then a
 * full board), otherwise one child per empty cell in ascending order and a
 * left fold with strict comparison that O maximises and X minimises.
 * `MinimaxSearch` is the search as the source runs it: it copies the array
 * for every branch, collects the moves in a loop and then reduces them.
 */
module Search {
  import opened Board
  import opened Wrappers

  /** What `minimax` returns: `{ score }` at a terminal board, otherwise the
      chosen move `{ index, score }`. */
  datatype Eval = Leaf(score: int) | Choice(index: nat, score: int)

  /** One entry of the local `moves` array. */
  datatype Move = Move(index: nat, score: int)

  /** The reduce step: `move.score > best.score` for O, `<` for X. */
  predicate Beats(p: Player, a: int, b: int)
  {
    if p == O then a > b else a < b
  }

  function Better(p: Player, best: Move, m: Move): Move
  {
    if Beats(p, m.score, best.score) then m else best
  }

  /** `moves.reduce(...)` without an initial value: a left fold that starts
      from the first move. */
  function Reduce(p: Player, best: Move, rest: seq<Move>): Move
    decreases |rest|
  {
    if rest == [] then best else Reduce(p, Better(p, best, rest[0]), rest[1..])
  }

  function Minimax(s: Board, p: Player): Eval
    decreases EmptyCells(s), 2, 0
  {
    if IsWinnerFromState(s, X) then Leaf(-10)
    else if IsWinnerFromState(s, O) then Leaf(10)
    else if |EmptyIndices(s)| == 0 then Leaf(0)
    else
      var moves := Moves(s, p, EmptyIndices(s));
      var best := Reduce(p, moves[0], moves[1..]);
      Choice(best.index, best.score)
  }

  /** Every listed index is an empty cell of `s`. */
  predicate AllEmpty(s: Board, idx: seq<nat>)
  {
    forall k :: 0 <= k < |idx| ==> idx[k] < 9 && s[idx[k]] == Empty
  }

  /** The `for` loop over the empty cells, one move per cell, in order. */
  function Moves(s: Board, p: Player, idx: seq<nat>): (ms: seq<Move>)
    requires AllEmpty(s, idx)
    ensures |ms| == |idx|
    decreases EmptyCells(s), 1, |idx|
  {
    if idx == [] then []
    else
      assert AllEmpty(s, idx[1..]) by {
        forall k | 0 <= k < |idx[1..]| ensures idx[1..][k] < 9 && s[idx[1..][k]] == Empty {
          assert idx[1..][k] == idx[k + 1];
        }
      }
      [Move(idx[0], ChildScore(s, p, idx[0]))] + Moves(s, p, idx[1..])
  }

  /** The score of the search after `p` plays cell `j` (a fresh copy of the
      board with `p` written into `j`; the opponent moves next). */
  function ChildScore(s: Board, p: Player, j: nat): int
    requires j < 9 && s[j] == Empty
    decreases EmptyCells(s), 0, 0
  {
    FillShrinks(s, j, Mark(p));
    Minimax(s[j := Mark(p)], Other(p)).score
  }

  // ---------------------------------------------------------------------
  // The fold picks the first best move.

  predicate Ascending(ms: seq<Move>)
  {
    forall a, b :: 0 <= a < b < |ms| ==> ms[a].index < ms[b].index
  }

  /** Over moves in ascending cell order, the fold returns one of them that
      no move beats, and it beats every move at a lower cell: the first
      best one. */
  lemma {:induction false} ReduceFirstBest(p: Player, best: Move, rest: seq<Move>)
    requires Ascending([best] + rest)
    ensures var r := Reduce(p, best, rest);
      && (r == best || r in rest)
      && !Beats(p, best.score, r.score)
      && (forall m :: m in rest ==> !Beats(p, m.score, r.score))
      && (best.index < r.index ==> Beats(p, r.score, best.score))
      && (forall m :: m in rest && m.index < r.index ==> Beats(p, r.score, m.score))
    decreases |rest|
  {
    if rest != [] {
      var ms := [best] + rest;
      assert ms[1] == rest[0];
      var b := Better(p, best, rest[0]);
      var tail := rest[1..];
      assert Ascending([b] + tail) by {
        forall a, c | 0 <= a < c < |[b] + tail| ensures ([b] + tail)[a].index < ([b] + tail)[c].index {
          if a == 0 {
            assert ([b] + tail)[c] == ms[c + 1];
            assert b == ms[0] || b == ms[1];
          } else {
            assert ([b] + tail)[a] == ms[a + 1];
            assert ([b] + tail)[c] == ms[c + 1];
          }
        }
      }
      ReduceFirstBest(p, b, tail);
      var r := Reduce(p, best, rest);
      assert r == Reduce(p, b, tail);
      assert best.index < rest[0].index by { assert ms[0].index < ms[1].index; }
      forall m | m in rest ensures !Beats(p, m.score, r.score) {
        if m != rest[0] {
          assert m in tail;
        }
      }
      forall m | m in rest && m.index < r.index ensures Beats(p, r.score, m.score) {
        if m != rest[0] {
          assert m in tail;
        } else if r in tail {
          var c :| 0 <= c < |tail| && tail[c] == r;
          assert ms[c + 2] == r;
        }
      }
      if r in tail {
        var c :| 0 <= c < |tail| && tail[c] == r;
        assert ms[c + 2] == r;
        assert r in rest;
      }
    }
  }

  lemma {:induction false} MovesAt(s: Board, p: Player, idx: seq<nat>, k: nat)
    requires AllEmpty(s, idx)
    requires k < |idx|
    ensures Moves(s, p, idx)[k] == Move(idx[k], ChildScore(s, p, idx[k]))
    decreases k
  {
    if k > 0 {
      assert AllEmpty(s, idx[1..]) by {
        forall k' | 0 <= k' < |idx[1..]| ensures idx[1..][k'] < 9 && s[idx[1..][k']] == Empty {
          assert idx[1..][k'] == idx[k' + 1];
        }
      }
      MovesAt(s, p, idx[1..], k - 1);
    }
  }

  /** The fold over the moves of an ascending list of empty cells returns
      the move of one of those cells; no listed cell scores better and every
      listed cell below it scores strictly worse. */
  lemma MovesFirstBest(s: Board, p: Player, e: seq<nat>)
    requires AllEmpty(s, e) && e != []
    requires forall a, b :: 0 <= a < b < |e| ==> e[a] < e[b]
    ensures var ms := Moves(s, p, e);
      var best := Reduce(p, ms[0], ms[1..]);
      && best.index in e
      && best.score == ChildScore(s, p, best.index)
      && (forall k :: 0 <= k < |e| ==> !Beats(p, ChildScore(s, p, e[k]), best.score))
      && (forall k :: 0 <= k < |e| && e[k] < best.index ==> Beats(p, best.score, ChildScore(s, p, e[k])))
  {
    var ms := Moves(s, p, e);
    forall k | 0 <= k < |ms| ensures ms[k] == Move(e[k], ChildScore(s, p, e[k])) {
      MovesAt(s, p, e, k);
    }
    assert Ascending(ms);
    assert [ms[0]] + ms[1..] == ms;
    ReduceFirstBest(p, ms[0], ms[1..]);
    var best := Reduce(p, ms[0], ms[1..]);
    assert best in ms;
    forall k | 0 <= k < |e| ensures ms[k] == ms[0] || ms[k] in ms[1..] {
      if k > 0 { assert ms[k] == ms[1..][k - 1]; }
    }
  }

  /** The non-terminal case of the search, spelled out. */
  lemma MinimaxUnfold(s: Board, p: Player)
    requires !IsWinnerFromState(s, X) && !IsWinnerFromState(s, O)
    requires EmptyIndices(s) != []
    ensures var ms := Moves(s, p, EmptyIndices(s));
      var best := Reduce(p, ms[0], ms[1..]);
      Minimax(s, p) == Choice(best.index, best.score)
  {
  }

  /** On a board with no winner and an empty cell, the search plays an
      empty cell whose score it reports; no empty cell scores better for
      the mover (max for O, min for X), and every empty cell below it
      scores strictly worse, so ties go to the lowest index. */
  lemma MinimaxChoice(s: Board, p: Player)
    requires !IsWinnerFromState(s, X) && !IsWinnerFromState(s, O)
    requires EmptyIndices(s) != []
    ensures Minimax(s, p).Choice?
    ensures Minimax(s, p).index < 9 && s[Minimax(s, p).index] == Empty
    ensures Minimax(s, p).score == ChildScore(s, p, Minimax(s, p).index)
    ensures forall j: nat :: j < 9 && s[j] == Empty ==>
              !Beats(p, ChildScore(s, p, j), Minimax(s, p).score)
    ensures forall j: nat :: j < Minimax(s, p).index && s[j] == Empty ==>
              Beats(p, Minimax(s, p).score, ChildScore(s, p, j))
  {
    var e := EmptyIndices(s);
    assert AllEmpty(s, e) by {
      forall k | 0 <= k < |e| ensures e[k] < 9 && s[e[k]] == Empty {
        assert e[k] in e;
      }
    }
    MovesFirstBest(s, p, e);
    MinimaxUnfold(s, p);
    var r := Minimax(s, p);
    forall j: nat | j < 9 && s[j] == Empty ensures !Beats(p, ChildScore(s, p, j), r.score) {
      assert j in e;
      var k :| 0 <= k < |e| && e[k] == j;
    }
    forall j: nat | j < r.index && s[j] == Empty ensures Beats(p, r.score, ChildScore(s, p, j)) {
      assert j in e;
      var k :| 0 <= k < |e| && e[k] == j;
    }
  }

  /** Every score the search reports is -10, 0 or +10: no depth discount. */
  lemma {:induction false} MinimaxScoreRange(s: Board, p: Player)
    ensures Minimax(s, p).score == -10 || Minimax(s, p).score == 0 || Minimax(s, p).score == 10
    decreases EmptyCells(s)
  {
    if !IsWinnerFromState(s, X) && !IsWinnerFromState(s, O) && EmptyIndices(s) != [] {
      MinimaxChoice(s, p);
      var j := Minimax(s, p).index;
      FillShrinks(s, j, Mark(p));
      MinimaxScoreRange(s[j := Mark(p)], Other(p));
    }
  }

  /** The terminal checks, in the source's order: an X line scores -10 even
      when O also has one, then an O line +10, then a full board 0; any
      other board yields a move. */
  lemma MinimaxTerminal(s: Board, p: Player)
    ensures IsWinnerFromState(s, X) ==> Minimax(s, p) == Leaf(-10)
    ensures !IsWinnerFromState(s, X) && IsWinnerFromState(s, O) ==> Minimax(s, p) == Leaf(10)
    ensures !IsWinnerFromState(s, X) && !IsWinnerFromState(s, O) && IsFull(s) ==> Minimax(s, p) == Leaf(0)
    ensures Minimax(s, p).Leaf? <==> IsWinnerFromState(s, X) || IsWinnerFromState(s, O) || IsFull(s)
  {
    if !IsWinnerFromState(s, X) && !IsWinnerFromState(s, O) && !IsFull(s) {
      MinimaxChoice(s, p);
    }
  }

  /** When the mover can complete a line at once, the search values the
      board as a win for the mover: +10 for O, -10 for X. */
  lemma MinimaxSeesImmediateWin(s: Board, p: Player, j: nat)
    requires !IsWinnerFromState(s, X) && !IsWinnerFromState(s, O)
    requires j < 9 && s[j] == Empty && IsWinnerFromState(s[j := Mark(p)], p)
    ensures Minimax(s, p).score == if p == O then 10 else -10
  {
    assert j in EmptyIndices(s);
    MinimaxChoice(s, p);
    PlacingKeepsOtherLines(s, j, p, Other(p));
    OtherInvolutive(p);
    assert ChildScore(s, p, j) == if p == O then 10 else -10;
    MinimaxScoreRange(s, p);
  }

  // ---------------------------------------------------------------------
  // The search as the source runs it.

  /** `Eval` to the `index` field the caller reads (`undefined` at a leaf). */
  function IndexOf(e: Eval): Option<nat>
  {
    match e
    case Leaf(_) => None
    case Choice(i, _) => Some(i)
  }

  /** `[...state]` followed by `newState[i] = mark`: a fresh array. */
  method CopyWith(state: array<Cell>, i: nat, mark: Cell) returns (newState: array<Cell>)
    requires i < state.Length
    ensures fresh(newState)
    ensures newState[..] == state[..][i := mark]
  {
    newState := new Cell[state.Length](j reads state requires 0 <= j < state.Length => state[j]);
    newState[i] := mark;
  }

  /** `moves.reduce(...)`: the best move, keeping the earlier one on ties. */
  method ReduceMoves(player: Player, moves: seq<Move>) returns (best: Move)
    requires moves != []
    ensures best == Reduce(player, moves[0], moves[1..])
  {
    best := moves[0];
    for j := 1 to |moves|
      invariant Reduce(player, best, moves[j..]) == Reduce(player, moves[0], moves[1..])
    {
      assert moves[j..] == [moves[j]] + moves[j + 1..];
      if (player == O && moves[j].score > best.score) || (player == X && moves[j].score < best.score) {
        best := moves[j];
      }
    }
  }

  /** `minimax(state, player)` over the caller's array. The method has no
      `modifies` clause, so it cannot write to `state`: every branch writes
      into a fresh copy. */
  method MinimaxSearch(state: array<Cell>, player: Player) returns (r: Eval)
    requires state.Length == 9
    ensures r == Minimax(state[..], player)
    decreases EmptyCells(state[..]), 1
  {
    var s: Board := state[..];
    var empty := EmptyIndices(s);

    if IsWinnerFromState(s, X) { return Leaf(-10); }
    if IsWinnerFromState(s, O) { return Leaf(10); }
    if |empty| == 0 { return Leaf(0); }

    assert AllEmpty(s, empty) by {
      forall k | 0 <= k < |empty| ensures empty[k] < 9 && s[empty[k]] == Empty {
        assert empty[k] in empty;
      }
    }
    var moves := CollectMoves(state, player, empty);
    var best := ReduceMoves(player, moves);
    MinimaxUnfold(s, player);
    r := Choice(best.index, best.score);
  }

  /** The `for` loop of `minimax`: for each listed empty cell, a fresh copy
      of the board with the mover's mark in it, searched for the opponent. */
  method CollectMoves(state: array<Cell>, player: Player, empty: seq<nat>) returns (moves: seq<Move>)
    requires state.Length == 9 && AllEmpty(state[..], empty)
    ensures moves == Moves(state[..], player, empty)
    decreases EmptyCells(state[..]), 0
  {
    ghost var s: Board := state[..];
    moves := [];
    for i := 0 to |empty|
      invariant |moves| == i
      invariant forall k :: 0 <= k < i ==> moves[k] == Moves(s, player, empty)[k]
    {
      var newState := CopyWith(state, empty[i], Mark(player));
      FillShrinks(s, empty[i], Mark(player));
      var result := MinimaxSearch(newState, Other(player));
      MovesAt(s, player, empty, i);
      assert Move(empty[i], result.score) == Moves(s, player, empty)[i];
      moves := moves + [Move(empty[i], result.score)];
    }
  }
}

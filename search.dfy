/** The move selector: exhaustive minimax without pruning, first as a pure
    specification over board values, then as the method that searches the
    shared board in place and undoes every trial move. */
module Search {
  import opened Evaluator

  datatype Option<T> = None | Some(value: T)

  /** A candidate move: the cell played (absent at a terminal board) and its score. */
  datatype Move = Move(index: Option<Index>, score: int)

  /** The empty cells of `b`, listed in ascending index order. */
  function Avail(b: seq<Cell>): (spots: seq<nat>)
    ensures forall k :: 0 <= k < |spots| ==> spots[k] < |b| && b[spots[k]] == Empty
    ensures forall i :: 0 <= i < |b| && b[i] == Empty ==> i in spots
    ensures forall k, l :: 0 <= k < l < |spots| ==> spots[k] < spots[l]
    ensures |spots| == Count(b, Empty)
  {
    if b == [] then []
    else
      var n := |b| - 1;
      assert forall i :: 0 <= i < n ==> b[..n][i] == b[i];
      Avail(b[..n]) + (if b[n] == Empty then [n] else [])
  }

  /** A board on which the search stops: somebody has won or no cell is left. */
  predicate Terminal(b: Board)
  {
    CheckWin(b, X) || CheckWin(b, O) || Avail(b) == []
  }

  /** Whether score `s` is strictly preferred to `t` by `player`: O maximises, X minimises. */
  predicate Better(player: Mark, s: int, t: int)
  {
    if player == O then s > t else s < t
  }

  /** The position of the first best-scoring move, as a left-to-right scan with a
      strict comparison finds it. */
  function FirstBest(moves: seq<Move>, player: Mark): (k: nat)
    requires |moves| > 0
    ensures k < |moves|
    ensures forall j :: 0 <= j < |moves| ==> !Better(player, moves[j].score, moves[k].score)
    ensures forall j :: 0 <= j < k ==> Better(player, moves[k].score, moves[j].score)
  {
    if |moves| == 1 then 0
    else
      var n := |moves| - 1;
      var k := FirstBest(moves[..n], player);
      assert forall j :: 0 <= j < n ==> moves[..n][j] == moves[j];
      if Better(player, moves[n].score, moves[k].score) then n else k
  }

  /** The scores the three kinds of terminal board receive. */
  predicate IsScore(s: int)
  {
    s == -10 || s == 0 || s == 10
  }

  /** The minimax result for `player` to move on `b`. */
  function MinimaxValue(b: Board, player: Mark): (m: Move)
    decreases Count(b, Empty), 1
    ensures IsScore(m.score)
    ensures m.index.None? <==> Terminal(b)
    ensures m.index.Some? ==> b[m.index.value] == Empty
  {
    var spots := Avail(b);
    if CheckWin(b, X) then Move(None, -10)
    else if CheckWin(b, O) then Move(None, 10)
    else if |spots| == 0 then Move(None, 0)
    else
      var moves := Candidates(b, player, spots);
      moves[FirstBest(moves, player)]
  }

  /** One move per spot, in the order of `spots`, each scored by the other player's search. */
  function Candidates(b: Board, player: Mark, spots: seq<nat>): (moves: seq<Move>)
    requires forall k :: 0 <= k < |spots| ==> spots[k] < 9 && b[spots[k]] == Empty
    decreases Count(b, Empty), 0, |spots|
    ensures |moves| == |spots|
    ensures forall k :: 0 <= k < |moves| ==> moves[k].index == Some(spots[k] as Index) && IsScore(moves[k].score)
  {
    if spots == [] then []
    else
      var n := |spots| - 1;
      var i: Index := spots[n];
      assert forall k :: 0 <= k < n ==> spots[..n][k] == spots[k];
      CountUpdate(b, i, player, Empty);
      var rest := Candidates(b, player, spots[..n]);
      var last := Move(Some(i), MinimaxValue(b[i := player], Other(player)).score);
      assert forall k :: 0 <= k < n ==> (rest + [last])[k] == rest[k];
      rest + [last]
  }

  /** The `k`-th candidate is scored by searching the board with that cell played. */
  lemma {:induction false} CandidateAt(b: Board, player: Mark, spots: seq<nat>, k: nat)
    requires forall k :: 0 <= k < |spots| ==> spots[k] < 9 && b[spots[k]] == Empty
    requires k < |spots|
    ensures Candidates(b, player, spots)[k].score == MinimaxValue(b[spots[k] := player], Other(player)).score
  {
    var n := |spots| - 1;
    if k < n {
      CandidateAt(b, player, spots[..n], k);
    }
  }

  /** Scoring one more spot appends one move to the candidates. */
  lemma CandidatesExtend(b: Board, player: Mark, spots: seq<nat>, k: nat)
    requires forall k :: 0 <= k < |spots| ==> spots[k] < 9 && b[spots[k]] == Empty
    requires k < |spots|
    ensures Candidates(b, player, spots[..k + 1]) ==
      Candidates(b, player, spots[..k]) + [Move(Some(spots[k] as Index), MinimaxValue(b[spots[k] := player], Other(player)).score)]
  {
    assert spots[..k + 1][..k] == spots[..k];
  }

  /** The terminal checks come in a fixed order and yield no move: an X win scores
      -10, else an O win scores 10, else a full board scores 0. */
  lemma TerminalScores(b: Board, player: Mark)
    ensures CheckWin(b, X) ==> MinimaxValue(b, player) == Move(None, -10)
    ensures !CheckWin(b, X) && CheckWin(b, O) ==> MinimaxValue(b, player) == Move(None, 10)
    ensures !CheckWin(b, X) && !CheckWin(b, O) && Full(b) ==> MinimaxValue(b, player) == Move(None, 0)
  {
    if Full(b) {
      FullIffNoEmpty(b);
    }
  }

  /** A terminal board is one with a win or with no empty cell. */
  lemma TerminalIff(b: Board)
    ensures Terminal(b) <==> CheckWin(b, X) || CheckWin(b, O) || Full(b)
  {
    FullIffNoEmpty(b);
  }

  /** On a board still in play the chosen cell is empty, its score is the search
      of the board with it played, no empty cell scores better for the mover, and
      every empty cell with a lower index scores strictly worse. */
  lemma {:induction false} ChoiceIsFirstOptimal(b: Board, player: Mark)
    requires !Terminal(b)
    ensures MinimaxValue(b, player).index.Some?
    ensures var m := MinimaxValue(b, player);
      var i := m.index.value;
      b[i] == Empty && m.score == MinimaxValue(b[i := player], Other(player)).score
    ensures var m := MinimaxValue(b, player);
      forall j: Index :: b[j] == Empty ==>
        !Better(player, MinimaxValue(b[j := player], Other(player)).score, m.score)
    ensures var m := MinimaxValue(b, player);
      forall j: Index :: j < m.index.value && b[j] == Empty ==>
        Better(player, m.score, MinimaxValue(b[j := player], Other(player)).score)
  {
    ChoiceScore(b, player);
    ChoiceCompared(b, player);
  }

  /** The chosen cell is empty and carries the score of the board with it played. */
  lemma ChoiceScore(b: Board, player: Mark)
    requires !Terminal(b)
    ensures MinimaxValue(b, player).index.Some?
    ensures var m := MinimaxValue(b, player);
      var i := m.index.value;
      b[i] == Empty && m.score == MinimaxValue(b[i := player], Other(player)).score
  {
    var k := ChosenCandidate(b, player);
  }

  /** Every empty cell scores no better than the choice, and strictly worse when its index is lower. */
  lemma ChoiceCompared(b: Board, player: Mark)
    requires !Terminal(b)
    ensures var m := MinimaxValue(b, player);
      forall j: Index :: b[j] == Empty ==>
        !Better(player, MinimaxValue(b[j := player], Other(player)).score, m.score)
    ensures var m := MinimaxValue(b, player);
      forall j: Index :: j < m.index.value && b[j] == Empty ==>
        Better(player, m.score, MinimaxValue(b[j := player], Other(player)).score)
  {
    forall j: Index | b[j] == Empty
      ensures !Better(player, MinimaxValue(b[j := player], Other(player)).score, MinimaxValue(b, player).score)
      ensures j < MinimaxValue(b, player).index.value ==>
        Better(player, MinimaxValue(b, player).score, MinimaxValue(b[j := player], Other(player)).score)
    {
      CellComparedToChoice(b, player, j);
    }
  }

  /** On a board in play the search returns the first best of the candidates. */
  lemma ChosenCandidate(b: Board, player: Mark) returns (k: nat)
    requires !Terminal(b)
    ensures k < |Avail(b)| && k == FirstBest(Candidates(b, player, Avail(b)), player)
    ensures MinimaxValue(b, player) == Candidates(b, player, Avail(b))[k]
    ensures MinimaxValue(b, player).index == Some(Avail(b)[k] as Index)
    ensures MinimaxValue(b, player).score == MinimaxValue(b[Avail(b)[k] := player], Other(player)).score
  {
    var spots := Avail(b);
    var moves := Candidates(b, player, spots);
    k := FirstBest(moves, player);
    CandidateAt(b, player, spots, k);
  }

  /** One empty cell measured against the search's choice: it scores no better, and
      strictly worse when its index is lower. */
  lemma CellComparedToChoice(b: Board, player: Mark, j: Index)
    requires !Terminal(b) && b[j] == Empty
    ensures !Better(player, MinimaxValue(b[j := player], Other(player)).score, MinimaxValue(b, player).score)
    ensures j < MinimaxValue(b, player).index.value ==>
      Better(player, MinimaxValue(b, player).score, MinimaxValue(b[j := player], Other(player)).score)
  {
    var k := ChosenCandidate(b, player);
    var q := CellCandidate(b, player, j);
  }

  /** Every empty cell has a candidate, scored by searching the board with that cell played. */
  lemma CellCandidate(b: Board, player: Mark, j: Index) returns (q: nat)
    requires b[j] == Empty
    ensures q < |Avail(b)| && Avail(b)[q] == j
    ensures forall k :: 0 <= k < |Avail(b)| && j < Avail(b)[k] ==> q < k
    ensures Candidates(b, player, Avail(b))[q].score == MinimaxValue(b[j := player], Other(player)).score
  {
    q := SpotPosition(b, j);
    CandidateAt(b, player, Avail(b), q);
  }

  /** An empty cell has a place in the list of spots, and a lower cell has an earlier place. */
  lemma SpotPosition(b: Board, j: Index) returns (q: nat)
    requires b[j] == Empty
    ensures q < |Avail(b)| && Avail(b)[q] == j
    ensures forall k :: 0 <= k < |Avail(b)| && j < Avail(b)[k] ==> q < k
  {
    var spots := Avail(b);
    q :| 0 <= q < |spots| && spots[q] == j;
  }

  /** The score a win for `p` receives. */
  function WinScore(p: Mark): int
  {
    if p == O then 10 else -10
  }

  /** When the mover can complete a line at once, the search scores the board as a
      win for the mover (the chosen cell may be a slower win: scores are not
      discounted by depth). */
  lemma WinInOne(b: Board, player: Mark, j: Index)
    requires !Terminal(b) && b[j] == Empty && CheckWin(b[j := player], player)
    ensures MinimaxValue(b, player).score == WinScore(player)
  {
    ChoiceIsFirstOptimal(b, player);
    if player == O {
      PlaceKeepsOtherWinless(b, j, O, X);
    }
  }

  /** If O plays an empty cell of a board with an X fork, the board is neither full nor won by X, and X still has a cell that completes a line. */
  lemma ForkSurvives(b: Board, j1: Index, j2: Index, j: Index) returns (t: Index)
    requires !CheckWin(b, X) && j1 != j2 && b[j1] == Empty && b[j2] == Empty
    requires CheckWin(b[j1 := X], X) && CheckWin(b[j2 := X], X)
    requires b[j] == Empty
    ensures !CheckWin(b[j := O], X) && !Full(b[j := O])
    ensures b[j := O][t] == Empty && CheckWin(b[j := O][t := X], X)
  {
    var c := b[j := O];
    t := if j1 != j then j1 else j2;
    PlaceKeepsOtherWinless(b, j, O, X);
    assert c[t] == Empty;
    WriteOffLineKeepsWin(b[t := X], j, O, X);
    assert b[t := X][j := O] == c[t := X];
  }

  /** So every such child is scored as an X win. */
  lemma ForkChildLoses(b: Board, j1: Index, j2: Index, j: Index)
    requires !Terminal(b) && j1 != j2 && b[j1] == Empty && b[j2] == Empty
    requires CheckWin(b[j1 := X], X) && CheckWin(b[j2 := X], X)
    requires b[j] == Empty && !CheckWin(b[j := O], O)
    ensures MinimaxValue(b[j := O], X).score == -10
  {
    var t := ForkSurvives(b, j1, j2, j);
    TerminalIff(b[j := O]);
    WinInOne(b[j := O], X, t);
  }

  /** When X threatens two different completing cells and no O move wins at once,
      every O move loses, so the board is scored -10. */
  lemma ForkLoses(b: Board, j1: Index, j2: Index)
    requires !Terminal(b) && j1 != j2 && b[j1] == Empty && b[j2] == Empty
    requires CheckWin(b[j1 := X], X) && CheckWin(b[j2 := X], X)
    requires forall j: Index :: b[j] == Empty ==> !CheckWin(b[j := O], O)
    ensures MinimaxValue(b, O).score == -10
  {
    ChoiceIsFirstOptimal(b, O);
    var i := MinimaxValue(b, O).index.value;
    ForkChildLoses(b, j1, j2, i);
  }

  /** The selection scan: a strict comparison against the best score so far, which
      starts below every score for O (in place of minus infinity) and above every
      score for X (in place of infinity), so the first best move is kept. */
  method ChooseBest(moves: seq<Move>, player: Mark) returns (bestMove: nat)
    requires |moves| > 0
    requires forall j :: 0 <= j < |moves| ==> IsScore(moves[j].score)
    ensures bestMove == FirstBest(moves, player)
  {
    bestMove := 0;
    var bestScore := if player == O then -11 else 11;
    var n := 0;
    while n < |moves|
      invariant 0 <= n <= |moves|
      invariant n == 0 ==> bestScore == (if player == O then -11 else 11)
      invariant n > 0 ==> bestMove == FirstBest(moves[..n], player) && bestScore == moves[bestMove].score
    {
      if Better(player, moves[n].score, bestScore) {
        bestScore := moves[n].score;
        bestMove := n;
      }
      assert moves[..n + 1][..n] == moves[..n];
      n := n + 1;
    }
    assert moves[..n] == moves;
  }

  /** The minimax search on the shared board array: the terminal checks, then the
      scoring of every empty cell, then the selection of the first best one. */
  method Minimax(a: array<Cell>, player: Mark) returns (m: Move)
    requires a.Length == 9
    modifies a
    decreases Count(a[..], Empty), 1
    ensures a[..] == old(a[..])
    ensures m == MinimaxValue(old(a[..]), player)
  {
    var spots := Avail(a[..]);

    if CheckWin(a[..], X) { return Move(None, -10); }
    if CheckWin(a[..], O) { return Move(None, 10); }
    if |spots| == 0 { return Move(None, 0); }

    var moves := ScoreMoves(a, player, spots);
    var bestMove := ChooseBest(moves, player);
    m := moves[bestMove];
  }

  /** The loop over the empty cells: each is written into `a`, searched for the
      other player and reset to empty before the next one is tried. */
  method ScoreMoves(a: array<Cell>, player: Mark, spots: seq<nat>) returns (moves: seq<Move>)
    requires a.Length == 9
    requires forall k :: 0 <= k < |spots| ==> spots[k] < 9 && a[spots[k]] == Empty
    modifies a
    decreases Count(a[..], Empty), 0
    ensures a[..] == old(a[..])
    ensures moves == Candidates(old(a[..]), player, spots)
  {
    ghost var b: Board := a[..];
    moves := [];
    var k := 0;
    while k < |spots|
      invariant 0 <= k <= |spots|
      invariant a[..] == b
      invariant moves == Candidates(b, player, spots[..k])
    {
      var i: Index := spots[k];
      a[i] := player;
      assert a[..] == b[i := player];
      CountUpdate(b, i, player, Empty);
      var result := Minimax(a, Other(player));
      a[i] := Empty;
      assert a[..] == b;
      CandidatesExtend(b, player, spots, k);
      moves := moves + [Move(Some(i), result.score)];
      k := k + 1;
    }
    assert spots[..k] == spots;
  }
}

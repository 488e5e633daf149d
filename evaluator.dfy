/** The board and outcome evaluator: the nine cells, the eight winning lines
    and the win check the rest of the game is built on. */
module Evaluator {

  /** A cell holds nothing (the empty string in the page), an X or an O. */
  datatype Cell = Empty | X | O

  /** The mark a player puts down: X for the human, O for the computer. */
  type Mark = c: Cell | c != Empty witness X

  /** An index into the 3x3 grid, row by row. */
  type Index = i: nat | i < 9

  /** The board: nine cells in row-major order. */
  type Board = b: seq<Cell> | |b| == 9 witness [Empty, Empty, Empty, Empty, Empty, Empty, Empty, Empty, Empty]

  const EmptyBoard: Board := [Empty, Empty, Empty, Empty, Empty, Empty, Empty, Empty, Empty]

  /** The player who moves after `p`. */
  function Other(p: Mark): (q: Mark)
    ensures q != p
  {
    if p == O then X else O
  }

  /** The three rows, three columns and two diagonals. */
  const WinPatterns: seq<seq<Index>> :=
    [[0, 1, 2], [3, 4, 5], [6, 7, 8],
     [0, 3, 6], [1, 4, 7], [2, 5, 8],
     [0, 4, 8], [2, 4, 6]]

  /** Every index of `pattern` holds `p`. */
  predicate Filled(b: Board, pattern: seq<Index>, p: Cell)
  {
    forall j :: 0 <= j < |pattern| ==> b[pattern[j]] == p
  }

  /** Some winning pattern is entirely `p`. */
  predicate CheckWin(b: Board, p: Cell)
  {
    exists k :: 0 <= k < |WinPatterns| && Filled(b, WinPatterns[k], p)
  }

  /** No cell is empty. */
  predicate Full(b: Board)
  {
    forall i :: 0 <= i < |b| ==> b[i] != Empty
  }

  // An independent, geometric description of "three in a row".

  predicate Row(b: Board, r: nat, p: Cell)
    requires r < 3
  {
    b[3 * r] == p && b[3 * r + 1] == p && b[3 * r + 2] == p
  }

  predicate Column(b: Board, c: nat, p: Cell)
    requires c < 3
  {
    b[c] == p && b[c + 3] == p && b[c + 6] == p
  }

  predicate ThreeInARow(b: Board, p: Cell)
  {
    (exists r :: 0 <= r < 3 && Row(b, r, p)) ||
    (exists c :: 0 <= c < 3 && Column(b, c, p)) ||
    (b[0] == p && b[4] == p && b[8] == p) ||
    (b[2] == p && b[4] == p && b[6] == p)
  }

  lemma FilledTriple(b: Board, i: Index, j: Index, k: Index, p: Cell)
    ensures Filled(b, [i, j, k], p) <==> b[i] == p && b[j] == p && b[k] == p
  {
    if b[i] == p && b[j] == p && b[k] == p {
      forall n | 0 <= n < 3 ensures b[[i, j, k][n]] == p {
        if n == 0 {} else if n == 1 {} else {}
      }
    }
    if Filled(b, [i, j, k], p) {
      assert b[[i, j, k][0]] == p && b[[i, j, k][1]] == p && b[[i, j, k][2]] == p;
    }
  }

  /** What each entry of the pattern table means on the grid. */
  predicate PatternLine(b: Board, k: nat, p: Cell)
    requires k < 8
  {
    if k < 3 then Row(b, k, p)
    else if k < 6 then Column(b, k - 3, p)
    else if k == 6 then b[0] == p && b[4] == p && b[8] == p
    else b[2] == p && b[4] == p && b[6] == p
  }

  lemma PatternMeaning(b: Board, k: nat, p: Cell)
    requires k < 8
    ensures Filled(b, WinPatterns[k], p) <==> PatternLine(b, k, p)
  {
    var w := WinPatterns[k];
    assert w == [w[0], w[1], w[2]];
    FilledTriple(b, w[0], w[1], w[2], p);
  }

  /** The win check agrees with the rows, columns and diagonals of the grid. */
  lemma CheckWinIsThreeInARow(b: Board, p: Cell)
    ensures CheckWin(b, p) <==> ThreeInARow(b, p)
  {
    if CheckWin(b, p) {
      var k :| 0 <= k < |WinPatterns| && Filled(b, WinPatterns[k], p);
      PatternMeaning(b, k, p);
      if k < 3 {
        assert Row(b, k, p);
      } else if k < 6 {
        assert Column(b, k - 3, p);
      }
    }
    if ThreeInARow(b, p) {
      var k: nat;
      if r :| 0 <= r < 3 && Row(b, r, p) {
        k := r;
      } else if c :| 0 <= c < 3 && Column(b, c, p) {
        k := c + 3;
      } else if b[0] == p && b[4] == p && b[8] == p {
        k := 6;
      } else {
        k := 7;
      }
      PatternMeaning(b, k, p);
      assert Filled(b, WinPatterns[k], p);
    }
  }

  /** The eight lines written out one by one. */
  predicate AnyLine(b: Board, p: Cell)
  {
    Row(b, 0, p) || Row(b, 1, p) || Row(b, 2, p) ||
    Column(b, 0, p) || Column(b, 1, p) || Column(b, 2, p) ||
    (b[0] == p && b[4] == p && b[8] == p) ||
    (b[2] == p && b[4] == p && b[6] == p)
  }

  lemma ThreeInARowIsAnyLine(b: Board, p: Cell)
    ensures ThreeInARow(b, p) <==> AnyLine(b, p)
  {
    if AnyLine(b, p) {
      if Row(b, 0, p) || Row(b, 1, p) || Row(b, 2, p) {
        assert exists r :: 0 <= r < 3 && Row(b, r, p);
      } else if Column(b, 0, p) || Column(b, 1, p) || Column(b, 2, p) {
        assert exists c :: 0 <= c < 3 && Column(b, c, p);
      }
    }
    if ThreeInARow(b, p) {
      if r :| 0 <= r < 3 && Row(b, r, p) {
        assert r == 0 || r == 1 || r == 2;
      } else if c :| 0 <= c < 3 && Column(b, c, p) {
        assert c == 0 || c == 1 || c == 2;
      }
    }
  }

  /** The board turned a quarter turn clockwise. */
  function Rotate(b: Board): Board
  {
    [b[6], b[3], b[0], b[7], b[4], b[1], b[8], b[5], b[2]]
  }

  /** Rotating the board maps the winning lines onto each other, so who has won does not change. */
  lemma CheckWinRotation(b: Board, p: Cell)
    ensures CheckWin(Rotate(b), p) <==> CheckWin(b, p)
  {
    var rb := Rotate(b);
    CheckWinIsThreeInARow(b, p);
    CheckWinIsThreeInARow(rb, p);
    ThreeInARowIsAnyLine(b, p);
    ThreeInARowIsAnyLine(rb, p);
    assert rb[0] == b[6] && rb[1] == b[3] && rb[2] == b[0];
    assert rb[3] == b[7] && rb[4] == b[4] && rb[5] == b[1];
    assert rb[6] == b[8] && rb[7] == b[5] && rb[8] == b[2];
  }

  /** The board mirrored left to right. */
  function Mirror(b: Board): Board
  {
    [b[2], b[1], b[0], b[5], b[4], b[3], b[8], b[7], b[6]]
  }

  /** Mirroring the board maps the winning lines onto each other, so who has won does
      not change. With the quarter turn it generates all eight symmetries of the
      square. */
  lemma CheckWinMirror(b: Board, p: Cell)
    ensures CheckWin(Mirror(b), p) <==> CheckWin(b, p)
  {
    var mb := Mirror(b);
    CheckWinIsThreeInARow(b, p);
    CheckWinIsThreeInARow(mb, p);
    ThreeInARowIsAnyLine(b, p);
    ThreeInARowIsAnyLine(mb, p);
    assert mb[0] == b[2] && mb[1] == b[1] && mb[2] == b[0];
    assert mb[3] == b[5] && mb[4] == b[4] && mb[5] == b[3];
    assert mb[6] == b[8] && mb[7] == b[7] && mb[8] == b[6];
  }

  /** Nobody has a line on the empty board. */
  lemma EmptyBoardNoWin(p: Mark)
    ensures !CheckWin(EmptyBoard, p)
  {
    forall k | 0 <= k < |WinPatterns| ensures !Filled(EmptyBoard, WinPatterns[k], p) {
      assert EmptyBoard[WinPatterns[k][0]] != p;
    }
  }

  /** A move by `p` never completes a line for a different mark `q`. */
  lemma {:induction false} PlaceKeepsOtherWinless(b: Board, i: Index, p: Mark, q: Cell)
    requires p != q && !CheckWin(b, q)
    ensures !CheckWin(b[i := p], q)
  {
    if CheckWin(b[i := p], q) {
      var k :| 0 <= k < |WinPatterns| && Filled(b[i := p], WinPatterns[k], q);
      forall j | 0 <= j < |WinPatterns[k]| ensures b[WinPatterns[k][j]] == q {
        assert b[i := p][WinPatterns[k][j]] == q;
      }
      assert Filled(b, WinPatterns[k], q);
    }
  }

  /** Overwriting a cell that does not hold `p` keeps every line of `p`. */
  lemma WriteOffLineKeepsWin(b: Board, j: Index, v: Cell, p: Cell)
    requires CheckWin(b, p) && b[j] != p
    ensures CheckWin(b[j := v], p)
  {
    var k :| 0 <= k < |WinPatterns| && Filled(b, WinPatterns[k], p);
    forall n | 0 <= n < |WinPatterns[k]| ensures b[j := v][WinPatterns[k][n]] == p {
      assert b[WinPatterns[k][n]] == p;
    }
    assert Filled(b[j := v], WinPatterns[k], p);
  }

  /** The number of cells of `s` that hold `c`. */
  function Count(s: seq<Cell>, c: Cell): nat
  {
    if s == [] then 0 else Count(s[..|s| - 1], c) + (if s[|s| - 1] == c then 1 else 0)
  }

  /** Writing `v` into cell `i` moves one cell from the count of its old content to that of `v`. */
  lemma {:induction false} CountUpdate(s: seq<Cell>, i: nat, v: Cell, c: Cell)
    requires i < |s|
    ensures Count(s[i := v], c) == Count(s, c) - (if s[i] == c then 1 else 0) + (if v == c then 1 else 0)
  {
    var n := |s|;
    if i == n - 1 {
      assert s[i := v][..n - 1] == s[..n - 1];
    } else {
      assert s[i := v][..n - 1] == s[..n - 1][i := v];
      CountUpdate(s[..n - 1], i, v, c);
    }
  }

  /** A mark that appears nowhere counts zero. */
  lemma {:induction false} CountAbsent(s: seq<Cell>, c: Cell)
    requires forall i :: 0 <= i < |s| ==> s[i] != c
    ensures Count(s, c) == 0
  {
    if s != [] {
      var t := s[..|s| - 1];
      forall i | 0 <= i < |t| ensures t[i] != c {
        assert t[i] == s[i];
      }
      CountAbsent(t, c);
    }
  }

  /** A board is full exactly when no cell counts as empty. */
  lemma {:induction false} FullIffNoEmpty(s: seq<Cell>)
    ensures (forall i :: 0 <= i < |s| ==> s[i] != Empty) <==> Count(s, Empty) == 0
  {
    if s != [] {
      var n := |s|;
      var t := s[..n - 1];
      FullIffNoEmpty(t);
      if forall i :: 0 <= i < n ==> s[i] != Empty {
        forall i | 0 <= i < |t| ensures t[i] != Empty {
          assert t[i] == s[i];
        }
      }
      if Count(s, Empty) == 0 {
        forall i | 0 <= i < n ensures s[i] != Empty {
          if i < n - 1 { assert t[i] == s[i]; }
        }
      }
    }
  }
}

/**
 * The tic-tac-toe mini game of the front end: a 3x3 board stored row by row
 * in a nine-cell array, two players taking turns, win and draw detection, and
 * a running score that survives resets.
 */
module TicTacToe {
  import opened Wrappers

  datatype Player = X | O

  function Other(p: Player): Player
  {
    if p == X then O else X
  }

  /** A board cell: `''` or the mark of a player. */
  datatype Cell = Empty | Mark(player: Player)

  datatype Scores = Scores(x: nat, o: nat, draw: nat)

  /** `scores[p]++`. */
  function AddWin(s: Scores, p: Player): (r: Scores)
    ensures r.draw == s.draw
    ensures p == X ==> r.x == s.x + 1 && r.o == s.o
    ensures p == O ==> r.o == s.o + 1 && r.x == s.x
  {
    if p == X then s.(x := s.x + 1) else s.(o := s.o + 1)
  }

  /** The eight winning combinations, as index triples into the board. */
  const WinningCombinations: seq<(nat, nat, nat)> :=
    [(0, 1, 2), (3, 4, 5), (6, 7, 8),
     (0, 3, 6), (1, 4, 7), (2, 5, 8),
     (0, 4, 8), (2, 4, 6)]

  /** The combination at position `k` of the list is filled by one player. */
  predicate Complete(b: seq<Cell>, k: nat)
    requires |b| == 9 && k < |WinningCombinations|
  {
    var (a, c, d) := WinningCombinations[k];
    b[a] != Empty && b[a] == b[c] && b[a] == b[d]
  }

  /** `winningCombinations.some(...)` over the combinations from `k` on. */
  predicate SomeComplete(b: seq<Cell>, k: nat)
    requires |b| == 9 && k <= |WinningCombinations|
    decreases |WinningCombinations| - k
  {
    k < |WinningCombinations| && (Complete(b, k) || SomeComplete(b, k + 1))
  }

  /** `checkWin()`. */
  predicate CheckWin(b: seq<Cell>)
    requires |b| == 9
  {
    SomeComplete(b, 0)
  }

  /** The three cells hold `p`'s mark. */
  predicate Owns(b: seq<Cell>, i: nat, j: nat, k: nat, p: Player)
    requires i < |b| && j < |b| && k < |b|
  {
    b[i] == Mark(p) && b[j] == Mark(p) && b[k] == Mark(p)
  }

  /** Row `r` of the grid is all `p`. */
  predicate Row(b: seq<Cell>, r: nat, p: Player)
    requires |b| == 9 && r < 3
  {
    Owns(b, 3 * r, 3 * r + 1, 3 * r + 2, p)
  }

  /** Column `c` of the grid is all `p`. */
  predicate Column(b: seq<Cell>, c: nat, p: Player)
    requires |b| == 9 && c < 3
  {
    Owns(b, c, c + 3, c + 6, p)
  }

  /** Player `p` holds a whole row, a whole column or a whole diagonal of
      the 3x3 grid, stated on rows and columns instead of the list. */
  predicate Wins(b: seq<Cell>, p: Player)
    requires |b| == 9
  {
    || (exists r: nat :: r < 3 && Row(b, r, p))
    || (exists c: nat :: c < 3 && Column(b, c, p))
    || Owns(b, 0, 4, 8, p)
    || Owns(b, 2, 4, 6, p)
  }

  /** `board.every(cell => cell !== '')`. */
  predicate Full(b: seq<Cell>)
  {
    forall k :: 0 <= k < |b| ==> b[k] != Empty
  }

  /** A combination is complete exactly when one of the players owns it. */
  lemma CompleteIff(b: seq<Cell>, k: nat)
    requires |b| == 9 && k < |WinningCombinations|
    ensures var (i, j, l) := WinningCombinations[k];
      Complete(b, k) <==> Owns(b, i, j, l, X) || Owns(b, i, j, l, O)
  {
    var (i, j, l) := WinningCombinations[k];
    assert Complete(b, k) == (b[i] != Empty && b[i] == b[j] && b[i] == b[l]);
    if b[i].Mark? {
      var q := b[i].player;
      assert b[i] == Mark(q);
      assert Complete(b, k) <==> Owns(b, i, j, l, q);
      assert !Owns(b, i, j, l, Other(q));
      assert q == X || q == O;
    }
  }

  /** The list of combinations is exactly the rows, columns and diagonals:
      `checkWin` holds exactly when some player holds one of them. */
  lemma CheckWinIffWins(b: seq<Cell>)
    requires |b| == 9
    ensures CheckWin(b) <==> Wins(b, X) || Wins(b, O)
  {
    assert CheckWin(b) <==>
      Complete(b, 0) || Complete(b, 1) || Complete(b, 2) || Complete(b, 3) ||
      Complete(b, 4) || Complete(b, 5) || Complete(b, 6) || Complete(b, 7);
    CompleteIff(b, 0); CompleteIff(b, 1); CompleteIff(b, 2); CompleteIff(b, 3);
    CompleteIff(b, 4); CompleteIff(b, 5); CompleteIff(b, 6); CompleteIff(b, 7);
    forall p: Player ensures Wins(b, p) <==>
      || Owns(b, 0, 1, 2, p) || Owns(b, 3, 4, 5, p) || Owns(b, 6, 7, 8, p)
      || Owns(b, 0, 3, 6, p) || Owns(b, 1, 4, 7, p) || Owns(b, 2, 5, 8, p)
      || Owns(b, 0, 4, 8, p) || Owns(b, 2, 4, 6, p)
    {
      assert Row(b, 0, p) == Owns(b, 0, 1, 2, p);
      assert Row(b, 1, p) == Owns(b, 3, 4, 5, p);
      assert Row(b, 2, p) == Owns(b, 6, 7, 8, p);
      assert Column(b, 0, p) == Owns(b, 0, 3, 6, p);
      assert Column(b, 1, p) == Owns(b, 1, 4, 7, p);
      assert Column(b, 2, p) == Owns(b, 2, 5, 8, p);
    }
  }

  /** Placing `p`'s mark on an empty cell gives no new line to anybody else. */
  lemma PlacingHelpsOnlyMover(b: seq<Cell>, i: nat, p: Player, q: Player)
    requires |b| == 9 && i < 9 && b[i] == Empty && q != p
    ensures Wins(b[i := Mark(p)], q) ==> Wins(b, q)
  {
    var b' := b[i := Mark(p)];
    forall j: nat, k: nat, l: nat | j < 9 && k < 9 && l < 9 && Owns(b', j, k, l, q)
      ensures Owns(b, j, k, l, q)
    {
      assert j != i && k != i && l != i;
    }
    forall r: nat | r < 3 && Row(b', r, q) ensures Row(b, r, q) {
      assert Owns(b', 3 * r, 3 * r + 1, 3 * r + 2, q);
    }
    forall c: nat | c < 3 && Column(b', c, q) ensures Column(b, c, q) {
      assert Owns(b', c, c + 3, c + 6, q);
    }
  }

  /** Number of cells holding `p`'s mark. */
  function Count(b: seq<Cell>, p: Player): (n: nat)
    ensures n <= |b|
  {
    if b == [] then 0
    else Count(b[..|b| - 1], p) + (if b[|b| - 1] == Mark(p) then 1 else 0)
  }

  /** Placing a mark on an empty cell adds one to its owner's count and
      nothing to the other's. */
  lemma {:induction false} CountPlace(b: seq<Cell>, i: nat, p: Player, q: Player)
    requires i < |b| && b[i] == Empty
    ensures Count(b[i := Mark(p)], q) == Count(b, q) + (if q == p then 1 else 0)
    decreases |b|
  {
    var n := |b| - 1;
    var b' := b[i := Mark(p)];
    if i < n {
      assert b'[..n] == b[..n][i := Mark(p)];
      CountPlace(b[..n], i, p, q);
    } else {
      assert b'[..n] == b[..n];
    }
  }

  lemma {:induction false} CountEmpty(b: seq<Cell>, p: Player)
    requires forall k :: 0 <= k < |b| ==> b[k] == Empty
    ensures Count(b, p) == 0
    decreases |b|
  {
    if b != [] {
      CountEmpty(b[..|b| - 1], p);
    }
  }

  /** The board holds no mark at all. */
  predicate Blank(b: seq<Cell>)
  {
    forall k :: 0 <= k < |b| ==> b[k] == Empty
  }

  /** What a position reached by alternating play looks like: X moved first,
      so X has as many marks as O or one more; while the game is on nobody has
      a line, the board is not full and it is X's turn exactly when the counts
      are equal; once it is over somebody has a line or the board is full; and
      the player who did not move last never holds a line. */
  predicate Reachable(b: seq<Cell>, currentPlayer: Player, gameActive: bool)
  {
    && |b| == 9
    && (Count(b, X) == Count(b, O) || Count(b, X) == Count(b, O) + 1)
    && (gameActive ==> !CheckWin(b) && !Full(b) && (currentPlayer == X <==> Count(b, X) == Count(b, O)))
    && (!gameActive ==> CheckWin(b) || Full(b))
    && !Wins(b, Other(currentPlayer))
  }

  /** The empty board with X to move is such a position. */
  lemma BlankReachable(b: seq<Cell>)
    requires |b| == 9 && Blank(b)
    ensures Reachable(b, X, true)
  {
    CountEmpty(b, X);
    CountEmpty(b, O);
    CheckWinIffWins(b);
    assert b[0] == Empty;
  }

  /** One legal move keeps a position reachable, whichever way it ends. */
  lemma MoveKeepsReachable(b: seq<Cell>, i: nat, p: Player)
    requires Reachable(b, p, true) && i < 9 && b[i] == Empty
    ensures var b' := b[i := Mark(p)];
      if CheckWin(b') || Full(b') then Reachable(b', p, false) else Reachable(b', Other(p), true)
  {
    var b' := b[i := Mark(p)];
    CountPlace(b, i, p, X);
    CountPlace(b, i, p, O);
    CheckWinIffWins(b);
    CheckWinIffWins(b');
    PlacingHelpsOnlyMover(b, i, p, Other(p));
  }

  class Game {
    var board: array<Cell>
    var currentPlayer: Player
    var gameActive: bool
    var scores: Scores

    ghost predicate Valid()
      reads this, board
    {
      Reachable(board[..], currentPlayer, gameActive)
    }

    /** The state the script starts in: an empty board, X to move, no score. */
    constructor()
      ensures Valid() && fresh(board)
      ensures Blank(board[..]) && currentPlayer == X && gameActive && scores == Scores(0, 0, 0)
    {
      board := new Cell[9](_ => Empty);
      currentPlayer := X;
      gameActive := true;
      scores := Scores(0, 0, 0);
      new;
      BlankReachable(board[..]);
    }

    /** `handleCellClick`: `index` is the clicked cell's `data-index` after
        `parseInt`, None when it is not a number. A click on a cell that does
        not exist or is taken, or after the game ended, changes nothing.
        Otherwise the current player's mark is placed; a completed line ends
        the game and scores a win for the mover, checked before a full board,
        which ends the game as a draw; in every other case the turn passes. */
    method HandleCellClick(index: Option<int>)
      requires Valid()
      modifies this, board
      ensures Valid() && board == old(board)
      ensures !(index.Some? && 0 <= index.value < 9 && old(board[index.value]) == Empty && old(gameActive)) ==>
                && board[..] == old(board[..]) && currentPlayer == old(currentPlayer)
                && gameActive == old(gameActive) && scores == old(scores)
      ensures index.Some? && 0 <= index.value < 9 && old(board[index.value]) == Empty && old(gameActive) ==>
                && board[..] == old(board[..])[index.value := Mark(old(currentPlayer))]
                && (CheckWin(board[..]) ==>
                      !gameActive && currentPlayer == old(currentPlayer) && scores == AddWin(old(scores), currentPlayer))
                && (!CheckWin(board[..]) && Full(board[..]) ==>
                      !gameActive && currentPlayer == old(currentPlayer) && scores == old(scores).(draw := old(scores).draw + 1))
                && (!CheckWin(board[..]) && !Full(board[..]) ==>
                      gameActive && currentPlayer == Other(old(currentPlayer)) && scores == old(scores))
    {
      if index.None? || !(0 <= index.value < 9) || board[index.value] != Empty || !gameActive {
        return;
      }
      var i := index.value;
      ghost var before := board[..];
      board[i] := Mark(currentPlayer);
      assert board[..] == before[i := Mark(currentPlayer)];
      MoveKeepsReachable(before, i, currentPlayer);
      if CheckWin(board[..]) {
        gameActive := false;
        scores := AddWin(scores, currentPlayer);
      } else if Full(board[..]) {
        gameActive := false;
        scores := scores.(draw := scores.draw + 1);
      } else {
        currentPlayer := Other(currentPlayer);
      }
    }

    /** `resetGame`: a fresh empty board, X to move, the game on again; the
        scores are kept. */
    method ResetGame()
      modifies this
      ensures Valid() && fresh(board)
      ensures Blank(board[..]) && currentPlayer == X && gameActive && scores == old(scores)
    {
      board := new Cell[9](_ => Empty);
      gameActive := true;
      currentPlayer := X;
      BlankReachable(board[..]);
    }
  }

  /** A game that is over has been won by the player who moved last, or is a
      draw on a full board. */
  lemma GameOverMeansWinOrDraw(b: seq<Cell>, p: Player)
    requires Reachable(b, p, false)
    ensures CheckWin(b) ==> Wins(b, p) && !Wins(b, Other(p))
    ensures !CheckWin(b) ==> Full(b)
  {
    CheckWinIffWins(b);
  }
}

/** The depth-limited search of JogoDaVelha, bestGuess and bestMove, as
    specification functions on board values, exactly as the class runs it:
    only the first child of a node takes its turn from the parity of the level;
    every later child is a fresh copy of the node itself, so its mark and the
    max/min choice follow the node's own whoseTurn. */
module Search {
  import opened Engine

  /** The depth bestMove searches to. */
  const GameLevel: nat := 8

  function Max(a: int, b: int): int { if a >= b then a else b }
  function Min(a: int, b: int): int { if a <= b then a else b }

  /** The turn bestGuess assigns to its first child: even levels the computer, odd the player. */
  function ParityTurn(level: int): int {
    if level % 2 == 0 then ComputerTurn else PlayerTurn
  }

  /** The first child: a copy whose whoseTurn is set by parity, marked with that turn. */
  function FirstChild(b: Board, level: int, move: int): Board
    requires WellFormed(b) && 0 <= move <= 8
  {
    var t := ParityTurn(level);
    Place(b.(whoseTurn := t), t, move)
  }

  /** A later child: a fresh copy of the node, marked with the node's own whoseTurn. */
  function LaterChild(b: Board, move: int): Board
    requires WellFormed(b) && 0 <= move <= 8
  {
    Place(b, b.whoseTurn, move)
  }

  /** How a later child's score is folded in: max on the player's turn, min otherwise. */
  function Combine(turn: int, acc: int, cur: int): int {
    if turn == PlayerTurn then Max(acc, cur) else Min(acc, cur)
  }

  /** A consistent board that is not over has a legal move left. */
  lemma NonTerminalHasMoves(b: Board)
    requires Consistent(b) && !IsOver(b)
    ensures |LegalMoves(b)| >= 1
  {
    LegalMovesCount(b);
    ResultSpec(b);
  }

  /** bestGuess(level): the evaluation of the board for the computer. At depth 0
      or once the game is over it is the judged outcome; otherwise it is the value
      the loop over the children ends with. */
  function Guess(b: Board, level: nat): (r: int)
    requires Consistent(b)
    ensures IsScore(r)
    // Guess, GuessUpTo and ChildScore share one measure: level, then the rank
    // 2 > 1 > 0 of the three functions. The `b` keeps Dafny from unrolling the
    // search on a literal level such as GameLevel.
    decreases level, 2, b
  {
    if level == 0 || IsOver(b) then Judge(b)
    else
      NonTerminalHasMoves(b);
      GuessUpTo(b, level, |LegalMoves(b)|)
  }

  /** The value bestGuessValue holds once the first `n` children are seen: the
      first child's score as it is, each later one folded in by Combine with the
      node's own whoseTurn. */
  function GuessUpTo(b: Board, level: nat, n: nat): (r: int)
    requires Consistent(b) && 1 <= level && 1 <= n <= |LegalMoves(b)|
    ensures IsScore(r)
    // See Guess for the measure.
    decreases level, 1, b, n
  {
    if n == 1 then ChildScore(b, level, 0)
    else Combine(b.whoseTurn, GuessUpTo(b, level, n - 1), ChildScore(b, level, n - 1))
  }

  /** The score of the `i`-th child bestGuess tries: the first child by parity,
      the later ones by the node's own whoseTurn, each searched one level less. */
  function ChildScore(b: Board, level: nat, i: nat): (r: int)
    requires Consistent(b) && 1 <= level && i < |LegalMoves(b)|
    ensures IsScore(r)
    // See Guess for the measure.
    decreases level, 0, b
  {
    LegalMoveAt(b, i);
    if i == 0 then Guess(FirstChild(b, level, LegalMoves(b)[0]), level - 1)
    else Guess(LaterChild(b, LegalMoves(b)[i]), level - 1)
  }

  /** After `n` children the value kept is the maximum of their scores on the
      player's turn and the minimum on any other turn, and it is one of them. */
  lemma {:induction false} GuessUpToIsExtreme(b: Board, level: nat, n: nat)
    requires Consistent(b) && 1 <= level && 1 <= n <= |LegalMoves(b)|
    ensures b.whoseTurn == PlayerTurn ==>
      forall i :: 0 <= i < n ==> ChildScore(b, level, i) <= GuessUpTo(b, level, n)
    ensures b.whoseTurn != PlayerTurn ==>
      forall i :: 0 <= i < n ==> GuessUpTo(b, level, n) <= ChildScore(b, level, i)
    ensures exists i :: 0 <= i < n && GuessUpTo(b, level, n) == ChildScore(b, level, i)
    decreases n
  {
    if n == 1 {
      assert GuessUpTo(b, level, n) == ChildScore(b, level, 0);
    } else {
      GuessUpToIsExtreme(b, level, n - 1);
      var j :| 0 <= j < n - 1 && GuessUpTo(b, level, n - 1) == ChildScore(b, level, j);
      if GuessUpTo(b, level, n) == ChildScore(b, level, j) {
        assert 0 <= j < n && GuessUpTo(b, level, n) == ChildScore(b, level, j);
      } else {
        assert GuessUpTo(b, level, n) == ChildScore(b, level, n - 1);
      }
    }
  }

  /** A node that is neither at depth 0 nor over scores the maximum of its
      children when its own whoseTurn is the player's and the minimum otherwise,
      and that score is one of its children's. */
  lemma GuessIsExtreme(b: Board, level: nat)
    requires Consistent(b) && level >= 1 && !IsOver(b)
    ensures |LegalMoves(b)| >= 1
    ensures b.whoseTurn == PlayerTurn ==>
      forall i :: 0 <= i < |LegalMoves(b)| ==> ChildScore(b, level, i) <= Guess(b, level)
    ensures b.whoseTurn != PlayerTurn ==>
      forall i :: 0 <= i < |LegalMoves(b)| ==> Guess(b, level) <= ChildScore(b, level, i)
    ensures exists i :: 0 <= i < |LegalMoves(b)| && Guess(b, level) == ChildScore(b, level, i)
  {
    NonTerminalHasMoves(b);
    GuessUpToIsExtreme(b, level, |LegalMoves(b)|);
  }

  /** At depth 0 or on a finished game bestGuess is the judged outcome: 100 only
      with a computer line on the board, 0 only with a player line. */
  lemma GuessAtLeaf(b: Board, level: nat)
    requires Consistent(b) && (level == 0 || IsOver(b))
    ensures Guess(b, level) == Judge(b)
    ensures Guess(b, level) == 100 ==> HasLine(b.grid, ComputerMark)
    ensures Guess(b, level) == 0 ==> HasLine(b.grid, PlayerMark)
  {
    JudgeMeaning(b);
  }

  /** The first value bestGuess holds is the first child's score.
      One unfolding of the definitions, stated here only to help the solver
      in BestGuess. */
  lemma GuessFirstStep(b: Board, level: nat, next: nat, v: int)
    requires Consistent(b) && level == next + 1 && |LegalMoves(b)| >= 1
    requires 0 <= LegalMoves(b)[0] <= 8
    requires Consistent(FirstChild(b, level, LegalMoves(b)[0]))
    requires v == Guess(FirstChild(b, level, LegalMoves(b)[0]), next)
    ensures v == GuessUpTo(b, level, 1)
  {
  }

  /** Each later child's score is folded in by Combine.
      One unfolding of the definitions, stated here only to help the solver
      in BestGuess. */
  lemma GuessLaterStep(b: Board, level: nat, next: nat, i: nat, acc: int, v: int)
    requires Consistent(b) && level == next + 1 && 1 <= i < |LegalMoves(b)|
    requires acc == GuessUpTo(b, level, i)
    requires 0 <= LegalMoves(b)[i] <= 8
    requires Consistent(LaterChild(b, LegalMoves(b)[i]))
    requires v == Guess(LaterChild(b, LegalMoves(b)[i]), next)
    ensures Combine(b.whoseTurn, acc, v) == GuessUpTo(b, level, i + 1)
  {
  }

  /** Once every child is seen, the value kept is the node's value.
      One unfolding of the definitions, stated here only to help the solver
      in BestGuess. */
  lemma GuessLastStep(b: Board, level: nat, v: int)
    requires Consistent(b) && level >= 1 && !IsOver(b) && |LegalMoves(b)| >= 1
    requires v == GuessUpTo(b, level, |LegalMoves(b)|)
    ensures v == Guess(b, level)
  {
  }

  // ---------------------------------------------------------------------------
  // Root move choice

  /** The score bestMove computes for its `i`-th candidate: place the computer's
      mark on that legal move and search to GameLevel. */
  function RootScore(b: Board, i: nat): (r: int)
    requires Consistent(b) && i < |LegalMoves(b)|
    ensures IsScore(r)
  {
    LegalMoveAt(b, i);
    Guess(Place(b, ComputerTurn, LegalMoves(b)[i]), GameLevel)
  }

  /** bestMove's update test: strictly higher when the copy's whoseTurn is the
      computer's, strictly lower otherwise. */
  predicate Prefers(turn: int, cur: int, best: int) {
    (turn == ComputerTurn && cur > best) || (turn != ComputerTurn && cur < best)
  }

  /** After the first `n` candidates: the position of the move kept and its score. */
  function PickUpTo(b: Board, n: nat): (p: (nat, int))
    requires Consistent(b) && 1 <= n <= |LegalMoves(b)|
    ensures p.0 < n && p.1 == RootScore(b, p.0)
    // The `b` keeps Dafny from unrolling calls whose `n` is a literal.
    decreases n, b
  {
    if n == 1 then (0, RootScore(b, 0))
    else
      var p := PickUpTo(b, n - 1);
      if Prefers(b.whoseTurn, RootScore(b, n - 1), p.1) then (n - 1, RootScore(b, n - 1)) else p
  }

  /** One more candidate seen: it replaces the kept one only when it is preferred.
      One unfolding of PickUpTo, stated here only to help the solver in BestMove. */
  lemma PickNext(b: Board, n: nat)
    requires Consistent(b) && 1 <= n < |LegalMoves(b)|
    ensures PickUpTo(b, n + 1) ==
      if Prefers(b.whoseTurn, RootScore(b, n), PickUpTo(b, n).1) then (n, RootScore(b, n))
      else PickUpTo(b, n)
  {
  }

  /** With strict comparisons the kept position holds the best score (highest when
      whoseTurn is the computer's, lowest otherwise) and every earlier one is
      strictly worse. */
  lemma {:induction false} PickUpToSpec(b: Board, n: nat)
    requires Consistent(b) && 1 <= n <= |LegalMoves(b)|
    ensures b.whoseTurn == ComputerTurn ==>
      (forall i :: 0 <= i < n ==> RootScore(b, i) <= PickUpTo(b, n).1) &&
      (forall i :: 0 <= i < PickUpTo(b, n).0 ==> RootScore(b, i) < PickUpTo(b, n).1)
    ensures b.whoseTurn != ComputerTurn ==>
      (forall i :: 0 <= i < n ==> PickUpTo(b, n).1 <= RootScore(b, i)) &&
      (forall i :: 0 <= i < PickUpTo(b, n).0 ==> PickUpTo(b, n).1 < RootScore(b, i))
    decreases n
  {
    if n > 1 {
      PickUpToSpec(b, n - 1);
    }
  }

  /** The position, among the legal moves, of the move bestMove keeps. */
  function ChosenIndex(b: Board): (j: nat)
    requires Consistent(b) && |LegalMoves(b)| >= 1
    ensures j < |LegalMoves(b)|
  {
    PickUpTo(b, |LegalMoves(b)|).0
  }

  /** bestMove: the move kept after trying every legal move. */
  function ChosenMove(b: Board): (m: int)
    requires Consistent(b) && |LegalMoves(b)| >= 1
    ensures m in LegalMoves(b) && 0 <= m <= 8 && b.grid[m] == NobodyMark
  {
    LegalMoveAt(b, ChosenIndex(b));
    LegalMoves(b)[ChosenIndex(b)]
  }

  /** bestMove returns the lowest legal move with the highest score when whoseTurn
      is the computer's, and the lowest legal move with the lowest score otherwise.
      Positions in the legal-move list are in the order of the cells. */
  lemma ChosenMoveIsFirstBest(b: Board)
    requires Consistent(b) && |LegalMoves(b)| >= 1
    ensures b.whoseTurn == ComputerTurn ==>
      forall i :: 0 <= i < |LegalMoves(b)| ==>
        RootScore(b, i) <= RootScore(b, ChosenIndex(b)) &&
        (i < ChosenIndex(b) ==> RootScore(b, i) < RootScore(b, ChosenIndex(b)))
    ensures b.whoseTurn != ComputerTurn ==>
      forall i :: 0 <= i < |LegalMoves(b)| ==>
        RootScore(b, ChosenIndex(b)) <= RootScore(b, i) &&
        (i < ChosenIndex(b) ==> RootScore(b, ChosenIndex(b)) < RootScore(b, i))
    ensures forall i :: 0 <= i < |LegalMoves(b)| ==>
      (i < ChosenIndex(b) <==> LegalMoves(b)[i] < ChosenMove(b))
  {
    PickUpToSpec(b, |LegalMoves(b)|);
    LegalMovesSpec(b);
  }
}

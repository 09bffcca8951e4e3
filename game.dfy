/** The JogoDaVelha game object: a nine-cell grid and its availability array,
    updated in place, with the move counter and the two turn fields. Its pure
    queries (result, judge, isOver, legalMove) are the Engine functions of
    State(); its loops and the search over deep copies are methods here. */
module Game {
  import opened Engine
  import opened Search

  class JogoDaVelha {
    var grid: array<char>
    var moves: array<int>
    var numMoves: int
    var whoseTurn: int
    var firstTurn: int

    /** The object's whole state as a value. */
    function State(): Board
      reads this, grid, moves
    {
      Board(grid[..], moves[..], numMoves, whoseTurn, firstTurn)
    }

    /** The invariant every public method keeps. */
    ghost predicate Valid()
      reads this, grid, moves
    {
      grid.Length == 9 && moves.Length == 9 && WellFormed(State())
    }

    /** A new game: every cell empty, every cell available, nobody's turn. */
    constructor ()
      ensures Valid() && fresh(grid) && fresh(moves)
      ensures State() == NewBoard()
    {
      var g := new char[9];
      var i := 0;
      while i < 9
        invariant 0 <= i <= 9
        invariant forall k :: 0 <= k < i ==> g[k] == NobodyMark
      {
        g[i] := NobodyMark;
        i := i + 1;
      }
      grid := g;
      moves := new int[9];
      numMoves := 0;
      whoseTurn := NobodyTurn;
      firstTurn := NobodyTurn;
      new;
      var _ := GenerateMoves();
      assert grid[..] == NewBoard().grid;
    }

    /** The deep copy clone() makes: fresh arrays with the same contents. */
    constructor Copy(other: JogoDaVelha)
      requires other.Valid()
      ensures Valid() && fresh(grid) && fresh(moves)
      ensures State() == other.State()
    {
      grid := new char[9];
      moves := new int[9];
      numMoves := other.numMoves;
      whoseTurn := other.whoseTurn;
      firstTurn := other.firstTurn;
      new;
      forall i | 0 <= i < 9 {
        grid[i] := other.grid[i];
      }
      forall i | 0 <= i < 9 {
        moves[i] := other.moves[i];
      }
      assert grid[..] == other.grid[..];
      assert moves[..] == other.moves[..];
    }

    /** clone: an independent object with the same state. */
    method Clone() returns (c: JogoDaVelha)
      requires Valid()
      ensures fresh(c) && fresh(c.grid) && fresh(c.moves)
      ensures c.Valid() && c.State() == State()
    {
      c := new JogoDaVelha.Copy(this);
    }

    /** chooseFirstPlayer, with the random draw `coin` (0 or 1) passed in. */
    method ChooseFirstPlayer(coin: int)
      requires 0 <= coin < 2
      modifies this`firstTurn
      ensures firstTurn == if coin == 0 then PlayerTurn else ComputerTurn
      ensures State() == old(State()).(firstTurn := firstTurn)
    {
      if coin == 0 {
        SetFirstTurn(PlayerTurn);
      } else {
        SetFirstTurn(ComputerTurn);
      }
    }

    /** drawBoard: one character per cell ('1' X, '2' O, '-' otherwise) and a newline. */
    method DrawBoard() returns (s: string)
      requires Valid()
      ensures s == Encode(grid[..]) + "\n"
      ensures |s| == 10 && s[9] == '\n'
      ensures forall i :: 0 <= i < 9 ==> s[i] == CellCode(grid[i])
      ensures Decode(s[..9]) == grid[..]
    {
      s := "";
      var i := 0;
      while i < 9
        invariant 0 <= i <= 9
        invariant s == Encode(grid[..i])
      {
        assert grid[..i + 1][..i] == grid[..i];
        s := s + [CellCode(grid[i])];
        i := i + 1;
      }
      assert grid[..9] == grid[..];
      EncodeAt(grid[..]);
      DecodeEncode(grid[..]);
      assert s + "\n" == Encode(grid[..]) + "\n";
      assert (s + "\n")[..9] == s;
      s := s + "\n";
    }

    /** generateMoves: rewrite the availability array from the grid. */
    method GenerateMoves() returns (r: array<int>)
      requires grid.Length == 9 && moves.Length == 9
      modifies moves
      ensures r == moves && moves[..] == Availability(grid[..])
    {
      var i := 0;
      while i < moves.Length
        invariant 0 <= i <= moves.Length
        invariant forall k :: 0 <= k < i ==> moves[k] == if grid[k] == NobodyMark then 1 else 0
      {
        moves[i] := if grid[i] == NobodyMark then 1 else 0;
        i := i + 1;
      }
      r := moves;
    }

    /** generateLegalMoves: the available cells in ascending order. */
    method GenerateLegalMoves() returns (legal: seq<int>)
      requires Valid()
      ensures legal == LegalMoves(State())
    {
      legal := [];
      var i := 0;
      while i < moves.Length
        invariant 0 <= i <= moves.Length
        invariant legal == LegalUpTo(moves[..], i)
      {
        if moves[i] == 1 {
          legal := legal + [i];
        }
        i := i + 1;
      }
    }

    /** placePiece: 'X' for the player turn, 'O' for any other value; no occupancy check. */
    method PlacePiece(player: int, move: int)
      requires Valid() && 0 <= move <= 8
      modifies this`numMoves, grid, moves
      ensures Valid()
      ensures State() == Place(old(State()), player, move)
      ensures grid[move] == MarkOf(player)
      ensures forall i :: 0 <= i < 9 && i != move ==> grid[i] == old(grid[i])
      ensures numMoves == old(numMoves) + 1
      ensures forall i :: 0 <= i < 9 ==> (moves[i] == 1 <==> grid[i] == NobodyMark)
      ensures old(grid[move]) == NobodyMark && old(Consistent(State())) ==> Consistent(State())
    {
      grid[move] := MarkOf(player);
      numMoves := numMoves + 1;
      var _ := GenerateMoves();
      assert grid[..] == old(grid[..])[move := MarkOf(player)];
    }

    /** bestGuess(level): the search value for the computer; works on copies only. */
    method BestGuess(level: int) returns (r: int)
      requires Valid() && Consistent(State()) && level >= 0
      ensures r == Guess(State(), level)
      ensures r == 0 || r == 50 || r == 100
      decreases level, 2
    {
      var legalMoves := GenerateLegalMoves();
      if level == 0 || IsOver(State()) {
        return Judge(State());
      }
      ghost var b := State();
      NonTerminalHasMoves(b);
      var bestGuessValue := FirstGuess(legalMoves, level);
      var next := level - 1;
      var currentMoveIndex := 1;
      while currentMoveIndex < |legalMoves|
        invariant 1 <= currentMoveIndex <= |legalMoves|
        invariant bestGuessValue == GuessUpTo(b, level, currentMoveIndex)
      {
        var temp := Clone();
        var tryMove := legalMoves[currentMoveIndex];
        LegalMoveAt(b, currentMoveIndex);
        var turn := temp.GetWhoseTurn();
        var currentGuessValue := PlaceAndGuess(temp, turn, tryMove, next, b);
        GuessLaterStep(b, level, next, currentMoveIndex, bestGuessValue, currentGuessValue);
        turn := temp.GetWhoseTurn();
        if turn == PlayerTurn {
          bestGuessValue := Max(bestGuessValue, currentGuessValue);
        } else {
          bestGuessValue := Min(bestGuessValue, currentGuessValue);
        }
        currentMoveIndex := currentMoveIndex + 1;
      }
      GuessLastStep(b, level, bestGuessValue);
      r := bestGuessValue;
    }

    /** The first try of bestGuess: a copy whose whoseTurn is set by the parity of
        `level`, marked with that turn on the first legal move and searched one
        level less. */
    method FirstGuess(legalMoves: seq<int>, level: int) returns (v: int)
      requires Valid() && Consistent(State()) && level >= 1
      requires legalMoves == LegalMoves(State()) && |legalMoves| >= 1
      ensures v == GuessUpTo(State(), level, 1)
      decreases level, 1
    {
      ghost var b := State();
      var temp := Clone();
      if level % 2 == 0 {
        temp.SetWhoseTurn(ComputerTurn);
      } else {
        temp.SetWhoseTurn(PlayerTurn);
      }
      var tryMove := legalMoves[0];
      LegalMoveAt(b, 0);
      var turn := temp.GetWhoseTurn();
      v := PlaceAndGuess(temp, turn, tryMove, level - 1, b.(whoseTurn := turn));
      GuessFirstStep(b, level, level - 1, v);
    }

    /** One try of the search loops: place `player`'s mark on the copy `temp`,
        whose state is `from`, and search from there to `level`. */
    method PlaceAndGuess(temp: JogoDaVelha, player: int, move: int, level: int, ghost from: Board)
        returns (v: int)
      requires temp.Valid() && temp.State() == from && Consistent(from) && level >= 0
      requires 0 <= move <= 8 && from.grid[move] == NobodyMark
      modifies temp`numMoves, temp.grid, temp.moves
      ensures temp.Valid() && temp.State() == Place(from, player, move)
      ensures v == Guess(Place(from, player, move), level)
      decreases level + 1, 0
    {
      temp.PlacePiece(player, move);
      v := temp.BestGuess(level);
    }

    /** bestMove: try the computer's mark on every legal move and keep the best. */
    method BestMove() returns (best: int)
      requires Valid() && Consistent(State()) && |LegalMoves(State())| >= 1
      ensures best == ChosenMove(State())
      ensures best in LegalMoves(State())
    {
      ghost var b := State();
      var temp := Clone();
      var legalMoves := temp.GenerateLegalMoves();
      var tryMove, bestGuessValue, _ := TryRootMove(legalMoves, 0);
      best := tryMove;
      ghost var bestIndex := 0;
      var currentMoveIndex := 1;
      while currentMoveIndex < |legalMoves|
        invariant 1 <= currentMoveIndex <= |legalMoves|
        invariant (bestIndex, bestGuessValue) == PickUpTo(b, currentMoveIndex)
        invariant best == legalMoves[bestIndex]
      {
        var currentGuessValue, turn;
        tryMove, currentGuessValue, turn := TryRootMove(legalMoves, currentMoveIndex);
        PickNext(b, currentMoveIndex);
        if (turn == ComputerTurn && currentGuessValue > bestGuessValue)
          || (turn != ComputerTurn && currentGuessValue < bestGuessValue)
        {
          bestGuessValue := currentGuessValue;
          best := tryMove;
          bestIndex := currentMoveIndex;
        }
        currentMoveIndex := currentMoveIndex + 1;
      }
    }

    /** One try of bestMove's loop: a fresh copy of this game, marked by the
        computer on the `i`-th legal move and searched to GameLevel; the copy's
        whoseTurn is returned with the score. */
    method TryRootMove(legalMoves: seq<int>, i: int) returns (tryMove: int, v: int, turn: int)
      requires Valid() && Consistent(State())
      requires legalMoves == LegalMoves(State()) && 0 <= i < |legalMoves|
      ensures tryMove == legalMoves[i] && v == RootScore(State(), i) && turn == whoseTurn
    {
      ghost var b := State();
      var temp := Clone();
      tryMove := legalMoves[i];
      LegalMoveAt(b, i);
      v := PlaceAndGuess(temp, ComputerTurn, tryMove, GameLevel, b);
      turn := temp.GetWhoseTurn();
    }

    /** computerMove: place the computer's mark on the move bestMove picks. */
    method ComputerMove()
      requires Valid() && Consistent(State()) && |LegalMoves(State())| >= 1
      modifies this`numMoves, grid, moves
      ensures Valid() && Consistent(State())
      ensures State() == Place(old(State()), ComputerTurn, ChosenMove(old(State())))
      ensures grid[ChosenMove(old(State()))] == ComputerMark
    {
      var computerMove := BestMove();
      PlacePiece(ComputerTurn, computerMove);
    }

    function GetWhoseTurn(): int
      reads this
    {
      whoseTurn
    }

    method SetWhoseTurn(t: int)
      modifies this`whoseTurn
      ensures whoseTurn == t
      ensures State() == old(State()).(whoseTurn := t)
      ensures old(Valid()) ==> Valid()
      ensures old(Consistent(State())) ==> Consistent(State())
    {
      whoseTurn := t;
    }

    function GetFirstTurn(): int
      reads this
    {
      firstTurn
    }

    method SetFirstTurn(t: int)
      modifies this`firstTurn
      ensures firstTurn == t
      ensures State() == old(State()).(firstTurn := t)
    {
      firstTurn := t;
    }
  }
}

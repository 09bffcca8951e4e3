/** The tic-tac-toe board of JogoDaVelha as a value: the grid, the availability
    array, the move counter and the two turn fields, together with the pure
    queries the class answers about them (legal moves, outcome, evaluation,
    the display string). */
module Engine {

  // Turn identifiers.
  const NobodyTurn: int := 0
  const PlayerTurn: int := 1
  const ComputerTurn: int := -1

  // Marks written in the grid.
  const NobodyMark: char := ' '
  const PlayerMark: char := 'X'
  const ComputerMark: char := 'O'

  /** The whole state of one game object, as the class holds it. */
  datatype Board = Board(
    grid: seq<char>,
    moves: seq<int>,
    numMoves: int,
    whoseTurn: int,
    firstTurn: int)

  predicate IsMark(c: char) {
    c == NobodyMark || c == PlayerMark || c == ComputerMark
  }

  /** The mark placePiece writes for `player`: anything but the player turn is the computer. */
  function MarkOf(player: int): char {
    if player == PlayerTurn then PlayerMark else ComputerMark
  }

  /** The availability array generateMoves computes: 1 for a free cell, 0 otherwise. */
  function Availability(g: seq<char>): seq<int> {
    seq(|g|, i requires 0 <= i < |g| => if g[i] == NobodyMark then 1 else 0)
  }

  /** Number of occupied cells among the first `n`. */
  function OccupiedBelow(g: seq<char>, n: nat): nat
    requires n <= |g|
    // The `g` keeps Dafny from unrolling calls whose `n` is a literal such as 9.
    decreases n, g
  {
    if n == 0 then 0
    else OccupiedBelow(g, n - 1) + (if g[n - 1] == NobodyMark then 0 else 1)
  }

  /** Number of occupied cells. */
  function Occupied(g: seq<char>): nat {
    OccupiedBelow(g, |g|)
  }

  /** What every game object satisfies: nine cells over the three marks and an
      availability array that agrees with the grid. */
  predicate WellFormed(b: Board) {
    |b.grid| == 9 && b.moves == Availability(b.grid) &&
    forall i :: 0 <= i < 9 ==> IsMark(b.grid[i])
  }

  /** A well-formed board whose move counter counts its occupied cells, which
      holds as long as only legal moves are placed. */
  predicate Consistent(b: Board) {
    WellFormed(b) && b.numMoves == Occupied(b.grid)
  }

  /** The state the constructor establishes. */
  function NewBoard(): (r: Board)
    ensures Consistent(r) && r.numMoves == 0
    ensures forall i :: 0 <= i < 9 ==> r.grid[i] == NobodyMark
  {
    var g := seq(9, i => NobodyMark);
    assert Occupied(g) == 0 by { AllFreeOccupied(g, 9); }
    Board(g, Availability(g), 0, NobodyTurn, NobodyTurn)
  }

  lemma {:induction false} AllFreeOccupied(g: seq<char>, n: nat)
    requires n <= |g|
    requires forall i :: 0 <= i < |g| ==> g[i] == NobodyMark
    ensures OccupiedBelow(g, n) == 0
    decreases n
  {
    if n > 0 {
      AllFreeOccupied(g, n - 1);
    }
  }

  // ---------------------------------------------------------------------------
  // Placing a piece

  /** placePiece: write the player's mark, count the move, regenerate the
      availability array. No occupancy check is made. */
  function Place(b: Board, player: int, move: int): (r: Board)
    requires WellFormed(b) && 0 <= move <= 8
    ensures WellFormed(r)
    ensures Consistent(b) && b.grid[move] == NobodyMark ==> Consistent(r)
  {
    var g := b.grid[move := MarkOf(player)];
    OccupiedUpdate(b.grid, move, MarkOf(player), 9);
    b.(grid := g, moves := Availability(g), numMoves := b.numMoves + 1)
  }

  /** Filling a free cell adds exactly one occupied cell; rewriting a cell with
      its own mark adds none. */
  lemma {:induction false} OccupiedUpdate(g: seq<char>, k: int, c: char, n: nat)
    requires 0 <= k < |g| && n <= |g|
    ensures n <= k ==> OccupiedBelow(g[k := c], n) == OccupiedBelow(g, n)
    ensures k < n && g[k] == NobodyMark && c != NobodyMark ==>
      OccupiedBelow(g[k := c], n) == OccupiedBelow(g, n) + 1
    ensures g[k] == c ==> OccupiedBelow(g[k := c], n) == OccupiedBelow(g, n)
    decreases n
  {
    if n > 0 {
      OccupiedUpdate(g, k, c, n - 1);
    }
  }

  // ---------------------------------------------------------------------------
  // Legal moves

  /** The ascending list of indices below `n` whose availability is 1, as the
      loop of generateLegalMoves builds it. */
  function LegalUpTo(m: seq<int>, n: nat): seq<int>
    requires n <= |m|
    // The `m` keeps Dafny from unrolling calls whose `n` is a literal such as 9.
    decreases n, m
  {
    if n == 0 then []
    else LegalUpTo(m, n - 1) + (if m[n - 1] == 1 then [n - 1] else [])
  }

  /** generateLegalMoves: the legal moves of the board, ascending. */
  function LegalMoves(b: Board): seq<int>
    requires |b.moves| == 9
  {
    LegalUpTo(b.moves, |b.moves|)
  }

  /** legalMove: inside the board and marked available. */
  function LegalMove(b: Board, move: int): bool
    requires |b.moves| == 9
  {
    if move < 0 || move > 8 then false else b.moves[move] == 1
  }

  /** The list holds exactly the indices below `n` marked available. */
  lemma {:induction false} LegalUpToMembers(m: seq<int>, n: nat)
    requires n <= |m|
    ensures forall k :: k in LegalUpTo(m, n) <==> 0 <= k < n && m[k] == 1
    decreases n
  {
    if n > 0 {
      LegalUpToMembers(m, n - 1);
    }
  }

  /** The list is strictly ascending. */
  lemma {:induction false} LegalUpToSorted(m: seq<int>, n: nat)
    requires n <= |m|
    ensures forall i, j :: 0 <= i < j < |LegalUpTo(m, n)| ==> LegalUpTo(m, n)[i] < LegalUpTo(m, n)[j]
    decreases n
  {
    if n > 0 {
      LegalUpToSorted(m, n - 1);
      LegalUpToMembers(m, n - 1);
      var prev := LegalUpTo(m, n - 1);
      assert forall i :: 0 <= i < |prev| ==> prev[i] in prev;
    }
  }

  /** Free cells of the first `n` and occupied cells of the first `n` add up to `n`. */
  lemma {:induction false} LegalUpToCount(g: seq<char>, n: nat)
    requires n <= |g|
    ensures |LegalUpTo(Availability(g), n)| + OccupiedBelow(g, n) == n
    decreases n
  {
    if n > 0 {
      LegalUpToCount(g, n - 1);
    }
  }

  /** The legal moves are exactly the free cells, in strictly ascending order. */
  lemma LegalMovesSpec(b: Board)
    requires WellFormed(b)
    ensures forall k :: k in LegalMoves(b) <==> 0 <= k <= 8 && b.grid[k] == NobodyMark
    ensures forall k :: k in LegalMoves(b) <==> 0 <= k <= 8 && b.moves[k] == 1
    ensures forall i, j :: 0 <= i < j < |LegalMoves(b)| ==> LegalMoves(b)[i] < LegalMoves(b)[j]
  {
    LegalUpToMembers(b.moves, 9);
    LegalUpToSorted(b.moves, 9);
  }

  /** Each entry of the legal-move list names a free cell of the board. */
  lemma LegalMoveAt(b: Board, i: int)
    requires WellFormed(b) && 0 <= i < |LegalMoves(b)|
    ensures 0 <= LegalMoves(b)[i] <= 8 && b.grid[LegalMoves(b)[i]] == NobodyMark
  {
    LegalMovesSpec(b);
    assert LegalMoves(b)[i] in LegalMoves(b);
  }

  /** With only legal moves placed, there are `9 - numMoves` legal moves left. */
  lemma LegalMovesCount(b: Board)
    requires Consistent(b)
    ensures |LegalMoves(b)| == 9 - b.numMoves
    ensures 0 <= b.numMoves <= 9
  {
    LegalUpToCount(b.grid, 9);
  }

  /** legalMove agrees with membership in the legal-move list and with the cell being free. */
  lemma LegalMoveIff(b: Board, move: int)
    requires WellFormed(b)
    ensures LegalMove(b, move) <==> move in LegalMoves(b)
    ensures LegalMove(b, move) <==> 0 <= move <= 8 && b.grid[move] == NobodyMark
  {
    LegalMovesSpec(b);
  }

  /** A legal placement uses up exactly one legal move. */
  lemma PlaceLegalCount(b: Board, player: int, move: int)
    requires Consistent(b) && LegalMove(b, move)
    ensures Consistent(Place(b, player, move))
    ensures |LegalMoves(Place(b, player, move))| == |LegalMoves(b)| - 1
    ensures !LegalMove(Place(b, player, move), move)
  {
    LegalMoveIff(b, move);
    LegalMovesCount(b);
    LegalMovesCount(Place(b, player, move));
  }

  // ---------------------------------------------------------------------------
  // Outcome

  /** The eight lines: three columns, three rows, two diagonals. */
  const Lines: seq<(int, int, int)> :=
    [(0, 3, 6), (1, 4, 7), (2, 5, 8), (0, 1, 2), (3, 4, 5), (6, 7, 8), (0, 4, 8), (2, 4, 6)]

  predicate Complete(g: seq<char>, line: (int, int, int), mark: char) {
    0 <= line.0 < |g| && 0 <= line.1 < |g| && 0 <= line.2 < |g| &&
    g[line.0] == mark && g[line.1] == mark && g[line.2] == mark
  }

  /** Some line is filled with `mark`. */
  predicate HasLine(g: seq<char>, mark: char) {
    exists l :: 0 <= l < |Lines| && Complete(g, Lines[l], mark)
  }

  /** The column loop of result, from column `i` on: 1 for an X column, 2 for an O column. */
  function ColumnScan(g: seq<char>, i: nat): int
    requires |g| == 9
    // The `g` keeps Dafny from unrolling the whole scan on a literal `i`.
    decreases 3 - i, g
  {
    if i >= 3 then 0
    else if Complete(g, (i, i + 3, i + 6), PlayerMark) then 1
    else if Complete(g, (i, i + 3, i + 6), ComputerMark) then 2
    else ColumnScan(g, i + 1)
  }

  /** The row loop of result, from the row starting at `i` on (step 3). */
  function RowScan(g: seq<char>, i: nat): int
    requires |g| == 9
    // The `g` keeps Dafny from unrolling the whole scan on a literal `i`.
    decreases 9 - i, g
  {
    if i > 6 then 0
    else if Complete(g, (i, i + 1, i + 2), PlayerMark) then 1
    else if Complete(g, (i, i + 1, i + 2), ComputerMark) then 2
    else RowScan(g, i + 3)
  }

  /** result: 0 in progress, 1 player won, 2 computer won, 3 draw; columns,
      then rows, then diagonals, then the move counter. */
  function Result(b: Board): int
    requires |b.grid| == 9
  {
    var g := b.grid;
    var c := ColumnScan(g, 0);
    if c != 0 then c
    else
      var r := RowScan(g, 0);
      if r != 0 then r
      else if Complete(g, (0, 4, 8), PlayerMark) then 1
      else if Complete(g, (2, 4, 6), PlayerMark) then 1
      else if Complete(g, (0, 4, 8), ComputerMark) then 2
      else if Complete(g, (2, 4, 6), ComputerMark) then 2
      else if b.numMoves == 9 then 3
      else 0
  }

  lemma ColumnScanSpec(g: seq<char>)
    requires |g| == 9
    ensures ColumnScan(g, 0) in {0, 1, 2}
    ensures ColumnScan(g, 0) == 1 ==> HasLine(g, PlayerMark)
    ensures ColumnScan(g, 0) == 2 ==> HasLine(g, ComputerMark)
    ensures ColumnScan(g, 0) == 0 <==>
      forall l :: 0 <= l < 3 ==> !Complete(g, Lines[l], PlayerMark) && !Complete(g, Lines[l], ComputerMark)
  {
    assert ColumnScan(g, 3) == 0;
    assert ColumnScan(g, 2) == if Complete(g, (2, 5, 8), PlayerMark) then 1
      else if Complete(g, (2, 5, 8), ComputerMark) then 2 else 0;
    assert ColumnScan(g, 1) == if Complete(g, (1, 4, 7), PlayerMark) then 1
      else if Complete(g, (1, 4, 7), ComputerMark) then 2 else ColumnScan(g, 2);
    var r := ColumnScan(g, 0);
    if r == 1 {
      if Complete(g, (0, 3, 6), PlayerMark) { assert Complete(g, Lines[0], PlayerMark); }
      else if Complete(g, (1, 4, 7), PlayerMark) { assert Complete(g, Lines[1], PlayerMark); }
      else { assert Complete(g, Lines[2], PlayerMark); }
    } else if r == 2 {
      if Complete(g, (0, 3, 6), ComputerMark) { assert Complete(g, Lines[0], ComputerMark); }
      else if Complete(g, (1, 4, 7), ComputerMark) { assert Complete(g, Lines[1], ComputerMark); }
      else { assert Complete(g, Lines[2], ComputerMark); }
    }
  }

  lemma RowScanSpec(g: seq<char>)
    requires |g| == 9
    ensures RowScan(g, 0) in {0, 1, 2}
    ensures RowScan(g, 0) == 1 ==> HasLine(g, PlayerMark)
    ensures RowScan(g, 0) == 2 ==> HasLine(g, ComputerMark)
    ensures RowScan(g, 0) == 0 <==>
      forall l :: 3 <= l < 6 ==> !Complete(g, Lines[l], PlayerMark) && !Complete(g, Lines[l], ComputerMark)
  {
    assert RowScan(g, 9) == 0;
    assert RowScan(g, 6) == if Complete(g, (6, 7, 8), PlayerMark) then 1
      else if Complete(g, (6, 7, 8), ComputerMark) then 2 else 0;
    assert RowScan(g, 3) == if Complete(g, (3, 4, 5), PlayerMark) then 1
      else if Complete(g, (3, 4, 5), ComputerMark) then 2 else RowScan(g, 6);
    var r := RowScan(g, 0);
    if r == 1 {
      if Complete(g, (0, 1, 2), PlayerMark) { assert Complete(g, Lines[3], PlayerMark); }
      else if Complete(g, (3, 4, 5), PlayerMark) { assert Complete(g, Lines[4], PlayerMark); }
      else { assert Complete(g, Lines[5], PlayerMark); }
    } else if r == 2 {
      if Complete(g, (0, 1, 2), ComputerMark) { assert Complete(g, Lines[3], ComputerMark); }
      else if Complete(g, (3, 4, 5), ComputerMark) { assert Complete(g, Lines[4], ComputerMark); }
      else { assert Complete(g, Lines[5], ComputerMark); }
    }
  }

  /** What result reports: a completed line decides (1 for X, 2 for O) before
      the move counter is consulted; 3 is a full count with no line, 0 the rest. */
  lemma ResultSpec(b: Board)
    requires |b.grid| == 9
    ensures 0 <= Result(b) <= 3
    ensures Result(b) == 1 ==> HasLine(b.grid, PlayerMark)
    ensures Result(b) == 2 ==> HasLine(b.grid, ComputerMark)
    ensures Result(b) == 3 <==>
      !HasLine(b.grid, PlayerMark) && !HasLine(b.grid, ComputerMark) && b.numMoves == 9
    ensures Result(b) == 0 <==>
      !HasLine(b.grid, PlayerMark) && !HasLine(b.grid, ComputerMark) && b.numMoves != 9
    ensures HasLine(b.grid, PlayerMark) && !HasLine(b.grid, ComputerMark) ==> Result(b) == 1
    ensures HasLine(b.grid, ComputerMark) && !HasLine(b.grid, PlayerMark) ==> Result(b) == 2
  {
    var g := b.grid;
    ColumnScanSpec(g);
    RowScanSpec(g);
    if Complete(g, (0, 4, 8), PlayerMark) { assert Complete(g, Lines[6], PlayerMark); }
    if Complete(g, (2, 4, 6), PlayerMark) { assert Complete(g, Lines[7], PlayerMark); }
    if Complete(g, (0, 4, 8), ComputerMark) { assert Complete(g, Lines[6], ComputerMark); }
    if Complete(g, (2, 4, 6), ComputerMark) { assert Complete(g, Lines[7], ComputerMark); }
    if ColumnScan(g, 0) == 0 && RowScan(g, 0) == 0 &&
       !Complete(g, (0, 4, 8), PlayerMark) && !Complete(g, (2, 4, 6), PlayerMark) &&
       !Complete(g, (0, 4, 8), ComputerMark) && !Complete(g, (2, 4, 6), ComputerMark)
    {
      forall l, mark | 0 <= l < |Lines| && (mark == PlayerMark || mark == ComputerMark)
        ensures !Complete(g, Lines[l], mark)
      {
        if l == 6 { assert !Complete(g, (0, 4, 8), mark); }
        else if l == 7 { assert !Complete(g, (2, 4, 6), mark); }
      }
    }
  }

  /** isOver: the outcome is anything but "in progress". */
  function IsOver(b: Board): bool
    requires |b.grid| == 9
  {
    Result(b) != 0
  }

  /** The game is over exactly when a line is complete or nine moves were made. */
  lemma IsOverIff(b: Board)
    requires |b.grid| == 9
    ensures IsOver(b) <==>
      HasLine(b.grid, PlayerMark) || HasLine(b.grid, ComputerMark) || b.numMoves == 9
  {
    ResultSpec(b);
  }

  /** The three scores the search works with. */
  predicate IsScore(v: int) {
    v == 0 || v == 50 || v == 100
  }

  /** judge: the computer's standing, 100 won, 0 lost, 50 otherwise. */
  function Judge(b: Board): (r: int)
    requires |b.grid| == 9
    ensures IsScore(r)
    ensures r == 0 <==> Result(b) == 1
    ensures r == 100 <==> Result(b) == 2
    ensures r == 50 <==> Result(b) != 1 && Result(b) != 2
  {
    var res := Result(b);
    if res == 0 then 50
    else if res == 1 then 0
    else if res == 2 then 100
    else if res == 3 then 50
    else 50
  }

  /** What a judged score says about the lines on the board. */
  lemma JudgeMeaning(b: Board)
    requires |b.grid| == 9
    ensures Judge(b) == 0 ==> HasLine(b.grid, PlayerMark)
    ensures Judge(b) == 100 ==> HasLine(b.grid, ComputerMark)
    ensures Judge(b) == 50 ==> !HasLine(b.grid, PlayerMark) && !HasLine(b.grid, ComputerMark)
    ensures HasLine(b.grid, PlayerMark) && !HasLine(b.grid, ComputerMark) ==> Judge(b) == 0
    ensures HasLine(b.grid, ComputerMark) && !HasLine(b.grid, PlayerMark) ==> Judge(b) == 100
  {
    ResultSpec(b);
  }

  // ---------------------------------------------------------------------------
  // Display string

  /** The character drawBoard emits for one cell. */
  function CellCode(c: char): char {
    if c == PlayerMark then '1' else if c == ComputerMark then '2' else '-'
  }

  /** The cells the GUI paints for one character of the display string. */
  function CellOf(code: char): char {
    if code == '-' then NobodyMark else if code == '1' then PlayerMark else ComputerMark
  }

  /** The per-cell part of drawBoard's string, accumulated left to right. */
  function Encode(g: seq<char>): string
    decreases |g|
  {
    if g == [] then [] else Encode(g[..|g| - 1]) + [CellCode(g[|g| - 1])]
  }

  /** The GUI's reading of a display string back into cells. */
  function Decode(s: string): seq<char> {
    seq(|s|, i requires 0 <= i < |s| => CellOf(s[i]))
  }

  lemma {:induction false} EncodeAt(g: seq<char>)
    ensures |Encode(g)| == |g|
    ensures forall i :: 0 <= i < |g| ==> Encode(g)[i] == CellCode(g[i])
    decreases |g|
  {
    if g != [] {
      EncodeAt(g[..|g| - 1]);
    }
  }

  /** Decoding the display string of a grid over the three marks gives the grid back. */
  lemma DecodeEncode(g: seq<char>)
    requires forall i :: 0 <= i < |g| ==> IsMark(g[i])
    ensures Decode(Encode(g)) == g
  {
    EncodeAt(g);
    var d := Decode(Encode(g));
    forall i | 0 <= i < |g|
      ensures d[i] == g[i]
    {
      assert Encode(g)[i] == CellCode(g[i]);
    }
  }
}

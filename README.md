# JogoDaVelha: a verified model of the tic-tac-toe engine and its search

This project models the `JogoDaVelha` class: the game object behind the tic-tac-toe
server. It covers the nine-cell grid with its availability array, the move counter and
the two turn fields. It also covers the queries on the board (legal moves, outcome,
score, display string) and the depth-limited game-tree search that picks the computer's
move (`bestGuess` and `bestMove`).

There are three modules.

- `Engine` (engine.dfy) holds the object's state as a value, `Board`, and the pure
  queries as functions on it: `result`, `judge`, `isOver`, `legalMove`,
  `generateLegalMoves`, `placePiece` as a state transformer, and the `drawBoard` encoding.
  It also states two invariants:
  - `WellFormed`: the availability array agrees with the grid.
  - `Consistent`: in addition, the move counter counts the occupied cells. This holds as
    long as only free cells are played.
- `Search` (search.dfy) holds specification functions for `bestGuess` and `bestMove`,
  defined exactly as the class runs them:
  - only the first child of a node takes its turn from the parity of the level;
  - every later child is a fresh copy of the node, so its mark and the max/min choice
    follow the node's own `whoseTurn`;
  - the root keeps a candidate only when it is strictly better.
- `Game` (game.dfy) is the class itself, with the grid and availability array as Dafny
  `array`s and the counters as fields.
  - Its methods keep the source's loops and its searches over deep copies.
  - Each method is proved against the `Engine`/`Search` functions of `State()`, the
    object's state as a value.
  - `BestGuess` and `BestMove` have no `modifies` clause, so they cannot change the
    object they are called on. They work only on fresh copies.
  - The getters `GetWhoseTurn` and `GetFirstTurn` are plain field reads.

Every operation is specified by a function. The properties of those functions are proved
as lemmas:
- the result ranges and their meaning in terms of completed lines;
- the score mapping;
- the legal-move list: its exact contents, its order and its length `9 - numMoves`;
- the display string round trip through the client's decoding;
- the max/min character of each search level;
- the strict-comparison tie-break of the root move choice.

## Model

| member | source | states |
|---|---|---|
| Engine.NewBoard | src/JogoDaVelha.java:54-61 | the initial board has every cell empty, a zero move counter, and an availability array that agrees with the grid |
| Game.JogoDaVelha.constructor | src/JogoDaVelha.java:54-61 | the fill loop and generateMoves give exactly the initial board, with fresh arrays |
| Game.JogoDaVelha.Copy | src/JogoDaVelha.java:66-73 | a deep copy: fresh grid and availability arrays with the same contents and the same counters and turns |
| Game.JogoDaVelha.Clone | src/JogoDaVelha.java:66-73 | the clone is a fresh object, with fresh arrays, whose state equals the original's |
| Game.JogoDaVelha.ChooseFirstPlayer | src/JogoDaVelha.java:79-92 | a draw of 0 makes the player first and any other draw the computer; nothing else changes |
| Game.JogoDaVelha.DrawBoard | src/JogoDaVelha.java:98-111 | the string has length 10 and ends in a newline; character i is '1' for X, '2' for O and '-' otherwise; decoding its first nine characters gives the grid back |
| Engine.EncodeAt | src/JogoDaVelha.java:98-111 | the per-cell string has one character per cell, each the code of that cell |
| Engine.DecodeEncode | src/JogoDaVelha.java:98-111 | on a grid over ' ', 'X' and 'O', the client's reading ('-' empty, '1' X, anything else O) of the display string recovers the grid |
| Engine.Encode | src/JogoDaVelha.java:98-111 | the per-cell part of drawBoard's string; no contract of its own, EncodeAt and DecodeEncode state what it holds |
| Engine.Decode | src/JogoDaVelhaGUI.java:216-237 | the client's reading of the display string ('-' empty, '1' X, anything else O); no contract of its own, DecodeEncode states the round trip |
| Game.JogoDaVelha.GenerateMoves | src/JogoDaVelha.java:117-126 | afterwards the availability array holds 1 exactly at the empty cells and 0 elsewhere; only that array changes |
| Engine.Availability | src/JogoDaVelha.java:117-126 | the array generateMoves writes; no contract of its own, GenerateMoves and LegalMovesSpec state what it holds |
| Game.JogoDaVelha.GenerateLegalMoves | src/JogoDaVelha.java:132-153 | the array-growing loop returns the legal-move list of the current state |
| Engine.LegalUpTo | src/JogoDaVelha.java:132-153 | the list the loop has built after n cells; no contract of its own, LegalUpToMembers, LegalUpToSorted and LegalUpToCount state its contents, order and length |
| Engine.LegalMoves | src/JogoDaVelha.java:132-153 | the full legal-move list; no contract of its own, LegalMovesSpec and LegalMovesCount state its contents, order and length |
| Engine.LegalUpToMembers | src/JogoDaVelha.java:132-153 | after scanning n cells the list holds exactly the indices below n whose availability is 1 |
| Engine.LegalUpToSorted | src/JogoDaVelha.java:132-153 | the list is strictly ascending |
| Engine.LegalUpToCount | src/JogoDaVelha.java:132-153 | free cells listed plus occupied cells counted over the first n cells add up to n |
| Engine.LegalMovesSpec | src/JogoDaVelha.java:132-153 | a move is listed iff it is in 0..8 and its cell is empty, iff its availability is 1; the list is strictly ascending |
| Engine.LegalMoveAt | src/JogoDaVelha.java:132-153 | every entry of the list is a cell index 0..8 whose cell is empty |
| Engine.LegalMove | src/JogoDaVelha.java:158-166 | legalMove; no contract of its own, LegalMoveIff states its meaning |
| Engine.LegalMovesCount | src/JogoDaVelha.java:117-153 | on a board where only free cells were played, there are exactly 9 - numMoves legal moves and 0 <= numMoves <= 9 |
| Engine.LegalMoveIff | src/JogoDaVelha.java:158-166 | legalMove holds iff the move is in the legal-move list, iff it is in 0..8 with an empty cell; out of range it is false |
| Engine.Place | src/JogoDaVelha.java:351-358 | placing keeps the availability array in agreement with the grid; on a free cell it also keeps the move counter equal to the number of occupied cells |
| Engine.OccupiedUpdate | src/JogoDaVelha.java:351-358 | writing a mark into an empty cell adds exactly one occupied cell; rewriting a cell with its own mark adds none |
| Engine.PlaceLegalCount | src/JogoDaVelha.java:351-358 | a legal placement keeps the board consistent, uses up exactly one legal move, and makes that move illegal |
| Game.JogoDaVelha.PlacePiece | src/JogoDaVelha.java:351-358 | writes only grid[move]: 'X' for the player turn and 'O' for any other value; numMoves goes up by exactly 1; whoseTurn, firstTurn and the other cells are unchanged; availability stays in agreement; no occupancy check is made |
| Engine.ColumnScan | src/JogoDaVelha.java:367-377 | the column loop of result; no contract of its own, ColumnScanSpec states its meaning |
| Engine.RowScan | src/JogoDaVelha.java:380-390 | the row loop of result; no contract of its own, RowScanSpec states its meaning |
| Engine.Result | src/JogoDaVelha.java:365-418 | result, in the source's order of checks; no contract of its own, ResultSpec states its meaning |
| Engine.ColumnScanSpec | src/JogoDaVelha.java:367-377 | the column loop reports 0, 1 or 2; 1 only for an X column, 2 only for an O column; 0 iff no column is complete |
| Engine.RowScanSpec | src/JogoDaVelha.java:380-390 | the row loop reports 0, 1 or 2; 1 only for an X row, 2 only for an O row; 0 iff no row is complete |
| Engine.ResultSpec | src/JogoDaVelha.java:365-418 | the result is in 0..3: 1 needs an X line, 2 an O line; 3 iff no line is complete and numMoves is 9; 0 iff no line is complete and numMoves is not 9; a line of only one mark decides the result, whatever the counter |
| Engine.Judge | src/JogoDaVelha.java:425-439 | the score is 0, 50 or 100: 0 iff the result is 1, 100 iff it is 2, and 50 otherwise |
| Engine.JudgeMeaning | src/JogoDaVelha.java:425-439 | a score of 0 implies an X line and 100 an O line; 50 implies no completed line; a line of only one mark fixes the score |
| Engine.IsOver | src/JogoDaVelha.java:444-446 | isOver; no contract of its own, IsOverIff states its meaning |
| Engine.IsOverIff | src/JogoDaVelha.java:444-446 | the game is over iff some line is complete or numMoves is 9 |
| Search.Guess | src/JogoDaVelha.java:274-345 | the search value of any consistent board at any depth is 0, 50 or 100 |
| Search.FirstChild | src/JogoDaVelha.java:303-317 | the first child: a copy given the parity turn and marked with it; no contract of its own, ChildScore and FirstGuess use it |
| Search.LaterChild | src/JogoDaVelha.java:324-326 | a later child: a copy of the node marked with the node's own whoseTurn; no contract of its own, ChildScore and BestGuess use it |
| Search.Combine | src/JogoDaVelha.java:332-339 | max on the player's turn, min otherwise; no contract of its own, GuessUpToIsExtreme states what the fold computes |
| Search.GuessUpTo | src/JogoDaVelha.java:316-342 | the value bestGuessValue holds after n children is a score |
| Search.ChildScore | src/JogoDaVelha.java:303-328 | each child's search value one level down is a score |
| Search.GuessUpToIsExtreme | src/JogoDaVelha.java:321-342 | after n children the value kept is their maximum when the node's whoseTurn is the player's and their minimum otherwise, and it is one of their scores |
| Search.GuessIsExtreme | src/JogoDaVelha.java:274-345 | a node neither at depth 0 nor over has a legal move; its value is the maximum of its children's scores on the player's turn and the minimum otherwise, and equals one of them |
| Search.GuessAtLeaf | src/JogoDaVelha.java:298-300 | at depth 0 or on a finished game the value is judge(); 100 needs an O line and 0 an X line |
| Search.NonTerminalHasMoves | src/JogoDaVelha.java:316 | a consistent board that is not over has at least one legal move, so legalMoves[0] exists |
| Game.JogoDaVelha.BestGuess | src/JogoDaVelha.java:274-345 | returns the search value of the current state, which is 0, 50 or 100; it terminates because the level strictly decreases; it changes nothing in the receiver |
| Game.JogoDaVelha.FirstGuess | src/JogoDaVelha.java:303-318 | the first try, on a copy whose whoseTurn is set by the parity of the level, yields the first child's score |
| Game.JogoDaVelha.PlaceAndGuess | src/JogoDaVelha.java:326-328 | the copy ends up valid in the placed state, and the value returned is the search value of that placed board |
| Search.RootScore | src/JogoDaVelha.java:218-242 | each candidate's score, the computer's mark on that legal move searched to depth 8, is 0, 50 or 100 |
| Search.PickUpTo | src/JogoDaVelha.java:226-257 | after n candidates the kept position is one of them and the kept value is that candidate's score |
| Search.Prefers | src/JogoDaVelha.java:250-251 | bestMove's strict update test; no contract of its own, PickUpToSpec states what it selects |
| Search.PickUpToSpec | src/JogoDaVelha.java:226-257 | the kept score is the highest seen when whoseTurn is the computer's and the lowest otherwise, and every earlier candidate is strictly worse |
| Search.ChosenIndex | src/JogoDaVelha.java:187-260 | the position of the move bestMove keeps lies within the legal-move list |
| Search.ChosenMove | src/JogoDaVelha.java:187-260 | the move chosen is a legal move: a cell in 0..8 that is empty |
| Search.ChosenMoveIsFirstBest | src/JogoDaVelha.java:187-260 | the move chosen is the lowest legal move with the highest score when whoseTurn is the computer's, and the lowest with the lowest score otherwise |
| Game.JogoDaVelha.BestMove | src/JogoDaVelha.java:187-260 | given at least one legal move, returns the chosen move, which is in the legal-move list; it changes nothing in the receiver |
| Game.JogoDaVelha.TryRootMove | src/JogoDaVelha.java:236-242 | one try on a fresh copy returns that legal move, its score and the copy's whoseTurn |
| Game.JogoDaVelha.ComputerMove | src/JogoDaVelha.java:172-176 | the new state is the old one with the computer's 'O' placed on the chosen move, and it stays consistent |
| Game.JogoDaVelha.SetWhoseTurn | src/JogoDaVelha.java:458-460 | only whoseTurn changes, and it becomes the given value |
| Game.JogoDaVelha.SetFirstTurn | src/JogoDaVelha.java:472-474 | only firstTurn changes, and it becomes the given value |
| Game.JogoDaVelha.GetWhoseTurn | src/JogoDaVelha.java:451-453 | a plain read of whoseTurn; no contract of its own |
| Game.JogoDaVelha.GetFirstTurn | src/JogoDaVelha.java:465-467 | a plain read of firstTurn; no contract of its own |

## Left out

- The Swing client, the socket server and the line protocol of a game session
  (src/JogoDaVelhaGUI.java, src/Server.java, src/ServerGame.java) are input/output and are
  not modelled.
  - The only part of the client used here is its reading of the display string
    (src/JogoDaVelhaGUI.java:216-237). It is the `Engine.Decode` function.
- `chooseFirstPlayer` draws from `java.util.Random`. The draw is the parameter `coin` of
  `ChooseFirstPlayer`.
- `CloneNotSupportedException` is never thrown by this class, so `clone` is a plain deep
  copy with no error path.
- `getMoves`, `getPLAYER_TURN` and `getCOMPUTER_TURN` are accessors outside the modelled
  core.
- The getters `GetWhoseTurn` and `GetFirstTurn` are plain field reads. They have no
  contract of their own.
- Search.Guess, Game.JogoDaVelha.BestGuess: these require a consistent board, meaning one
  where the move counter equals the number of occupied cells. The source indexes
  `legalMoves[0]` on every board that is not over. On an inconsistent board (a cell
  played twice) that index can fail, and the model does not describe that failure.
- Game.JogoDaVelha.BestMove, Game.JogoDaVelha.ComputerMove: these require at least one
  legal move, because the source indexes `legalMoves[0]` unconditionally.
- Game.JogoDaVelha.PlacePiece: it requires only `0 <= move <= 8`. An occupied cell is
  overwritten; the code makes no occupancy check and raises no error.
- No claim is made that the search plays optimally or never loses. The code does not
  promise it, and the way later children are re-cloned with the node's own turn can
  depart from textbook minimax.
- The array-growing copy inside `generateLegalMoves` is modelled as appending to a
  sequence. The copying of the temporary array is not modelled.
- Game.JogoDaVelha.FirstGuess, Game.JogoDaVelha.PlaceAndGuess and
  Game.JogoDaVelha.TryRootMove: each is one try of a search loop, factored out into its
  own method. They make the same calls in the same order as the source.
- Game.JogoDaVelha.BestMove: the source reads the legal moves from a copy and then plays
  its first candidate on that same copy. The model plays the first candidate on a second
  fresh copy, which has the same state.
- Java's 32-bit `int` never overflows here: every value is a cell index, a counter of at
  most nine, a turn or a score. Unbounded integers are used throughout.

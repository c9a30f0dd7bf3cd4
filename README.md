# Tic-tac-toe game server, modelled in Dafny

This project models the authoritative game logic of a WebSocket tic-tac-toe
server (`server/index.js`):

- **Board evaluation** (`Board.dfy`): the 3x3 grid as a nine-cell sequence,
  `checkWinner` (the first of the eight lines, scanned rows, columns,
  diagonals, whose three cells are equal and not empty), `isBoardFull`, and
  the list of free cells the search iterates over.
- **Computer opponent** (`Search.dfy`): `evaluateBoard`, the full-depth
  `minimax` search and the root loop of `getAIMove`. As in the code, the
  search maximises for "X" and minimises for "O" whatever symbol the
  computer plays.
- **Game identifiers** (`GameIds.dfy`): `game_N` and `game_ai_N`, built from
  one shared counter.
- **Game registry** (`Server.dfy`): the `games` map, its insertion order
  (the order in which a JavaScript `Map` is iterated), `gameIdCounter`,
  the game each connection last joined (`ws.gameId`), and an outbox that
  records every message the server sends, in order. The handlers for
  joining a two-player game, starting a game against the computer, playing
  a move, asking for a rematch and closing a connection are methods of the
  class `Registry`. They keep an invariant: every stored game is keyed by
  its own id, which lies below the counter; a winner is set only on a
  finished game and agrees with its board; a finished game with no winner
  has a full board; at most one two-player game is waiting for an
  opponent; and a two-player game holds at most two symbols.

A symbol is whatever value a client sends. The model takes every symbol to
be a string. Strings are compared only for equality and with the literals
`''`, `'X'` and `'O'`, so a cell is modelled as a token: `Empty`, `X`, `O`,
or `Other(n)` for any other string.

Behaviour of the code that the model reproduces as written:

- The per-game `symbols` object is keyed by a socket, so every socket
  names the same key. The model has a single symbol slot per two-player
  game: the last joiner's symbol decides whose turn it is for both
  players.
- A joiner keeps the symbol it asked for. It is not given the other one.
- A move is refused because of `winner`, not `status`. A two-player game
  still waiting for an opponent accepts at most one move, and only if its
  creator chose "O": the turn starts at "O" and must equal the shared
  symbol.
- Each accepted two-player move flips the turn away from the shared
  symbol, and only the second player's arrival rewrites that symbol. So a
  two-player game gets at most one move before its second player arrives
  and at most one after. With at most two symbols on the board it is never
  won or drawn, and the win and draw branches never fire for it.
- A rematch sets the status to "playing" whatever it was before, even for
  a game still waiting for its second player.
- A closed connection deletes its two-player game, finished or not. Games
  against the computer are never deleted.

The code never gives a joiner the other symbol, and a rematch can make a
one-player game "playing". The model follows the code.

## Model

| member | source | states |
|---|---|---|
| Board.NewBoard | server/index.js:186 | a fresh board has nine empty cells |
| Board.NewBoardCount | server/index.js:186 | a fresh board has nine free cells |
| Board.CheckWinner | server/index.js:97-116 | any symbol reported is not the empty cell |
| Board.CheckWinnerFindsFirst | server/index.js:97-116 | `checkWinner` finds nothing exactly when no line is complete; otherwise it returns the symbol of the first complete line in scan order |
| Board.WinnerFrom | server/index.js:109-115 | the scan from line k reports only a symbol, never the empty cell |
| Board.WinnerFromNone | server/index.js:109-115 | the scan from line k finds nothing if and only if no line from k on is complete |
| Board.WinnerFromSome | server/index.js:109-115 | a symbol found by the scan from line k is that of the first complete line from k on |
| Board.IsBoardFull | server/index.js:118-120 | the board is full if and only if no cell is empty |
| Board.EmptyFromAbove | server/index.js:28-30 | the free-cell scan from index i lists only indices from i on |
| Board.EmptyFromComplete | server/index.js:28-30 | the free-cell scan from index i misses no free cell from i on |
| Board.EmptyFromIncreasing | server/index.js:28-30 | the free-cell scan from index i lists its indices in strictly increasing order |
| Board.EmptyFromExact | server/index.js:28-30 | the free-cell scan from index i lists exactly the free cells from i on, in strictly increasing order |
| Board.EmptySquares | server/index.js:76-78 | every listed index is a free cell (that every free cell is listed, once and in order, is EmptySquaresExact) |
| Board.EmptySquaresExact | server/index.js:76-78 | the free-cell list holds exactly the free cells, each once, in increasing order |
| Board.EmptySquaresListsFree | server/index.js:76-78 | every free cell has a position in the free-cell list |
| Board.EmptySquaresOrdered | server/index.js:76-78 | a later position in the free-cell list holds a larger index |
| Board.FullMeansNoneFree | server/index.js:32 | a board is full exactly when its free-cell list is empty and its free-cell count is zero |
| Board.CountFromZero | server/index.js:118-120 | no cell from i on is free exactly when the count from i on is zero; that count is at most 9 - i |
| Board.FillOne | server/index.js:37-38 | writing a symbol into a free cell reduces the free-cell count by one, so the search terminates |
| Board.FillOneFrom | server/index.js:37-38 | writing into cell j lowers the count from i on by one when j >= i and leaves it unchanged otherwise |
| Board.CountEmptyAtMostNine | server/index.js:118-120 | a board has at most nine free cells |
| Board.CountFromThreeTaken | server/index.js:97-116 | three distinct occupied cells at or after index i lower the free count from i on by their number |
| Board.WonLineTakesThree | server/index.js:97-116 | a completed line occupies three cells, so a won board has at most six free cells |
| Board.FewTakenUndecided | server/index.js:97-120 | a board with at least seven free cells is neither won nor full |
| Search.EvaluateBoard | server/index.js:55-74 | 10 exactly when the first complete line holds "X", -10 exactly when it holds another symbol, 0 exactly when no line is complete |
| Search.Minimax | server/index.js:22-53 | the search itself; what it computes is stated by MinimaxTerminal, MaxNodeBound, MinNodeBound, MinimaxMaxNode, MinimaxMinNode and MinimaxRange |
| Search.MinimaxTerminal | server/index.js:23-32 | a board won by "X" scores 10 - depth, one won by any other symbol scores depth - 10, and a full board with no line scores 0 |
| Search.ChildScoreAt | server/index.js:36-41 | entry k of the child scores is the search below the board with the symbol placed in the k-th free cell |
| Search.MaxOf | server/index.js:35-42 | the maximising fold is no less than its start or any score, and equals its start or one of the scores |
| Search.MinOf | server/index.js:44-51 | the minimising fold is no greater than its start or any score, and equals its start or one of the scores |
| Search.MaxOfAttained | server/index.js:35-42 | a maximum folded from a start below every score is one of the scores |
| Search.MinOfAttained | server/index.js:44-51 | a minimum folded from a start above every score is one of the scores |
| Search.MinimaxBounded | server/index.js:22-53 | while depth plus free cells is at most 20, every score lies in [-10, 10] |
| Search.ChildScoresBounded | server/index.js:36-50 | under the same bound, every child score lies in [-10, 10] |
| Search.MinimaxRange | server/index.js:22-53 | from any depth 0..9 every score lies in [-10, 10] |
| Search.MaxNodeBound | server/index.js:34-42 | with X to move on an undecided board, no child that puts X into a free cell scores above its parent |
| Search.MinNodeBound | server/index.js:43-51 | with O to move on an undecided board, no child that puts O into a free cell scores below its parent |
| Search.MinimaxMaxNode | server/index.js:34-42 | with X to move on an undecided board, the score is that of some child that puts X into a free cell |
| Search.MinimaxMinNode | server/index.js:43-51 | with O to move on an undecided board, the score is that of some child that puts O into a free cell |
| Search.RootScore | server/index.js:84-86 | every root score lies in [-10, 10], above the -Infinity start of the root loop |
| Search.FirstBest | server/index.js:80-91 | the root loop returns a candidate no other candidate beats, and every candidate before it scores strictly less |
| Search.ScanFindsFirstBest | server/index.js:76-93 | over the free cells in increasing order, the first position no other beats holds the lowest free cell with the greatest score |
| Search.GetAIMove | server/index.js:76-93 | the move is a free cell; no free cell scores higher; every lower free cell scores strictly less |
| GameIds.IdText | server/index.js:181 | every id text starts with "game_", and the character after it is a digit exactly for two-player ids |
| GameIds.NatTextRoundTrip | server/index.js:181 | reading back the decimal text of the counter gives the counter |
| GameIds.IdTextInjective | server/index.js:235 | distinct ids have distinct texts, so `game_N` and `game_ai_N` never collide |
| Server.Broadcast | server/index.js:123-132 | one message per player, in player order, each with the same body |
| Server.FindOther | server/index.js:404 | nothing exactly when every player is the closing connection; otherwise the first other player |
| Server.Without | server/index.js:411 | every id but the deleted one stays and no other is added; an order without duplicates keeps none |
| Server.WithoutKeepsOrder | server/index.js:411 | deleting an absent id leaves the order as it is; deleting an id listed once cuts it out at its position, the other ids keeping their insertion order |
| Server.WithoutAbsent | server/index.js:411 | deleting an id that is not listed leaves the order unchanged |
| Server.WithoutCutsOutAt | server/index.js:411 | deleting an id found only at position k gives the ids before k followed by the ids after k |
| Server.MoveIgnored | server/index.js:264-275 | the early returns of `handlePlayMove`: unknown game, winner set, not the shared symbol's turn, or target not a free cell |
| Server.FinishedGameIgnoresMoves | server/index.js:264-275 | a finished game refuses every move: its winner is set or its board is full |
| Server.TwoPlayerGameNeverEnds | server/index.js:277-298 | a stored two-player game has at least seven free cells, no completed line and a non-full board, so it has no winner and is not finished |
| Server.ReplaceKeepsInv | server/index.js:206-208 | replacing a game by a well-formed one that opens no second waiting game keeps the registry invariant |
| Server.AddKeepsInv | server/index.js:180-191 | an id made from the current counter is new to the registry, and storing the game while advancing the counter keeps the invariant |
| Server.RemoveKeepsInv | server/index.js:411 | deleting a game and its id keeps the invariant |
| Server.TwoPlayerMoveWritesOneCell | server/index.js:275-277 | an accepted two-player move fills the free cell `position` with the shared symbol and changes no other cell or key |
| Server.Flip | server/index.js:298 | the new turn differs from the old one and is "O" or "X" |
| Server.FlipTwice | server/index.js:298 | on "O" and "X", two flips give the turn back |
| Server.SettleAgainstComputer | server/index.js:311-365 | only board, winner and status change; a won board ends the game with that winner, a full board ends it with none, otherwise the player is sent the board, its own symbol as the turn and the computer's cell |
| Server.ComputerWritesAtMostOneCell | server/index.js:336-338 | after the player's move the computer writes its symbol into at most one free cell, and only when the board is neither won nor full |
| Server.ComputerTurn | server/index.js:311-365 | id, mode, players and turn unchanged; the result follows the player's board, or the search's first best cell, and keeps the winner and full-board facts of a stored game |
| Server.Registry.constructor | server/index.js:14-17 | an empty registry with the counter at 1 |
| Server.Registry.FindOpenGame | server/index.js:171-177 | nothing exactly when no two-player game is waiting with one player; otherwise the first such game in insertion order |
| Server.Registry.JoinGame | server/index.js:166-231 | any other mode changes nothing; with no open game a new `game_N` is stored and the joiner told to wait; otherwise the joiner is attached to the open game |
| Server.Registry.CreateWaitingGame | server/index.js:180-199 | a new id is stored with the joiner as its only player, a fresh board and "O" to move, the counter advances and the joiner is told the game was created |
| Server.Registry.AttachToOpenGame | server/index.js:200-229 | the joiner becomes the second player, the shared slot takes its symbol, the game starts, the waiting player and then the joiner are told |
| Server.Registry.JoinAI | server/index.js:233-260 | a new `game_ai_N` is stored with the computer on "X" unless the player chose anything but "O", the counter advances and the player is told |
| Server.Registry.PlayMove | server/index.js:262-367 | an unknown game, a set winner, the wrong turn or a cell that is not free changes nothing and sends nothing; otherwise the step of the game's mode |
| Server.Registry.PlayTwoPlayer | server/index.js:277-305 | only cell `position` takes the shared symbol; then a won game, a drawn game or a flipped turn, broadcast to the players |
| Server.Registry.PlayAgainstComputer | server/index.js:306-366 | the player's symbol, then the computer's answer unless decided; the turn never changes; exactly one message to the player |
| Server.Registry.Rematch | server/index.js:369-398 | an unknown game changes nothing; otherwise a fresh board, "O" to move, no winner and "playing", told to the players (two-player) or to the requester (computer) |
| Server.Registry.Disconnect | server/index.js:400-415 | a known two-player game of the connection is deleted and its first other player told; anything else changes nothing |

## Left out

- I/O and plumbing: the HTTP server, static files, WebSocket wiring, JSON
  parsing and serialisation, and logging. Messages become `Message`
  values appended to `outbox`, and the human-readable `message` and
  `status` strings are not kept.
- The `readyState === OPEN` checks before sending. Every connection is
  treated as open, so `broadcast` and the disconnect notice always send.
- Search.Minimax: the `-Infinity` and `Infinity` starting values are -11
  and 11. This is exact while depth plus free cells is at most 20, and
  the server always searches from depth 0 (MinimaxRange).
- Server.Registry.PlayMove: a position is an integer. A non-integer or
  missing `position` from a malformed message is not modelled.
- Game records are values stored in the map rather than shared objects.
  Nothing else holds a reference to a record, so no aliasing is lost.
- Search.GetAIMove: the model does not prove that the computer never
  loses. The search maximises for "X" even when the computer plays "O".
- Symbols that are not strings: a client can send any JSON value, or none
  (`undefined`). Such values, and the truthiness tests on winners
  (`game.winner`, `if (winner)`), are not modelled. For a falsy symbol such
  as `undefined` the code finds a completed line but treats it as no
  winner, where the model's `Other(n)` wins. For string symbols the tests
  agree with the model, because `checkWinner` never returns `''`.
- `gameIdCounter` is a JavaScript number. Above 2^53 adding one no longer
  changes it, and ids would repeat. The model's counter is an unbounded
  natural number, so AddKeepsInv, JoinGame and JoinAI always get a fresh
  id.
- Concurrency and the blocking nature of the synchronous search are
  outside the model.

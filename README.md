# Reversi in Dafny

This project models the game engines of a Java Reversi (Othello) application and
proves properties of that model. The application has four parts:

- **The console engine** (`ReversiModel`). It holds an n x n `int` board, with
  `PLAYER1 = 1`, `PLAYER2 = -1` and `EMPTY = 0`. It also holds the side to move,
  the cached set of that side's legal moves and a `winner` code, where `DRAW = 2`
  and `EMPTY` means undecided.
- **The computer opponent** (`ReversiAgent`). It runs a depth-limited minimax
  search with alpha-beta bounds over one shared, mutated model. Its heuristic
  adds up corners (50 each), pieces (5 each) and rows and columns fully held
  (100 each).
- **The web engine** (`ReversiGame`). It is the same rules engine with disk codes
  `WHITE = 1` and `BLACK = 2`, two `GamePlayer`s, and a `GameStatus` of NEW,
  IN_PROGRESS or FINISHED.
- **The game service** (`GameService`). It creates games, lets a second player
  join a chosen game or the first NEW game, and plays moves. It works over a
  store of games keyed by id.

The modules follow that structure:

| module | file | contents |
|---|---|---|
| `Wrappers` | wrappers.dfy | `Option` and `Result` |
| `Board` | board.dfy | the rules on value grids (`seq<seq<int>>`), parameterised by the mover's and the opponent's cell codes so that both engines share them |
| `BoardOps` | board_ops.dfy | the in-place procedures both engines run on their `array2<int>` board, each proved against a `Board` function |
| `Cli` | cli.dfy | class `ReversiModel`, proved against the value-level position function `Play` |
| `Agent` | agent.dfy | the heuristic, and the search proved against `Searched`, a recursive relation between a position, the score and the position the shared model is left in |
| `Web` | web.dfy | class `ReversiGame`, proved against the value-level `Play` on a `Game` record |
| `Service` | service.dfy | class `GameService` over a `map<string, ReversiGame>` |

Each of the following is defined independently of the scan that computes it:

- **Legal move** (`Board.LegalFrom`). From one of the mover's disks, a step in one
  of the eight directions lands on an opponent disk. The run of opponent disks
  from there ends on an empty cell inside the board, and that cell is the move.
- **Capture** (`Board.Flipped`). It is the set of opponent disks that lie between
  the new disk and another of the mover's disks along a direction.

The engines' loops are proved to compute exactly these sets. The game-level
lemmas are then stated about `Play`.

## Model

| member | source | states |
|---|---|---|
| Board.LegalMovesSpec | src/main/java/org/reversi/cli/ReversiModel.java:103-143 | the row-by-row, disk-by-disk, direction-by-direction scan's set holds exactly the cells reached by a legal-move ray (both directions) |
| Board.EndsAlongSpec | src/main/java/org/reversi/cli/ReversiModel.java:103-125 | the directions scanned so far from one disk yield exactly the ray ends in those directions |
| Board.LegalMoveIsEmptyCell | src/main/java/org/reversi/cli/ReversiModel.java:103-125 | every legal move is an empty cell inside the board |
| Board.LegalMoveEndsOpponentRun | src/main/java/org/reversi/cli/ReversiModel.java:103-125 | every legal move ends a non-empty straight run of opponent disks that starts next to one of the mover's disks |
| Board.FullBoardHasNoMoves | src/main/java/org/reversi/cli/ReversiModel.java:103-143 | a board with no empty cell has no legal move for anyone |
| Board.FlippedSpec | src/main/java/org/reversi/cli/ReversiModel.java:164-191 | a cell is flipped exactly when it holds an opponent disk on a bracketed run in some direction |
| Board.MoveChangesOnlyCapturedRuns | src/main/java/org/reversi/cli/ReversiModel.java:199-217 | after a move the target holds the mover's disk, every other changed cell went from opponent to mover on a bracketed run, and every captured disk is flipped |
| Board.CaptureFrame | src/main/java/org/reversi/cli/ReversiModel.java:164-191 | the captures along direction k are the same on the board the earlier directions have flipped as on the original board, because those flips lie on other rays |
| Board.CaptureStep | src/main/java/org/reversi/cli/ReversiModel.java:210-217 | one more stealAll call, run on the board the earlier directions left, extends the captures of directions 0..k-1 of the original board to 0..k |
| Board.CapturesComplete | src/main/java/org/reversi/cli/ReversiModel.java:164-191 | once the captures of all eight directions are in, the board is `AfterMove` of the original board: the target plus every bracketed run flipped |
| Board.MoveCounts | src/main/java/org/reversi/cli/ReversiModel.java:199-217 | a legal move removes one empty cell, strictly increases the mover's disks and never increases the opponent's |
| Board.CountPartition | src/main/java/org/reversi/cli/ReversiModel.java:247-261 | on a board of two player codes and EMPTY, the three counts add up to n * n |
| Board.CountZero | src/main/java/org/reversi/web/model/ReversiGame.java:228-242 | a code has count zero exactly when no cell holds it |
| Board.StartFourMoves | src/main/java/org/reversi/cli/ReversiModel.java:70-87 | on the 4 x 4 start the side owning the (1, 1) and (2, 2) disks has exactly the moves (0, 2), (1, 3), (2, 0) and (3, 1) |
| BoardOps.GetPossibleMoveCoords | src/main/java/org/reversi/cli/ReversiModel.java:133-143 | the nested loops over the array return exactly `LegalMoves` of the board |
| BoardOps.AddPossibleMovesFrom | src/main/java/org/reversi/cli/ReversiModel.java:103-125 | the eight direction walks from one disk add exactly that disk's ray ends to the set |
| BoardOps.FindBracket | src/main/java/org/reversi/cli/ReversiModel.java:164-180 | the forward walk over opponent disks reports a bracket exactly when the run ends on one of the mover's disks, and where it ends |
| BoardOps.FlipRun | src/main/java/org/reversi/cli/ReversiModel.java:181-190 | the backward walk turns exactly the bracketed run into the mover's disks and leaves every other cell alone |
| BoardOps.StealAll | src/main/java/org/reversi/cli/ReversiModel.java:164-191 | one direction's capture on the array: the bracketed run is flipped, nothing else changes |
| BoardOps.PlaceDisk | src/main/java/org/reversi/cli/ReversiModel.java:204-217 | marking the target and running the eight captures leaves the array equal to `AfterMove` of the old board |
| BoardOps.CopyBoard | src/main/java/org/reversi/cli/ReversiModel.java:290-291 | the row copies make the destination's cells equal to the source's |
| BoardOps.PlaceStart | src/main/java/org/reversi/cli/ReversiModel.java:77-83 | the four centre writes on an empty array give the criss-cross start |
| Cli.PlayerIndex | src/main/java/org/reversi/cli/ReversiModel.java:238-241 | (player + 1) / 2 with Java's truncating division maps PLAYER1 to 1, and both PLAYER2 and EMPTY to 0 |
| Cli.MajorityByHalf | src/main/java/org/reversi/cli/ReversiModel.java:247-261 | because empty cells go to PLAYER2's slot, PLAYER1 wins exactly when it holds more than half the board, the result is a DRAW exactly at half, and otherwise PLAYER2 wins |
| Cli.MajorityOnFullBoard | src/main/java/org/reversi/cli/ReversiModel.java:247-261 | on a full board the verdict is the side with more disks, or a DRAW on equal counts |
| Cli.MajorityCountsEmptyForPlayer2 | src/main/java/org/reversi/cli/ReversiModel.java:247-261 | a 2 x 2 board with one PLAYER1 disk and three empty cells goes to PLAYER2 |
| Cli.InitialConsistent | src/main/java/org/reversi/cli/ReversiModel.java:70-87 | the start position satisfies the model's invariant: codes only, PLAYER1 to move, the cache is its legal-move set, no winner |
| Cli.InitialLayout | src/main/java/org/reversi/cli/ReversiModel.java:77-85 | the start board has PLAYER1 on (lo, lo) and (hi, hi), PLAYER2 on the anti-diagonal centre cells, and every other cell empty |
| Cli.InitialMovesFour | src/main/java/org/reversi/cli/ReversiModel.java:70-87 | a new 4 x 4 model caches exactly the moves (0, 2), (1, 3), (2, 0) and (3, 1) |
| Cli.PlayKeepsConsistent | src/main/java/org/reversi/cli/ReversiModel.java:199-231 | every move, accepted or not, keeps the invariant |
| Cli.PlayAcceptsLegalMoves | src/main/java/org/reversi/cli/ReversiModel.java:199-202 | a move is accepted exactly when it is legal for the side to move; a rejected move changes nothing |
| Cli.PlayFlipsOnlyCaptures | src/main/java/org/reversi/cli/ReversiModel.java:204-217 | an accepted move fills an empty cell with the mover's disk, and turns only opponent disks into the mover's; the counts move as `Board.MoveCounts` says |
| Cli.PlayFillsOneCell | src/main/java/org/reversi/cli/ReversiModel.java:199-231 | the board loses exactly one empty cell when the move is in the cache, and none otherwise |
| Cli.PlayTurnAndPass | src/main/java/org/reversi/cli/ReversiModel.java:219-229 | the turn passes exactly when the opponent can move, otherwise the mover keeps it; the cache is the new mover's moves; a winner is set exactly when neither side can move, and it is the majority verdict |
| Cli.GameOverIsFinal | src/main/java/org/reversi/cli/ReversiModel.java:199-202 | once a winner is set, every move is rejected and nothing changes |
| Cli.ReversiModel.constructor | src/main/java/org/reversi/cli/ReversiModel.java:70-87 | an even size of at least 2 gives the start position with PLAYER1 to move and its moves cached |
| Cli.NewModel | src/main/java/org/reversi/cli/ReversiModel.java:70-87 | construction succeeds exactly for even sizes of at least 2; an odd size fails as the source's exception does, and the other sizes name why the source would fail |
| Cli.ReversiModel.MakeMove | src/main/java/org/reversi/cli/ReversiModel.java:199-231 | the object's new state and the result are `Play` of its old state, and the invariant is kept |
| Cli.ReversiModel.HandOver | src/main/java/org/reversi/cli/ReversiModel.java:219-229 | the end of makeMove sets the turn, cache and winner as `PassOrSwitch` of the board |
| Cli.ReversiModel.SwitchTurn | src/main/java/org/reversi/cli/ReversiModel.java:92-94 | negates the side to move and leaves the rest alone |
| Cli.ReversiModel.GetMajorityPlayer | src/main/java/org/reversi/cli/ReversiModel.java:247-261 | the tally loop returns the `Majority` verdict of the board |
| Cli.ReversiModel.IsGameOver | src/main/java/org/reversi/cli/ReversiModel.java:267-269 | the game is over exactly when a winner is recorded, and then neither side has a move and the cache is empty |
| Cli.ReversiModel.GetClone | src/main/java/org/reversi/cli/ReversiModel.java:286-300 | a fresh model with its own board, in the same state, satisfying the invariant |
| Agent.CornerCells | src/main/java/org/reversi/cli/ReversiAgent.java:160-173 | the corner count is the number of the four corners held, at most 4, and 4 or 0 exactly when all or none are held |
| Agent.FullRowsAreTheFullRowSet | src/main/java/org/reversi/cli/ReversiAgent.java:129-134 | the full-row count is the size of the set of rows held end to end |
| Agent.FullColsAreTransposedRows | src/main/java/org/reversi/cli/ReversiAgent.java:136-143 | the full-column count is the full-row count of the transposed board |
| Agent.ScoreBounds | src/main/java/org/reversi/cli/ReversiAgent.java:115-193 | each term of the heuristic and their sum is bounded in terms of the board size |
| Agent.ScoreFitsInt | src/main/java/org/reversi/cli/ReversiAgent.java:115-117 | for boards up to 10000 x 10000 the heuristic stays below Integer.MAX_VALUE, so the int sum does not wrap |
| Agent.ScoreOfOwnedBoard | src/main/java/org/reversi/cli/ReversiAgent.java:115-193 | a board held entirely by the agent scores 200 + 5 n^2 + 200 n |
| Agent.ScoreWithoutOwnDisks | src/main/java/org/reversi/cli/ReversiAgent.java:115-193 | a board with none of the agent's disks scores 0 |
| Agent.FoldMax | src/main/java/org/reversi/cli/ReversiAgent.java:88-100 | a maximising node's running best is the largest child score, or the sentinel when none, and alpha becomes max(alpha, best) |
| Agent.FoldMin | src/main/java/org/reversi/cli/ReversiAgent.java:88-100 | a minimising node's running best is the smallest child score, or the sentinel when none, and beta becomes min(beta, best) |
| Agent.MaxNodeFailsHigh | src/main/java/org/reversi/cli/ReversiAgent.java:96-104 | a maximising node visits every child exactly when every score stays below beta |
| Agent.MaxNodeStopsOnlyAtBeta | src/main/java/org/reversi/cli/ReversiAgent.java:96-104 | when a maximising node stops early, the last child reached beta and no earlier one did |
| Agent.MinNodeStopsAtFirst | src/main/java/org/reversi/cli/ReversiAgent.java:96-104 | since the minimising test is alpha <= beta, a minimising node whose first score is at least alpha stops after it |
| Agent.MinNodeFromRootVisitsOne | src/main/java/org/reversi/cli/ReversiAgent.java:52-63 | a minimising node searched with alpha = Integer.MIN_VALUE visits at most one child |
| Agent.FoldAppend | src/main/java/org/reversi/cli/ReversiAgent.java:91-105 | one more loop iteration is one more step of the fold, and the loop continues exactly when no cutoff has happened |
| Agent.BestIsFirstGreatest | src/main/java/org/reversi/cli/ReversiAgent.java:61-68 | the chosen index holds the greatest score and comes before any equal score; nothing is chosen exactly when every score is Integer.MIN_VALUE |
| Agent.PickAppend | src/main/java/org/reversi/cli/ReversiAgent.java:64-67 | a later move replaces the choice only when its score is strictly greater |
| Agent.EnumerateStep | src/main/java/org/reversi/cli/ReversiAgent.java:61 | taking any move not yet visited keeps the visited sequence a repetition-free enumeration of the move set |
| Agent.ReversiAgent.constructor | src/main/java/org/reversi/cli/ReversiAgent.java:40-46 | stores the model, depth and agent id |
| Agent.ReversiAgent.CountMyPieces | src/main/java/org/reversi/cli/ReversiAgent.java:180-193 | returns five times the number of the agent's disks |
| Agent.ReversiAgent.CountMyCorners | src/main/java/org/reversi/cli/ReversiAgent.java:160-173 | returns 50 times the number of corners the agent holds |
| Agent.ReversiAgent.Evaluate | src/main/java/org/reversi/cli/ReversiAgent.java:115-152 | returns the heuristic `Score` of the board |
| Agent.ReversiAgent.MiniMax | src/main/java/org/reversi/cli/ReversiAgent.java:83-108 | the score and the state the model is left in are a search in the sense of `Searched`: at depth 0 or game over, the evaluation with the state untouched; otherwise distinct cached moves, each made on the state the previous sibling's subtree left (no undo), each subtree searched one level shallower for the other role with the window the earlier scores produced, the loop stopping exactly at the as-written cutoff, the result the folded best score and the model left where the last subtree left it |
| Agent.ReversiAgent.FindBestMove | src/main/java/org/reversi/cli/ReversiAgent.java:52-72 | visits every cached move once, in some order; each candidate is made on the one shared clone as the previous candidate's search left it, and its score is the `Searched` value of a minimising reply of depth - 1 with the full window; the result is `Pick` of those scores, the first strictly greatest (see `Agent.BestIsFirstGreatest`); the model is not modified |
| Agent.SearchInRange | src/main/java/org/reversi/cli/ReversiAgent.java:84-107 | on a board of up to 10000 rows every search value lies between Integer.MIN_VALUE and Integer.MAX_VALUE, and the search leaves a board of the same size |
| Agent.SearchDepthOne | src/main/java/org/reversi/cli/ReversiAgent.java:84-107 | at depth 1 each child's score is the evaluation of the board its move leaves, and that child leaves the state where its move put it, so the next sibling is made on top of it |
| Agent.CandidatesAtDepthOne | src/main/java/org/reversi/cli/ReversiAgent.java:52-72 | with depth 1, findBestMove scores each candidate by the evaluation of the clone after that candidate and all earlier ones were made on it |
| Agent.RootReplyVisitsOne | src/main/java/org/reversi/cli/ReversiAgent.java:57-63 | the minimising reply to each root candidate, opened with the full window, looks at one of its moves at most, because the as-written test alpha <= beta holds after its first score |
| Web.Value | src/main/java/org/reversi/web/model/Disk.java:15-19 | a disk's code is never EMPTY |
| Web.Other | src/main/java/org/reversi/web/model/ReversiGame.java:187 | the other disk differs, and so does its code |
| Web.PlayerIndex | src/main/java/org/reversi/web/model/ReversiGame.java:219-222 | player - 1 is a valid tally slot exactly for the WHITE and BLACK codes |
| Web.MajorityByHalf | src/main/java/org/reversi/web/model/ReversiGame.java:228-242 | on a full board, player1 wins exactly when WHITE holds more than half, it is a draw (null) exactly at half, and otherwise player2 wins |
| Web.Seats | src/main/java/org/reversi/web/model/ReversiGame.java:187 | the opponent of the player to move is the other seated player, with the other disk |
| Web.PlayKeepsFormed | src/main/java/org/reversi/web/model/ReversiGame.java:178-211 | every move keeps the game well formed and the players seated, and the status can only become FINISHED |
| Web.PlayKeepsSynced | src/main/java/org/reversi/web/model/ReversiGame.java:178-211 | unless the tally fails, a move keeps the cache equal to the mover's legal moves |
| Web.PlayAcceptsLegalMoves | src/main/java/org/reversi/web/model/ReversiGame.java:178-181 | a move is accepted exactly when it is legal for the player to move; a rejected move changes nothing |
| Web.PlayFlipsOnlyCaptures | src/main/java/org/reversi/web/model/ReversiGame.java:183-196 | an accepted move fills an empty cell with the mover's disk and flips only opponent disks |
| Web.PlayTurnAndPass | src/main/java/org/reversi/web/model/ReversiGame.java:198-209 | the turn passes exactly when the opponent can move; when neither can move, the game is FINISHED with the majority winner if the board is full, and the tally fails otherwise |
| Web.FinishedIsFinal | src/main/java/org/reversi/web/model/ReversiGame.java:178-181 | a FINISHED game rejects every move |
| Web.ReversiGame.constructor | src/main/java/org/reversi/web/model/ReversiGame.java:11-29 | a new game has no id, no players, no status, no winner and no moves |
| Web.ReversiGame.SetBoard | src/main/java/org/reversi/web/model/ReversiGame.java:46-56 | a fresh n x n board holding the start with WHITE on the diagonal centre cells; the other fields are kept |
| Web.ReversiGame.GetPossibleMoveCoordsForPlayer | src/main/java/org/reversi/web/model/ReversiGame.java:72-112 | returns exactly the player's legal moves, all empty cells inside the board |
| Web.ReversiGame.SetPossibleMovesFor | src/main/java/org/reversi/web/model/ReversiGame.java:119-121 | the cache becomes the player's legal moves and nothing else changes |
| Web.ReversiGame.SwitchTurn | src/main/java/org/reversi/web/model/ReversiGame.java:61-63 | the player to move becomes the other seated player and nothing else changes |
| Web.ReversiGame.MakeMove | src/main/java/org/reversi/web/model/ReversiGame.java:178-211 | the object's new state and the outcome are `Play` of its old state |
| Web.ReversiGame.HandOver | src/main/java/org/reversi/web/model/ReversiGame.java:198-200 | when the opponent can move, the turn and the cache pass to it (`PassOrSwitch`) |
| Web.ReversiGame.KeepTurn | src/main/java/org/reversi/web/model/ReversiGame.java:201-209 | otherwise the mover keeps the turn, and if it cannot move either, the game finishes through the tally (`Stay`) |
| Web.ReversiGame.GetMajorityPlayer | src/main/java/org/reversi/web/model/ReversiGame.java:228-242 | the tally succeeds exactly on a full board, and then returns the `Majority` verdict |
| Web.ReversiGame.IsGameOver | src/main/java/org/reversi/web/model/ReversiGame.java:249-251 | over exactly when FINISHED; a FINISHED consistent game has a full board, no moves for either side and the majority winner |
| Service.CreatedSynced | src/main/java/org/reversi/web/services/GameService.java:27-43 | a created game is well formed and its cache agrees with its board |
| Service.CreatedMovesFour | src/main/java/org/reversi/web/services/GameService.java:33-37 | a created game offers WHITE exactly the moves (0, 2), (1, 3), (2, 0) and (3, 1) |
| Service.MoveKeepsLifecycle | src/main/java/org/reversi/web/services/GameService.java:101-123 | a stored game is NEW exactly while it has no second player, and move keeps that; games not IN_PROGRESS are refused unchanged; a successful move keeps the cache in step |
| Service.GameService.constructor | src/main/java/org/reversi/web/storage/GameStorage.java:12 | the store starts empty |
| Service.GameService.CreateGame | src/main/java/org/reversi/web/services/GameService.java:27-43 | stores a fresh NEW 4 x 4 game under its id with the first player as WHITE to move and its moves cached; the other games are kept |
| Service.GameService.ConnectToGame | src/main/java/org/reversi/web/services/GameService.java:54-68 | an unknown id fails with the parameter error, a game with a second player fails as busy and is unchanged, and otherwise the game gets the second player as BLACK and goes IN_PROGRESS |
| Service.GameService.ConnectToRandomGame | src/main/java/org/reversi/web/services/GameService.java:77-92 | fails with "No game available" exactly when no stored game is NEW; otherwise joins some NEW game as BLACK and leaves every other game unchanged |
| Service.GameService.Move | src/main/java/org/reversi/web/services/GameService.java:101-123 | an unknown id fails; otherwise the game's new state and the result are `MoveSpec` of its old state (not started, invalid move, already over, or the move played) |
| Service.GameService.PlayIn | src/main/java/org/reversi/web/services/GameService.java:111-116 | an IN_PROGRESS game plays the move as `Play` and stays in the store |

## Left out

- Console and web glue: ReversiView, ReversiController, CLI, the HTTP and websocket controllers, DTOs other than the fields used, and the Spring application. They do rendering and I/O only.
- The agent's `CompletableFuture` pair in endToEndStableOccupation. It is modelled as a sequential sum of the two counts.
- `HashSet`/`HashMap` iteration order. The loops in miniMax, findBestMove and connectToRandomGame take moves or games in an arbitrary order (`:|`), so the model proves what holds for every order.
- Agent.ReversiAgent.constructor: Java's `assert agentID == 1 || agentID == -1` is modelled as a precondition.
- Agent.ReversiAgent.FindBestMove: Java asserts that the chosen move is non-null. The model returns `None` instead when there is no move or every score is Integer.MIN_VALUE.
- Agent.ScoreFitsInt: Java `int` overflow is not modelled in general. Integers are unbounded, and this lemma bounds the heuristic for boards up to 10000 x 10000 instead. The search sentinels are `Integer.MIN_VALUE` and `Integer.MAX_VALUE` written out.
- Lombok defaults. A new `ReversiGame` has a null board, which is modelled as a 0 x 0 board. Null strings and sets are modelled as `""` and `{}`. Setters are direct field writes.
- Web.ReversiGame.SetBoard requires a size of at least 2. Java's setBoard fails with an index error for sizes 0 and 1.
- Web.ReversiGame.MakeMove requires a seated second player. Otherwise Java dereferences a null opponent and fails, and the service only plays IN_PROGRESS games, which always have one.
- Web.ReversiGame.GetMajorityPlayer: on a board with an empty cell, Java's `occupiedTiles[-1]` throws an ArrayIndexOutOfBoundsException. The model returns `ok = false`, and makeMove's outcome `MajorityFailed` records that the board was already changed.
- `Move.disk` in the move request is ignored by the source, and so by the model.
- Java reference equality of players (`currentGamePlayer == gamePlayer1`) is modelled as value equality of the records. The two seated players always differ in their disk, so the two agree.
- Game ids come from `UUID.randomUUID()`. They are a parameter of CreateGame.
- GameStorage, a singleton map, is the `games` field of the service. Its `addGame` put is modelled as a map update.
- insideBoard is `Board.Inside`. The trivial getters (getWinner, getBoard, getPossibleMoves, getCurrentPlayer, getAgentID) are field reads.
- The twelve-move game of TestModel.java is not proved: it would mean evaluating twelve captures and twenty-four move scans on literal boards. Only its opening position (`Cli.InitialMovesFour`) is proved.
- Agent.ReversiAgent.MiniMax: no lemma relates the search to a full-width minimax over the game tree. As written, siblings are played on the position the previous subtree left and the minimising cutoff is `alpha <= beta`, so the pruned search does not compute the minimax value of the position; the model states what the code computes instead (`Searched`).

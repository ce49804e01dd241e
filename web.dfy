/**
  The web engine ReversiGame. Disks are WHITE = 1 and BLACK = 2 on the board and
  EMPTY = 0; the two players are login/disk records, gamePlayer1 playing WHITE and
  gamePlayer2 BLACK once it has joined. The object keeps the board, the player to
  move, the cached set of that player's legal moves, a lifecycle status and the
  winner, a player or none for a draw. Every reference field of the Java object
  may be null; here each is an Option.

  The pure function Play says what makeMove does to the whole game; the class
  methods are proved against it and the rules are proved as lemmas about Play.
  The board rules themselves are the ones the console engine uses (module Board),
  instantiated with the web disk codes.
*/
module Web {
  import opened Board
  import opened BoardOps
  import opened Wrappers

  datatype Disk = WHITE | BLACK

  /** The code a disk has on the board. */
  function Value(d: Disk): (v: int)
    ensures v != EMPTY
  {
    match d
    case WHITE => 1
    case BLACK => 2
  }

  /** The other colour, as getPossibleMoveCoordsForPlayer picks the opponent disk. */
  function Other(d: Disk): (e: Disk)
    ensures e != d && Value(e) != Value(d)
  {
    if d == WHITE then BLACK else WHITE
  }

  /** The GamePlayer record; two players are equal when login and disk are. */
  datatype GamePlayer = GamePlayer(login: string, disk: Disk)

  datatype GameStatus = NEW | IN_PROGRESS | FINISHED

  /**
    getPlayerIndex: p - 1. Only the two disk codes land on a slot of the two-slot
    tally, WHITE on slot 0 and BLACK on slot 1; an empty cell gives index -1.
  */
  function PlayerIndex(p: int): (i: int)
    ensures 0 <= i < 2 <==> p == Value(WHITE) || p == Value(BLACK)
    ensures p == Value(WHITE) ==> i == 0
    ensures p == Value(BLACK) ==> i == 1
  {
    p - 1
  }

  /** A square board whose cells all hold one of the three web cell codes. */
  ghost predicate Codes(g: Grid) {
    IsSquare(g) &&
    forall i, j | 0 <= i < |g| && 0 <= j < |g| :: g[i][j] == EMPTY || g[i][j] == Value(WHITE) || g[i][j] == Value(BLACK)
  }

  /**
    getMajorityPlayer's verdict when it gets through the board: none (a draw) on
    equal WHITE and BLACK counts, otherwise gamePlayer1 if WHITE has more disks and
    gamePlayer2 if BLACK has.
  */
  function Majority(g: Grid, player1: Option<GamePlayer>, player2: Option<GamePlayer>): Option<GamePlayer> {
    var whites := Count(g, Value(WHITE));
    var blacks := Count(g, Value(BLACK));
    if whites == blacks then None else if whites > blacks then player1 else player2
  }

  /** On a full board the verdict goes by halves: WHITE wins with more than half of the cells. */
  lemma MajorityByHalf(g: Grid, player1: GamePlayer, player2: GamePlayer)
    requires Codes(g) && Count(g, EMPTY) == 0 && player1 != player2
    ensures Count(g, Value(WHITE)) + Count(g, Value(BLACK)) == |g| * |g|
    ensures Majority(g, Some(player1), Some(player2)) == None <==> 2 * Count(g, Value(WHITE)) == |g| * |g|
    ensures Majority(g, Some(player1), Some(player2)) == Some(player1) <==> 2 * Count(g, Value(WHITE)) > |g| * |g|
    ensures Majority(g, Some(player1), Some(player2)) == Some(player2) <==> 2 * Count(g, Value(WHITE)) < |g| * |g|
  {
    CountPartition(g, EMPTY, Value(WHITE), Value(BLACK));
  }

  /** The fields of ReversiGame that makeMove reads or writes, as values. */
  datatype Game = Game(board: Grid, player1: Option<GamePlayer>, player2: Option<GamePlayer>,
                       current: Option<GamePlayer>, status: Option<GameStatus>,
                       winner: Option<GamePlayer>, moves: set<Coordinate>)

  /**
    The shape every game the service stores keeps, whatever happened to it: a
    square board of cell codes, cached moves on the board, gamePlayer1 playing WHITE,
    gamePlayer2 (once joined) BLACK, the player to move one of the two, a status.
  */
  ghost predicate Formed(s: Game) {
    && Codes(s.board) && |s.board| >= 2
    && (forall m | m in s.moves :: Inside(s.board, m.x, m.y))
    && s.player1.Some? && s.player1.value.disk == WHITE
    && (s.player2.Some? ==> s.player2.value.disk == BLACK)
    && s.current.Some? && (s.current == s.player1 || s.current == s.player2)
    && s.status.Some?
  }

  /** The disk code of the player to move. */
  function Me(s: Game): int
    requires s.current.Some?
  {
    Value(s.current.value.disk)
  }

  /** The disk code of the other colour. */
  function Them(s: Game): int
    requires s.current.Some?
  {
    Value(Other(s.current.value.disk))
  }

  /**
    The player who is not to move, as switchTurn and makeMove pick it: gamePlayer2
    when the player to move is gamePlayer1, gamePlayer1 otherwise.
  */
  function Opponent(s: Game): Option<GamePlayer> {
    if s.current == s.player1 then s.player2 else s.player1
  }

  /** Once both players are seated, the opponent is the other player, with the other colour. */
  lemma Seats(s: Game)
    requires Formed(s) && s.player2.Some?
    ensures Opponent(s).Some? && Opponent(s) != s.current
    ensures Opponent(s).value.disk == Other(s.current.value.disk)
    ensures Value(Opponent(s).value.disk) == Them(s) && Value(Other(Opponent(s).value.disk)) == Me(s)
    ensures Opponent(s.(current := Opponent(s))) == s.current
  {
  }

  /**
    The cache and the outcome fields agree with the board: the cached moves are the
    legal moves of the player to move; a finished game has a full board on which
    neither colour can move, and its winner is the majority verdict; a game that is
    not finished has no winner.
  */
  ghost predicate Synced(s: Game) {
    && Formed(s)
    && s.moves == LegalMoves(s.board, Me(s), Them(s))
    && (s.status == Some(FINISHED) ==>
          && s.moves == {} && LegalMoves(s.board, Them(s), Me(s)) == {} && Count(s.board, EMPTY) == 0
          && s.winner == Majority(s.board, s.player1, s.player2))
    && (s.status != Some(FINISHED) ==> s.winner == None)
  }

  /**
    How makeMove ends: it returns false, returns true, or throws an index error from
    getMajorityPlayer.
  */
  datatype Outcome = Rejected | Accepted | MajorityFailed

  /**
    The end of makeMove, once the move is on the board `h`: if the opponent has a
    legal move the turn switches and the cache becomes those moves; otherwise the
    mover keeps the turn (Stay).
  */
  function PassOrSwitch(s: Game, h: Grid): (Game, Outcome)
    requires s.current.Some? && Opponent(s).Some?
  {
    var opponent := Opponent(s).value;
    var theirs := LegalMoves(h, Value(opponent.disk), Value(Other(opponent.disk)));
    if theirs != {} then (s.(board := h, current := Opponent(s), moves := theirs), Accepted)
    else Stay(s, h)
  }

  /**
    The mover keeps the turn and the cache becomes its own legal moves; if it has
    none either, the majority tally runs, which fails on the first empty cell and
    otherwise records the winner and finishes the game. A failure leaves the cache,
    the turn, the winner and the status as they were.
  */
  function Stay(s: Game, h: Grid): (Game, Outcome)
    requires s.current.Some?
  {
    var mover := s.current.value;
    var mine := LegalMoves(h, Value(mover.disk), Value(Other(mover.disk)));
    if mine != {} then (s.(board := h, moves := mine), Accepted)
    else if Count(h, EMPTY) != 0 then (s.(board := h), MajorityFailed)
    else (s.(board := h, winner := Majority(h, s.player1, s.player2), status := Some(FINISHED), moves := mine), Accepted)
  }

  /**
    makeMove as a function of the game: a coordinate outside the cache is rejected;
    otherwise the mover's disk goes on the target, the opponent runs it brackets are
    captured, and the turn is handed over or passed.
  */
  function Play(s: Game, r: int, c: int): (Game, Outcome)
    requires s.current.Some? && Opponent(s).Some?
  {
    if Coordinate(r, c) !in s.moves then (s, Rejected)
    else PassOrSwitch(s, AfterMove(s.board, r, c, Value(s.current.value.disk), Value(Opponent(s).value.disk)))
  }

  /** A move by either colour keeps the board made of cell codes. */
  lemma AfterMoveKeepsCodes(g: Grid, r: int, c: int, me: int, opp: int)
    requires Codes(g) && (me == Value(WHITE) || me == Value(BLACK))
    ensures Codes(AfterMove(g, r, c, me, opp))
  {
    var h := AfterMove(g, r, c, me, opp);
    forall i, j | 0 <= i < |h| && 0 <= j < |h|
      ensures h[i][j] == EMPTY || h[i][j] == Value(WHITE) || h[i][j] == Value(BLACK)
    {
      assert h[i][j] == me || h[i][j] == g[i][j];
    }
  }

  /** Every legal move lies on the board. */
  lemma MovesInside(g: Grid, me: int, opp: int)
    ensures forall m | m in LegalMoves(g, me, opp) :: Inside(g, m.x, m.y)
  {
    forall m | m in LegalMoves(g, me, opp)
      ensures Inside(g, m.x, m.y)
    {
      LegalMoveIsEmptyCell(g, me, opp, m);
    }
  }

  /**
    Whatever the cache holds, a move keeps the game well formed; it never changes
    the players, and the status either stays or becomes FINISHED.
  */
  lemma PlayKeepsFormed(s: Game, r: int, c: int)
    requires Formed(s) && s.player2.Some?
    ensures Opponent(s).Some?
    ensures var q := Play(s, r, c).0;
      && Formed(q) && q.player1 == s.player1 && q.player2 == s.player2
      && (q.status == s.status || q.status == Some(FINISHED))
  {
    Seats(s);
    if Coordinate(r, c) in s.moves {
      var h := AfterMove(s.board, r, c, Me(s), Them(s));
      AfterMoveKeepsCodes(s.board, r, c, Me(s), Them(s));
      MovesInside(h, Them(s), Me(s));
      MovesInside(h, Me(s), Them(s));
    }
  }

  /** A move that does not fail in the majority tally keeps the cache and the outcome fields in agreement with the board. */
  lemma PlayKeepsSynced(s: Game, r: int, c: int)
    requires Synced(s) && s.player2.Some?
    ensures Opponent(s).Some?
    ensures Play(s, r, c).1 != MajorityFailed ==> Synced(Play(s, r, c).0)
  {
    PlayKeepsFormed(s, r, c);
    Seats(s);
  }

  /**
    makeMove accepts exactly the legal moves of the player to move: the coordinate is
    the empty end of a run of the other colour next to one of the mover's disks.
    A rejected coordinate leaves the whole game as it was.
  */
  lemma PlayAcceptsLegalMoves(s: Game, r: int, c: int)
    requires Synced(s) && s.player2.Some?
    ensures Opponent(s).Some?
    ensures Play(s, r, c).1 != Rejected <==> exists o, dx, dy :: LegalFrom(s.board, Me(s), Them(s), o, dx, dy, Coordinate(r, c))
    ensures Play(s, r, c).1 == Rejected ==> Play(s, r, c).0 == s
  {
    Seats(s);
    LegalMovesSpec(s.board, Me(s), Them(s), Coordinate(r, c));
  }

  /**
    A move that is not rejected puts the mover's disk on the empty target and changes
    only disks of the other colour, each to the mover's: the empty cells drop by
    exactly one, the mover gains disks and the other colour loses none.
  */
  lemma PlayFlipsOnlyCaptures(s: Game, r: int, c: int)
    requires Synced(s) && s.player2.Some?
    ensures Opponent(s).Some?
    ensures Play(s, r, c).1 != Rejected ==>
      var q := Play(s, r, c).0; var me := Me(s); var opp := Them(s);
      && q.board == AfterMove(s.board, r, c, me, opp)
      && Inside(s.board, r, c) && s.board[r][c] == EMPTY && q.board[r][c] == me
      && (forall i, j | Inside(s.board, i, j) && (i, j) != (r, c) && q.board[i][j] != s.board[i][j] ::
            q.board[i][j] == me && s.board[i][j] == opp)
      && Count(q.board, EMPTY) == Count(s.board, EMPTY) - 1
      && Count(q.board, me) > Count(s.board, me)
      && Count(q.board, opp) <= Count(s.board, opp)
  {
    Seats(s);
    if Coordinate(r, c) in s.moves {
      var me := Me(s);
      var opp := Them(s);
      LegalMoveIsEmptyCell(s.board, me, opp, Coordinate(r, c));
      MoveChangesOnlyCapturedRuns(s.board, r, c, me, opp);
      MoveCounts(s.board, r, c, me, opp);
    }
  }

  /**
    Turn, pass and the end of the game after a move that is not rejected: the turn
    goes to the opponent exactly when the other colour can move; the majority tally
    fails exactly when neither colour can move and an empty cell is left; the game
    finishes exactly when neither colour can move on a full board, with the
    majority verdict as winner; an accepted move caches the legal moves of the
    player now to move.
  */
  lemma PlayTurnAndPass(s: Game, r: int, c: int)
    requires Synced(s) && s.player2.Some?
    ensures Opponent(s).Some?
    ensures Play(s, r, c).1 != Rejected ==>
      var q := Play(s, r, c).0; var o := Play(s, r, c).1; var me := Me(s); var opp := Them(s);
      && (q.current == Opponent(s) <==> LegalMoves(q.board, opp, me) != {})
      && (q.current != Opponent(s) ==> q.current == s.current)
      && (o == MajorityFailed <==>
            LegalMoves(q.board, opp, me) == {} && LegalMoves(q.board, me, opp) == {} && Count(q.board, EMPTY) > 0)
      && (q.status == Some(FINISHED) <==>
            LegalMoves(q.board, opp, me) == {} && LegalMoves(q.board, me, opp) == {} && Count(q.board, EMPTY) == 0)
      && (q.status == Some(FINISHED) ==> q.winner == Majority(q.board, s.player1, s.player2))
      && (o == Accepted ==> q.current.Some? && q.moves == LegalMoves(q.board, Me(q), Them(q)))
  {
    Seats(s);
    if Coordinate(r, c) in s.moves {
      assert s.status != Some(FINISHED);
    }
  }

  /** A finished game has an empty cache: every later move is rejected and changes nothing. */
  lemma FinishedIsFinal(s: Game, r: int, c: int)
    requires Synced(s) && s.player2.Some? && s.status == Some(FINISHED)
    ensures Opponent(s).Some?
    ensures Play(s, r, c) == (s, Rejected)
  {
    Seats(s);
  }

  /** The ReversiGame object; Lombok's getters and setters are plain field access. */
  class ReversiGame {
    var gameId: string
    var gamePlayer1: Option<GamePlayer>
    var gamePlayer2: Option<GamePlayer>
    var status: Option<GameStatus>
    var board: array2<int>
    var winner: Option<GamePlayer>
    var size: int
    var possibleMoves: set<Coordinate>
    var currentGamePlayer: Option<GamePlayer>

    /** The fields makeMove reads or writes, as a game value. */
    function State(): Game
      reads this, board
    {
      Game(Cells(board), gamePlayer1, gamePlayer2, currentGamePlayer, status, winner, possibleMoves)
    }

    ghost predicate Valid()
      reads this, board
    {
      board.Length0 == size && board.Length1 == size && Formed(State())
    }

    /** The no-argument constructor: no id, no players, no status, an empty 0 x 0 board, no moves. */
    constructor ()
      ensures fresh(board) && board.Length0 == 0 && board.Length1 == 0 && size == 0
      ensures gameId == "" && gamePlayer1 == None && gamePlayer2 == None && currentGamePlayer == None
      ensures status == None && winner == None && possibleMoves == {}
    {
      gameId := "";
      gamePlayer1, gamePlayer2, currentGamePlayer := None, None, None;
      status, winner := None, None;
      board := new int[0, 0];
      size := 0;
      possibleMoves := {};
    }

    /**
      setBoard: a fresh n x n board with WHITE on (lo, lo) and (hi, hi), BLACK on
      (lo, hi) and (hi, lo) for lo = n / 2 - 1 and hi = lo + 1, every other cell
      empty. There is no parity check: an odd n puts the four disks off centre.
    */
    method SetBoard(n: int)
      requires n >= 2
      modifies this
      ensures fresh(board) && size == n && board.Length0 == n && board.Length1 == n
      ensures Cells(board) == Start(n, Value(WHITE), Value(BLACK))
      ensures gameId == old(gameId) && gamePlayer1 == old(gamePlayer1) && gamePlayer2 == old(gamePlayer2)
      ensures currentGamePlayer == old(currentGamePlayer) && status == old(status) && winner == old(winner)
      ensures possibleMoves == old(possibleMoves)
    {
      size := n;
      var a := new int[n, n]((i, j) => EMPTY);
      PlaceStart(a, n, Value(WHITE), Value(BLACK));
      board := a;
    }

    /**
      getPossibleMoveCoordsForPlayer: the legal moves of the given player against the
      other colour, collected by scanning from each of its disks.
    */
    method GetPossibleMoveCoordsForPlayer(gamePlayer: GamePlayer) returns (moves: set<Coordinate>)
      requires board.Length0 == size && board.Length1 == size
      ensures moves == LegalMoves(Cells(board), Value(gamePlayer.disk), Value(Other(gamePlayer.disk)))
      ensures forall m | m in moves :: Inside(Cells(board), m.x, m.y) && board[m.x, m.y] == EMPTY
    {
      var opponentDisk := if gamePlayer.disk == WHITE then BLACK else WHITE;
      moves := GetPossibleMoveCoords(board, Value(gamePlayer.disk), Value(opponentDisk));
      forall m | m in moves
        ensures Inside(Cells(board), m.x, m.y) && board[m.x, m.y] == EMPTY
      {
        LegalMoveIsEmptyCell(Cells(board), Value(gamePlayer.disk), Value(opponentDisk), m);
      }
    }

    /** setPossibleMovesFor: cache the given player's legal moves; nothing else changes. */
    method SetPossibleMovesFor(gamePlayer: GamePlayer)
      requires board.Length0 == size && board.Length1 == size
      modifies this
      ensures possibleMoves == LegalMoves(Cells(board), Value(gamePlayer.disk), Value(Other(gamePlayer.disk)))
      ensures board == old(board) && size == old(size) && gameId == old(gameId)
      ensures gamePlayer1 == old(gamePlayer1) && gamePlayer2 == old(gamePlayer2)
      ensures currentGamePlayer == old(currentGamePlayer) && status == old(status) && winner == old(winner)
    {
      possibleMoves := GetPossibleMoveCoordsForPlayer(gamePlayer);
    }

    /** switchTurn: the player to move becomes the opponent; nothing else changes. */
    method SwitchTurn()
      requires currentGamePlayer.Some?
      modifies this
      ensures currentGamePlayer == Opponent(old(State()))
      ensures board == old(board) && size == old(size) && gameId == old(gameId)
      ensures gamePlayer1 == old(gamePlayer1) && gamePlayer2 == old(gamePlayer2)
      ensures possibleMoves == old(possibleMoves) && status == old(status) && winner == old(winner)
    {
      currentGamePlayer := if currentGamePlayer == gamePlayer1 then gamePlayer2 else gamePlayer1;
    }

    /**
      makeMove: reject a coordinate outside the cache; otherwise mark the target,
      steal in all eight directions, then hand the turn over, pass, or end the game.
    */
    method MakeMove(row: int, col: int) returns (outcome: Outcome)
      requires Valid() && gamePlayer2.Some?
      modifies this, board
      ensures Valid() && board == old(board) && size == old(size) && gameId == old(gameId)
      ensures Opponent(old(State())).Some?
      ensures (State(), outcome) == Play(old(State()), row, col)
    {
      ghost var s := State();
      Seats(s);
      if Coordinate(row, col) !in possibleMoves {
        return Rejected;
      }
      var mover := currentGamePlayer.value;
      var opponent := if currentGamePlayer == gamePlayer1 then gamePlayer2 else gamePlayer1;
      PlaceDisk(board, row, col, Value(mover.disk), Value(opponent.value.disk));
      AfterMoveKeepsCodes(s.board, row, col, Me(s), Them(s));
      outcome := HandOver(opponent.value);
      PlayKeepsFormed(s, row, col);
    }

    /**
      The end of makeMove, after the captures: collect the opponent's legal moves and
      switch the turn if there are any; otherwise collect the mover's own, and if there
      are none either run the majority tally, record its verdict and finish the game.
    */
    method HandOver(opponent: GamePlayer) returns (outcome: Outcome)
      requires board.Length0 == size && board.Length1 == size && Codes(Cells(board))
      requires currentGamePlayer.Some? && Opponent(State()) == Some(opponent)
      modifies this
      ensures board == old(board) && size == old(size) && gameId == old(gameId)
      ensures (State(), outcome) == PassOrSwitch(old(State()), Cells(board))
    {
      ghost var s := State();
      var nextPossibleMoves := GetPossibleMoveCoordsForPlayer(opponent);
      if |nextPossibleMoves| != 0 {
        SwitchTurn();
        possibleMoves := nextPossibleMoves;
        return Accepted;
      }
      outcome := KeepTurn();
    }

    /** The else branch of makeMove's end: the mover keeps the turn, and the game may end. */
    method KeepTurn() returns (outcome: Outcome)
      requires board.Length0 == size && board.Length1 == size && Codes(Cells(board))
      requires currentGamePlayer.Some?
      modifies this
      ensures board == old(board) && size == old(size) && gameId == old(gameId)
      ensures (State(), outcome) == Stay(old(State()), Cells(board))
    {
      ghost var s := State();
      ghost var h := s.board;
      var nextPossibleMoves := GetPossibleMoveCoordsForPlayer(currentGamePlayer.value);
      if |nextPossibleMoves| == 0 {
        var ok, w := GetMajorityPlayer();
        if !ok {
          return MajorityFailed;
        }
        assert Cells(board) == h && w == Majority(h, s.player1, s.player2);
        winner := w;
        status := Some(FINISHED);
      }
      possibleMoves := nextPossibleMoves;
      outcome := Accepted;
    }

    /**
      getMajorityPlayer: tally every cell into the slot of its player index. The
      tally fails (ok is false) exactly when the board has an empty cell; otherwise
      the verdict is the majority player, none for a draw.
    */
    method GetMajorityPlayer() returns (ok: bool, w: Option<GamePlayer>)
      requires board.Length0 == board.Length1 && Codes(Cells(board))
      ensures ok <==> Count(Cells(board), EMPTY) == 0
      ensures ok ==> w == Majority(Cells(board), gamePlayer1, gamePlayer2)
    {
      ghost var g := Cells(board);
      var occupiedTiles := new int[2];
      occupiedTiles[0], occupiedTiles[1] := 0, 0;
      for i := 0 to board.Length0
        invariant g == Cells(board)
        invariant CountRows(g, EMPTY, i) == 0
        invariant occupiedTiles[0] == CountRows(g, Value(WHITE), i)
        invariant occupiedTiles[1] == CountRows(g, Value(BLACK), i)
      {
        var full := TallyRow(occupiedTiles, i, g);
        if !full {
          CountRowsCover(g, EMPTY, |g|, i);
          return false, None;
        }
      }
      ok := true;
      if occupiedTiles[0] == occupiedTiles[1] {
        return ok, None;
      }
      w := if occupiedTiles[0] > occupiedTiles[1] then gamePlayer1 else gamePlayer2;
    }

    /**
      The inner loop of getMajorityPlayer over row `i`: each cell adds one to its
      player's slot; an empty cell has index -1 and stops the tally (false).
    */
    method TallyRow(tiles: array<int>, i: int, ghost g: Grid) returns (full: bool)
      requires tiles.Length == 2 && 0 <= i < board.Length0 && board.Length0 == board.Length1
      requires g == Cells(board) && Codes(g)
      modifies tiles
      ensures full <==> CountRow(g[i], EMPTY) == 0
      ensures full ==> tiles[0] == old(tiles[0]) + CountRow(g[i], Value(WHITE))
      ensures full ==> tiles[1] == old(tiles[1]) + CountRow(g[i], Value(BLACK))
    {
      ghost var row := g[i];
      for j := 0 to board.Length1
        invariant CountRow(row[..j], EMPTY) == 0
        invariant tiles[0] == old(tiles[0]) + CountRow(row[..j], Value(WHITE))
        invariant tiles[1] == old(tiles[1]) + CountRow(row[..j], Value(BLACK))
      {
        var index := PlayerIndex(board[i, j]);
        if index < 0 || index >= 2 {
          assert row[j] == EMPTY;
          CountRowZero(row, EMPTY);
          return false;
        }
        assert row[j] == index + 1;
        CountRowStep(row, j, EMPTY);
        CountRowStep(row, j, Value(WHITE));
        CountRowStep(row, j, Value(BLACK));
        tiles[index] := tiles[index] + 1;
      }
      assert row[..board.Length1] == row;
      full := true;
    }

    /**
      isGameOver: the status is FINISHED (a null status would throw). In a game whose
      cache agrees with the board, the board is then full, neither colour can move
      and the winner is the majority verdict.
    */
    predicate IsGameOver()
      requires status.Some?
      reads this, board
      ensures IsGameOver() <==> status == Some(FINISHED)
      ensures IsGameOver() && Synced(State()) ==>
        && possibleMoves == {} && Count(Cells(board), EMPTY) == 0
        && LegalMoves(Cells(board), Value(WHITE), Value(BLACK)) == {}
        && LegalMoves(Cells(board), Value(BLACK), Value(WHITE)) == {}
        && winner == Majority(Cells(board), gamePlayer1, gamePlayer2)
    {
      status.value == FINISHED
    }
  }
}

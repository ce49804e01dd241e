/**
  The GameService of the web application: the lifecycle of games kept in a map
  from game id to ReversiGame (the storage singleton becomes the map field
  `games`). A game is created NEW by its first player, becomes IN_PROGRESS when a
  second player joins and FINISHED when makeMove ends it; requests that do not fit
  the lifecycle fail with an InvalidParamException or an InvalidGameException,
  modelled as the errors of a Result, with the message the service gives.
*/
module Service {
  import opened Board
  import opened BoardOps
  import opened Wrappers
  import opened Web

  /** createGame always builds a 4 x 4 board. */
  const BOARD_SIZE: int := 4

  /**
    The exceptions the service methods end with: InvalidParamException,
    InvalidGameException with its message, and the index error makeMove can throw
    from getMajorityPlayer, which the service lets through.
  */
  datatype ServiceError = InvalidParam | InvalidGame(message: string) | IndexOutOfBounds

  /** The board createGame starts from: the 4 x 4 start position. */
  function Opening(): Grid {
    Start(BOARD_SIZE, Value(WHITE), Value(BLACK))
  }

  /**
    The game createGame builds on board `g` for the first player's login: the first
    player playing WHITE and to move with its legal moves cached, NEW, no second
    player and no winner.
  */
  function Created(login: string, g: Grid): Game {
    var p := Some(GamePlayer(login, WHITE));
    Game(g, p, None, p, Some(NEW), None, LegalMoves(g, Value(WHITE), Value(BLACK)))
  }

  /** A game created on the opening board is well formed and its cache agrees with the board. */
  lemma CreatedSynced(login: string, g: Grid)
    requires g == Opening()
    ensures Synced(Created(login, g))
  {
    assert IsSquare(g);
    MovesInside(g, Value(WHITE), Value(BLACK));
  }

  /** A game object holding a created game on the opening board is stored correctly under its id. */
  lemma CreatedKept(game: ReversiGame, login: string, id: string)
    requires game.gameId == id && game.size == BOARD_SIZE
    requires game.board.Length0 == BOARD_SIZE && game.board.Length1 == BOARD_SIZE
    requires Cells(game.board) == Opening() && game.State() == Created(login, Cells(game.board))
    ensures Synced(game.State()) && Kept(game, id)
  {
    CreatedSynced(login, Cells(game.board));
  }

  /** A created game offers WHITE exactly four opening moves. */
  lemma CreatedMovesFour(login: string)
    ensures Created(login, Opening()).moves == {Coordinate(0, 2), Coordinate(1, 3), Coordinate(2, 0), Coordinate(3, 1)}
  {
    StartFourMoves(Value(WHITE), Value(BLACK));
  }

  /** The lifecycle of a stored game: it is NEW exactly while no second player has joined. */
  ghost predicate Stage(s: Game) {
    s.status == Some(NEW) <==> s.player2.None?
  }

  /**
    What move does to a stored game, as a function of the game: a game that has not
    started or is over is refused and left alone; a game in progress plays the move,
    a rejected move is refused as an invalid request, and the majority tally's index
    error passes through with the move on the board. None means the request succeeded.
  */
  function MoveSpec(s: Game, x: int, y: int): (Game, Option<ServiceError>)
    requires Formed(s) && Stage(s)
  {
    match s.status.value
    case NEW => (s, Some(InvalidGame("Game hasn't started yet")))
    case FINISHED => (s, Some(InvalidGame("Game is already over")))
    case IN_PROGRESS =>
      var (q, o) := Play(s, x, y);
      (q, match o
          case Rejected => Some(InvalidGame("invalid move request"))
          case Accepted => None
          case MajorityFailed => Some(IndexOutOfBounds))
  }

  /**
    The lifecycle only moves forward under move: a NEW or FINISHED game is refused
    unchanged, a game in progress stays in progress or becomes FINISHED, and the
    game stays well formed and keeps both players. When the cache agrees with the
    board and the move is accepted, it still does.
  */
  lemma MoveKeepsLifecycle(s: Game, x: int, y: int)
    requires Formed(s) && Stage(s)
    ensures var (q, e) := MoveSpec(s, x, y);
      && Formed(q) && Stage(q) && q.player1 == s.player1 && q.player2 == s.player2
      && (s.status != Some(IN_PROGRESS) ==> q == s && e.Some?)
      && (s.status == Some(IN_PROGRESS) ==> q.status == Some(IN_PROGRESS) || q.status == Some(FINISHED))
      && (Synced(s) && e == None ==> Synced(q))
  {
    if s.status == Some(IN_PROGRESS) {
      PlayKeepsFormed(s, x, y);
      if Synced(s) {
        PlayKeepsSynced(s, x, y);
      }
    }
  }

  /** Storing a map's own entry again leaves the map as it was. */
  lemma PutBack<K, V>(m: map<K, V>, k: K)
    requires k in m
    ensures m[k := m[k]] == m
  {
  }

  /** A stored game: kept under its own id, well formed, following the lifecycle. */
  ghost predicate Kept(game: ReversiGame, id: string)
    reads game, game.board
  {
    game.gameId == id && game.Valid() && Stage(game.State())
  }

  class GameService {
    var games: map<string, ReversiGame>

    ghost function Games(): set<ReversiGame>
      reads this
    {
      set id | id in games :: games[id]
    }

    ghost function Boards(): set<array2<int>>
      reads this, Games()
    {
      set id | id in games :: games[id].board
    }

    /**
      Every stored game is stored under its own id, is well formed and follows the
      lifecycle; different ids hold different games with different boards.
    */
    ghost predicate Valid()
      reads this, Games(), Boards()
    {
      AllKept() && Separate()
    }

    ghost predicate AllKept()
      reads this, Games(), Boards()
    {
      forall id | id in games :: Kept(games[id], id)
    }

    ghost predicate Separate()
      reads this, Games()
    {
      forall i, j | i in games && j in games && i != j :: games[i] != games[j] && games[i].board != games[j].board
    }

    /** The service starts with an empty storage. */
    constructor ()
      ensures Valid() && games == map[]
    {
      games := map[];
    }

    /**
      createGame: a new game under the given id (the source draws a random UUID),
      NEW, on a 4 x 4 start board, with the first player playing WHITE and to move;
      the game is put into the storage, replacing any game stored under that id.
    */
    method CreateGame(login: string, id: string) returns (game: ReversiGame)
      requires Valid()
      modifies this
      ensures Valid() && fresh(game) && fresh(game.board)
      ensures games == old(games)[id := game]
      ensures game.gameId == id && game.size == BOARD_SIZE
      ensures Cells(game.board) == Opening() && game.State() == Created(login, Cells(game.board))
      ensures Synced(game.State())
    {
      ghost var stored, boards := Games(), Boards();
      game := NewGame(login, id);
      ghost var made := game.State();
      assert unchanged(this) && unchanged(stored) && unchanged(boards);
      assert Valid();
      forall k | k in games && k != id
        ensures games[k] != game && games[k].board != game.board
      {
        assert games[k] in stored;
      }
      Store(game, id);
      assert game.State() == made;
    }

    /** Puts a game that no other id holds into the storage under its id. */
    method Store(game: ReversiGame, id: string)
      requires Valid() && Kept(game, id)
      requires forall k | k in games && k != id :: games[k] != game && games[k].board != game.board
      modifies this
      ensures Valid() && games == old(games)[id := game]
    {
      ghost var stored := games;
      games := games[id := game];
      forall k | k in games
        ensures Kept(games[k], k)
      {
        if k != id {
          assert games[k] == stored[k] && old(Kept(stored[k], k));
        }
      }
    }

    /** The game createGame builds before storing it. */
    static method NewGame(login: string, id: string) returns (game: ReversiGame)
      ensures fresh(game) && fresh(game.board)
      ensures game.gameId == id && game.size == BOARD_SIZE
      ensures Cells(game.board) == Opening() && game.State() == Created(login, Cells(game.board))
      ensures Synced(game.State())
      ensures Kept(game, id)
    {
      game := new ReversiGame();
      game.status := Some(NEW);
      game.gameId := id;
      var gamePlayer := GamePlayer(login, WHITE);
      game.SetBoard(BOARD_SIZE);
      game.gamePlayer1 := Some(gamePlayer);
      game.SetPossibleMovesFor(gamePlayer);
      game.currentGamePlayer := Some(gamePlayer);
      CreatedKept(game, login, id);
    }

    /** The second player joins a stored game that has none: it plays BLACK and the game is IN_PROGRESS. */
    method Join(game: ReversiGame, login: string)
      requires Valid() && game in Games() && game.gamePlayer2.None?
      modifies game
      ensures Valid() && game.gameId == old(game.gameId) && game.board == old(game.board)
      ensures game.State() == old(game.State()).(player2 := Some(GamePlayer(login, BLACK)), status := Some(IN_PROGRESS))
    {
      ghost var id :| id in games && games[id] == game;
      game.gamePlayer2 := Some(GamePlayer(login, BLACK));
      game.status := Some(IN_PROGRESS);
      forall k | k in games
        ensures Kept(games[k], k)
      {
        if k != id {
          assert old(Kept(games[k], k)) && games[k] != game;
        }
      }
      assert Separate();
    }

    /** The second player joins the game stored under `id`, which is put back into the storage. */
    method Admit(id: string, login: string) returns (game: ReversiGame)
      requires Valid() && id in games && games[id].gamePlayer2.None?
      modifies this, games[id]
      ensures Valid() && games == old(games) && game == games[id]
      ensures game.State() == old(game.State()).(player2 := Some(GamePlayer(login, BLACK)), status := Some(IN_PROGRESS))
    {
      game := games[id];
      Join(game, login);
      assert Kept(games[id], id);
      assert games[game.gameId := game] == games;
      games := games[game.gameId := game];
    }

    /**
      connectToGame: an unknown id is an InvalidParamException and a game that
      already has a second player is busy; otherwise the caller joins it as the
      second player. Only a NEW game can be joined.
    */
    method ConnectToGame(login: string, gameId: string) returns (r: Result<ReversiGame, ServiceError>)
      requires Valid()
      modifies this, if gameId in games then {games[gameId]} else {}
      ensures Valid() && games == old(games)
      ensures gameId !in games ==> r == Failure(InvalidParam)
      ensures gameId in games && old(games[gameId].gamePlayer2).Some? ==>
        r == Failure(InvalidGame("Game is busy")) && games[gameId].State() == old(games[gameId].State())
      ensures gameId in games && old(games[gameId].gamePlayer2).None? ==>
        && r == Success(games[gameId]) && old(games[gameId].status) == Some(NEW)
        && games[gameId].State() ==
             old(games[gameId].State()).(player2 := Some(GamePlayer(login, BLACK)), status := Some(IN_PROGRESS))
    {
      if gameId !in games {
        return Failure(InvalidParam);
      }
      var game := games[gameId];
      if game.gamePlayer2.Some? {
        return Failure(InvalidGame("Game is busy"));
      }
      game := Admit(gameId, login);
      r := Success(game);
    }

    /**
      connectToRandomGame: join some NEW game, whichever the storage yields first,
      or fail when no stored game is NEW. A NEW game never has a second player, so
      joining it never overwrites one.
    */
    method ConnectToRandomGame(login: string) returns (r: Result<ReversiGame, ServiceError>)
      requires Valid()
      modifies this, Games()
      ensures Valid() && games == old(games)
      ensures r.Failure? <==> forall id | id in games :: old(games[id].status) != Some(NEW)
      ensures r.Failure? ==> r.error == InvalidGame("No game available")
      ensures r.Success? ==>
        && r.value in Games() && old(r.value.status) == Some(NEW) && old(r.value.gamePlayer2) == None
        && r.value.State() == old(r.value.State()).(player2 := Some(GamePlayer(login, BLACK)), status := Some(IN_PROGRESS))
      ensures forall g | g in Games() && (r.Failure? || g != r.value) :: unchanged(g)
    {
      if forall id | id in games :: games[id].status != Some(NEW) {
        return Failure(InvalidGame("No game available"));
      }
      var id :| id in games && games[id].status == Some(NEW);
      var game := Admit(id, login);
      r := Success(game);
    }

    /**
      move: an unknown id is refused with an InvalidGameException; otherwise the
      stored game changes as MoveSpec says and the request fails with its error, if
      any. The disk the client sends with the move is not used.
    */
    method Move(gameId: string, x: int, y: int) returns (r: Result<ReversiGame, ServiceError>)
      requires Valid()
      modifies this, if gameId in games then {games[gameId], games[gameId].board} else {}
      ensures Valid() && games == old(games)
      ensures gameId !in games ==> r == Failure(InvalidGame("The game for the given move doesn't exist"))
      ensures gameId in games ==>
        && Formed(old(games[gameId].State())) && Stage(old(games[gameId].State()))
        && var (q, e) := MoveSpec(old(games[gameId].State()), x, y);
           && games[gameId].State() == q
           && r == if e.Some? then Failure(e.value) else Success(games[gameId])
    {
      if gameId !in games {
        return Failure(InvalidGame("The game for the given move doesn't exist"));
      }
      var game := games[gameId];
      match game.status.value {
        case NEW =>
          return Failure(InvalidGame("Game hasn't started yet"));
        case FINISHED =>
          return Failure(InvalidGame("Game is already over"));
        case IN_PROGRESS =>
          var outcome := PlayIn(game, gameId, x, y);
          if outcome.Rejected? {
            return Failure(InvalidGame("invalid move request"));
          } else if outcome.MajorityFailed? {
            return Failure(IndexOutOfBounds);
          }
      }
      PutBack(games, gameId);
      games := games[game.gameId := game];
      r := Success(game);
    }

    /** The IN_PROGRESS case of move: makeMove on the stored game; the other games are untouched. */
    method PlayIn(game: ReversiGame, gameId: string, x: int, y: int) returns (outcome: Outcome)
      requires Valid() && gameId in games && games[gameId] == game && game.status == Some(IN_PROGRESS)
      modifies game, game.board
      ensures Valid() && game.board == old(game.board)
      ensures Opponent(old(game.State())).Some?
      ensures (game.State(), outcome) == Play(old(game.State()), x, y)
    {
      ghost var s := game.State();
      outcome := game.MakeMove(x, y);
      PlayKeepsFormed(s, x, y);
      forall k | k in games
        ensures Kept(games[k], k)
      {
        if k != gameId {
          assert old(Kept(games[k], k)) && games[k] != game && games[k].board != game.board;
        }
      }
      assert Separate();
    }
  }
}

/**
  The console engine ReversiModel. Players are coded PLAYER1 = 1 and PLAYER2 = -1
  on the board, EMPTY = 0, and DRAW = 2 is a possible winner. The object keeps
  the board, the side to move, the cached set of that side's legal moves and the
  winner (EMPTY while the game runs).

  The pure function Play says what makeMove does to a whole game position; the
  class methods are proved against it, and the rules of the game are proved as
  lemmas about Play.
*/
module Cli {
  import opened Board
  import opened BoardOps
  import opened Wrappers

  const PLAYER1: int := 1
  const PLAYER2: int := -1
  const DRAW: int := 2

  /** The other side, chosen as makeMove and getPossibleMoveCoordsForPlayer choose it. */
  function Opponent(player: int): int {
    if player == PLAYER1 then PLAYER2 else PLAYER1
  }

  function Abs(a: int): nat {
    if a < 0 then -a else a
  }

  /** Java's `/` on int: the quotient rounded toward zero. */
  function JavaDiv(a: int, b: int): int
    requires b != 0
  {
    if (a < 0) == (b < 0) then Abs(a) / Abs(b) else -(Abs(a) / Abs(b))
  }

  /**
    getPlayerIndex: (player + 1) / 2 with Java's division, meant to give PLAYER2
    slot 0 and PLAYER1 slot 1; an EMPTY cell lands in slot 0 as well.
  */
  function PlayerIndex(player: int): (i: int)
    ensures player == PLAYER1 ==> i == 1
    ensures player == PLAYER2 ==> i == 0
    ensures player == EMPTY ==> i == 0
  {
    JavaDiv(player + 1, 2)
  }

  /** A square board whose cells all hold one of the three cell codes. */
  ghost predicate Codes(g: Grid) {
    IsSquare(g) &&
    forall i, j | 0 <= i < |g| && 0 <= j < |g| :: g[i][j] == PLAYER1 || g[i][j] == PLAYER2 || g[i][j] == EMPTY
  }

  /**
    getMajorityPlayer's verdict: slot 0 counts the cells with player index 0
    (PLAYER2 disks and empty cells), slot 1 the PLAYER1 disks; equal slots are a
    DRAW, otherwise the player of the larger slot wins.
  */
  function Majority(g: Grid): int {
    var slot0 := Count(g, PLAYER2) + Count(g, EMPTY);
    var slot1 := Count(g, PLAYER1);
    if slot0 == slot1 then DRAW else if slot0 > slot1 then PLAYER2 else PLAYER1
  }

  /** Since empty cells go to PLAYER2's slot, PLAYER1 wins exactly when it holds more than half the board. */
  lemma MajorityByHalf(g: Grid)
    requires Codes(g)
    ensures Majority(g) == PLAYER1 <==> 2 * Count(g, PLAYER1) > |g| * |g|
    ensures Majority(g) == DRAW <==> 2 * Count(g, PLAYER1) == |g| * |g|
    ensures Majority(g) == PLAYER2 <==> 2 * Count(g, PLAYER1) < |g| * |g|
  {
    CountPartition(g, PLAYER1, PLAYER2, EMPTY);
  }

  /** On a full board the verdict is the plain disk majority. */
  lemma MajorityOnFullBoard(g: Grid)
    requires Count(g, EMPTY) == 0
    ensures Majority(g) == PLAYER1 <==> Count(g, PLAYER1) > Count(g, PLAYER2)
    ensures Majority(g) == PLAYER2 <==> Count(g, PLAYER1) < Count(g, PLAYER2)
    ensures Majority(g) == DRAW <==> Count(g, PLAYER1) == Count(g, PLAYER2)
  {
  }

  /** With empty cells left, a side with more disks can still lose: one PLAYER1 disk on an otherwise empty 2x2 board. */
  lemma MajorityCountsEmptyForPlayer2()
    ensures var g := [[PLAYER1, EMPTY], [EMPTY, EMPTY]];
      Count(g, PLAYER1) > Count(g, PLAYER2) && Majority(g) == PLAYER2
  {
    var a, b := [PLAYER1, EMPTY], [EMPTY, EMPTY];
    assert a[..1] == [PLAYER1] && b[..1] == [EMPTY] && [PLAYER1][..0] == [] && [EMPTY][..0] == [];
    assert CountRow([PLAYER1], PLAYER1) == 1 && CountRow([EMPTY], PLAYER1) == 0;
    assert CountRow([PLAYER1], PLAYER2) == 0 && CountRow([EMPTY], PLAYER2) == 0;
    assert CountRow([PLAYER1], EMPTY) == 0 && CountRow([EMPTY], EMPTY) == 1;
    var g := [a, b];
    forall v
      ensures Count(g, v) == CountRow(a, v) + CountRow(b, v)
    {
      assert CountRows(g, v, 1) == CountRow(a, v);
    }
  }

  /** A game position: the fields of ReversiModel as values. */
  datatype Position = Position(board: Grid, current: int, winner: int, moves: set<Coordinate>)

  /**
    The invariant every ReversiModel keeps: the board holds cell codes only, the
    side to move is a player, the cache is that player's legal-move set, and a
    winner is only recorded once neither side can move, as the majority verdict.
  */
  ghost predicate Consistent(p: Position) {
    && Codes(p.board)
    && (p.current == PLAYER1 || p.current == PLAYER2)
    && p.moves == LegalMoves(p.board, p.current, Opponent(p.current))
    && (p.winner == EMPTY ||
        (p.moves == {} && LegalMoves(p.board, Opponent(p.current), p.current) == {} && p.winner == Majority(p.board)))
  }

  /** The position the constructor builds on an n x n board. */
  function Initial(n: nat): Position {
    var g := Start(n, PLAYER1, PLAYER2);
    Position(g, PLAYER1, EMPTY, LegalMoves(g, PLAYER1, PLAYER2))
  }

  /**
    The end of makeMove, once the move is on the board `g`: the turn passes to the
    opponent if it has a legal move; otherwise the mover keeps the turn, and if it
    has no legal move either the majority verdict becomes the winner. The cache
    becomes the legal moves of the side to move.
  */
  function PassOrSwitch(g: Grid, me: int, winner: int): Position {
    var opp := Opponent(me);
    var theirs := LegalMoves(g, opp, me);
    if theirs != {} then Position(g, -me, winner, theirs)
    else
      var mine := LegalMoves(g, me, opp);
      Position(g, me, if mine == {} then Majority(g) else winner, mine)
  }

  /**
    makeMove as a function of the position: a coordinate outside the cache is
    rejected; otherwise the mover's disk is placed, captures are made and the turn
    is handed over or passed.
  */
  function Play(p: Position, r: int, c: int): (Position, bool) {
    if Coordinate(r, c) !in p.moves then (p, false)
    else (PassOrSwitch(AfterMove(p.board, r, c, p.current, Opponent(p.current)), p.current, p.winner), true)
  }

  /** A move by a player keeps the board made of cell codes. */
  lemma AfterMoveKeepsCodes(g: Grid, r: int, c: int, me: int)
    requires Codes(g) && (me == PLAYER1 || me == PLAYER2)
    ensures Codes(AfterMove(g, r, c, me, Opponent(me)))
  {
    var h := AfterMove(g, r, c, me, Opponent(me));
    forall i, j | 0 <= i < |h| && 0 <= j < |h|
      ensures h[i][j] == PLAYER1 || h[i][j] == PLAYER2 || h[i][j] == EMPTY
    {
      assert h[i][j] == me || h[i][j] == g[i][j];
    }
  }

  /** The start position is consistent: PLAYER1 to move with its legal moves cached, no winner. */
  lemma InitialConsistent(n: nat)
    ensures Consistent(Initial(n))
  {
    var g := Start(n, PLAYER1, PLAYER2);
    assert IsSquare(g);
  }

  /**
    The start position: PLAYER1 disks on (lo, lo) and (hi, hi), PLAYER2 disks on
    (lo, hi) and (hi, lo) for the two middle indices lo and hi, every other cell empty.
  */
  lemma InitialLayout(n: nat)
    requires n >= 2
    ensures var lo := n / 2 - 1; var hi := lo + 1; var g := Initial(n).board;
      && |g| == n && IsSquare(g)
      && g[lo][lo] == PLAYER1 && g[hi][hi] == PLAYER1 && g[lo][hi] == PLAYER2 && g[hi][lo] == PLAYER2
      && (forall i, j | 0 <= i < n && 0 <= j < n && i != lo && i != hi :: g[i][j] == EMPTY)
      && (forall i, j | 0 <= i < n && 0 <= j < n && j != lo && j != hi :: g[i][j] == EMPTY)
  {
  }

  /** On the 4 x 4 board PLAYER1 opens with exactly four possible moves. */
  lemma InitialMovesFour()
    ensures Initial(4).moves == {Coordinate(0, 2), Coordinate(1, 3), Coordinate(2, 0), Coordinate(3, 1)}
  {
    StartFourMoves(PLAYER1, PLAYER2);
  }

  /** A move's result stays a consistent position. */
  lemma PlayKeepsConsistent(p: Position, r: int, c: int)
    requires Consistent(p)
    ensures Consistent(Play(p, r, c).0)
  {
    if Coordinate(r, c) in p.moves {
      AfterMoveKeepsCodes(p.board, r, c, p.current);
      assert Opponent(-p.current) == p.current;
    }
  }

  /**
    makeMove accepts exactly the legal moves of the side to move: the coordinate is
    the empty end of an opponent run next to one of the mover's disks. A rejected
    coordinate leaves the whole position as it was.
  */
  lemma PlayAcceptsLegalMoves(p: Position, r: int, c: int)
    requires Consistent(p)
    ensures Play(p, r, c).1 <==>
      exists o, dx, dy :: LegalFrom(p.board, p.current, Opponent(p.current), o, dx, dy, Coordinate(r, c))
    ensures !Play(p, r, c).1 ==> Play(p, r, c).0 == p
  {
    LegalMovesSpec(p.board, p.current, Opponent(p.current), Coordinate(r, c));
  }

  /**
    An accepted move puts the mover's disk on the target and changes only opponent
    disks in bracketed runs next to it, each to the mover's disk: the empty cells
    drop by exactly one, the mover gains disks and the opponent loses none.
  */
  lemma PlayFlipsOnlyCaptures(p: Position, r: int, c: int)
    requires Consistent(p) && Play(p, r, c).1
    ensures var q := Play(p, r, c).0; var me := p.current; var opp := Opponent(me);
      && q.board == AfterMove(p.board, r, c, me, opp)
      && Inside(p.board, r, c) && p.board[r][c] == EMPTY && q.board[r][c] == me
      && (forall i, j | Inside(p.board, i, j) && (i, j) != (r, c) && q.board[i][j] != p.board[i][j] ::
            q.board[i][j] == me && p.board[i][j] == opp)
      && Count(q.board, EMPTY) == Count(p.board, EMPTY) - 1
      && Count(q.board, me) > Count(p.board, me)
      && Count(q.board, opp) <= Count(p.board, opp)
  {
    var me := p.current;
    var opp := Opponent(me);
    LegalMoveIsEmptyCell(p.board, me, opp, Coordinate(r, c));
    MoveChangesOnlyCapturedRuns(p.board, r, c, me, opp);
    MoveCounts(p.board, r, c, me, opp);
  }

  /**
    A move never adds an empty cell: a cached coordinate is accepted and fills exactly
    one empty cell, any other coordinate is rejected and fills none.
  */
  lemma PlayFillsOneCell(p: Position, r: int, c: int)
    requires Consistent(p)
    ensures Play(p, r, c).1 <==> Coordinate(r, c) in p.moves
    ensures Count(Play(p, r, c).0.board, EMPTY) == Count(p.board, EMPTY) - (if Play(p, r, c).1 then 1 else 0)
  {
    if Coordinate(r, c) in p.moves {
      PlayFlipsOnlyCaptures(p, r, c);
    }
  }

  /**
    Turn and pass after an accepted move: the turn goes to the opponent exactly when
    the opponent has a legal move, the cache becomes the legal moves of the side now
    to move, and a winner is fixed exactly when neither side can move.
  */
  lemma PlayTurnAndPass(p: Position, r: int, c: int)
    requires Consistent(p) && Play(p, r, c).1
    ensures var q := Play(p, r, c).0; var me := p.current; var opp := Opponent(me);
      && (q.current == opp <==> LegalMoves(q.board, opp, me) != {})
      && (q.current != opp ==> q.current == me)
      && q.moves == LegalMoves(q.board, q.current, Opponent(q.current))
      && (q.winner != EMPTY <==> LegalMoves(q.board, opp, me) == {} && LegalMoves(q.board, me, opp) == {})
      && (q.winner != EMPTY ==> q.winner == Majority(q.board))
  {
    PlayKeepsConsistent(p, r, c);
    assert p.winner == EMPTY;
  }

  /** Once a winner is recorded the cache is empty, so every later move is rejected and nothing changes. */
  lemma GameOverIsFinal(p: Position, r: int, c: int)
    requires Consistent(p) && p.winner != EMPTY
    ensures Play(p, r, c) == (p, false)
  {
  }

  /** The ReversiModel object: the board array and the three fields makeMove reassigns. */
  class ReversiModel {
    const board: array2<int>
    const rows: int
    const cols: int
    var possibleMoves: set<Coordinate>
    var currentPlayer: int
    var winner: int

    /** The fields as a position. */
    function State(): Position
      reads this, board
    {
      Position(Cells(board), currentPlayer, winner, possibleMoves)
    }

    ghost predicate Valid()
      reads this, board
    {
      && board.Length0 == rows && board.Length1 == cols && rows == cols
      && rows >= 2 && rows % 2 == 0
      && Consistent(State())
    }

    /**
      The constructor for an even board size of at least 2: the criss-cross start,
      PLAYER1 to move, its legal moves cached, no winner.
    */
    constructor (boardSize: int)
      requires boardSize >= 2 && boardSize % 2 == 0
      ensures Valid() && fresh(board) && rows == boardSize
      ensures State() == Initial(boardSize)
    {
      rows, cols := boardSize, boardSize;
      var a := new int[boardSize, boardSize]((i, j) => EMPTY);
      PlaceStart(a, boardSize, PLAYER1, PLAYER2);
      var moves := GetPossibleMoveCoords(a, PLAYER1, PLAYER2);
      board := a;
      winner := EMPTY;
      currentPlayer := PLAYER1;
      possibleMoves := moves;
      InitialConsistent(boardSize);
    }

    /**
      makeMove: reject a coordinate outside the cache; otherwise mark the target,
      steal in all eight directions, then hand the turn over or apply the pass
      rule, fixing the winner when neither side can move.
    */
    method MakeMove(row: int, col: int) returns (ok: bool)
      requires Valid()
      modifies this, board
      ensures Valid()
      ensures (State(), ok) == Play(old(State()), row, col)
    {
      ghost var p := State();
      if Coordinate(row, col) !in possibleMoves {
        return false;
      }
      LegalMoveIsEmptyCell(Cells(board), currentPlayer, Opponent(currentPlayer), Coordinate(row, col));
      var opponent := if currentPlayer == PLAYER1 then PLAYER2 else PLAYER1;
      PlaceDisk(board, row, col, currentPlayer, opponent);
      AfterMoveKeepsCodes(p.board, row, col, p.current);
      HandOver(opponent);
      ok := true;
      PlayKeepsConsistent(p, row, col);
    }

    /**
      The end of makeMove, after the captures: collect the opponent's legal moves
      and switch the turn if there are any; otherwise collect the mover's own, and
      if there are none either record the majority verdict as the winner.
    */
    method HandOver(opponent: int)
      requires board.Length0 == board.Length1 && Codes(Cells(board))
      requires opponent == Opponent(currentPlayer)
      modifies this
      ensures State() == PassOrSwitch(Cells(board), old(currentPlayer), old(winner))
    {
      var nextPossibleMoves := GetPossibleMoveCoords(board, opponent, currentPlayer);
      if |nextPossibleMoves| != 0 {
        SwitchTurn();
      } else {
        nextPossibleMoves := GetPossibleMoveCoords(board, currentPlayer, opponent);
        if |nextPossibleMoves| == 0 {
          winner := GetMajorityPlayer();
        }
      }
      possibleMoves := nextPossibleMoves;
    }

    /** switchTurn: the other player, by negation. */
    method SwitchTurn()
      modifies this
      ensures currentPlayer == -old(currentPlayer)
      ensures possibleMoves == old(possibleMoves) && winner == old(winner)
    {
      currentPlayer := -currentPlayer;
    }

    /** getMajorityPlayer: tally every cell into the slot of its player index and compare the slots. */
    method GetMajorityPlayer() returns (w: int)
      requires board.Length0 == board.Length1 && Codes(Cells(board))
      ensures w == Majority(Cells(board))
    {
      ghost var g := Cells(board);
      var occupiedTiles := new int[2];
      occupiedTiles[0], occupiedTiles[1] := 0, 0;
      for i := 0 to board.Length0
        invariant g == Cells(board)
        invariant occupiedTiles[0] == CountRows(g, PLAYER2, i) + CountRows(g, EMPTY, i)
        invariant occupiedTiles[1] == CountRows(g, PLAYER1, i)
      {
        TallyRow(occupiedTiles, i, g);
      }
      if occupiedTiles[0] == occupiedTiles[1] {
        return DRAW;
      }
      w := if occupiedTiles[0] > occupiedTiles[1] then PLAYER2 else PLAYER1;
    }

    /**
      The inner loop of getMajorityPlayer over row `i`: each cell adds one to the
      slot of its player index, an empty cell counting with PLAYER2.
    */
    method TallyRow(tiles: array<int>, i: int, ghost g: Grid)
      requires tiles.Length == 2 && 0 <= i < board.Length0 && board.Length0 == board.Length1
      requires g == Cells(board) && Codes(g)
      modifies tiles
      ensures tiles[0] == old(tiles[0]) + CountRow(g[i], PLAYER2) + CountRow(g[i], EMPTY)
      ensures tiles[1] == old(tiles[1]) + CountRow(g[i], PLAYER1)
    {
      ghost var row := g[i];
      for j := 0 to board.Length1
        invariant tiles[0] == old(tiles[0]) + CountRow(row[..j], PLAYER2) + CountRow(row[..j], EMPTY)
        invariant tiles[1] == old(tiles[1]) + CountRow(row[..j], PLAYER1)
      {
        var player := board[i, j];
        CountRowStep(row, j, EMPTY);
        CountRowStep(row, j, PLAYER1);
        CountRowStep(row, j, PLAYER2);
        tiles[PlayerIndex(player)] := tiles[PlayerIndex(player)] + 1;
      }
      assert row[..board.Length1] == row;
    }

    /** isGameOver: a winner has been recorded; then neither side has a legal move. */
    predicate IsGameOver()
      reads this, board
      ensures Valid() ==> (IsGameOver() <==> winner != EMPTY)
      ensures Valid() && IsGameOver() ==>
        possibleMoves == {} && LegalMoves(Cells(board), PLAYER1, PLAYER2) == {} && LegalMoves(Cells(board), PLAYER2, PLAYER1) == {}
    {
      winner == PLAYER1 || winner == PLAYER2 || winner == DRAW
    }

    /** The model getClone creates before overwriting it: fresh, of size n. */
    static method Blank(n: int) returns (m: ReversiModel)
      requires n >= 2 && n % 2 == 0
      ensures fresh(m) && fresh(m.board)
      ensures m.rows == m.cols == m.board.Length0 == m.board.Length1 == n
    {
      m := new ReversiModel(n);
    }

    /**
      getClone: a new model of the same size whose board rows are copied from this
      board and whose winner, current player and cached moves are this model's.
      The copy has its own board array.
    */
    method GetClone() returns (clone: ReversiModel)
      requires Valid()
      ensures fresh(clone) && fresh(clone.board)
      ensures clone.Valid() && clone.State() == State() && clone.rows == rows
    {
      ghost var s := State();
      clone := Blank(rows);
      clone.winner := winner;
      clone.currentPlayer := currentPlayer;
      clone.possibleMoves := possibleMoves;
      var copy := clone.board;
      assert Cells(board) == s.board;
      CopyBoard(board, copy);
      assert Cells(board) == s.board == Cells(copy);
      assert clone.State() == s;
    }
  }

  /** Java's constructor failures by board size: odd sizes, negative sizes, and size 0, which has no centre. */
  datatype SizeError = OddSize | NegativeSize | NoCentre

  /**
    `new ReversiModel(boardSize)` including its failures: an odd size is refused
    explicitly (Java's % is non-zero for odd negatives as well), a negative even
    size fails on the array allocation and size 0 on placing the centre disks.
  */
  method NewModel(boardSize: int) returns (r: Result<ReversiModel, SizeError>)
    ensures r.Success? <==> boardSize >= 2 && boardSize % 2 == 0
    ensures r.Failure? ==> r.error == (if boardSize % 2 != 0 then OddSize else if boardSize < 0 then NegativeSize else NoCentre)
    ensures r.Success? ==> fresh(r.value) && r.value.Valid() && r.value.State() == Initial(boardSize)
  {
    if boardSize % 2 != 0 {
      return Failure(OddSize);
    }
    if boardSize < 0 {
      return Failure(NegativeSize);
    }
    if boardSize == 0 {
      return Failure(NoCentre);
    }
    var m := new ReversiModel(boardSize);
    return Success(m);
  }
}

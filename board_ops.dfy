/**
  The in-place board procedures both engines run on their `int[][]` board (here a
  square `array2<int>`): the nested legal-move scan with its run walks, stealAll's
  forward and backward walk, and the mark-then-capture step of makeMove. Each is
  proved against the value-level rules of module Board.
*/
module BoardOps {
  import opened Board

  /** The board array read as a grid of rows. */
  function Cells(a: array2<int>): (g: Grid)
    reads a
    ensures |g| == a.Length0
    ensures forall i | 0 <= i < a.Length0 :: |g[i]| == a.Length1
    ensures forall i, j | 0 <= i < a.Length0 && 0 <= j < a.Length1 :: g[i][j] == a[i, j]
  {
    seq(a.Length0, i requires 0 <= i < a.Length0 reads a =>
      seq(a.Length1, j requires 0 <= j < a.Length1 reads a => a[i, j]))
  }

  /**
    The walk both scans share: from (x0, y0), step by (dx, dy) while the cell is on
    the board and holds `v`; the result is the first cell where that stops.
  */
  method WalkRun(board: array2<int>, ghost g: Grid, x0: int, y0: int, dx: int, dy: int, v: int) returns (x: int, y: int)
    requires board.Length0 == board.Length1 && IsDirection(dx, dy) && g == Cells(board)
    ensures Coordinate(x, y) == RunEnd(g, x0, y0, dx, dy, v)
    ensures !(0 <= x < board.Length0 && 0 <= y < board.Length0 && board[x, y] == v)
  {
    var n := board.Length0;
    x, y := x0, y0;
    while 0 <= x < n && 0 <= y < n && board[x, y] == v
      invariant RunEnd(g, x, y, dx, dy, v) == RunEnd(g, x0, y0, dx, dy, v)
      decreases Steps(n, x, dx) + Steps(n, y, dy)
    {
      x, y := x + dx, y + dy;
    }
  }

  /**
    One direction of addPossibleMovesFrom: walk over the opponent run next to
    (row, col) and add the cell where the walk stops when the run was non-empty and
    that cell is an empty board cell.
  */
  method AddEndFrom(board: array2<int>, row: int, col: int, xDir: int, yDir: int, opp: int, moves: set<Coordinate>)
    returns (found: set<Coordinate>)
    requires board.Length0 == board.Length1 && IsDirection(xDir, yDir)
    ensures found == moves + EndFrom(Cells(board), row, col, xDir, yDir, opp)
  {
    var n := board.Length0;
    ghost var g := Cells(board);
    var x, y := WalkRun(board, g, row + xDir, col + yDir, xDir, yDir, opp);
    var separated := x != row + xDir || y != col + yDir;
    EndFromWalk(g, row, col, xDir, yDir, opp, Coordinate(x, y));
    found := moves;
    if separated && 0 <= x < n && 0 <= y < n && board[x, y] == EMPTY {
      found := found + {Coordinate(x, y)};
    }
  }

  /**
    addPossibleMovesFrom: the eight directions in loop order, each adding the end of
    the opponent run next to (row, col) when there is one.
  */
  method AddPossibleMovesFrom(board: array2<int>, row: int, col: int, opp: int, moves: set<Coordinate>)
    returns (found: set<Coordinate>)
    requires board.Length0 == board.Length1
    ensures found == moves + MovesFrom(Cells(board), row, col, opp)
  {
    ghost var g := Cells(board);
    found := moves;
    for xDir := -1 to 2
      invariant found == moves + EndsAlong(g, row, col, opp, DirIndex(xDir, -1))
    {
      for yDir := -1 to 2
        invariant found == moves + EndsAlong(g, row, col, opp, DirIndex(xDir, yDir))
      {
        if xDir == 0 && yDir == 0 {
          continue;
        }
        EndsAlongStep(g, row, col, opp, xDir, yDir);
        found := AddEndFrom(board, row, col, xDir, yDir, opp, found);
        assert DirIndex(xDir, yDir + 1) == DirIndex(xDir, yDir) + 1;
      }
    }
  }

  /**
    getPossibleMoveCoordsForPlayer: scan the board row by row and collect the moves
    from every cell holding `me`.
  */
  method GetPossibleMoveCoords(board: array2<int>, me: int, opp: int) returns (moves: set<Coordinate>)
    requires board.Length0 == board.Length1
    ensures moves == LegalMoves(Cells(board), me, opp)
  {
    ghost var g := Cells(board);
    var n := board.Length0;
    moves := {};
    for i := 0 to n
      invariant moves == MovesBeforeRow(g, me, opp, i)
    {
      for j := 0 to n
        invariant moves == MovesBeforeRow(g, me, opp, i) + RowMoves(g, me, opp, i, j)
      {
        if board[i, j] == me {
          moves := AddPossibleMovesFrom(board, i, j, opp, moves);
        }
      }
    }
  }

  /** Writing one array cell is a point update of the grid. */
  lemma WriteCell(a: array2<int>, before: Grid, x: int, y: int, v: int)
    requires 0 <= x < a.Length0 && 0 <= y < a.Length1
    requires |before| == a.Length0 && (forall i | 0 <= i < a.Length0 :: |before[i]| == a.Length1)
    requires forall i, j | 0 <= i < a.Length0 && 0 <= j < a.Length1 && (i, j) != (x, y) :: a[i, j] == before[i][j]
    requires a[x, y] == v
    ensures Cells(a) == before[x := before[x][y := v]]
  {
    var after := Cells(a);
    forall i | 0 <= i < a.Length0
      ensures after[i] == before[x := before[x][y := v]][i]
    {
    }
  }

  /**
    One step of stealAll's backward walk: turn the run cell (x, y) = s[k-1] to `me`;
    the cell one step back is s[k-2], or the mover's disk when (x, y) is the first
    run cell.
  */
  method FlipOne(board: array2<int>, ghost g: Grid, row: int, col: int, xDir: int, yDir: int, me: int, opp: int,
                 ghost s: seq<Coordinate>, ghost k: nat, x: int, y: int)
    modifies board
    requires board.Length0 == board.Length1 && IsSquare(g) && |g| == board.Length0 && IsDirection(xDir, yDir)
    requires s == RunSeq(g, row + xDir, col + yDir, xDir, yDir, opp)
    requires 0 < k <= |s| && s[k - 1] == Coordinate(x, y)
    requires FlippedFrom(g, Cells(board), s, k, me)
    requires 0 <= row < board.Length0 && 0 <= col < board.Length1 && board[row, col] == me && me != opp
    ensures FlippedFrom(g, Cells(board), s, k - 1, me)
    ensures board[row, col] == me
    ensures k > 1 ==> s[k - 2] == Coordinate(x - xDir, y - yDir)
    ensures k == 1 ==> Coordinate(x - xDir, y - yDir) == Coordinate(row, col)
  {
    ghost var cur := Cells(board);
    FlipStep(g, cur, row + xDir, col + yDir, xDir, yDir, me, opp, k, x, y);
    board[x, y] := me;
    WriteCell(board, cur, x, y, me);
  }

  /**
    stealAll's backward walk: from the last cell of the opponent run `s` (its cells
    in walking order), turn disks to `me` and step back until reaching a cell that
    holds `me`, which is the mover's own disk at (row, col) just before the run.
  */
  method FlipBack(board: array2<int>, row: int, col: int, xDir: int, yDir: int, me: int, opp: int,
                  x0: int, y0: int, ghost s: seq<Coordinate>)
    returns (x: int, y: int)
    modifies board
    requires board.Length0 == board.Length1 && IsDirection(xDir, yDir)
    requires 0 <= row < board.Length0 && 0 <= col < board.Length1 && board[row, col] == me && me != opp
    requires s == RunSeq(Cells(board), row + xDir, col + yDir, xDir, yDir, opp)
    requires |s| > 0 && s[|s| - 1] == Coordinate(x0, y0)
    requires FlippedFrom(Cells(board), Cells(board), s, |s|, me)
    ensures Coordinate(x, y) == Coordinate(row, col)
    ensures FlippedFrom(old(Cells(board)), Cells(board), s, 0, me)
  {
    ghost var g := Cells(board);
    var n := board.Length0;
    x, y := x0, y0;
    ghost var k := |s|;
    while 0 <= x < n && 0 <= y < n && board[x, y] != me
      invariant 0 <= k <= |s|
      invariant k == 0 ==> Coordinate(x, y) == Coordinate(row, col)
      invariant k > 0 ==> Coordinate(x, y) == s[k - 1]
      invariant FlippedFrom(g, Cells(board), s, k, me) && board[row, col] == me
      decreases k
    {
      if k == 0 {
        assert false;
      }
      FlipOne(board, g, row, col, xDir, yDir, me, opp, s, k, x, y);
      x, y := x - xDir, y - yDir;
      k := k - 1;
    }
    if k > 0 {
      FlipStep(g, Cells(board), row + xDir, col + yDir, xDir, yDir, me, opp, k, x, y);
      assert false;
    }
  }

  /**
    The backward half of stealAll, once the forward walk has stopped at (x, y) on a
    disk of the mover: every cell of the run is flipped and nothing else changes.
  */
  method FlipRun(board: array2<int>, ghost g: Grid, row: int, col: int, xDir: int, yDir: int, me: int, opp: int,
                 x: int, y: int)
    modifies board
    requires board.Length0 == board.Length1 && IsDirection(xDir, yDir) && g == Cells(board)
    requires 0 <= row < board.Length0 && 0 <= col < board.Length1 && board[row, col] == me && me != opp
    requires Bracketed(g, row, col, xDir, yDir, me, opp)
    requires Coordinate(x, y) == RunEnd(g, row + xDir, col + yDir, xDir, yDir, opp)
    ensures Stolen(g, Cells(board), row, col, xDir, yDir, me, opp)
  {
    FlipStart(g, row, col, xDir, yDir, me, opp, x - xDir, y - yDir);
    ghost var s := RunSeq(g, row + xDir, col + yDir, xDir, yDir, opp);
    var _, _ := FlipBack(board, row, col, xDir, yDir, me, opp, x - xDir, y - yDir, s);
    FlipDone(g, Cells(board), row, col, xDir, yDir, me, opp);
  }

  /**
    The forward half of stealAll: step onto the neighbour in the direction and walk
    over the opponent run; the run is bracketed exactly when the neighbour held the
    opponent and the walk stops on a board cell holding `me`.
  */
  method FindBracket(board: array2<int>, ghost g: Grid, row: int, col: int, xDir: int, yDir: int, me: int, opp: int)
    returns (found: bool, x: int, y: int)
    requires board.Length0 == board.Length1 && IsDirection(xDir, yDir) && g == Cells(board)
    ensures found <==> Bracketed(g, row, col, xDir, yDir, me, opp)
    ensures found ==> Coordinate(x, y) == RunEnd(g, row + xDir, col + yDir, xDir, yDir, opp)
  {
    var n := board.Length0;
    x, y := row + xDir, col + yDir;
    if !(0 <= x < n && 0 <= y < n && board[x, y] == opp) {
      return false, x, y;
    }
    assert Cell(g, row + xDir, col + yDir) == opp;
    x, y := WalkRun(board, g, row + xDir + xDir, col + yDir + yDir, xDir, yDir, opp);
    BracketedByWalk(g, row, col, xDir, yDir, me, opp, Coordinate(x, y));
    found := 0 <= x < n && 0 <= y < n && board[x, y] == me;
  }

  /**
    stealAll for one direction: walk forward over the opponent run next to
    (row, col); if it ends on a board cell holding `me`, walk back flipping every
    cell up to the mover's disk at (row, col).
  */
  method StealAll(board: array2<int>, row: int, col: int, xDir: int, yDir: int, me: int, opp: int)
    modifies board
    requires board.Length0 == board.Length1 && IsDirection(xDir, yDir)
    requires 0 <= row < board.Length0 && 0 <= col < board.Length1 && board[row, col] == me && me != opp
    ensures Stolen(old(Cells(board)), Cells(board), row, col, xDir, yDir, me, opp)
  {
    ghost var g := Cells(board);
    var found, x, y := FindBracket(board, g, row, col, xDir, yDir, me, opp);
    if found {
      FlipRun(board, g, row, col, xDir, yDir, me, opp, x, y);
    } else {
      NothingStolen(g, row, col, xDir, yDir, me, opp);
    }
  }

  /**
    The mark-and-capture step of makeMove: put `me` on (row, col), then run stealAll
    for the eight directions in loop order.
  */
  method PlaceDisk(board: array2<int>, row: int, col: int, me: int, opp: int)
    modifies board
    requires board.Length0 == board.Length1
    requires 0 <= row < board.Length0 && 0 <= col < board.Length1 && me != opp
    ensures Cells(board) == AfterMove(old(Cells(board)), row, col, me, opp)
  {
    ghost var g := Cells(board);
    board[row, col] := me;
    WriteCell(board, g, row, col, me);
    MarkStarts(g, row, col, me, opp);
    for xDir := -1 to 2
      invariant CapturedSoFar(g, Cells(board), row, col, me, opp, DirIndex(xDir, -1))
    {
      for yDir := -1 to 2
        invariant CapturedSoFar(g, Cells(board), row, col, me, opp, DirIndex(xDir, yDir))
      {
        if xDir == 0 && yDir == 0 {
          continue;
        }
        DirectionAt(xDir, yDir);
        ghost var h := Cells(board);
        assert SoFarCell(g, h, row, col, me, opp, DirIndex(xDir, yDir), row, col);
        StealAll(board, row, col, xDir, yDir, me, opp);
        CaptureStep(g, h, Cells(board), row, col, me, opp, DirIndex(xDir, yDir));
      }
    }
    CapturesComplete(g, Cells(board), row, col, me, opp);
  }

  /** Copy every row of `src` into `dst`, as getClone does with System.arraycopy row by row. */
  method CopyBoard(src: array2<int>, dst: array2<int>)
    requires src != dst && src.Length0 == dst.Length0 && src.Length1 == dst.Length1
    modifies dst
    ensures Cells(dst) == Cells(src)
  {
    for i := 0 to dst.Length0
      invariant forall a, b | 0 <= a < i && 0 <= b < dst.Length1 :: dst[a, b] == src[a, b]
    {
      forall j | 0 <= j < dst.Length1 {
        dst[i, j] := src[i, j];
      }
    }
    forall i | 0 <= i < dst.Length0
      ensures Cells(dst)[i] == Cells(src)[i]
    {
    }
  }

  /**
    The four centre disks both engines put on a fresh, all-empty square board:
    `first` on (lo, lo) and (hi, hi), `second` on (lo, hi) and (hi, lo).
  */
  method PlaceStart(a: array2<int>, n: int, first: int, second: int)
    requires a.Length0 == n && a.Length1 == n && n >= 2
    requires forall i, j | 0 <= i < n && 0 <= j < n :: a[i, j] == EMPTY
    modifies a
    ensures Cells(a) == Start(n, first, second)
  {
    var midLo := n / 2 - 1;
    var midHi := midLo + 1;
    a[midLo, midLo] := first;
    a[midHi, midHi] := first;
    a[midLo, midHi] := second;
    a[midHi, midLo] := second;
    StartCells(a, n, first, second);
  }

  lemma StartCells(a: array2<int>, n: int, first: int, second: int)
    requires a.Length0 == n && a.Length1 == n && n >= 2
    requires var lo := n / 2 - 1; var hi := lo + 1;
      forall i, j | 0 <= i < n && 0 <= j < n ::
        a[i, j] == if (i == lo && j == lo) || (i == hi && j == hi) then first
                   else if (i == lo && j == hi) || (i == hi && j == lo) then second
                   else EMPTY
    ensures Cells(a) == Start(n, first, second)
  {
    var g := Cells(a);
    var s := Start(n, first, second);
    forall i | 0 <= i < n
      ensures g[i] == s[i]
    {
    }
  }
}

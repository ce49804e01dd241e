/**
  The board rules shared by the console engine (ReversiModel) and the web engine
  (ReversiGame): walking a run of equal disks along one of the eight compass
  directions, the legal-move set the two engines' nested scans accumulate, the
  cells a move flips, and disk counts.

  Both engines store the board as a square grid of integer cell codes with 0 for
  an empty cell; they differ only in the codes of the two sides (1 and -1 on the
  console, 1 and 2 on the web), so every rule here takes the mover's code `me`
  and the opponent's code `opp` as parameters.
*/
module Board {

  /** Code of an unoccupied cell, in both encodings. */
  const EMPTY: int := 0

  /** A (row, column) pair with value equality, as the source's Coordinate records. */
  datatype Coordinate = Coordinate(x: int, y: int)

  /** A snapshot of the board, row by row. */
  type Grid = seq<seq<int>>

  /** Every row has as many cells as there are rows. */
  ghost predicate IsSquare(g: Grid) {
    forall i | 0 <= i < |g| :: |g[i]| == |g|
  }

  /** insideBoard: the coordinate lies on the (square) board. */
  predicate Inside(g: Grid, x: int, y: int) {
    0 <= x < |g| && 0 <= y < |g|
  }

  /** The code at (x, y), and EMPTY off the board. */
  function Cell(g: Grid, x: int, y: int): int {
    if 0 <= x < |g| && 0 <= y < |g[x]| then g[x][y] else EMPTY
  }

  /** One of the eight compass steps the scans try: both components in -1..1, not both 0. */
  predicate IsDirection(dx: int, dy: int) {
    -1 <= dx <= 1 && -1 <= dy <= 1 && (dx != 0 || dy != 0)
  }

  /** The eight directions in the order of the nested `xDir`/`yDir` loops, (0, 0) skipped. */
  const Directions: seq<(int, int)> :=
    [(-1, -1), (-1, 0), (-1, 1), (0, -1), (0, 1), (1, -1), (1, 0), (1, 1)]

  /** How many directions the nested loops have handled when they reach (xDir, yDir). */
  function DirIndex(xDir: int, yDir: int): int {
    3 * (xDir + 1) + (yDir + 1) - (if xDir > 0 || (xDir == 0 && yDir > 0) then 1 else 0)
  }

  lemma DirectionAt(xDir: int, yDir: int)
    requires IsDirection(xDir, yDir)
    ensures 0 <= DirIndex(xDir, yDir) < |Directions|
    ensures Directions[DirIndex(xDir, yDir)] == (xDir, yDir)
  {
  }

  lemma DirectionsAreDirections(k: int)
    requires 0 <= k < |Directions|
    ensures IsDirection(Directions[k].0, Directions[k].1)
  {
  }

  /** Steps a walk along `dx` can still take from `x` before it leaves 0..n-1. */
  function Steps(n: int, x: int, dx: int): nat {
    if dx == 1 && x < n then n - x
    else if dx == -1 && x >= 0 then x + 1
    else 0
  }

  /**
    The first cell, starting at (x, y) and stepping by (dx, dy), that is off the
    board or does not hold `v`: where the scans' `while (insideBoard && board == v)`
    walks stop.
  */
  function RunEnd(g: Grid, x: int, y: int, dx: int, dy: int, v: int): Coordinate
    requires IsDirection(dx, dy)
    decreases Steps(|g|, x, dx) + Steps(|g|, y, dy)
  {
    if Inside(g, x, y) && Cell(g, x, y) == v then RunEnd(g, x + dx, y + dy, dx, dy, v)
    else Coordinate(x, y)
  }

  /** `p` is one of the cells holding `v` that such a walk from (x, y) passes over. */
  predicate InRun(g: Grid, x: int, y: int, dx: int, dy: int, v: int, p: Coordinate)
    requires IsDirection(dx, dy)
    decreases Steps(|g|, x, dx) + Steps(|g|, y, dy)
  {
    Inside(g, x, y) && Cell(g, x, y) == v &&
    (p == Coordinate(x, y) || InRun(g, x + dx, y + dy, dx, dy, v, p))
  }

  /** `p` lies strictly beyond (x, y) on the straight ray in direction (dx, dy). */
  predicate Ahead(x: int, y: int, dx: int, dy: int, p: Coordinate) {
    && (if dx == 0 then p.x == x else if dx > 0 then p.x > x else p.x < x)
    && (if dy == 0 then p.y == y else if dy > 0 then p.y > y else p.y < y)
    && (dx != 0 && dy != 0 ==> if dx == dy then p.x - x == p.y - y else p.x - x == y - p.y)
  }

  // ---------------------------------------------------------------------------
  // Facts about runs

  lemma {:induction false} RunCells(g: Grid, x: int, y: int, dx: int, dy: int, v: int, p: Coordinate)
    requires IsDirection(dx, dy) && InRun(g, x, y, dx, dy, v, p)
    ensures Inside(g, p.x, p.y) && Cell(g, p.x, p.y) == v
    ensures p == Coordinate(x, y) || Ahead(x, y, dx, dy, p)
    ensures Ahead(p.x, p.y, dx, dy, RunEnd(g, x, y, dx, dy, v))
    decreases Steps(|g|, x, dx) + Steps(|g|, y, dy)
  {
    if p != Coordinate(x, y) {
      RunCells(g, x + dx, y + dy, dx, dy, v, p);
    } else {
      RunEndAhead(g, x + dx, y + dy, dx, dy, v);
    }
  }

  lemma {:induction false} RunEndAhead(g: Grid, x: int, y: int, dx: int, dy: int, v: int)
    requires IsDirection(dx, dy)
    ensures var e := RunEnd(g, x, y, dx, dy, v); e == Coordinate(x, y) || Ahead(x, y, dx, dy, e)
    ensures !(Inside(g, x, y) && Cell(g, x, y) == v) <==> RunEnd(g, x, y, dx, dy, v) == Coordinate(x, y)
    decreases Steps(|g|, x, dx) + Steps(|g|, y, dy)
  {
    if Inside(g, x, y) && Cell(g, x, y) == v {
      RunEndAhead(g, x + dx, y + dy, dx, dy, v);
    }
  }

  /** If `p` is a board cell at (x, y) or ahead of it in direction (dx, dy), `g` and `h` agree on it. */
  ghost predicate RayCell(g: Grid, h: Grid, x: int, y: int, dx: int, dy: int, p: Coordinate) {
    (p == Coordinate(x, y) || Ahead(x, y, dx, dy, p)) && Inside(g, p.x, p.y) ==> Cell(g, p.x, p.y) == Cell(h, p.x, p.y)
  }

  /** `g` and `h` agree on (x, y) and on every board cell ahead of it in direction (dx, dy). */
  ghost predicate SameRay(g: Grid, h: Grid, x: int, y: int, dx: int, dy: int) {
    forall p: Coordinate :: RayCell(g, h, x, y, dx, dy, p)
  }

  /** Agreement on a ray carries over to the ray one step further on. */
  lemma SameRayStep(g: Grid, h: Grid, x: int, y: int, dx: int, dy: int)
    requires IsDirection(dx, dy) && SameRay(g, h, x, y, dx, dy)
    ensures SameRay(g, h, x + dx, y + dy, dx, dy)
    ensures Inside(g, x, y) ==> Cell(g, x, y) == Cell(h, x, y)
  {
    var x', y' := x + dx, y + dy;
    forall p: Coordinate
      ensures RayCell(g, h, x', y', dx, dy, p)
    {
      assert RayCell(g, h, x, y, dx, dy, p);
    }
    assert RayCell(g, h, x, y, dx, dy, Coordinate(x, y));
  }

  /** Two grids of the same height that agree on a ray see the same run end on it. */
  lemma {:induction false} RunEndFrame(g: Grid, h: Grid, x: int, y: int, dx: int, dy: int, v: int)
    requires IsDirection(dx, dy) && |g| == |h| && SameRay(g, h, x, y, dx, dy)
    ensures RunEnd(g, x, y, dx, dy, v) == RunEnd(h, x, y, dx, dy, v)
    decreases Steps(|g|, x, dx) + Steps(|g|, y, dy)
  {
    SameRayStep(g, h, x, y, dx, dy);
    if Inside(g, x, y) && Cell(g, x, y) == v {
      RunEndFrame(g, h, x + dx, y + dy, dx, dy, v);
    }
  }

  /** Two grids of the same height that agree on a ray see the same run cells on it. */
  lemma {:induction false} InRunFrame(g: Grid, h: Grid, x: int, y: int, dx: int, dy: int, v: int, p: Coordinate)
    requires IsDirection(dx, dy) && |g| == |h| && SameRay(g, h, x, y, dx, dy)
    ensures InRun(g, x, y, dx, dy, v, p) <==> InRun(h, x, y, dx, dy, v, p)
    decreases Steps(|g|, x, dx) + Steps(|g|, y, dy)
  {
    SameRayStep(g, h, x, y, dx, dy);
    if Inside(g, x, y) && Cell(g, x, y) == v {
      InRunFrame(g, h, x + dx, y + dy, dx, dy, v, p);
    }
  }

  // ---------------------------------------------------------------------------
  // Legal moves, in the shape of getPossibleMoveCoordsForPlayer / addPossibleMovesFrom

  /**
    What addPossibleMovesFrom adds for the own disk at (i, j) and one direction: the
    end of the opponent run that starts next to it, when that run is non-empty and
    ends on an empty cell of the board.
  */
  function EndFrom(g: Grid, i: int, j: int, dx: int, dy: int, opp: int): set<Coordinate>
    requires IsDirection(dx, dy)
  {
    if Inside(g, i + dx, j + dy) && Cell(g, i + dx, j + dy) == opp then
      var e := RunEnd(g, i + dx, j + dy, dx, dy, opp);
      if Inside(g, e.x, e.y) && Cell(g, e.x, e.y) == EMPTY then {e} else {}
    else {}
  }

  /** Ends found from (i, j) along the first k directions of the loop order. */
  function EndsAlong(g: Grid, i: int, j: int, opp: int, k: nat): set<Coordinate>
    requires k <= |Directions|
  {
    if k == 0 then {}
    else
      DirectionsAreDirections(k - 1);
      EndsAlong(g, i, j, opp, k - 1) + EndFrom(g, i, j, Directions[k - 1].0, Directions[k - 1].1, opp)
  }

  /** EndFrom in terms of where the walk over the opponent run stopped. */
  lemma EndFromWalk(g: Grid, i: int, j: int, dx: int, dy: int, opp: int, e: Coordinate)
    requires IsDirection(dx, dy) && e == RunEnd(g, i + dx, j + dy, dx, dy, opp)
    ensures EndFrom(g, i, j, dx, dy, opp) ==
            if e != Coordinate(i + dx, j + dy) && Inside(g, e.x, e.y) && Cell(g, e.x, e.y) == EMPTY then {e} else {}
  {
    RunEndAhead(g, i + dx, j + dy, dx, dy, opp);
  }

  /** One more direction of the loop adds that direction's end, if any. */
  lemma EndsAlongStep(g: Grid, i: int, j: int, opp: int, xDir: int, yDir: int)
    requires IsDirection(xDir, yDir)
    ensures 0 <= DirIndex(xDir, yDir) < |Directions|
    ensures EndsAlong(g, i, j, opp, DirIndex(xDir, yDir) + 1) ==
            EndsAlong(g, i, j, opp, DirIndex(xDir, yDir)) + EndFrom(g, i, j, xDir, yDir, opp)
  {
    DirectionAt(xDir, yDir);
  }

  /** Everything addPossibleMovesFrom adds for the own disk at (i, j). */
  function MovesFrom(g: Grid, i: int, j: int, opp: int): set<Coordinate> {
    EndsAlong(g, i, j, opp, |Directions|)
  }

  /** Moves found from own disks in columns 0..j-1 of row i. */
  function RowMoves(g: Grid, me: int, opp: int, i: int, j: nat): set<Coordinate> {
    if j == 0 then {}
    else RowMoves(g, me, opp, i, j - 1) + (if Cell(g, i, j - 1) == me then MovesFrom(g, i, j - 1, opp) else {})
  }

  /** Moves found from own disks in rows 0..i-1. */
  function MovesBeforeRow(g: Grid, me: int, opp: int, i: nat): set<Coordinate> {
    if i == 0 then {}
    else MovesBeforeRow(g, me, opp, i - 1) + RowMoves(g, me, opp, i - 1, |g|)
  }

  /** The legal-move set of the side with code `me` against the side with code `opp`. */
  function LegalMoves(g: Grid, me: int, opp: int): set<Coordinate> {
    MovesBeforeRow(g, me, opp, |g|)
  }

  /**
    The rule as the specification states it, independently of scan order: from an
    own disk `o`, a step in direction (dx, dy) lands on an opponent disk, and the run
    of opponent disks from there ends on the empty board cell `c`.
  */
  ghost predicate LegalFrom(g: Grid, me: int, opp: int, o: Coordinate, dx: int, dy: int, c: Coordinate) {
    && Inside(g, o.x, o.y) && Cell(g, o.x, o.y) == me
    && IsDirection(dx, dy)
    && Inside(g, o.x + dx, o.y + dy) && Cell(g, o.x + dx, o.y + dy) == opp
    && c == RunEnd(g, o.x + dx, o.y + dy, dx, dy, opp)
    && Inside(g, c.x, c.y) && Cell(g, c.x, c.y) == EMPTY
  }

  lemma {:induction false} EndsAlongSpec(g: Grid, i: int, j: int, opp: int, k: nat, c: Coordinate)
    requires k <= |Directions|
    ensures c in EndsAlong(g, i, j, opp, k) <==>
      exists m :: 0 <= m < k && IsDirection(Directions[m].0, Directions[m].1) &&
                  c in EndFrom(g, i, j, Directions[m].0, Directions[m].1, opp)
  {
    if k > 0 {
      EndsAlongSpec(g, i, j, opp, k - 1, c);
      DirectionsAreDirections(k - 1);
    }
  }

  lemma MovesFromSpec(g: Grid, i: int, j: int, opp: int, c: Coordinate)
    ensures c in MovesFrom(g, i, j, opp) <==>
      exists dx, dy :: IsDirection(dx, dy) && c in EndFrom(g, i, j, dx, dy, opp)
  {
    EndsAlongSpec(g, i, j, opp, |Directions|, c);
    if exists dx, dy :: IsDirection(dx, dy) && c in EndFrom(g, i, j, dx, dy, opp) {
      var dx, dy :| IsDirection(dx, dy) && c in EndFrom(g, i, j, dx, dy, opp);
      DirectionAt(dx, dy);
    }
  }

  lemma {:induction false} RowMovesSpec(g: Grid, me: int, opp: int, i: int, j: nat, c: Coordinate)
    ensures c in RowMoves(g, me, opp, i, j) <==>
      exists col :: 0 <= col < j && Cell(g, i, col) == me && c in MovesFrom(g, i, col, opp)
  {
    if j > 0 {
      RowMovesSpec(g, me, opp, i, j - 1, c);
    }
  }

  lemma {:induction false} MovesBeforeRowSpec(g: Grid, me: int, opp: int, i: nat, c: Coordinate)
    ensures c in MovesBeforeRow(g, me, opp, i) <==>
      exists row, col :: 0 <= row < i && 0 <= col < |g| && Cell(g, row, col) == me && c in MovesFrom(g, row, col, opp)
  {
    if i > 0 {
      MovesBeforeRowSpec(g, me, opp, i - 1, c);
      RowMovesSpec(g, me, opp, i - 1, |g|, c);
    }
  }

  /**
    The scan finds exactly the moves the rule allows: a coordinate is in the
    legal-move set iff it is an empty board cell at the end of a non-empty straight
    run of opponent disks that starts next to one of the mover's disks.
  */
  lemma LegalMovesSpec(g: Grid, me: int, opp: int, c: Coordinate)
    ensures c in LegalMoves(g, me, opp) <==> exists o, dx, dy :: LegalFrom(g, me, opp, o, dx, dy, c)
  {
    MovesBeforeRowSpec(g, me, opp, |g|, c);
    if c in LegalMoves(g, me, opp) {
      var row, col :| 0 <= row < |g| && 0 <= col < |g| && Cell(g, row, col) == me && c in MovesFrom(g, row, col, opp);
      MovesFromSpec(g, row, col, opp, c);
      var dx, dy :| IsDirection(dx, dy) && c in EndFrom(g, row, col, dx, dy, opp);
      assert LegalFrom(g, me, opp, Coordinate(row, col), dx, dy, c);
    }
    if exists o, dx, dy :: LegalFrom(g, me, opp, o, dx, dy, c) {
      var o, dx, dy :| LegalFrom(g, me, opp, o, dx, dy, c);
      MovesFromSpec(g, o.x, o.y, opp, c);
      assert c in MovesFrom(g, o.x, o.y, opp);
    }
  }

  /** Every legal move is an empty cell of the board, and every cell it jumps over holds an opponent disk. */
  lemma LegalMoveIsEmptyCell(g: Grid, me: int, opp: int, c: Coordinate)
    requires c in LegalMoves(g, me, opp)
    ensures Inside(g, c.x, c.y) && Cell(g, c.x, c.y) == EMPTY
  {
    LegalMovesSpec(g, me, opp, c);
  }

  /** A legal move ends a non-empty run of opponent disks that starts next to one of the mover's disks. */
  lemma LegalMoveEndsOpponentRun(g: Grid, me: int, opp: int, c: Coordinate)
    requires c in LegalMoves(g, me, opp)
    ensures exists o, dx, dy :: LegalFrom(g, me, opp, o, dx, dy, c) &&
              forall p :: InRun(g, o.x + dx, o.y + dy, dx, dy, opp, p) ==> Cell(g, p.x, p.y) == opp
  {
    LegalMovesSpec(g, me, opp, c);
    var o, dx, dy :| LegalFrom(g, me, opp, o, dx, dy, c);
    forall p | InRun(g, o.x + dx, o.y + dy, dx, dy, opp, p) ensures Cell(g, p.x, p.y) == opp {
      RunCells(g, o.x + dx, o.y + dy, dx, dy, opp, p);
    }
  }

  /** A board without empty cells leaves no legal move to either side. */
  lemma FullBoardHasNoMoves(g: Grid, me: int, opp: int)
    requires forall i, j | 0 <= i < |g| && 0 <= j < |g| :: Cell(g, i, j) != EMPTY
    ensures LegalMoves(g, me, opp) == {}
  {
    if c :| c in LegalMoves(g, me, opp) {
      LegalMoveIsEmptyCell(g, me, opp, c);
    }
  }

  // ---------------------------------------------------------------------------
  // Captures, in the shape of stealAll and the direction loop of makeMove

  lemma DirIndexInverse(k: int)
    requires 0 <= k < |Directions|
    ensures DirIndex(Directions[k].0, Directions[k].1) == k
  {
  }

  /**
    stealAll's condition for direction (dx, dy) once the mover sits at (r, c): the
    cell next to (r, c) holds an opponent disk and the opponent run from there ends
    on a board cell holding the mover's disk.
  */
  predicate Bracketed(g: Grid, r: int, c: int, dx: int, dy: int, me: int, opp: int)
    requires IsDirection(dx, dy)
  {
    Inside(g, r + dx, c + dy) && Cell(g, r + dx, c + dy) == opp &&
    var e := RunEnd(g, r + dx, c + dy, dx, dy, opp); Inside(g, e.x, e.y) && Cell(g, e.x, e.y) == me
  }

  /** `p` is one of the opponent disks stealAll turns over in direction (dx, dy). */
  predicate Captured(g: Grid, r: int, c: int, dx: int, dy: int, me: int, opp: int, p: Coordinate)
    requires IsDirection(dx, dy)
  {
    Bracketed(g, r, c, dx, dy, me, opp) && InRun(g, r + dx, c + dy, dx, dy, opp, p)
  }

  /** `p` is captured along one of the first k directions of the loop order. */
  predicate FlippedAlong(g: Grid, r: int, c: int, me: int, opp: int, p: Coordinate, k: nat)
    requires k <= |Directions|
  {
    k > 0 &&
    (FlippedAlong(g, r, c, me, opp, p, k - 1) ||
     (DirectionsAreDirections(k - 1);
      Captured(g, r, c, Directions[k - 1].0, Directions[k - 1].1, me, opp, p)))
  }

  /** `p` is captured along some direction when the mover plays (r, c). */
  predicate Flipped(g: Grid, r: int, c: int, me: int, opp: int, p: Coordinate) {
    FlippedAlong(g, r, c, me, opp, p, |Directions|)
  }

  /**
    The board after the mover `me` plays (r, c) on `g`: the target holds `me`, every
    captured cell holds `me`, every other cell is as before.
  */
  function AfterMove(g: Grid, r: int, c: int, me: int, opp: int): (h: Grid)
    ensures |h| == |g| && forall i | 0 <= i < |g| :: |h[i]| == |g[i]|
  {
    seq(|g|, i requires 0 <= i < |g| =>
      seq(|g[i]|, j requires 0 <= j < |g[i]| =>
        if (i == r && j == c) || Flipped(g, r, c, me, opp, Coordinate(i, j)) then me else g[i][j]))
  }

  lemma {:induction false} FlippedAlongSpec(g: Grid, r: int, c: int, me: int, opp: int, p: Coordinate, k: nat)
    requires k <= |Directions|
    ensures FlippedAlong(g, r, c, me, opp, p, k) <==>
      exists m :: 0 <= m < k && IsDirection(Directions[m].0, Directions[m].1) &&
                  Captured(g, r, c, Directions[m].0, Directions[m].1, me, opp, p)
  {
    if k > 0 {
      FlippedAlongSpec(g, r, c, me, opp, p, k - 1);
      DirectionsAreDirections(k - 1);
    }
  }

  lemma FlippedSpec(g: Grid, r: int, c: int, me: int, opp: int, p: Coordinate)
    ensures Flipped(g, r, c, me, opp, p) <==>
      exists dx, dy :: IsDirection(dx, dy) && Captured(g, r, c, dx, dy, me, opp, p)
  {
    FlippedAlongSpec(g, r, c, me, opp, p, |Directions|);
    if exists dx, dy :: IsDirection(dx, dy) && Captured(g, r, c, dx, dy, me, opp, p) {
      var dx, dy :| IsDirection(dx, dy) && Captured(g, r, c, dx, dy, me, opp, p);
      DirectionAt(dx, dy);
    }
  }

  /** A captured cell lies on the ray from (r, c) in its direction. */
  lemma CapturedAhead(g: Grid, r: int, c: int, dx: int, dy: int, me: int, opp: int, p: Coordinate)
    requires IsDirection(dx, dy) && Captured(g, r, c, dx, dy, me, opp, p)
    ensures Ahead(r, c, dx, dy, p) && Inside(g, p.x, p.y) && Cell(g, p.x, p.y) == opp
  {
    RunCells(g, r + dx, c + dy, dx, dy, opp, p);
  }

  /** Cells captured along the first k directions are not on the ray of any later direction. */
  lemma {:induction false} FlippedAlongOffLaterRays(g: Grid, r: int, c: int, me: int, opp: int, p: Coordinate, k: nat, m: int)
    requires k <= m < |Directions| && FlippedAlong(g, r, c, me, opp, p, k)
    ensures !Ahead(r, c, Directions[m].0, Directions[m].1, p)
  {
    DirectionsAreDirections(k - 1);
    if Captured(g, r, c, Directions[k - 1].0, Directions[k - 1].1, me, opp, p) {
      CapturedAhead(g, r, c, Directions[k - 1].0, Directions[k - 1].1, me, opp, p);
      DirIndexInverse(k - 1);
      DirIndexInverse(m);
    } else {
      FlippedAlongOffLaterRays(g, r, c, me, opp, p, k - 1, m);
    }
  }

  /**
    What a move changes: the target becomes the mover's; any other cell that
    changes held an opponent disk on a ray from the target whose opponent run ends
    on a mover's disk, and it becomes the mover's; every such opponent disk changes.
  */
  lemma MoveChangesOnlyCapturedRuns(g: Grid, r: int, c: int, me: int, opp: int)
    requires IsSquare(g) && Inside(g, r, c)
    ensures AfterMove(g, r, c, me, opp)[r][c] == me
    ensures forall i, j | Inside(g, i, j) && (i, j) != (r, c) && AfterMove(g, r, c, me, opp)[i][j] != g[i][j] ::
      AfterMove(g, r, c, me, opp)[i][j] == me && g[i][j] == opp &&
      exists dx, dy :: IsDirection(dx, dy) && Bracketed(g, r, c, dx, dy, me, opp) &&
                       InRun(g, r + dx, c + dy, dx, dy, opp, Coordinate(i, j))
    ensures forall dx, dy, p | IsDirection(dx, dy) && Captured(g, r, c, dx, dy, me, opp, p) ::
      Inside(g, p.x, p.y) && AfterMove(g, r, c, me, opp)[p.x][p.y] == me
  {
    var h := AfterMove(g, r, c, me, opp);
    forall i, j | Inside(g, i, j) && (i, j) != (r, c) && h[i][j] != g[i][j]
      ensures h[i][j] == me && g[i][j] == opp
      ensures exists dx, dy :: IsDirection(dx, dy) && Bracketed(g, r, c, dx, dy, me, opp) &&
                               InRun(g, r + dx, c + dy, dx, dy, opp, Coordinate(i, j))
    {
      FlippedSpec(g, r, c, me, opp, Coordinate(i, j));
      var dx, dy :| IsDirection(dx, dy) && Captured(g, r, c, dx, dy, me, opp, Coordinate(i, j));
      CapturedAhead(g, r, c, dx, dy, me, opp, Coordinate(i, j));
    }
    forall dx, dy, p | IsDirection(dx, dy) && Captured(g, r, c, dx, dy, me, opp, p)
      ensures Inside(g, p.x, p.y) && h[p.x][p.y] == me
    {
      CapturedAhead(g, r, c, dx, dy, me, opp, p);
      FlippedSpec(g, r, c, me, opp, p);
    }
  }

  /** One step back along a ray: the cells ahead of (x - dx, y - dy) are (x, y) and the cells ahead of it. */
  lemma AheadStep(x: int, y: int, dx: int, dy: int, p: Coordinate)
    requires IsDirection(dx, dy)
    ensures Ahead(x - dx, y - dy, dx, dy, p) <==> (p == Coordinate(x, y) || Ahead(x, y, dx, dy, p))
  {
  }

  /** `h` has the rows and row lengths of `g`. */
  ghost predicate SameShape(g: Grid, h: Grid) {
    |h| == |g| && forall i | 0 <= i < |g| :: |h[i]| == |g[i]|
  }

  /** Cell (i, j) of `h` holds the target's or a capture's `me` from the first k directions, or else what `g` holds. */
  ghost predicate SoFarCell(g: Grid, h: Grid, r: int, c: int, me: int, opp: int, k: nat, i: int, j: int)
    requires k <= |Directions|
  {
    && 0 <= i < |g| && 0 <= j < |g[i]| && i < |h| && j < |h[i]|
    && h[i][j] == if (i == r && j == c) || FlippedAlong(g, r, c, me, opp, Coordinate(i, j), k) then me else g[i][j]
  }

  /**
    The board after the target and the captures along the first k directions; the
    state of makeMove's direction loop after k calls of stealAll.
  */
  ghost predicate CapturedSoFar(g: Grid, h: Grid, r: int, c: int, me: int, opp: int, k: nat)
    requires k <= |Directions|
  {
    SameShape(g, h) && forall i, j | 0 <= i < |g| && 0 <= j < |g[i]| :: SoFarCell(g, h, r, c, me, opp, k, i, j)
  }

  /** A cell on the ray of direction k holds the same code before and after the captures of directions 0..k-1. */
  lemma RayUntouched(g: Grid, h: Grid, r: int, c: int, me: int, opp: int, k: nat, p: Coordinate)
    requires IsSquare(g) && k < |Directions| && CapturedSoFar(g, h, r, c, me, opp, k)
    requires Ahead(r, c, Directions[k].0, Directions[k].1, p) && Inside(g, p.x, p.y)
    ensures Cell(g, p.x, p.y) == Cell(h, p.x, p.y)
  {
    if FlippedAlong(g, r, c, me, opp, p, k) {
      FlippedAlongOffLaterRays(g, r, c, me, opp, p, k, k);
    }
    assert p != Coordinate(r, c);
    assert SoFarCell(g, h, r, c, me, opp, k, p.x, p.y);
  }

  /** Captures along one direction only look at the ray in that direction. */
  lemma CaptureOnRay(g: Grid, h: Grid, r: int, c: int, dx: int, dy: int, me: int, opp: int)
    requires IsDirection(dx, dy) && |g| == |h| && SameRay(g, h, r + dx, c + dy, dx, dy)
    ensures forall p :: Captured(h, r, c, dx, dy, me, opp, p) <==> Captured(g, r, c, dx, dy, me, opp, p)
  {
    var x, y := r + dx, c + dy;
    RunEndFrame(g, h, x, y, dx, dy, opp);
    SameRayStep(g, h, x, y, dx, dy);
    RunEndAhead(g, x, y, dx, dy, opp);
    assert RayCell(g, h, x, y, dx, dy, RunEnd(g, x, y, dx, dy, opp));
    forall p
      ensures Captured(h, r, c, dx, dy, me, opp, p) <==> Captured(g, r, c, dx, dy, me, opp, p)
    {
      InRunFrame(g, h, x, y, dx, dy, opp, p);
    }
  }

  /**
    Captures along direction k are the same whether computed on the original board
    or on the board the earlier directions have already flipped: those flips lie on
    other rays.
  */
  lemma CaptureFrame(g: Grid, h: Grid, r: int, c: int, me: int, opp: int, k: nat)
    requires IsSquare(g) && k < |Directions| && CapturedSoFar(g, h, r, c, me, opp, k)
    ensures IsDirection(Directions[k].0, Directions[k].1)
    ensures forall p :: Captured(h, r, c, Directions[k].0, Directions[k].1, me, opp, p) <==>
                        Captured(g, r, c, Directions[k].0, Directions[k].1, me, opp, p)
  {
    DirectionsAreDirections(k);
    var dx, dy := Directions[k].0, Directions[k].1;
    var x, y := r + dx, c + dy;
    forall p: Coordinate
      ensures RayCell(g, h, x, y, dx, dy, p)
    {
      AheadStep(x, y, dx, dy, p);
      if Ahead(r, c, dx, dy, p) && Inside(g, p.x, p.y) {
        RayUntouched(g, h, r, c, me, opp, k, p);
      }
    }
    CaptureOnRay(g, h, r, c, dx, dy, me, opp);
  }

  /** Cell (i, j) of `h` is cell (i, j) of `g` after stealAll in direction (dx, dy). */
  ghost predicate StolenCell(g: Grid, h: Grid, r: int, c: int, dx: int, dy: int, me: int, opp: int, i: int, j: int)
    requires IsDirection(dx, dy)
  {
    && 0 <= i < |g| && 0 <= j < |g[i]| && i < |h| && j < |h[i]|
    && h[i][j] == if Captured(g, r, c, dx, dy, me, opp, Coordinate(i, j)) then me else g[i][j]
  }

  /** `h` is `g` after the captures of stealAll in direction (dx, dy) for the mover at (r, c). */
  ghost predicate Stolen(g: Grid, h: Grid, r: int, c: int, dx: int, dy: int, me: int, opp: int)
    requires IsDirection(dx, dy)
  {
    SameShape(g, h) && forall i, j | 0 <= i < |g| && 0 <= j < |g[i]| :: StolenCell(g, h, r, c, dx, dy, me, opp, i, j)
  }

  /** The cells of the run from (x, y) in walking order. */
  function RunSeq(g: Grid, x: int, y: int, dx: int, dy: int, v: int): (s: seq<Coordinate>)
    requires IsDirection(dx, dy)
    decreases Steps(|g|, x, dx) + Steps(|g|, y, dy)
  {
    if Inside(g, x, y) && Cell(g, x, y) == v then [Coordinate(x, y)] + RunSeq(g, x + dx, y + dy, dx, dy, v) else []
  }

  /** RunSeq lists exactly the cells of the run: the ones InRun accepts. */
  lemma {:induction false} RunSeqMembers(g: Grid, x: int, y: int, dx: int, dy: int, v: int)
    requires IsDirection(dx, dy)
    ensures forall p :: p in RunSeq(g, x, y, dx, dy, v) <==> InRun(g, x, y, dx, dy, v, p)
    decreases Steps(|g|, x, dx) + Steps(|g|, y, dy)
  {
    if Inside(g, x, y) && Cell(g, x, y) == v {
      RunSeqMembers(g, x + dx, y + dy, dx, dy, v);
    }
  }

  /**
    RunSeq walks the ray: it is empty exactly when (x, y) does not hold `v`,
    otherwise it starts at (x, y), each cell lies one step beyond the previous
    one, and every cell is on the board and holds `v`.
  */
  lemma {:induction false} RunSeqWalk(g: Grid, x: int, y: int, dx: int, dy: int, v: int)
    requires IsDirection(dx, dy)
    ensures var s := RunSeq(g, x, y, dx, dy, v);
      && (|s| > 0 <==> Inside(g, x, y) && Cell(g, x, y) == v)
      && (|s| > 0 ==> s[0] == Coordinate(x, y))
      && (forall k | 0 < k < |s| :: s[k] == Coordinate(s[k - 1].x + dx, s[k - 1].y + dy))
      && (forall k | 0 <= k < |s| :: Inside(g, s[k].x, s[k].y) && Cell(g, s[k].x, s[k].y) == v)
    decreases Steps(|g|, x, dx) + Steps(|g|, y, dy)
  {
    var s := RunSeq(g, x, y, dx, dy, v);
    if Inside(g, x, y) && Cell(g, x, y) == v {
      var t := RunSeq(g, x + dx, y + dy, dx, dy, v);
      RunSeqWalk(g, x + dx, y + dy, dx, dy, v);
      assert s == [Coordinate(x, y)] + t;
      forall k | 0 < k < |s|
        ensures s[k] == Coordinate(s[k - 1].x + dx, s[k - 1].y + dy)
      {
        if k > 1 {
          assert s[k] == t[k - 1] && s[k - 1] == t[k - 2];
        }
      }
    }
  }

  /** One step beyond the last cell of a non-empty RunSeq is where RunEnd stops. */
  lemma {:induction false} RunSeqEnd(g: Grid, x: int, y: int, dx: int, dy: int, v: int)
    requires IsDirection(dx, dy)
    ensures var s := RunSeq(g, x, y, dx, dy, v);
      |s| > 0 ==> RunEnd(g, x, y, dx, dy, v) == Coordinate(s[|s| - 1].x + dx, s[|s| - 1].y + dy)
    decreases Steps(|g|, x, dx) + Steps(|g|, y, dy)
  {
    if Inside(g, x, y) && Cell(g, x, y) == v {
      var t := RunSeq(g, x + dx, y + dy, dx, dy, v);
      RunSeqEnd(g, x + dx, y + dy, dx, dy, v);
      if |t| == 0 {
        RunEndAhead(g, x + dx, y + dy, dx, dy, v);
      }
    }
  }

  /** No element of `s` occurs twice. */
  ghost predicate NoRepeats(s: seq<Coordinate>) {
    forall a, b | 0 <= a < b < |s| :: s[a] != s[b]
  }

  /** A run never revisits a cell: RunSeq has no repeats. */
  lemma {:induction false} RunSeqDistinct(g: Grid, x: int, y: int, dx: int, dy: int, v: int)
    requires IsDirection(dx, dy)
    ensures NoRepeats(RunSeq(g, x, y, dx, dy, v))
    decreases Steps(|g|, x, dx) + Steps(|g|, y, dy)
  {
    var s := RunSeq(g, x, y, dx, dy, v);
    if Inside(g, x, y) && Cell(g, x, y) == v {
      var t := RunSeq(g, x + dx, y + dy, dx, dy, v);
      RunSeqDistinct(g, x + dx, y + dy, dx, dy, v);
      assert s == [Coordinate(x, y)] + t;
      if Coordinate(x, y) in t {
        RunSeqMembers(g, x + dx, y + dy, dx, dy, v);
        RunCells(g, x + dx, y + dy, dx, dy, v, Coordinate(x, y));
        AheadStep(x + dx, y + dy, dx, dy, Coordinate(x, y));
        assert false;
      }
      forall a, b | 0 <= a < b < |s|
        ensures s[a] != s[b]
      {
        if a > 0 {
          assert s[a] == t[a - 1] && s[b] == t[b - 1];
        } else {
          assert s[b] in t;
        }
      }
    }
  }

  /** Cell (i, j) of `h` holds `me` if it is one of the run cells s[k..], and what `g` holds otherwise. */
  ghost predicate FlipCell(g: Grid, h: Grid, s: seq<Coordinate>, k: nat, me: int, i: int, j: int)
    requires k <= |s|
  {
    && 0 <= i < |g| && 0 <= j < |g[i]| && i < |h| && j < |h[i]|
    && h[i][j] == if Coordinate(i, j) in s[k..] then me else g[i][j]
  }

  /** State of stealAll's backward walk: the run cells s[k..] have been turned to `me`, nothing else. */
  ghost predicate FlippedFrom(g: Grid, h: Grid, s: seq<Coordinate>, k: nat, me: int)
    requires k <= |s|
  {
    SameShape(g, h) && forall i, j | 0 <= i < |g| && 0 <= j < |g[i]| :: FlipCell(g, h, s, k, me, i, j)
  }

  /** Before the backward walk: the run is non-empty, (x0, y0) is its last cell, and nothing is flipped. */
  lemma FlipStart(g: Grid, r: int, c: int, dx: int, dy: int, me: int, opp: int, x0: int, y0: int)
    requires IsDirection(dx, dy) && Bracketed(g, r, c, dx, dy, me, opp)
    requires Coordinate(x0 + dx, y0 + dy) == RunEnd(g, r + dx, c + dy, dx, dy, opp)
    ensures var s := RunSeq(g, r + dx, c + dy, dx, dy, opp);
      |s| > 0 && s[|s| - 1] == Coordinate(x0, y0) && FlippedFrom(g, g, s, |s|, me)
  {
    var s := RunSeq(g, r + dx, c + dy, dx, dy, opp);
    RunSeqWalk(g, r + dx, c + dy, dx, dy, opp);
    RunSeqEnd(g, r + dx, c + dy, dx, dy, opp);
    var n := |s|;
    forall i, j | 0 <= i < |g| && 0 <= j < |g[i]|
      ensures FlipCell(g, g, s, n, me, i, j)
    {
    }
  }

  /**
    Flipping run cell p = s[k-1] extends the walk's state to s[k-1..]; p held `opp`
    until now, and one step back from p is s[k-2], or (x0 - dx, y0 - dy) when p is
    the first run cell.
  */
  lemma FlipStep(g: Grid, h: Grid, x0: int, y0: int, dx: int, dy: int, me: int, opp: int, k: nat, x: int, y: int)
    requires IsSquare(g) && IsDirection(dx, dy)
    requires 0 < k <= |RunSeq(g, x0, y0, dx, dy, opp)| && RunSeq(g, x0, y0, dx, dy, opp)[k - 1] == Coordinate(x, y)
    requires FlippedFrom(g, h, RunSeq(g, x0, y0, dx, dy, opp), k, me)
    ensures 0 <= x < |h| && 0 <= y < |h[x]| && h[x][y] == opp
    ensures FlippedFrom(g, h[x := h[x][y := me]], RunSeq(g, x0, y0, dx, dy, opp), k - 1, me)
    ensures k > 1 ==> RunSeq(g, x0, y0, dx, dy, opp)[k - 2] == Coordinate(x - dx, y - dy)
    ensures k == 1 ==> x - dx == x0 - dx && y - dy == y0 - dy
  {
    var s := RunSeq(g, x0, y0, dx, dy, opp);
    RunSeqWalk(g, x0, y0, dx, dy, opp);
    RunSeqDistinct(g, x0, y0, dx, dy, opp);
    var p := s[k - 1];
    forall m | k <= m < |s|
      ensures s[m] != p
    {
    }
    assert p !in s[k..];
    assert FlipCell(g, h, s, k, me, x, y);
    var h' := h[x := h[x][y := me]];
    var k' := k - 1;
    assert s[k'..] == [p] + s[k..];
    forall i, j | 0 <= i < |g| && 0 <= j < |g[i]|
      ensures FlipCell(g, h', s, k', me, i, j)
    {
      assert FlipCell(g, h, s, k, me, i, j);
    }
  }

  /** When every run cell has been flipped, exactly the captured cells are. */
  lemma FlipDone(g: Grid, h: Grid, r: int, c: int, dx: int, dy: int, me: int, opp: int)
    requires IsDirection(dx, dy) && Bracketed(g, r, c, dx, dy, me, opp)
    requires FlippedFrom(g, h, RunSeq(g, r + dx, c + dy, dx, dy, opp), 0, me)
    ensures Stolen(g, h, r, c, dx, dy, me, opp)
  {
    var s := RunSeq(g, r + dx, c + dy, dx, dy, opp);
    RunSeqMembers(g, r + dx, c + dy, dx, dy, opp);
    forall i, j | 0 <= i < |g| && 0 <= j < |g[i]|
      ensures StolenCell(g, h, r, c, dx, dy, me, opp, i, j)
    {
      assert FlipCell(g, h, s, 0, me, i, j);
      assert s[0..] == s;
    }
  }

  /** After the first opponent disk, stealAll's forward walk decides whether the run is bracketed. */
  lemma BracketedByWalk(g: Grid, r: int, c: int, dx: int, dy: int, me: int, opp: int, e: Coordinate)
    requires IsDirection(dx, dy) && Inside(g, r + dx, c + dy) && Cell(g, r + dx, c + dy) == opp
    requires e == RunEnd(g, r + dx + dx, c + dy + dy, dx, dy, opp)
    ensures RunEnd(g, r + dx, c + dy, dx, dy, opp) == e
    ensures Bracketed(g, r, c, dx, dy, me, opp) <==> Inside(g, e.x, e.y) && Cell(g, e.x, e.y) == me
  {
  }

  /** Without a bracketing disk nothing is captured. */
  lemma NothingStolen(g: Grid, r: int, c: int, dx: int, dy: int, me: int, opp: int)
    requires IsDirection(dx, dy) && !Bracketed(g, r, c, dx, dy, me, opp)
    ensures Stolen(g, g, r, c, dx, dy, me, opp)
  {
  }

  /** Marking the target starts makeMove's direction loop. */
  lemma MarkStarts(g: Grid, r: int, c: int, me: int, opp: int)
    requires 0 <= r < |g| && 0 <= c < |g[r]|
    ensures CapturedSoFar(g, g[r := g[r][c := me]], r, c, me, opp, 0)
  {
  }

  /** stealAll for direction k extends the captures of directions 0..k-1 to 0..k. */
  lemma CaptureStep(g: Grid, h: Grid, h': Grid, r: int, c: int, me: int, opp: int, k: nat)
    requires IsSquare(g) && k < |Directions| && CapturedSoFar(g, h, r, c, me, opp, k)
    requires IsDirection(Directions[k].0, Directions[k].1)
    requires Stolen(h, h', r, c, Directions[k].0, Directions[k].1, me, opp)
    ensures CapturedSoFar(g, h', r, c, me, opp, k + 1)
  {
    CaptureFrame(g, h, r, c, me, opp, k);
    var k' := k + 1;
    forall i, j | 0 <= i < |g| && 0 <= j < |g[i]|
      ensures SoFarCell(g, h', r, c, me, opp, k', i, j)
    {
      assert SoFarCell(g, h, r, c, me, opp, k, i, j);
      assert StolenCell(h, h', r, c, Directions[k].0, Directions[k].1, me, opp, i, j);
    }
  }

  /** After all eight directions the board is AfterMove. */
  lemma CapturesComplete(g: Grid, h: Grid, r: int, c: int, me: int, opp: int)
    requires CapturedSoFar(g, h, r, c, me, opp, |Directions|)
    ensures h == AfterMove(g, r, c, me, opp)
  {
    var a := AfterMove(g, r, c, me, opp);
    forall i | 0 <= i < |g|
      ensures h[i] == a[i]
    {
      forall j | 0 <= j < |g[i]|
        ensures h[i][j] == a[i][j]
      {
        assert SoFarCell(g, h, r, c, me, opp, |Directions|, i, j);
      }
    }
  }

  // ---------------------------------------------------------------------------
  // Counting cells

  /** Number of cells of a row holding `v`. */
  function CountRow(s: seq<int>, v: int): nat {
    if s == [] then 0 else CountRow(s[..|s| - 1], v) + (if s[|s| - 1] == v then 1 else 0)
  }

  /** Number of cells holding `v` in rows 0..i-1. */
  function CountRows(g: Grid, v: int, i: nat): nat
    requires i <= |g|
  {
    if i == 0 then 0 else CountRows(g, v, i - 1) + CountRow(g[i - 1], v)
  }

  /** Number of cells of the board holding `v`. */
  function Count(g: Grid, v: int): nat {
    CountRows(g, v, |g|)
  }

  /** Counting one more cell of a row. */
  lemma CountRowStep(s: seq<int>, j: int, v: int)
    requires 0 <= j < |s|
    ensures CountRow(s[..j + 1], v) == CountRow(s[..j], v) + (if s[j] == v then 1 else 0)
  {
    assert s[..j + 1][..j] == s[..j];
  }

  lemma {:induction false} CountRowBound(s: seq<int>, v: int)
    ensures CountRow(s, v) <= |s|
  {
    if s != [] {
      CountRowBound(s[..|s| - 1], v);
    }
  }

  lemma {:induction false} CountRowsBound(g: Grid, v: int, i: nat)
    requires IsSquare(g) && i <= |g|
    ensures CountRows(g, v, i) <= i * |g|
  {
    if i > 0 {
      CountRowsBound(g, v, i - 1);
      CountRowBound(g[i - 1], v);
      assert (i - 1) * |g| + |g| == i * |g|;
    }
  }

  /** No value occupies more than all n * n cells. */
  lemma CountBound(g: Grid, v: int)
    requires IsSquare(g)
    ensures Count(g, v) <= |g| * |g|
  {
    CountRowsBound(g, v, |g|);
  }

  /** A row's count is part of the count over any rows that include it. */
  lemma {:induction false} CountRowsCover(g: Grid, v: int, i: nat, k: nat)
    requires k < i <= |g|
    ensures CountRow(g[k], v) <= CountRows(g, v, i)
  {
    if k < i - 1 {
      CountRowsCover(g, v, i - 1, k);
    }
  }

  lemma {:induction false} CountRowZero(s: seq<int>, v: int)
    ensures CountRow(s, v) == 0 <==> forall k | 0 <= k < |s| :: s[k] != v
  {
    if s != [] {
      var t := s[..|s| - 1];
      CountRowZero(t, v);
      assert forall k | 0 <= k < |t| :: t[k] == s[k];
    }
  }

  lemma {:induction false} CountRowsZero(g: Grid, v: int, i: nat)
    requires i <= |g|
    ensures CountRows(g, v, i) == 0 <==> forall x, y | 0 <= x < i && 0 <= y < |g[x]| :: g[x][y] != v
  {
    if i > 0 {
      CountRowsZero(g, v, i - 1);
      CountRowZero(g[i - 1], v);
    }
  }

  /** No cell holds `v` exactly when its count is zero. */
  lemma CountZero(g: Grid, v: int)
    ensures Count(g, v) == 0 <==> forall x, y | 0 <= x < |g| && 0 <= y < |g[x]| :: g[x][y] != v
  {
    CountRowsZero(g, v, |g|);
  }

  /** Cells of `a` holding `v` hold `w` in `b` (except possibly at `skip`): compares the counts. */
  lemma {:induction false} RowCountCompare(a: seq<int>, b: seq<int>, v: int, w: int, skip: int)
    requires |a| == |b|
    requires forall k | 0 <= k < |a| && k != skip :: a[k] == v ==> b[k] == w
    ensures !(0 <= skip < |a|) ==> CountRow(a, v) <= CountRow(b, w)
    ensures 0 <= skip < |a| ==> CountRow(a, v) <= CountRow(b, w) + 1
    ensures 0 <= skip < |a| && b[skip] == w && a[skip] != v ==> CountRow(a, v) + 1 <= CountRow(b, w)
  {
    if a != [] {
      var n := |a| - 1;
      RowCountCompare(a[..n], b[..n], v, w, skip);
    }
  }

  /** Same shape, cell by cell: `g` holding `v` implies `h` holding `w`, except possibly at `t`. */
  ghost predicate MapsTo(g: Grid, h: Grid, v: int, w: int, t: Coordinate) {
    && |g| == |h| && (forall i | 0 <= i < |g| :: |g[i]| == |h[i]|)
    && forall i, j | 0 <= i < |g| && 0 <= j < |g[i]| && Coordinate(i, j) != t :: g[i][j] == v ==> h[i][j] == w
  }

  lemma {:induction false} CountRowsCompare(g: Grid, h: Grid, v: int, w: int, t: Coordinate, i: nat)
    requires MapsTo(g, h, v, w, t) && i <= |g|
    ensures !(0 <= t.x < i && 0 <= t.y < |g[t.x]|) ==> CountRows(g, v, i) <= CountRows(h, w, i)
    ensures 0 <= t.x < i && 0 <= t.y < |g[t.x]| ==> CountRows(g, v, i) <= CountRows(h, w, i) + 1
    ensures 0 <= t.x < i && 0 <= t.y < |g[t.x]| && h[t.x][t.y] == w && g[t.x][t.y] != v ==>
              CountRows(g, v, i) + 1 <= CountRows(h, w, i)
  {
    if i > 0 {
      CountRowsCompare(g, h, v, w, t, i - 1);
      RowCountCompare(g[i - 1], h[i - 1], v, w, if t.x == i - 1 then t.y else -1);
    }
  }

  /** Count comparison on whole boards, from a cell-by-cell implication. */
  lemma CountCompare(g: Grid, h: Grid, v: int, w: int, t: Coordinate)
    requires MapsTo(g, h, v, w, t)
    ensures !(0 <= t.x < |g| && 0 <= t.y < |g[t.x]|) ==> Count(g, v) <= Count(h, w)
    ensures Count(g, v) <= Count(h, w) + 1
    ensures 0 <= t.x < |g| && 0 <= t.y < |g[t.x]| && h[t.x][t.y] == w && g[t.x][t.y] != v ==>
              Count(g, v) + 1 <= Count(h, w)
  {
    CountRowsCompare(g, h, v, w, t, |g|);
  }

  /**
    Counts after a move onto an empty cell: exactly one empty cell fewer, at least
    one more disk for the mover, never more disks for the opponent.
  */
  lemma MoveCounts(g: Grid, r: int, c: int, me: int, opp: int)
    requires IsSquare(g) && Inside(g, r, c) && g[r][c] == EMPTY
    requires me != EMPTY && opp != EMPTY && me != opp
    ensures Count(AfterMove(g, r, c, me, opp), EMPTY) == Count(g, EMPTY) - 1
    ensures Count(AfterMove(g, r, c, me, opp), me) >= Count(g, me) + 1
    ensures Count(AfterMove(g, r, c, me, opp), opp) <= Count(g, opp)
  {
    var h := AfterMove(g, r, c, me, opp);
    var t := Coordinate(r, c);
    var none := Coordinate(-1, -1);
    MoveChangesOnlyCapturedRuns(g, r, c, me, opp);
    assert MapsTo(h, g, EMPTY, EMPTY, t);
    CountCompare(h, g, EMPTY, EMPTY, t);
    assert MapsTo(g, h, EMPTY, EMPTY, t);
    CountCompare(g, h, EMPTY, EMPTY, t);
    assert MapsTo(g, h, me, me, t);
    CountCompare(g, h, me, me, t);
    assert MapsTo(h, g, opp, opp, none);
    CountCompare(h, g, opp, opp, none);
  }

  lemma {:induction false} RowPartition(s: seq<int>, a: int, b: int, c: int)
    requires a != b && b != c && a != c
    requires forall k | 0 <= k < |s| :: s[k] == a || s[k] == b || s[k] == c
    ensures CountRow(s, a) + CountRow(s, b) + CountRow(s, c) == |s|
  {
    if s != [] {
      RowPartition(s[..|s| - 1], a, b, c);
    }
  }

  lemma {:induction false} RowsPartition(g: Grid, a: int, b: int, c: int, i: nat)
    requires IsSquare(g) && i <= |g| && a != b && b != c && a != c
    requires forall x, y | 0 <= x < |g| && 0 <= y < |g| :: g[x][y] == a || g[x][y] == b || g[x][y] == c
    ensures CountRows(g, a, i) + CountRows(g, b, i) + CountRows(g, c, i) == i * |g|
  {
    if i > 0 {
      RowsPartition(g, a, b, c, i - 1);
      RowPartition(g[i - 1], a, b, c);
      assert (i - 1) * |g| + |g| == i * |g|;
    }
  }

  /** On a board holding only three codes, their counts add up to all n * n cells. */
  lemma CountPartition(g: Grid, a: int, b: int, c: int)
    requires IsSquare(g) && a != b && b != c && a != c
    requires forall x, y | 0 <= x < |g| && 0 <= y < |g| :: g[x][y] == a || g[x][y] == b || g[x][y] == c
    ensures Count(g, a) + Count(g, b) + Count(g, c) == |g| * |g|
  {
    RowsPartition(g, a, b, c, |g|);
  }

  // ---------------------------------------------------------------------------
  // The start position

  /**
    The criss-cross start: `first` on (lo, lo) and (hi, hi), `second` on (lo, hi)
    and (hi, lo), with lo = n / 2 - 1 and hi = lo + 1; every other cell empty.
  */
  function Start(n: nat, first: int, second: int): (g: Grid)
    ensures |g| == n
  {
    var lo := n / 2 - 1;
    var hi := lo + 1;
    seq(n, i requires 0 <= i < n =>
      seq(n, j requires 0 <= j < n =>
        if (i == lo && j == lo) || (i == hi && j == hi) then first
        else if (i == lo && j == hi) || (i == hi && j == lo) then second
        else EMPTY))
  }

  /** The 4 x 4 start position written out cell by cell. */
  lemma StartFour(a: int, b: int)
    ensures Start(4, a, b) == [[EMPTY, EMPTY, EMPTY, EMPTY], [EMPTY, a, b, EMPTY], [EMPTY, b, a, EMPTY], [EMPTY, EMPTY, EMPTY, EMPTY]]
  {
    var s := Start(4, a, b);
    var t := [[EMPTY, EMPTY, EMPTY, EMPTY], [EMPTY, a, b, EMPTY], [EMPTY, b, a, EMPTY], [EMPTY, EMPTY, EMPTY, EMPTY]];
    forall i | 0 <= i < 4
      ensures s[i] == t[i]
    {
      assert |s[i]| == 4;
    }
  }

  /** The moves found from one disk are the union of the eight directions' ends. */
  lemma MovesFromUnfold(g: Grid, i: int, j: int, opp: int)
    ensures MovesFrom(g, i, j, opp) ==
      EndFrom(g, i, j, -1, -1, opp) + EndFrom(g, i, j, -1, 0, opp) + EndFrom(g, i, j, -1, 1, opp) +
      EndFrom(g, i, j, 0, -1, opp) + EndFrom(g, i, j, 0, 1, opp) +
      EndFrom(g, i, j, 1, -1, opp) + EndFrom(g, i, j, 1, 0, opp) + EndFrom(g, i, j, 1, 1, opp)
  {
    assert Directions[0] == (-1, -1) && Directions[1] == (-1, 0) && Directions[2] == (-1, 1) && Directions[3] == (0, -1);
    assert Directions[4] == (0, 1) && Directions[5] == (1, -1) && Directions[6] == (1, 0) && Directions[7] == (1, 1);
    assert EndsAlong(g, i, j, opp, 1) == EndFrom(g, i, j, -1, -1, opp);
    assert EndsAlong(g, i, j, opp, 2) == EndsAlong(g, i, j, opp, 1) + EndFrom(g, i, j, -1, 0, opp);
    assert EndsAlong(g, i, j, opp, 3) == EndsAlong(g, i, j, opp, 2) + EndFrom(g, i, j, -1, 1, opp);
    assert EndsAlong(g, i, j, opp, 4) == EndsAlong(g, i, j, opp, 3) + EndFrom(g, i, j, 0, -1, opp);
    assert EndsAlong(g, i, j, opp, 5) == EndsAlong(g, i, j, opp, 4) + EndFrom(g, i, j, 0, 1, opp);
    assert EndsAlong(g, i, j, opp, 6) == EndsAlong(g, i, j, opp, 5) + EndFrom(g, i, j, 1, -1, opp);
    assert EndsAlong(g, i, j, opp, 7) == EndsAlong(g, i, j, opp, 6) + EndFrom(g, i, j, 1, 0, opp);
    assert EndsAlong(g, i, j, opp, 8) == EndsAlong(g, i, j, opp, 7) + EndFrom(g, i, j, 1, 1, opp);
  }

  /** No end in a direction whose first step is not an opponent disk. */
  lemma NoEnd(g: Grid, i: int, j: int, dx: int, dy: int, opp: int)
    requires IsDirection(dx, dy) && Cell(g, i + dx, j + dy) != opp
    ensures EndFrom(g, i, j, dx, dy, opp) == {}
  {
  }

  /** A run of exactly one opponent disk followed by an empty cell ends there. */
  lemma OneEnd(g: Grid, i: int, j: int, dx: int, dy: int, opp: int)
    requires IsDirection(dx, dy) && opp != EMPTY
    requires Inside(g, i + dx, j + dy) && Cell(g, i + dx, j + dy) == opp
    requires Inside(g, i + 2 * dx, j + 2 * dy) && Cell(g, i + 2 * dx, j + 2 * dy) == EMPTY
    ensures EndFrom(g, i, j, dx, dy, opp) == {Coordinate(i + 2 * dx, j + 2 * dy)}
  {
    assert RunEnd(g, i + 2 * dx, j + 2 * dy, dx, dy, opp) == Coordinate(i + 2 * dx, j + 2 * dy);
  }

  /** From the upper-left own disk of the 4 x 4 start, the moves are east and south of the opposing disks. */
  lemma StartFourFromUpper(g: Grid, me: int, opp: int)
    requires me != opp && me != EMPTY && opp != EMPTY
    requires g == [[EMPTY, EMPTY, EMPTY, EMPTY], [EMPTY, me, opp, EMPTY], [EMPTY, opp, me, EMPTY], [EMPTY, EMPTY, EMPTY, EMPTY]]
    ensures MovesFrom(g, 1, 1, opp) == {Coordinate(1, 3), Coordinate(3, 1)}
  {
    assert g[0][0] == EMPTY && g[0][1] == EMPTY && g[0][2] == EMPTY && g[1][0] == EMPTY && g[1][2] == opp && g[1][3] == EMPTY;
    assert g[2][0] == EMPTY && g[2][1] == opp && g[2][2] == me && g[3][1] == EMPTY;
    NoEnd(g, 1, 1, -1, -1, opp);
    NoEnd(g, 1, 1, -1, 0, opp);
    NoEnd(g, 1, 1, -1, 1, opp);
    NoEnd(g, 1, 1, 0, -1, opp);
    OneEnd(g, 1, 1, 0, 1, opp);
    NoEnd(g, 1, 1, 1, -1, opp);
    OneEnd(g, 1, 1, 1, 0, opp);
    NoEnd(g, 1, 1, 1, 1, opp);
    MovesFromUnfold(g, 1, 1, opp);
  }

  /** From the lower-right own disk of the 4 x 4 start, the moves are north and west of the opposing disks. */
  lemma StartFourFromLower(g: Grid, me: int, opp: int)
    requires me != opp && me != EMPTY && opp != EMPTY
    requires g == [[EMPTY, EMPTY, EMPTY, EMPTY], [EMPTY, me, opp, EMPTY], [EMPTY, opp, me, EMPTY], [EMPTY, EMPTY, EMPTY, EMPTY]]
    ensures MovesFrom(g, 2, 2, opp) == {Coordinate(0, 2), Coordinate(2, 0)}
  {
    assert g[1][1] == me && g[1][2] == opp && g[1][3] == EMPTY && g[2][1] == opp && g[0][2] == EMPTY && g[2][0] == EMPTY;
    assert g[2][3] == EMPTY && g[3][1] == EMPTY && g[3][2] == EMPTY && g[3][3] == EMPTY;
    NoEnd(g, 2, 2, -1, -1, opp);
    OneEnd(g, 2, 2, -1, 0, opp);
    NoEnd(g, 2, 2, -1, 1, opp);
    OneEnd(g, 2, 2, 0, -1, opp);
    NoEnd(g, 2, 2, 0, 1, opp);
    NoEnd(g, 2, 2, 1, -1, opp);
    NoEnd(g, 2, 2, 1, 0, opp);
    NoEnd(g, 2, 2, 1, 1, opp);
    MovesFromUnfold(g, 2, 2, opp);
  }

  /** The moves found along a row of four cells. */
  lemma RowMovesFour(g: Grid, me: int, opp: int, i: int)
    ensures RowMoves(g, me, opp, i, 4) ==
      (if Cell(g, i, 0) == me then MovesFrom(g, i, 0, opp) else {}) +
      (if Cell(g, i, 1) == me then MovesFrom(g, i, 1, opp) else {}) +
      (if Cell(g, i, 2) == me then MovesFrom(g, i, 2, opp) else {}) +
      (if Cell(g, i, 3) == me then MovesFrom(g, i, 3, opp) else {})
  {
    assert RowMoves(g, me, opp, i, 2) == RowMoves(g, me, opp, i, 1) + (if Cell(g, i, 1) == me then MovesFrom(g, i, 1, opp) else {});
    assert RowMoves(g, me, opp, i, 3) == RowMoves(g, me, opp, i, 2) + (if Cell(g, i, 2) == me then MovesFrom(g, i, 2, opp) else {});
  }

  /** The legal moves on a board of four rows. */
  lemma LegalMovesFour(g: Grid, me: int, opp: int)
    requires |g| == 4
    ensures LegalMoves(g, me, opp) ==
      RowMoves(g, me, opp, 0, 4) + RowMoves(g, me, opp, 1, 4) + RowMoves(g, me, opp, 2, 4) + RowMoves(g, me, opp, 3, 4)
  {
    assert MovesBeforeRow(g, me, opp, 2) == MovesBeforeRow(g, me, opp, 1) + RowMoves(g, me, opp, 1, 4);
    assert MovesBeforeRow(g, me, opp, 3) == MovesBeforeRow(g, me, opp, 2) + RowMoves(g, me, opp, 2, 4);
  }

  /**
    On the 4 x 4 start position the side owning the (1, 1) and (2, 2) disks has
    exactly four legal moves.
  */
  lemma StartFourMoves(me: int, opp: int)
    requires me != opp && me != EMPTY && opp != EMPTY
    ensures LegalMoves(Start(4, me, opp), me, opp) == {Coordinate(0, 2), Coordinate(1, 3), Coordinate(2, 0), Coordinate(3, 1)}
  {
    var g := Start(4, me, opp);
    StartFour(me, opp);
    StartFourFromUpper(g, me, opp);
    StartFourFromLower(g, me, opp);
    assert g[0] == [EMPTY, EMPTY, EMPTY, EMPTY] && g[3] == [EMPTY, EMPTY, EMPTY, EMPTY];
    assert g[1] == [EMPTY, me, opp, EMPTY] && g[2] == [EMPTY, opp, me, EMPTY];
    RowMovesFour(g, me, opp, 0);
    RowMovesFour(g, me, opp, 1);
    RowMovesFour(g, me, opp, 2);
    RowMovesFour(g, me, opp, 3);
    LegalMovesFour(g, me, opp);
  }
}

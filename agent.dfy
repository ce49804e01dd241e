/**
  The search agent ReversiAgent of the console game: a static evaluator of a
  board from the agent's side and a depth-limited minimax search with alpha-beta
  bounds, run by findBestMove on a clone of the game model.

  The search works on one model object in place and never undoes a move: every
  sibling move at a node is made on whatever position the previous sibling's
  subtree left behind, and findBestMove makes all root candidates on one shared
  clone. Scores are Java ints with Integer.MIN_VALUE and Integer.MAX_VALUE as
  the opening sentinels.
*/
module Agent {
  import opened Board
  import opened BoardOps
  import opened Cli
  import opened Wrappers

  const MIN_VALUE: int := -0x8000_0000
  const MAX_VALUE: int := 0x7fff_ffff

  /** Weights of the three evaluation terms. */
  const PIECE_VALUE: int := 5
  const CORNER_VALUE: int := 50
  const LINE_VALUE: int := 100

  /** Math.max and Math.min. */
  function Max(a: int, b: int): int {
    if a >= b then a else b
  }

  function Min(a: int, b: int): int {
    if a <= b then a else b
  }

  // ---------------------------------------------------------------------------
  // The static evaluation

  /** countMyPieces: five points per cell holding the agent's disk. */
  function Pieces(g: Grid, a: int): nat {
    PIECE_VALUE * Count(g, a)
  }

  /** How many of the columns `cs` of row i hold `a`, counted with repeats. */
  function HeldRow(g: Grid, a: int, i: int, cs: seq<int>): nat {
    if cs == [] then 0
    else HeldRow(g, a, i, cs[..|cs| - 1]) + (if Cell(g, i, cs[|cs| - 1]) == a then 1 else 0)
  }

  /** How many of the cells (i, j) with i in `rs` and j in `cs` hold `a`, counted with repeats. */
  function HeldIn(g: Grid, a: int, rs: seq<int>, cs: seq<int>): nat {
    if rs == [] then 0
    else HeldIn(g, a, rs[..|rs| - 1], cs) + HeldRow(g, a, rs[|rs| - 1], cs)
  }

  /** countMyCorners' count: the pairs (i, j) with i and j drawn from {0, n-1} whose cell holds `a`. */
  function Corners(g: Grid, a: int): nat {
    var ends := [0, |g| - 1];
    HeldIn(g, a, ends, ends)
  }

  /** Row i holds `a` from end to end. */
  predicate FullRow(g: Grid, i: int, a: int)
    requires 0 <= i < |g|
  {
    forall j | 0 <= j < |g[i]| :: g[i][j] == a
  }

  /** Column j holds `a` from end to end. */
  predicate FullCol(g: Grid, j: int, a: int) {
    forall i | 0 <= i < |g| :: Cell(g, i, j) == a
  }

  /** Number of full rows of `a` among rows 0..k-1. */
  function FullRows(g: Grid, a: int, k: nat): nat
    requires k <= |g|
  {
    if k == 0 then 0 else FullRows(g, a, k - 1) + (if FullRow(g, k - 1, a) then 1 else 0)
  }

  /** Number of full columns of `a` among columns 0..k-1. */
  function FullCols(g: Grid, a: int, k: nat): nat {
    if k == 0 then 0 else FullCols(g, a, k - 1) + (if FullCol(g, k - 1, a) then 1 else 0)
  }

  /** endToEndStableOccupation: a hundred points per row and per column the agent holds end to end. */
  function EndToEnd(g: Grid, a: int): nat {
    LINE_VALUE * (FullRows(g, a, |g|) + FullCols(g, a, |g|))
  }

  /** evaluate: the sum of the corner, piece and full-line terms, all from the agent's side. */
  function Score(g: Grid, a: int): nat {
    CORNER_VALUE * Corners(g, a) + Pieces(g, a) + EndToEnd(g, a)
  }

  /** The board with rows and columns exchanged: the columns the source streams out of the rows. */
  ghost function Transpose(g: Grid): (t: Grid)
    requires IsSquare(g)
    ensures |t| == |g| && IsSquare(t)
  {
    seq(|g|, j requires 0 <= j < |g| => seq(|g|, i requires 0 <= i < |g| => g[i][j]))
  }

  /**
    The corner count looks at the four corner cells, each once; it is at most 4, it is 4
    exactly when the agent holds all four corners and 0 exactly when it holds none.
  */
  lemma CornerCells(g: Grid, a: int)
    requires IsSquare(g) && |g| >= 1
    ensures var e := |g| - 1;
      && Corners(g, a) == (if g[0][0] == a then 1 else 0) + (if g[0][e] == a then 1 else 0)
                          + (if g[e][0] == a then 1 else 0) + (if g[e][e] == a then 1 else 0)
      && Corners(g, a) <= 4
      && (Corners(g, a) == 4 <==> g[0][0] == a && g[0][e] == a && g[e][0] == a && g[e][e] == a)
      && (Corners(g, a) == 0 <==> g[0][0] != a && g[0][e] != a && g[e][0] != a && g[e][e] != a)
  {
    var e := |g| - 1;
    var ends := [0, e];
    assert ends[..1] == [0] && [0][..0] == [];
    assert Cell(g, 0, 0) == g[0][0] && Cell(g, 0, e) == g[0][e] && Cell(g, e, 0) == g[e][0] && Cell(g, e, e) == g[e][e];
    assert HeldRow(g, a, 0, [0]) == (if g[0][0] == a then 1 else 0);
    assert HeldRow(g, a, e, [0]) == (if g[e][0] == a then 1 else 0);
    assert HeldRow(g, a, 0, ends) == (if g[0][0] == a then 1 else 0) + (if g[0][e] == a then 1 else 0);
    assert HeldRow(g, a, e, ends) == (if g[e][0] == a then 1 else 0) + (if g[e][e] == a then 1 else 0);
    assert HeldIn(g, a, [0], ends) == HeldRow(g, a, 0, ends);
  }

  lemma {:induction false} CountRowAll(s: seq<int>, v: int)
    requires forall k | 0 <= k < |s| :: s[k] == v
    ensures CountRow(s, v) == |s|
  {
    if s != [] {
      CountRowAll(s[..|s| - 1], v);
    }
  }

  lemma {:induction false} CountRowNone(s: seq<int>, v: int)
    requires forall k | 0 <= k < |s| :: s[k] != v
    ensures CountRow(s, v) == 0
  {
    if s != [] {
      CountRowNone(s[..|s| - 1], v);
    }
  }

  /** On a board held entirely by `a`, rows 0..i-1 hold i * n of its disks and are all full. */
  lemma {:induction false} OwnedRows(g: Grid, a: int, i: nat)
    requires IsSquare(g) && i <= |g|
    requires forall x, y | 0 <= x < |g| && 0 <= y < |g| :: g[x][y] == a
    ensures CountRows(g, a, i) == i * |g| && FullRows(g, a, i) == i && FullCols(g, a, i) == i
  {
    if i > 0 {
      OwnedRows(g, a, i - 1);
      CountRowAll(g[i - 1], a);
      assert i * |g| == (i - 1) * |g| + |g|;
      assert FullCol(g, i - 1, a);
    }
  }

  /** On a board without a disk of `a`, rows 0..i-1 hold none of them and none is full. */
  lemma {:induction false} UnownedRows(g: Grid, a: int, i: nat)
    requires IsSquare(g) && i <= |g| && |g| >= 1
    requires forall x, y | 0 <= x < |g| && 0 <= y < |g| :: g[x][y] != a
    ensures CountRows(g, a, i) == 0 && FullRows(g, a, i) == 0 && FullCols(g, a, i) == 0
  {
    if i > 0 {
      UnownedRows(g, a, i - 1);
      CountRowNone(g[i - 1], a);
      assert g[i - 1][0] != a;
      assert Cell(g, 0, i - 1) != a;
    }
  }

  /** At most one full row or column per index. */
  lemma {:induction false} FullLinesBound(g: Grid, a: int, k: nat)
    requires k <= |g|
    ensures FullRows(g, a, k) <= k && FullCols(g, a, k) <= k
  {
    if k > 0 {
      FullLinesBound(g, a, k - 1);
    }
  }

  /** The full-row count is the number of full rows: a reference definition as a set. */
  lemma {:induction false} FullRowsAreTheFullRowSet(g: Grid, a: int, k: nat)
    requires k <= |g|
    ensures FullRows(g, a, k) == |set i | 0 <= i < k && FullRow(g, i, a)|
  {
    if k > 0 {
      FullRowsAreTheFullRowSet(g, a, k - 1);
      var before := set i | 0 <= i < k - 1 && FullRow(g, i, a);
      var after := set i | 0 <= i < k && FullRow(g, i, a);
      assert k - 1 !in before;
      if FullRow(g, k - 1, a) {
        assert after == before + {k - 1};
      } else {
        assert after == before;
      }
    }
  }

  /** The columns counted by the column stream are the rows of the transposed board. */
  lemma {:induction false} FullColsAreTransposedRows(g: Grid, a: int, k: nat)
    requires IsSquare(g) && k <= |g|
    ensures FullCols(g, a, k) == FullRows(Transpose(g), a, k)
  {
    if k > 0 {
      FullColsAreTransposedRows(g, a, k - 1);
      var t, c := Transpose(g), k - 1;
      if FullCol(g, c, a) {
        forall j | 0 <= j < |t[c]|
          ensures t[c][j] == a
        {
          assert Cell(g, j, c) == a;
        }
      } else {
        var i :| 0 <= i < |g| && Cell(g, i, c) != a;
        assert t[c][i] != a;
      }
    }
  }

  /**
    The evaluation is bounded by its three terms: at most 4 corners (200), n * n own
    disks (5 each) and n full rows plus n full columns (100 each).
  */
  lemma ScoreBounds(g: Grid, a: int)
    requires IsSquare(g) && |g| >= 1
    ensures CORNER_VALUE * Corners(g, a) <= 200
    ensures Pieces(g, a) <= 5 * |g| * |g|
    ensures EndToEnd(g, a) <= 200 * |g|
    ensures Score(g, a) <= 200 + 5 * |g| * |g| + 200 * |g|
  {
    CornerCells(g, a);
    CountBound(g, a);
    FullLinesBound(g, a, |g|);
  }

  /** For boards up to 10000 cells wide the evaluation stays below Integer.MAX_VALUE, so the Java sums do not wrap. */
  lemma ScoreFitsInt(g: Grid, a: int)
    requires IsSquare(g) && 1 <= |g| <= 10000
    ensures Score(g, a) < MAX_VALUE
  {
    ScoreBounds(g, a);
    var n := |g|;
    MulMonotone(n, n, 10000);
    MulMonotone(10000, n, 10000);
  }

  lemma {:induction false} MulMonotone(a: nat, b: nat, c: nat)
    requires b <= c
    ensures a * b <= a * c
  {
    if a > 0 {
      MulMonotone(a - 1, b, c);
      assert a * b == (a - 1) * b + b && a * c == (a - 1) * c + c;
    }
  }

  /** A board held entirely by the agent scores every term in full. */
  lemma ScoreOfOwnedBoard(g: Grid, a: int)
    requires IsSquare(g) && |g| >= 1
    requires forall x, y | 0 <= x < |g| && 0 <= y < |g| :: g[x][y] == a
    ensures Score(g, a) == 200 + 5 * |g| * |g| + 200 * |g|
  {
    OwnedRows(g, a, |g|);
    CornerCells(g, a);
  }

  /** A board without a disk of the agent scores nothing. */
  lemma ScoreWithoutOwnDisks(g: Grid, a: int)
    requires IsSquare(g) && |g| >= 1
    requires forall x, y | 0 <= x < |g| && 0 <= y < |g| :: g[x][y] != a
    ensures Score(g, a) == 0
  {
    UnownedRows(g, a, |g|);
    CornerCells(g, a);
  }

  // ---------------------------------------------------------------------------
  // The alpha-beta window of one node

  /** The running values of a node's move loop: the best score so far, alpha and beta. */
  datatype Window = Window(best: int, alpha: int, beta: int)

  /** Before the first move: the sentinel of the node's side and the bounds passed in. */
  function Open(maximizing: bool, alpha: int, beta: int): Window {
    Window(if maximizing then MIN_VALUE else MAX_VALUE, alpha, beta)
  }

  /** One child score folded in: best by max or min, then alpha raised (max node) or beta lowered (min node). */
  function Step(w: Window, maximizing: bool, score: int): Window {
    if maximizing then
      var best := Max(w.best, score);
      Window(best, Max(w.alpha, best), w.beta)
    else
      var best := Min(w.best, score);
      Window(best, w.alpha, Min(w.beta, best))
  }

  /** The loop's break test as written: beta <= alpha at a maximizing node, alpha <= beta at a minimizing one. */
  predicate Cutoff(w: Window, maximizing: bool) {
    (maximizing && w.beta <= w.alpha) || (!maximizing && w.alpha <= w.beta)
  }

  /** The window after folding in the child scores in visiting order. */
  function Fold(w: Window, maximizing: bool, scores: seq<int>): Window {
    if scores == [] then w
    else Step(Fold(w, maximizing, scores[..|scores| - 1]), maximizing, scores[|scores| - 1])
  }

  /** The loop passes the break test after every one of these scores. */
  predicate NoCutoff(w: Window, maximizing: bool, scores: seq<int>) {
    scores == [] ||
    (NoCutoff(w, maximizing, scores[..|scores| - 1]) && !Cutoff(Fold(w, maximizing, scores), maximizing))
  }

  /**
    How a node's move loop over `total` moves ends, given the child scores it saw:
    every score but the last passed the break test, and the loop stopped before
    the last move only by breaking after its last score.
  */
  predicate LoopOutcome(maximizing: bool, alpha: int, beta: int, scores: seq<int>, total: nat) {
    var w0 := Open(maximizing, alpha, beta);
    && |scores| <= total
    && (|scores| > 0 ==> NoCutoff(w0, maximizing, scores[..|scores| - 1]))
    && (|scores| < total ==> |scores| > 0 && Cutoff(Fold(w0, maximizing, scores), maximizing))
  }

  /**
    A maximizing node returns the largest child score, or Integer.MIN_VALUE when it saw
    none; alpha only rises, to the larger of its start and that score; beta never moves.
  */
  lemma {:induction false} FoldMax(alpha: int, beta: int, s: seq<int>)
    requires MIN_VALUE <= alpha
    ensures var w := Fold(Open(true, alpha, beta), true, s);
      && (forall k | 0 <= k < |s| :: s[k] <= w.best)
      && MIN_VALUE <= w.best
      && (w.best == MIN_VALUE || w.best in s)
      && w.alpha == Max(alpha, w.best) && w.beta == beta
  {
    if s != [] {
      var front := s[..|s| - 1];
      FoldMax(alpha, beta, front);
      var p := Fold(Open(true, alpha, beta), true, front);
      assert forall k | 0 <= k < |front| :: s[k] == front[k];
      assert p.best in front ==> p.best in s;
    }
  }

  /**
    A minimizing node returns the smallest child score, or Integer.MAX_VALUE when it
    saw none; beta only falls, to the smaller of its start and that score; alpha never moves.
  */
  lemma {:induction false} FoldMin(alpha: int, beta: int, s: seq<int>)
    requires beta <= MAX_VALUE
    ensures var w := Fold(Open(false, alpha, beta), false, s);
      && (forall k | 0 <= k < |s| :: w.best <= s[k])
      && w.best <= MAX_VALUE
      && (w.best == MAX_VALUE || w.best in s)
      && w.beta == Min(beta, w.best) && w.alpha == alpha
  {
    if s != [] {
      var front := s[..|s| - 1];
      FoldMin(alpha, beta, front);
      var p := Fold(Open(false, alpha, beta), false, front);
      assert forall k | 0 <= k < |front| :: s[k] == front[k];
      assert p.best in front ==> p.best in s;
    }
  }

  /** Passing the break test after every score of a sequence means passing it after every prefix. */
  lemma {:induction false} NoCutoffPrefix(w: Window, maximizing: bool, s: seq<int>, k: nat)
    requires k <= |s| && NoCutoff(w, maximizing, s)
    ensures NoCutoff(w, maximizing, s[..k])
  {
    if k < |s| {
      assert s[..|s| - 1][..k] == s[..k];
      NoCutoffPrefix(w, maximizing, s[..|s| - 1], k);
    } else {
      assert s[..k] == s;
    }
  }

  /**
    With alpha below beta, a maximizing node passes the break test after all its
    child scores exactly when every one of them is below beta (a fail-high cutoff).
  */
  lemma {:induction false} MaxNodeFailsHigh(alpha: int, beta: int, s: seq<int>)
    requires MIN_VALUE <= alpha < beta
    ensures NoCutoff(Open(true, alpha, beta), true, s) <==> forall k | 0 <= k < |s| :: s[k] < beta
  {
    if s != [] {
      var front := s[..|s| - 1];
      MaxNodeFailsHigh(alpha, beta, front);
      FoldMax(alpha, beta, s);
      assert forall k | 0 <= k < |front| :: s[k] == front[k];
      var w := Fold(Open(true, alpha, beta), true, s);
      if w.best >= beta {
        assert w.best in s;
      }
    }
  }

  /**
    The minimizing break test alpha <= beta holds after the first child as soon as that
    child scores at least alpha (and alpha <= beta at the start): such a node never
    gets past its first child.
  */
  lemma MinNodeStopsAtFirst(alpha: int, beta: int, s: seq<int>)
    requires alpha <= beta <= MAX_VALUE && |s| > 0 && s[0] >= alpha
    ensures !NoCutoff(Open(false, alpha, beta), false, s)
  {
    var w0 := Open(false, alpha, beta);
    assert s[..1][..0] == [];
    assert Cutoff(Fold(w0, false, s[..1]), false);
    if NoCutoff(w0, false, s) {
      NoCutoffPrefix(w0, false, s, 1);
    }
  }

  /**
    A minimizing node opened with alpha = Integer.MIN_VALUE, as every candidate's
    subtree in findBestMove is, looks at one child at most once its first score is
    a 32-bit value.
  */
  lemma MinNodeFromRootVisitsOne(beta: int, scores: seq<int>, total: nat)
    requires MIN_VALUE <= beta <= MAX_VALUE
    requires |scores| > 0 ==> scores[0] >= MIN_VALUE
    requires LoopOutcome(false, MIN_VALUE, beta, scores, total)
    ensures |scores| <= 1
  {
    if |scores| >= 2 {
      MinNodeStopsAtFirst(MIN_VALUE, beta, scores[..|scores| - 1]);
    }
  }

  /**
    A maximizing node with alpha below beta stops before its last move only right
    after a child scoring at least beta, every earlier child scoring below it.
  */
  lemma MaxNodeStopsOnlyAtBeta(alpha: int, beta: int, scores: seq<int>, total: nat)
    requires MIN_VALUE <= alpha < beta
    requires LoopOutcome(true, alpha, beta, scores, total) && |scores| < total
    ensures scores[|scores| - 1] >= beta
    ensures forall k | 0 <= k < |scores| - 1 :: scores[k] < beta
  {
    var front := scores[..|scores| - 1];
    MaxNodeFailsHigh(alpha, beta, front);
    assert forall k | 0 <= k < |front| :: scores[k] == front[k];
    FoldMax(alpha, beta, scores);
    var w := Fold(Open(true, alpha, beta), true, scores);
    assert scores == front + [scores[|scores| - 1]];
  }

  /** A loop that breaks right after its last score, having passed the test before, ends as LoopOutcome says. */
  lemma BreakOutcome(maximizing: bool, alpha: int, beta: int, earlier: seq<int>, x: int, total: nat)
    requires NoCutoff(Open(maximizing, alpha, beta), maximizing, earlier) && |earlier| < total
    requires Cutoff(Fold(Open(maximizing, alpha, beta), maximizing, earlier + [x]), maximizing)
    ensures LoopOutcome(maximizing, alpha, beta, earlier + [x], total)
  {
    assert (earlier + [x])[..|earlier|] == earlier;
  }

  /** A loop that ran through all its moves, passing the test after every score, ends as LoopOutcome says. */
  lemma DoneOutcome(maximizing: bool, alpha: int, beta: int, scores: seq<int>, total: nat)
    requires NoCutoff(Open(maximizing, alpha, beta), maximizing, scores) && |scores| == total
    ensures LoopOutcome(maximizing, alpha, beta, scores, total)
  {
  }

  /** Appending a score folds it into the window, and the break test is then asked once more. */
  lemma FoldAppend(w: Window, maximizing: bool, s: seq<int>, x: int)
    ensures Fold(w, maximizing, s + [x]) == Step(Fold(w, maximizing, s), maximizing, x)
    ensures NoCutoff(w, maximizing, s + [x]) <==>
      NoCutoff(w, maximizing, s) && !Cutoff(Fold(w, maximizing, s + [x]), maximizing)
  {
    assert (s + [x])[..|s|] == s;
  }

  // ---------------------------------------------------------------------------
  // Visiting the moves of a set one by one

  /**
    A loop over the set `moves` that has taken the moves `visited`, in that order and
    each once, and has `rest` left to take.
  */
  ghost predicate Enumerates(moves: set<Coordinate>, rest: set<Coordinate>, visited: seq<Coordinate>) {
    && rest <= moves && |visited| + |rest| == |moves| && NoRepeats(visited)
    && forall k | 0 <= k < |visited| :: visited[k] in moves && visited[k] !in rest
  }

  /** Taking one more move out of `rest` keeps the enumeration. */
  lemma EnumerateStep(moves: set<Coordinate>, rest: set<Coordinate>, visited: seq<Coordinate>, m: Coordinate)
    requires Enumerates(moves, rest, visited) && m in rest
    ensures Enumerates(moves, rest - {m}, visited + [m])
  {
    var v := visited + [m];
    forall a, b | 0 <= a < b < |v|
      ensures v[a] != v[b]
    {
      if b == |visited| {
        assert v[a] == visited[a] && visited[a] !in rest;
      } else {
        assert v[a] == visited[a] && v[b] == visited[b];
      }
    }
  }

  // ---------------------------------------------------------------------------
  // findBestMove's choice among the root candidates

  /** The running best score and the index of its move, as findBestMove keeps them with `score > bestScore`. */
  function Best(scores: seq<int>): (r: (int, Option<nat>))
    ensures r.1.Some? ==> r.1.value < |scores|
  {
    if scores == [] then (MIN_VALUE, None)
    else
      var (b, i) := Best(scores[..|scores| - 1]);
      if scores[|scores| - 1] > b then (scores[|scores| - 1], Some(|scores| - 1)) else (b, i)
  }

  /** The move findBestMove returns for candidates visited in `order` with these scores. */
  function Pick(order: seq<Coordinate>, scores: seq<int>): Option<Coordinate>
    requires |order| == |scores|
  {
    match Best(scores).1
    case None => None
    case Some(k) => Some(order[k])
  }

  /** One more candidate: it becomes the choice exactly when its score beats the best so far. */
  lemma PickAppend(order: seq<Coordinate>, scores: seq<int>, m: Coordinate, x: int)
    requires |order| == |scores|
    ensures Best(scores + [x]).0 == Max(Best(scores).0, x)
    ensures Pick(order + [m], scores + [x]) == if x > Best(scores).0 then Some(m) else Pick(order, scores)
  {
    assert (scores + [x])[..|scores|] == scores;
  }

  /**
    findBestMove's choice is the first candidate with the greatest score, provided that
    score beats Integer.MIN_VALUE; there is no choice exactly when no score does.
  */
  lemma {:induction false} BestIsFirstGreatest(s: seq<int>)
    ensures Best(s).1.None? <==> forall k | 0 <= k < |s| :: s[k] <= MIN_VALUE
    ensures Best(s).1.None? ==> Best(s).0 == MIN_VALUE
    ensures Best(s).1.Some? ==> var k := Best(s).1.value;
      && Best(s).0 == s[k] > MIN_VALUE
      && (forall j | 0 <= j < |s| :: s[j] <= s[k])
      && (forall j | 0 <= j < k :: s[j] < s[k])
  {
    if s != [] {
      var front := s[..|s| - 1];
      BestIsFirstGreatest(front);
      assert forall j | 0 <= j < |front| :: s[j] == front[j];
    }
  }

  // ---------------------------------------------------------------------------
  // The search as a relation on positions

  /**
    The record of one search. A leaf records nothing. An inner node records the moves
    in the order it visited them, the subtree searched after each move, the score
    each subtree returned and the position each subtree left the shared model in.
  */
  datatype Trace = Leaf | Node(moves: seq<Coordinate>, kids: seq<Trace>, values: seq<int>, after: seq<Position>)

  /** The position the k-th child is searched from: its move made on the position the previous child left. */
  function ChildStart(p: Position, moves: seq<Coordinate>, after: seq<Position>, k: nat): Position
    requires k < |moves| && k <= |after|
  {
    Play(if k == 0 then p else after[k - 1], moves[k].x, moves[k].y).0
  }

  /** The position the children so far left the shared model in: the node's own when there are none. */
  function LastLeft(p: Position, after: seq<Position>): Position {
    if after == [] then p else after[|after| - 1]
  }

  /** One more recorded position becomes the last one left. */
  lemma LastLeftAppend(p: Position, after: seq<Position>, q: Position)
    ensures LastLeft(p, after + [q]) == q
  {
  }

  /** The window the k-th child is searched with: the node's window after the first k scores. */
  function ChildWindow(maximizing: bool, alpha: int, beta: int, values: seq<int>, k: nat): Window
    requires k <= |values|
  {
    Fold(Open(maximizing, alpha, beta), maximizing, values[..k])
  }

  /**
    miniMax as a relation: a search of depth `d` for agent `a` from position `p`,
    with role `maximizing` and window alpha, beta, can return `v` and leave the
    model in position `q`, the trace `t` recording how. At depth 0 or on a finished
    game the result is the evaluation of the board and the position is untouched.
    Otherwise every move comes from the cache at entry and none repeats, every child
    is searched as ChildSearched says, the loop ends as the break test says, the
    result is the folded best score and the model is left where the last child left it.
  */
  ghost predicate Searched(a: int, p: Position, d: int, maximizing: bool, alpha: int, beta: int,
                           t: Trace, v: int, q: Position)
    decreases t, 1
  {
    if d == 0 || p.winner != EMPTY then
      t == Leaf && v == Score(p.board, a) && q == p
    else
      && t.Node?
      && |t.kids| == |t.moves| && |t.values| == |t.moves| && |t.after| == |t.moves|
      && NoRepeats(t.moves) && (forall k | 0 <= k < |t.moves| :: t.moves[k] in p.moves)
      && LoopOutcome(maximizing, alpha, beta, t.values, |p.moves|)
      && v == Fold(Open(maximizing, alpha, beta), maximizing, t.values).best
      && q == (if t.after == [] then p else t.after[|t.after| - 1])
      && forall k: nat | k < |t.moves| :: ChildSearched(a, p, d, maximizing, alpha, beta, t, k)
  }

  /**
    The k-th child of a node of depth `d`: searched one level shallower for the
    other role, from its move made on the position the previous child left, with
    the window the earlier scores produced.
  */
  ghost predicate ChildSearched(a: int, p: Position, d: int, maximizing: bool, alpha: int, beta: int,
                                t: Trace, k: nat)
    decreases t, 0
  {
    && t.Node? && k < |t.moves|
    && |t.kids| == |t.moves| && |t.values| == |t.moves| && |t.after| == |t.moves|
    && Searched(a, ChildStart(p, t.moves, t.after, k), d - 1, !maximizing,
                ChildWindow(maximizing, alpha, beta, t.values, k).alpha,
                ChildWindow(maximizing, alpha, beta, t.values, k).beta,
                t.kids[k], t.values[k], t.after[k])
  }

  /** Appending a child changes neither the start nor the window of the earlier ones. */
  lemma ChildPrefix(p: Position, moves: seq<Coordinate>, after: seq<Position>, values: seq<int>,
                    m: Coordinate, q: Position, x: int, maximizing: bool, alpha: int, beta: int, k: nat)
    requires k < |moves| && |after| == |moves| && |values| == |moves|
    ensures ChildStart(p, moves + [m], after + [q], k) == ChildStart(p, moves, after, k)
    ensures ChildWindow(maximizing, alpha, beta, values + [x], k) == ChildWindow(maximizing, alpha, beta, values, k)
  {
    assert (values + [x])[..k] == values[..k];
  }

  /** An earlier child keeps its search when one more child is appended. */
  lemma ChildKept(a: int, p: Position, d: int, maximizing: bool, alpha: int, beta: int,
                  moves: seq<Coordinate>, kids: seq<Trace>, values: seq<int>, after: seq<Position>,
                  m: Coordinate, kid: Trace, x: int, q: Position, k: nat)
    requires ChildSearched(a, p, d, maximizing, alpha, beta, Node(moves, kids, values, after), k)
    ensures ChildSearched(a, p, d, maximizing, alpha, beta, Node(moves + [m], kids + [kid], values + [x], after + [q]), k)
  {
    ChildPrefix(p, moves, after, values, m, q, x, maximizing, alpha, beta, k);
    assert (kids + [kid])[k] == kids[k] && (values + [x])[k] == values[k] && (after + [q])[k] == after[k];
  }

  /**
    One more child, searched from its move made on the position the last child left
    and with the window all earlier scores produced, extends the children searched.
  */
  lemma ChildAdded(a: int, p: Position, d: int, maximizing: bool, alpha: int, beta: int,
                   moves: seq<Coordinate>, kids: seq<Trace>, values: seq<int>, after: seq<Position>,
                   m: Coordinate, kid: Trace, x: int, q: Position)
    requires |kids| == |moves| && |values| == |moves| && |after| == |moves|
    requires Searched(a, Play(LastLeft(p, after), m.x, m.y).0, d - 1, !maximizing,
                      Fold(Open(maximizing, alpha, beta), maximizing, values).alpha,
                      Fold(Open(maximizing, alpha, beta), maximizing, values).beta, kid, x, q)
    ensures ChildSearched(a, p, d, maximizing, alpha, beta, Node(moves + [m], kids + [kid], values + [x], after + [q]), |moves|)
  {
    var n := |moves|;
    assert (values + [x])[..n] == values;
    assert (kids + [kid])[n] == kid && (values + [x])[n] == x && (after + [q])[n] == q;
  }

  /** The children recorded in `t` are searched as ChildSearched says, whatever their number. */
  ghost predicate ChildrenSearched(a: int, p: Position, d: int, maximizing: bool, alpha: int, beta: int, t: Trace) {
    && t.Node? && |t.kids| == |t.moves| && |t.values| == |t.moves| && |t.after| == |t.moves|
    && forall k: nat | k < |t.moves| :: ChildSearched(a, p, d, maximizing, alpha, beta, t, k)
  }

  /** The search loop's step: the children searched so far, plus one more. */
  lemma ChildrenExtend(a: int, p: Position, d: int, maximizing: bool, alpha: int, beta: int,
                       moves: seq<Coordinate>, kids: seq<Trace>, values: seq<int>, after: seq<Position>,
                       m: Coordinate, start: Position, childAlpha: int, childBeta: int,
                       kid: Trace, x: int, q: Position)
    requires ChildrenSearched(a, p, d, maximizing, alpha, beta, Node(moves, kids, values, after))
    requires start == Play(LastLeft(p, after), m.x, m.y).0
    requires childAlpha == Fold(Open(maximizing, alpha, beta), maximizing, values).alpha
    requires childBeta == Fold(Open(maximizing, alpha, beta), maximizing, values).beta
    requires Searched(a, start, d - 1, !maximizing, childAlpha, childBeta, kid, x, q)
    ensures ChildrenSearched(a, p, d, maximizing, alpha, beta, Node(moves + [m], kids + [kid], values + [x], after + [q]))
  {
    forall k: nat | k < |moves|
      ensures ChildSearched(a, p, d, maximizing, alpha, beta, Node(moves + [m], kids + [kid], values + [x], after + [q]), k)
    {
      ChildKept(a, p, d, maximizing, alpha, beta, moves, kids, values, after, m, kid, x, q, k);
    }
    ChildAdded(a, p, d, maximizing, alpha, beta, moves, kids, values, after, m, kid, x, q);
  }

  /** A search at depth 0 or on a finished game: the evaluation, the position untouched. */
  lemma LeafSearched(a: int, p: Position, d: int, maximizing: bool, alpha: int, beta: int, v: int)
    requires d == 0 || p.winner != EMPTY
    requires v == Score(p.board, a)
    ensures Searched(a, p, d, maximizing, alpha, beta, Leaf, v, p)
  {
  }

  /**
    An inner node whose children are searched, whose moves are distinct moves of
    the cache, and whose loop either ran through every move passing the break test
    each time, or stopped right after the first score that failed it.
  */
  lemma CloseNode(a: int, p: Position, d: int, maximizing: bool, alpha: int, beta: int,
                  t: Trace, v: int, q: Position, stopped: bool, earlier: seq<int>, last: int)
    requires d != 0 && p.winner == EMPTY
    requires ChildrenSearched(a, p, d, maximizing, alpha, beta, t)
    requires NoRepeats(t.moves) && forall k | 0 <= k < |t.moves| :: t.moves[k] in p.moves
    requires |t.values| <= |p.moves|
    requires stopped ==>
      && t.values == earlier + [last]
      && NoCutoff(Open(maximizing, alpha, beta), maximizing, earlier)
      && Cutoff(Fold(Open(maximizing, alpha, beta), maximizing, t.values), maximizing)
    requires !stopped ==> NoCutoff(Open(maximizing, alpha, beta), maximizing, t.values) && |t.values| == |p.moves|
    requires v == Fold(Open(maximizing, alpha, beta), maximizing, t.values).best
    requires q == LastLeft(p, t.after)
    ensures Searched(a, p, d, maximizing, alpha, beta, t, v, q)
  {
    if stopped {
      BreakOutcome(maximizing, alpha, beta, earlier, last, |p.moves|);
    } else {
      DoneOutcome(maximizing, alpha, beta, t.values, |p.moves|);
    }
  }

  /**
    findBestMove's k-th candidate: made on the position the previous candidate's
    search left (the one shared clone), then the opponent's reply searched as a
    minimizing node of depth `d` - 1 with the full window.
  */
  ghost predicate CandidateSearched(a: int, p: Position, d: int, t: Trace, k: nat) {
    && t.Node? && k < |t.moves|
    && |t.kids| == |t.moves| && |t.values| == |t.moves| && |t.after| == |t.moves|
    && Searched(a, ChildStart(p, t.moves, t.after, k), d - 1, false, MIN_VALUE, MAX_VALUE,
                t.kids[k], t.values[k], t.after[k])
  }

  /** An earlier candidate keeps its search when one more candidate is appended. */
  lemma CandidateKept(a: int, p: Position, d: int,
                      moves: seq<Coordinate>, kids: seq<Trace>, values: seq<int>, after: seq<Position>,
                      m: Coordinate, kid: Trace, x: int, q: Position, k: nat)
    requires CandidateSearched(a, p, d, Node(moves, kids, values, after), k)
    ensures CandidateSearched(a, p, d, Node(moves + [m], kids + [kid], values + [x], after + [q]), k)
  {
    ChildPrefix(p, moves, after, values, m, q, x, false, MIN_VALUE, MAX_VALUE, k);
    assert (kids + [kid])[k] == kids[k] && (values + [x])[k] == values[k] && (after + [q])[k] == after[k];
  }

  /** The candidates recorded in `t` are searched as CandidateSearched says. */
  ghost predicate CandidatesSearched(a: int, p: Position, d: int, t: Trace) {
    && t.Node? && |t.kids| == |t.moves| && |t.values| == |t.moves| && |t.after| == |t.moves|
    && forall k: nat | k < |t.moves| :: CandidateSearched(a, p, d, t, k)
  }

  /** One more candidate searched on the clone as the last one left it. */
  lemma CandidateAdded(a: int, p: Position, d: int,
                       moves: seq<Coordinate>, kids: seq<Trace>, values: seq<int>, after: seq<Position>,
                       m: Coordinate, kid: Trace, x: int, q: Position)
    requires |kids| == |moves| && |values| == |moves| && |after| == |moves|
    requires Searched(a, Play(LastLeft(p, after), m.x, m.y).0, d - 1, false,
                      MIN_VALUE, MAX_VALUE, kid, x, q)
    ensures CandidateSearched(a, p, d, Node(moves + [m], kids + [kid], values + [x], after + [q]), |moves|)
  {
    var n := |moves|;
    assert (kids + [kid])[n] == kid && (values + [x])[n] == x && (after + [q])[n] == q;
  }

  /** findBestMove's loop step: the candidates searched so far, plus one more. */
  lemma CandidatesExtend(a: int, p: Position, d: int,
                         moves: seq<Coordinate>, kids: seq<Trace>, values: seq<int>, after: seq<Position>,
                         m: Coordinate, start: Position, kid: Trace, x: int, q: Position)
    requires CandidatesSearched(a, p, d, Node(moves, kids, values, after))
    requires start == Play(LastLeft(p, after), m.x, m.y).0
    requires Searched(a, start, d - 1, false, MIN_VALUE, MAX_VALUE, kid, x, q)
    ensures CandidatesSearched(a, p, d, Node(moves + [m], kids + [kid], values + [x], after + [q]))
  {
    forall k: nat | k < |moves|
      ensures CandidateSearched(a, p, d, Node(moves + [m], kids + [kid], values + [x], after + [q]), k)
    {
      CandidateKept(a, p, d, moves, kids, values, after, m, kid, x, q, k);
    }
    CandidateAdded(a, p, d, moves, kids, values, after, m, kid, x, q);
  }

  /** A move keeps the board square and of the same size. */
  lemma PlayKeepsShape(p: Position, r: int, c: int)
    requires IsSquare(p.board)
    ensures IsSquare(Play(p, r, c).0.board) && |Play(p, r, c).0.board| == |p.board|
  {
  }

  /** The best of a fold stays between the two sentinels when it starts there and every score does. */
  lemma {:induction false} FoldInRange(w: Window, maximizing: bool, s: seq<int>)
    requires MIN_VALUE <= w.best <= MAX_VALUE
    requires forall k | 0 <= k < |s| :: MIN_VALUE <= s[k] <= MAX_VALUE
    ensures MIN_VALUE <= Fold(w, maximizing, s).best <= MAX_VALUE
  {
    if s != [] {
      FoldInRange(w, maximizing, s[..|s| - 1]);
    }
  }

  /**
    On a square board of at most 10000 rows every search value is an int between
    Integer.MIN_VALUE and Integer.MAX_VALUE, and the model is left on a square board
    of the same size.
  */
  lemma {:induction false} SearchInRange(a: int, p: Position, d: int, maximizing: bool, alpha: int, beta: int,
                                         t: Trace, v: int, q: Position)
    requires Searched(a, p, d, maximizing, alpha, beta, t, v, q)
    requires IsSquare(p.board) && 1 <= |p.board| <= 10000
    ensures IsSquare(q.board) && |q.board| == |p.board|
    ensures MIN_VALUE <= v <= MAX_VALUE
    decreases t
  {
    if d == 0 || p.winner != EMPTY {
      ScoreFitsInt(p.board, a);
    } else {
      var k := 0;
      while k < |t.moves|
        invariant 0 <= k <= |t.moves|
        invariant var prev := if k == 0 then p else t.after[k - 1];
          IsSquare(prev.board) && |prev.board| == |p.board|
        invariant forall j | 0 <= j < k :: MIN_VALUE <= t.values[j] <= MAX_VALUE
      {
        var prev := if k == 0 then p else t.after[k - 1];
        PlayKeepsShape(prev, t.moves[k].x, t.moves[k].y);
        assert ChildSearched(a, p, d, maximizing, alpha, beta, t, k);
        var w := ChildWindow(maximizing, alpha, beta, t.values, k);
        SearchInRange(a, ChildStart(p, t.moves, t.after, k), d - 1, !maximizing, w.alpha, w.beta,
                      t.kids[k], t.values[k], t.after[k]);
        k := k + 1;
      }
      FoldInRange(Open(maximizing, alpha, beta), maximizing, t.values);
    }
  }

  /**
    A search of depth 1 evaluates each child position as its move leaves it:
    every child score is the evaluation of the board after that move, and the
    child leaves the position as it found it.
  */
  lemma SearchDepthOne(a: int, p: Position, maximizing: bool, alpha: int, beta: int, t: Trace, v: int, q: Position)
    requires Searched(a, p, 1, maximizing, alpha, beta, t, v, q) && p.winner == EMPTY
    ensures t.Node?
    ensures forall k | 0 <= k < |t.moves| ::
      && t.values[k] == Score(ChildStart(p, t.moves, t.after, k).board, a)
      && t.after[k] == ChildStart(p, t.moves, t.after, k)
  {
    forall k | 0 <= k < |t.moves|
      ensures t.values[k] == Score(ChildStart(p, t.moves, t.after, k).board, a)
      ensures t.after[k] == ChildStart(p, t.moves, t.after, k)
    {
      assert ChildSearched(a, p, 1, maximizing, alpha, beta, t, k);
      var w := ChildWindow(maximizing, alpha, beta, t.values, k);
      assert Searched(a, ChildStart(p, t.moves, t.after, k), 0, !maximizing, w.alpha, w.beta,
                      t.kids[k], t.values[k], t.after[k]);
    }
  }

  /**
    findBestMove with depth 1 scores each candidate by the evaluation of the board
    its move leaves on the clone, and the clone stays there for the next candidate.
  */
  lemma CandidatesAtDepthOne(a: int, p: Position, t: Trace)
    requires CandidatesSearched(a, p, 1, t)
    ensures forall k | 0 <= k < |t.moves| ::
      && t.values[k] == Score(ChildStart(p, t.moves, t.after, k).board, a)
      && t.after[k] == ChildStart(p, t.moves, t.after, k)
  {
    forall k | 0 <= k < |t.moves|
      ensures t.values[k] == Score(ChildStart(p, t.moves, t.after, k).board, a)
      ensures t.after[k] == ChildStart(p, t.moves, t.after, k)
    {
      assert CandidateSearched(a, p, 1, t, k);
    }
  }

  /**
    Each candidate's reply in findBestMove is a minimizing node opened with
    alpha = Integer.MIN_VALUE and beta = Integer.MAX_VALUE; on a board of at most
    10000 rows it looks at one of its moves at most, whatever the depth.
  */
  lemma RootReplyVisitsOne(a: int, p: Position, d: int, t: Trace, v: int, q: Position)
    requires Searched(a, p, d, false, MIN_VALUE, MAX_VALUE, t, v, q)
    requires IsSquare(p.board) && 1 <= |p.board| <= 10000
    ensures t.Node? ==> |t.moves| <= 1
  {
    if d != 0 && p.winner == EMPTY {
      if |t.moves| >= 2 {
        var k0 := ChildWindow(false, MIN_VALUE, MAX_VALUE, t.values, 0);
        assert ChildSearched(a, p, d, false, MIN_VALUE, MAX_VALUE, t, 0);
        PlayKeepsShape(p, t.moves[0].x, t.moves[0].y);
        SearchInRange(a, ChildStart(p, t.moves, t.after, 0), d - 1, true, k0.alpha, k0.beta,
                      t.kids[0], t.values[0], t.after[0]);
        MinNodeFromRootVisitsOne(MAX_VALUE, t.values, |p.moves|);
      }
    }
  }

  // ---------------------------------------------------------------------------
  // The agent

  /** ReversiAgent: the search depth, the model it advises and the player it plays. */
  class ReversiAgent {
    const depth: int
    const model: ReversiModel
    const agentID: int

    /** The constructor's assertion: the agent plays PLAYER1 or PLAYER2. */
    constructor (model: ReversiModel, depth: int, agentID: int)
      requires agentID == PLAYER1 || agentID == PLAYER2
      ensures this.model == model && this.depth == depth && this.agentID == agentID
    {
      this.agentID := agentID;
      this.model := model;
      this.depth := depth;
    }

    /** countMyPieces: a pass over every cell of every row. */
    method CountMyPieces(board: array2<int>) returns (v: int)
      ensures v == Pieces(Cells(board), agentID)
    {
      ghost var g := Cells(board);
      var cnt := 0;
      for i := 0 to board.Length0
        invariant cnt == CountRows(g, agentID, i)
      {
        for j := 0 to board.Length1
          invariant cnt == CountRows(g, agentID, i) + CountRow(g[i][..j], agentID)
        {
          assert g[i][..j + 1][..j] == g[i][..j];
          if board[i, j] == agentID {
            cnt := cnt + 1;
          }
        }
        assert g[i][..board.Length1] == g[i];
      }
      v := PIECE_VALUE * cnt;
    }

    /** countMyCorners: both loops over the index pair {0, n-1}. */
    method CountMyCorners(board: array2<int>) returns (v: int)
      requires board.Length0 == board.Length1 >= 1
      ensures v == CORNER_VALUE * Corners(Cells(board), agentID)
    {
      ghost var g := Cells(board);
      var ends := [0, board.Length0 - 1];
      var cnt := 0;
      for k := 0 to |ends|
        invariant cnt == HeldIn(g, agentID, ends[..k], ends)
      {
        for l := 0 to |ends|
          invariant cnt == HeldIn(g, agentID, ends[..k], ends) + HeldRow(g, agentID, ends[k], ends[..l])
        {
          assert ends[..l + 1][..l] == ends[..l];
          if board[ends[k], ends[l]] == agentID {
            cnt := cnt + 1;
          }
        }
        assert ends[..k + 1][..k] == ends[..k] && ends[..|ends|] == ends;
      }
      assert ends[..|ends|] == ends;
      v := CORNER_VALUE * cnt;
    }

    /** evaluate: corners plus pieces plus the full-line term of the board as it stands. */
    method Evaluate(gameState: ReversiModel) returns (v: int)
      requires gameState.board.Length0 == gameState.board.Length1 >= 1
      ensures v == Score(Cells(gameState.board), agentID)
    {
      var corners := CountMyCorners(gameState.board);
      var pieces := CountMyPieces(gameState.board);
      v := corners + pieces + EndToEnd(Cells(gameState.board), agentID);
    }

    /**
      miniMax. At depth 0 or on a finished game: the evaluation, nothing changed.
      Otherwise the moves cached at entry are visited in some order; each is made on
      the same model (a move the earlier subtrees have made illegal is rejected and
      leaves the model as it is), the subtree is searched one level shallower for
      the other side, and the score is folded into the window; the loop breaks on
      the cutoff test. The result is the window's best score. Every accepted move
      fills one empty cell, which is why the recursion ends even for a depth below 1.
    */
    method MiniMax(gameState: ReversiModel, currDepth: int, maximizing: bool, alpha: int, beta: int)
      returns (score: int, ghost trace: Trace)
      requires gameState.Valid()
      modifies gameState, gameState.board
      ensures gameState.Valid()
      ensures Count(Cells(gameState.board), EMPTY) <= old(Count(Cells(gameState.board), EMPTY))
      ensures Searched(agentID, old(gameState.State()), currDepth, maximizing, alpha, beta,
                       trace, score, gameState.State())
      decreases Count(Cells(gameState.board), EMPTY), 2
    {
      if currDepth == 0 || gameState.IsGameOver() {
        score := Evaluate(gameState);
        trace := Leaf;
        LeafSearched(agentID, gameState.State(), currDepth, maximizing, alpha, beta, score);
      } else {
        score, trace := SearchMoves(gameState, currDepth, maximizing, alpha, beta);
      }
    }

    /**
      The move loop of miniMax, for a search that is neither at depth 0 nor on a
      finished game.
    */
    method SearchMoves(gameState: ReversiModel, currDepth: int, maximizing: bool, alpha: int, beta: int)
      returns (score: int, ghost trace: Trace)
      requires gameState.Valid() && currDepth != 0 && gameState.winner == EMPTY
      modifies gameState, gameState.board
      ensures gameState.Valid()
      ensures Count(Cells(gameState.board), EMPTY) <= old(Count(Cells(gameState.board), EMPTY))
      ensures Searched(agentID, old(gameState.State()), currDepth, maximizing, alpha, beta,
                       trace, score, gameState.State())
      decreases Count(Cells(gameState.board), EMPTY), 1
    {
      ghost var p0 := gameState.State();
      ghost var empties := Count(Cells(gameState.board), EMPTY);
      ghost var w0 := Open(maximizing, alpha, beta);
      var moves := gameState.possibleMoves;
      var rest := moves;
      var best := if maximizing then MIN_VALUE else MAX_VALUE;
      var a, b := alpha, beta;
      ghost var visited: seq<Coordinate>, kids: seq<Trace>, scores: seq<int>, after: seq<Position>;
      visited, kids, scores, after := [], [], [], [];
      ghost var stopped, earlier, last := false, [], 0;
      while rest != {}
        invariant gameState.Valid()
        invariant !stopped
        invariant Enumerates(moves, rest, visited)
        invariant ChildrenSearched(agentID, p0, currDepth, maximizing, alpha, beta, Node(visited, kids, scores, after))
        invariant gameState.State() == LastLeft(p0, after)
        invariant visited == [] ==> gameState.possibleMoves == moves
        invariant Window(best, a, b) == Fold(w0, maximizing, scores)
        invariant NoCutoff(w0, maximizing, scores)
        invariant Count(Cells(gameState.board), EMPTY) <= empties
        invariant visited != [] ==> Count(Cells(gameState.board), EMPTY) < empties
        decreases |rest|
      {
        var m :| m in rest;
        EnumerateStep(moves, rest, visited, m);
        rest := rest - {m};
        var childScore;
        ghost var kid;
        ghost var start := Play(gameState.State(), m.x, m.y).0;
        childScore, kid := Reply(gameState, m, currDepth, maximizing, a, b, empties);
        ghost var q := gameState.State();
        ChildrenExtend(agentID, p0, currDepth, maximizing, alpha, beta, visited, kids, scores, after,
                       m, start, a, b, kid, childScore, q);
        best := if maximizing then Max(best, childScore) else Min(best, childScore);
        if maximizing {
          a := Max(a, best);
        } else {
          b := Min(b, best);
        }
        FoldAppend(w0, maximizing, scores, childScore);
        LastLeftAppend(p0, after, q);
        earlier, last := scores, childScore;
        visited, kids, scores, after := visited + [m], kids + [kid], scores + [childScore], after + [q];
        if (maximizing && b <= a) || (!maximizing && a <= b) {
          stopped := true;
          break;
        }
      }
      score := best;
      trace := Node(visited, kids, scores, after);
      CloseNode(agentID, p0, currDepth, maximizing, alpha, beta, trace, score, gameState.State(), stopped, earlier, last);
    }

    /**
      One iteration of the search loop: make the move on the shared state and search
      the reply one level deeper with the opposite role. The move is always legal the
      first time round; later moves may be rejected, but by then a cell has already
      been filled, so the number of empty cells is below the caller's count either way.
      The reply is a search, in the sense of Searched, from the position the move leaves.
    */
    method Reply(gameState: ReversiModel, m: Coordinate, currDepth: int, maximizing: bool,
                 alpha: int, beta: int, ghost limit: nat)
      returns (childScore: int, ghost kid: Trace)
      requires gameState.Valid()
      requires Count(Cells(gameState.board), EMPTY) <= limit
      requires Count(Cells(gameState.board), EMPTY) < limit || m in gameState.possibleMoves
      modifies gameState, gameState.board
      ensures gameState.Valid()
      ensures Count(Cells(gameState.board), EMPTY) < limit
      ensures Searched(agentID, Play(old(gameState.State()), m.x, m.y).0, currDepth - 1, !maximizing,
                       alpha, beta, kid, childScore, gameState.State())
      decreases limit, 0
    {
      ghost var before := gameState.State();
      var _ := gameState.MakeMove(m.x, m.y);
      PlayFillsOneCell(before, m.x, m.y);
      childScore, kid := MiniMax(gameState, currDepth - 1, !maximizing, alpha, beta);
    }

    /**
      findBestMove: snapshot the model's cached moves, clone the model once, and for
      each candidate in some order make it on the shared clone and search the
      opponent's reply with a minimizing node of depth - 1 and the full window; keep
      the first candidate whose score is strictly greater than every earlier one.
      No candidate is chosen when no score beats Integer.MIN_VALUE, which includes
      the case without moves. The model itself is never modified.
    */
    method FindBestMove() returns (bestMove: Option<Coordinate>, ghost t: Trace)
      requires model.Valid()
      ensures CandidatesSearched(agentID, model.State(), depth, t)
      ensures |t.moves| == |model.possibleMoves| && NoRepeats(t.moves)
      ensures forall k | 0 <= k < |t.moves| :: t.moves[k] in model.possibleMoves
      ensures bestMove == Pick(t.moves, t.values)
    {
      var moves := model.possibleMoves;
      var clone := model.GetClone();
      ghost var p0 := clone.State();
      var bestScore := MIN_VALUE;
      bestMove := None;
      var rest := moves;
      ghost var order: seq<Coordinate>, kids: seq<Trace>, scores: seq<int>, after: seq<Position>;
      order, kids, scores, after := [], [], [], [];
      while rest != {}
        invariant fresh(clone) && fresh(clone.board) && clone.Valid()
        invariant Enumerates(moves, rest, order)
        invariant CandidatesSearched(agentID, p0, depth, Node(order, kids, scores, after))
        invariant clone.State() == LastLeft(p0, after)
        invariant bestScore == Best(scores).0 && bestMove == Pick(order, scores)
        decreases |rest|
      {
        var m :| m in rest;
        EnumerateStep(moves, rest, order, m);
        rest := rest - {m};
        var score;
        ghost var kid;
        score, kid := TryCandidate(clone, m, p0, order, kids, scores, after);
        ghost var q := clone.State();
        if score > bestScore {
          bestScore := score;
          bestMove := Some(m);
        }
        PickAppend(order, scores, m, score);
        order, kids, scores, after := order + [m], kids + [kid], scores + [score], after + [q];
        assert LastLeft(p0, after) == q;
      }
      t := Node(order, kids, scores, after);
    }

    /**
      One candidate of findBestMove: make it on the shared clone, then search the
      opponent's reply with a minimizing node of depth - 1 and the full window. The
      ghost parameters are the candidates searched so far; the result is recorded as
      one more candidate searched as CandidateSearched says.
    */
    method TryCandidate(clone: ReversiModel, m: Coordinate, ghost p0: Position, ghost order: seq<Coordinate>,
                        ghost kids: seq<Trace>, ghost values: seq<int>, ghost after: seq<Position>)
      returns (score: int, ghost kid: Trace)
      requires clone.Valid()
      requires CandidatesSearched(agentID, p0, depth, Node(order, kids, values, after))
      requires clone.State() == LastLeft(p0, after)
      modifies clone, clone.board
      ensures clone.Valid()
      ensures CandidatesSearched(agentID, p0, depth,
                                 Node(order + [m], kids + [kid], values + [score], after + [clone.State()]))
    {
      var _ := clone.MakeMove(m.x, m.y);
      ghost var start := clone.State();
      score, kid := MiniMax(clone, depth - 1, false, MIN_VALUE, MAX_VALUE);
      CandidatesExtend(agentID, p0, depth, order, kids, values, after, m, start, kid, score, clone.State());
    }
  }
}

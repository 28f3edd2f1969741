/** Depth-bounded minimax with fail-hard alpha-beta pruning.

    The search walks a tree of positions: every node is a position where the
    game goes on and the depth is not exhausted, and has one branch per legal
    column in ascending order; every leaf carries the static evaluation of its
    position. Pruned search and plain minimax are both defined on such trees,
    and SearchTree builds the tree that a search of a grid walks. The computer
    maximizes the evaluation and the human minimizes it. */
module Search {
  import opened Wrappers
  import opened Grid
  import opened Evaluation

  /** Integer.MIN_VALUE and Integer.MAX_VALUE, the window of a root search. */
  const MinInt := -0x8000_0000
  const MaxInt := 0x7fff_ffff

  /** The piece dropped by the side to move. */
  function Player(maximizing: bool): int
  {
    if maximizing then Cpu else Human
  }

  function Max(a: int, b: int): int { if a >= b then a else b }

  function Min(a: int, b: int): int { if a <= b then a else b }

  /** The game is over by the detector's verdict, with the move counter
      equal to the number of pieces on the grid. */
  predicate Terminal(g: seq<int>)
    requires |g| == Size
  {
    Status(g, Occupied(g)) != Empty
  }

  // ---------------------------------------------------------------------
  // Move enumeration.
  // ---------------------------------------------------------------------

  /** The columns below c that accept a piece, in ascending order. */
  function LegalBelow(g: seq<int>, c: int): (ms: seq<int>)
    requires |g| == Size && 0 <= c <= Width
    decreases |g| + c
    ensures forall k :: 0 <= k < |ms| ==> 0 <= ms[k] < c
    ensures forall i, j :: 0 <= i < j < |ms| ==> ms[i] < ms[j]
    ensures forall m :: m in ms <==> 0 <= m < c && HasRoom(g, m)
  {
    if c == 0 then [] else LegalBelow(g, c - 1) + (if HasRoom(g, c - 1) then [c - 1] else [])
  }

  /** getPossibleMoves: the columns that accept a drop, in ascending order. */
  function LegalMoves(g: seq<int>): (ms: seq<int>)
    requires |g| == Size
    ensures forall i, j :: 0 <= i < j < |ms| ==> ms[i] < ms[j]
    ensures forall m :: m in ms <==> 0 <= m < Width && HasRoom(g, m)
  {
    LegalBelow(g, Width)
  }

  /** On a well-formed grid the legal moves are, in ascending order, exactly
      the columns whose top cell is empty. */
  lemma LegalMovesAreOpenColumns(g: seq<int>)
    requires WellFormed(g)
    ensures forall i, j :: 0 <= i < j < |LegalMoves(g)| ==> LegalMoves(g)[i] < LegalMoves(g)[j]
    ensures forall c :: c in LegalMoves(g) <==> 0 <= c < Width && g[c] == Empty
  {
    forall c ensures c in LegalMoves(g) <==> 0 <= c < Width && g[c] == Empty {
      HasRoomIffTopEmpty(g, c);
    }
  }

  /** A position that is not over has a legal move: the move counter is
      below 42, so some cell is empty and its column accepts a piece. */
  lemma NonTerminalHasMove(g: seq<int>)
    requires |g| == Size && !Terminal(g)
    ensures LegalMoves(g) != []
  {
    StatusWithoutFour(g, Occupied(g));
    assert Occupied(g) != Size;
    OccupiedFull(g);
    var i :| 0 <= i < Size && g[i] == Empty;
    var c := i % 7;
    assert Piece(g, c, i / 7) == Empty;
    assert HasRoom(g, c);
    assert c in LegalMoves(g);
  }

  // ---------------------------------------------------------------------
  // Search trees.
  // ---------------------------------------------------------------------

  /** A node lists its moves and, at the same positions, the subtrees the
      moves lead to. */
  datatype Tree = Leaf(score: int) | Node(moves: seq<int>, kids: seq<Tree>)

  /** Every node has at least one move and one subtree per move. */
  ghost predicate Branching(t: Tree)
  {
    match t
    case Leaf(_) => true
    case Node(ms, ts) => |ms| == |ts| > 0 && forall k :: 0 <= k < |ts| ==> Branching(ts[k])
  }

  /** Every leaf score lies in [-MaxScore, MaxScore]. */
  ghost predicate Bounded(t: Tree)
  {
    match t
    case Leaf(s) => -MaxScore <= s <= MaxScore
    case Node(_, ts) => forall k :: 0 <= k < |ts| ==> Bounded(ts[k])
  }

  /** The tree a search of g walks with the given depth and side to move:
      a leaf with the static evaluation at the horizon or when the game is
      over, else one branch per legal column, in ascending order, leading to
      the tree of the grid after the side to move drops there. */
  function SearchTree(g: seq<int>, depth: nat, maximizing: bool): (t: Tree)
    requires |g| == Size
    decreases depth
    ensures Branching(t) && Bounded(t)
    ensures t.Leaf? <==> depth == 0 || Terminal(g)
    ensures t.Node? ==> t.moves == LegalMoves(g)
  {
    if depth == 0 || Terminal(g) then
      Leaf(Evaluate(g))
    else
      NonTerminalHasMove(g);
      var ms := LegalMoves(g);
      Node(ms, seq(|ms|, k requires 0 <= k < |ms| => SearchTree(Drop(g, ms[k], Player(maximizing)), depth - 1, !maximizing)))
  }

  /** Subtree k of a node is the tree of the grid after the side to move
      drops into the k-th legal column. */
  lemma SearchTreeChild(g: seq<int>, depth: nat, maximizing: bool, k: int)
    requires |g| == Size && 0 < depth && !Terminal(g) && 0 <= k < |LegalMoves(g)|
    ensures 0 <= k < |SearchTree(g, depth, maximizing).kids|
    ensures SearchTree(g, depth, maximizing).kids[k]
      == SearchTree(Drop(g, LegalMoves(g)[k], Player(maximizing)), depth - 1, !maximizing)
  {
  }

  // ---------------------------------------------------------------------
  // Plain minimax on a tree.
  // ---------------------------------------------------------------------

  /** The minimax value: the leaf score, or the best subtree value for the
      side to move, the other side moving in the subtrees. */
  function Minimax(t: Tree, maximizing: bool): int
    requires Branching(t)
    decreases t, 1
  {
    match t
    case Leaf(s) => s
    case Node(_, ts) => BestOf(ts, 0, maximizing)
  }

  /** The largest (maximizing) or smallest subtree value over ts[i..]. */
  function BestOf(ts: seq<Tree>, i: nat, maximizing: bool): int
    requires i < |ts| && forall k :: 0 <= k < |ts| ==> Branching(ts[k])
    decreases ts, 0, |ts| - i
  {
    var u := Minimax(ts[i], !maximizing);
    if i == |ts| - 1 then u
    else if maximizing then Max(u, BestOf(ts, i + 1, maximizing))
    else Min(u, BestOf(ts, i + 1, maximizing))
  }

  /** BestOf is the extreme subtree value and some branch reaches it. */
  lemma {:induction false} BestOfIsExtreme(ts: seq<Tree>, i: nat, maximizing: bool)
    requires i < |ts| && forall k :: 0 <= k < |ts| ==> Branching(ts[k])
    decreases |ts| - i
    ensures forall k :: i <= k < |ts| ==>
      if maximizing then Minimax(ts[k], !maximizing) <= BestOf(ts, i, maximizing)
      else BestOf(ts, i, maximizing) <= Minimax(ts[k], !maximizing)
    ensures exists k :: i <= k < |ts| && Minimax(ts[k], !maximizing) == BestOf(ts, i, maximizing)
  {
    if i == |ts| - 1 {
      assert Minimax(ts[i], !maximizing) == BestOf(ts, i, maximizing);
    } else {
      BestOfIsExtreme(ts, i + 1, maximizing);
      var k :| i + 1 <= k < |ts| && Minimax(ts[k], !maximizing) == BestOf(ts, i + 1, maximizing);
      if Minimax(ts[i], !maximizing) != BestOf(ts, i, maximizing) {
        assert Minimax(ts[k], !maximizing) == BestOf(ts, i, maximizing);
      }
    }
  }

  /** Minimax values of a bounded tree stay within the bounds of its leaves. */
  lemma {:induction false} MinimaxBounded(t: Tree, maximizing: bool)
    requires Branching(t) && Bounded(t)
    decreases t, 1
    ensures -MaxScore <= Minimax(t, maximizing) <= MaxScore
  {
    if t.Node? {
      BestOfBounded(t.kids, 0, maximizing);
    }
  }

  lemma {:induction false} BestOfBounded(ts: seq<Tree>, i: nat, maximizing: bool)
    requires i < |ts| && forall k :: 0 <= k < |ts| ==> Branching(ts[k]) && Bounded(ts[k])
    decreases ts, 0, |ts| - i
    ensures -MaxScore <= BestOf(ts, i, maximizing) <= MaxScore
  {
    MinimaxBounded(ts[i], !maximizing);
    if i < |ts| - 1 {
      BestOfBounded(ts, i + 1, maximizing);
    }
  }

  /** The first index in ts[i..] whose subtree value is the best one. */
  function FirstBest(ts: seq<Tree>, i: nat, maximizing: bool): (j: nat)
    requires i < |ts| && forall k :: 0 <= k < |ts| ==> Branching(ts[k])
    decreases |ts| - i
    ensures i <= j < |ts|
    ensures Minimax(ts[j], !maximizing) == BestOf(ts, i, maximizing)
    ensures forall k :: i <= k < j ==> Minimax(ts[k], !maximizing) != BestOf(ts, i, maximizing)
  {
    if Minimax(ts[i], !maximizing) == BestOf(ts, i, maximizing) then i
    else FirstBest(ts, i + 1, maximizing)
  }

  // ---------------------------------------------------------------------
  // Alpha-beta search on a tree.
  // ---------------------------------------------------------------------

  /** A search answers a value and, at a node, the recommended move. */
  datatype Outcome = Outcome(value: int, move: Option<int>)

  /** The search of a tree: a leaf answers its score and recommends nothing;
      a node searches its branches with the first move as the fallback. */
  function AlphaBeta(t: Tree, alpha: int, beta: int, maximizing: bool): Outcome
    requires Branching(t)
    decreases t, 1
  {
    match t
    case Leaf(s) => Outcome(s, None)
    case Node(ms, ts) => SearchBranches(ms, ts, 0, alpha, beta, maximizing, ms[0])
  }

  /** The move loop from branch i on, with the current window and best move:
      each subtree is searched with the current window; a strictly better
      value tightens the window and records the move; the loop stops as soon
      as the window closes. A maximizing loop answers alpha, a minimizing one
      beta. */
  function SearchBranches(ms: seq<int>, ts: seq<Tree>, i: nat, alpha: int, beta: int, maximizing: bool, best: int): Outcome
    requires |ms| == |ts| && i <= |ts| && forall k :: 0 <= k < |ts| ==> Branching(ts[k])
    decreases ts, 0, |ts| - i
  {
    if i == |ts| then Outcome(if maximizing then alpha else beta, Some(best))
    else
      var eval := AlphaBeta(ts[i], alpha, beta, !maximizing).value;
      var improves := if maximizing then eval > alpha else eval < beta;
      var alpha' := if maximizing && improves then eval else alpha;
      var beta' := if !maximizing && improves then eval else beta;
      var best' := if improves then ms[i] else best;
      if beta' <= alpha' then Outcome(if maximizing then alpha' else beta', Some(best'))
      else SearchBranches(ms, ts, i + 1, alpha', beta', maximizing, best')
  }

  /** One turn of the move loop: the subtree's value updates the window
      and the best move, and the loop either stops or goes on with them. */
  lemma SearchBranchesStep(ms: seq<int>, ts: seq<Tree>, i: nat, alpha: int, beta: int, maximizing: bool, best: int, eval: int)
    requires |ms| == |ts| && i < |ts| && forall k :: 0 <= k < |ts| ==> Branching(ts[k])
    requires eval == AlphaBeta(ts[i], alpha, beta, !maximizing).value
    ensures var improves := if maximizing then eval > alpha else eval < beta;
      var alpha' := if maximizing && improves then eval else alpha;
      var beta' := if !maximizing && improves then eval else beta;
      var best' := if improves then ms[i] else best;
      SearchBranches(ms, ts, i, alpha, beta, maximizing, best)
        == if beta' <= alpha' then Outcome(if maximizing then alpha' else beta', Some(best'))
           else SearchBranches(ms, ts, i + 1, alpha', beta', maximizing, best')
  {
  }

  /** The loop answers a value on the mover's side of the window, and
      recommends either the fallback or one of the moves it looked at. */
  lemma {:induction false} SearchBranchesWithinWindow(ms: seq<int>, ts: seq<Tree>, i: nat, alpha: int, beta: int, maximizing: bool, best: int)
    requires |ms| == |ts| && i <= |ts| && forall k :: 0 <= k < |ts| ==> Branching(ts[k])
    decreases |ts| - i
    ensures var r := SearchBranches(ms, ts, i, alpha, beta, maximizing, best);
      && (maximizing ==> r.value >= alpha)
      && (!maximizing ==> r.value <= beta)
      && r.move.Some?
      && (r.move.value == best || exists k :: i <= k < |ts| && r.move.value == ms[k])
  {
    if i < |ts| {
      var eval := AlphaBeta(ts[i], alpha, beta, !maximizing).value;
      var improves := if maximizing then eval > alpha else eval < beta;
      var alpha' := if maximizing && improves then eval else alpha;
      var beta' := if !maximizing && improves then eval else beta;
      var best' := if improves then ms[i] else best;
      if beta' > alpha' {
        SearchBranchesWithinWindow(ms, ts, i + 1, alpha', beta', maximizing, best');
      }
    }
  }

  /** Fail-hard alpha-beta against plain minimax v, for any window with
      alpha < beta: the search answers v itself when v lies strictly inside
      the window, a value at most alpha when v is at most alpha, and a value
      at least beta when v is at least beta. */
  lemma {:induction false} AlphaBetaAgreesWithMinimax(t: Tree, alpha: int, beta: int, maximizing: bool)
    requires Branching(t) && alpha < beta
    decreases t, 1
    ensures var v := Minimax(t, maximizing);
      var r := AlphaBeta(t, alpha, beta, maximizing).value;
      && (v <= alpha ==> r <= alpha)
      && (alpha < v < beta ==> r == v)
      && (beta <= v ==> beta <= r)
  {
    if t.Node? {
      SearchBranchesAgreesWithBestOf(t.moves, t.kids, 0, alpha, beta, maximizing, t.moves[0]);
    }
  }

  /** The loop's version of the agreement: a maximizing loop answers
      Max(alpha, best subtree value) when that is below beta and at least
      beta otherwise; a minimizing loop is the mirror image. */
  lemma {:induction false} SearchBranchesAgreesWithBestOf(ms: seq<int>, ts: seq<Tree>, i: nat, alpha: int, beta: int, maximizing: bool, best: int)
    requires |ms| == |ts| && i < |ts| && forall k :: 0 <= k < |ts| ==> Branching(ts[k])
    requires alpha < beta
    decreases ts, 0, |ts| - i
    ensures var r := SearchBranches(ms, ts, i, alpha, beta, maximizing, best).value;
      var w := BestOf(ts, i, maximizing);
      if maximizing then
        (Max(alpha, w) < beta ==> r == Max(alpha, w)) && (beta <= Max(alpha, w) ==> beta <= r)
      else
        (alpha < Min(beta, w) ==> r == Min(beta, w)) && (Min(beta, w) <= alpha ==> r <= alpha)
  {
    AlphaBetaAgreesWithMinimax(ts[i], alpha, beta, !maximizing);
    var eval := AlphaBeta(ts[i], alpha, beta, !maximizing).value;
    var improves := if maximizing then eval > alpha else eval < beta;
    var alpha' := if maximizing && improves then eval else alpha;
    var beta' := if !maximizing && improves then eval else beta;
    var best' := if improves then ms[i] else best;
    if beta' > alpha' && i + 1 < |ts| {
      SearchBranchesAgreesWithBestOf(ms, ts, i + 1, alpha', beta', maximizing, best');
    }
  }

  /** A maximizing loop whose beta is Integer.MAX_VALUE never prunes a
      bounded tree: it answers Max(alpha, best subtree value) and recommends
      the first move reaching that value when it beats alpha, the fallback
      otherwise. */
  lemma {:induction false} SearchBranchesFindsFirstBest(ms: seq<int>, ts: seq<Tree>, i: nat, alpha: int, best: int)
    requires |ms| == |ts| && i < |ts| && forall k :: 0 <= k < |ts| ==> Branching(ts[k]) && Bounded(ts[k])
    requires alpha < MaxInt
    decreases |ts| - i
    ensures var r := SearchBranches(ms, ts, i, alpha, MaxInt, true, best);
      var w := BestOf(ts, i, true);
      r.value == Max(alpha, w) && r.move == Some(if w > alpha then ms[FirstBest(ts, i, true)] else best)
  {
    MinimaxBounded(ts[i], false);
    AlphaBetaAgreesWithMinimax(ts[i], alpha, MaxInt, false);
    var eval := AlphaBeta(ts[i], alpha, MaxInt, false).value;
    var alpha' := if eval > alpha then eval else alpha;
    var best' := if eval > alpha then ms[i] else best;
    if i + 1 < |ts| {
      SearchBranchesFindsFirstBest(ms, ts, i + 1, alpha', best');
    }
  }

  // ---------------------------------------------------------------------
  // What a search of a grid answers.
  // ---------------------------------------------------------------------

  /** The search of a grid as the recursion of minMax runs it: the static
      evaluation at the horizon or when the game is over, else the move loop
      over the legal columns with the first of them as the fallback. */
  function SearchGrid(g: seq<int>, depth: nat, alpha: int, beta: int, maximizing: bool): Outcome
    requires |g| == Size
    decreases depth, 1
  {
    if depth == 0 || Terminal(g) then Outcome(Evaluate(g), None)
    else
      NonTerminalHasMove(g);
      var ms := LegalMoves(g);
      SearchMoves(g, depth, ms, 0, alpha, beta, maximizing, ms[0])
  }

  /** The move loop of minMax from move i on: the grid after the side to
      move drops into ms[i] is searched one level shallower with the current
      window, and the window, the best move and the stop test are those of
      SearchBranches. */
  function SearchMoves(g: seq<int>, depth: nat, ms: seq<int>, i: nat, alpha: int, beta: int, maximizing: bool, best: int): Outcome
    requires |g| == Size && 0 < depth && i <= |ms|
    decreases depth, 0, |ms| - i
  {
    if i == |ms| then Outcome(if maximizing then alpha else beta, Some(best))
    else
      var eval := SearchGrid(Drop(g, ms[i], Player(maximizing)), depth - 1, alpha, beta, !maximizing).value;
      var improves := if maximizing then eval > alpha else eval < beta;
      var alpha' := if maximizing && improves then eval else alpha;
      var beta' := if !maximizing && improves then eval else beta;
      var best' := if improves then ms[i] else best;
      if beta' <= alpha' then Outcome(if maximizing then alpha' else beta', Some(best'))
      else SearchMoves(g, depth, ms, i + 1, alpha', beta', maximizing, best')
  }

  /** One turn of the move loop on a grid, given the value of the grid
      after the drop into ms[i]. */
  lemma SearchMovesStep(g: seq<int>, depth: nat, ms: seq<int>, i: nat, alpha: int, beta: int, maximizing: bool, best: int, eval: int)
    requires |g| == Size && 0 < depth && i < |ms|
    requires eval == SearchGrid(Drop(g, ms[i], Player(maximizing)), depth - 1, alpha, beta, !maximizing).value
    ensures var improves := if maximizing then eval > alpha else eval < beta;
      var alpha' := if maximizing && improves then eval else alpha;
      var beta' := if !maximizing && improves then eval else beta;
      var best' := if improves then ms[i] else best;
      SearchMoves(g, depth, ms, i, alpha, beta, maximizing, best)
        == if beta' <= alpha' then Outcome(if maximizing then alpha' else beta', Some(best'))
           else SearchMoves(g, depth, ms, i + 1, alpha', beta', maximizing, best')
  {
  }

  /** The recursion of minMax is the alpha-beta search of the grid's search
      tree. */
  lemma {:induction false} SearchGridIsAlphaBeta(g: seq<int>, depth: nat, alpha: int, beta: int, maximizing: bool)
    requires |g| == Size
    decreases depth, 1
    ensures SearchGrid(g, depth, alpha, beta, maximizing) == AlphaBeta(SearchTree(g, depth, maximizing), alpha, beta, maximizing)
  {
    if depth > 0 && !Terminal(g) {
      NonTerminalHasMove(g);
      var ms := LegalMoves(g);
      ChildrenAgreeInTree(g, depth, maximizing);
      SearchMovesIsSearchBranches(g, depth, ms, SearchTree(g, depth, maximizing).kids, 0, alpha, beta, maximizing, ms[0]);
    }
  }

  /** Below a node of the search tree, each subtree is searched as the grid
      it was built from. */
  lemma {:induction false} ChildrenAgreeInTree(g: seq<int>, depth: nat, maximizing: bool)
    requires |g| == Size && 0 < depth && !Terminal(g)
    decreases depth, 0
    ensures ChildrenAgree(g, depth, LegalMoves(g), SearchTree(g, depth, maximizing).kids, Player(maximizing), !maximizing)
  {
    var ms := LegalMoves(g);
    var t := SearchTree(g, depth, maximizing);
    var mover, next := Player(maximizing), !maximizing;
    forall k, a, b | 0 <= k < |t.kids|
      ensures SearchGrid(Drop(g, ms[k], mover), depth - 1, a, b, next) == AlphaBeta(t.kids[k], a, b, next)
    {
      SearchTreeChild(g, depth, maximizing, k);
      SearchGridIsAlphaBeta(Drop(g, ms[k], mover), depth - 1, a, b, next);
    }
  }

  /** Subtree k is searched exactly as the grid after mover drops into
      ms[k], one level shallower with next to move, whatever the window. */
  ghost predicate ChildrenAgree(g: seq<int>, depth: nat, ms: seq<int>, ts: seq<Tree>, mover: int, next: bool)
    requires |g| == Size && 0 < depth
  {
    && |ms| == |ts| && (forall k :: 0 <= k < |ts| ==> Branching(ts[k]))
    && forall k, a, b :: 0 <= k < |ts| ==>
         SearchGrid(Drop(g, ms[k], mover), depth - 1, a, b, next) == AlphaBeta(ts[k], a, b, next)
  }

  /** When every subtree is searched as its grid is, the move loop of
      minMax over the grid and the move loop over the subtrees agree. */
  lemma {:induction false} SearchMovesIsSearchBranches(g: seq<int>, depth: nat, ms: seq<int>, ts: seq<Tree>, i: nat,
                                                       alpha: int, beta: int, maximizing: bool, best: int)
    requires |g| == Size && 0 < depth && i <= |ms| && ChildrenAgree(g, depth, ms, ts, Player(maximizing), !maximizing)
    decreases |ms| - i
    ensures SearchMoves(g, depth, ms, i, alpha, beta, maximizing, best) == SearchBranches(ms, ts, i, alpha, beta, maximizing, best)
  {
    if i < |ms| {
      var eval := SearchGrid(Drop(g, ms[i], Player(maximizing)), depth - 1, alpha, beta, !maximizing).value;
      assert eval == AlphaBeta(ts[i], alpha, beta, !maximizing).value;
      SearchBranchesStep(ms, ts, i, alpha, beta, maximizing, best, eval);
      SearchMovesStep(g, depth, ms, i, alpha, beta, maximizing, best, eval);
      var improves := if maximizing then eval > alpha else eval < beta;
      var alpha' := if maximizing && improves then eval else alpha;
      var beta' := if !maximizing && improves then eval else beta;
      var best' := if improves then ms[i] else best;
      if beta' > alpha' {
        SearchMovesIsSearchBranches(g, depth, ms, ts, i + 1, alpha', beta', maximizing, best');
      }
    }
  }

  /** At the horizon or when the game is over the search answers the static
      evaluation and recommends nothing; otherwise it recommends a legal
      column and its value is at least the incoming alpha when maximizing and
      at most the incoming beta when minimizing. */
  lemma SearchGridOutcome(g: seq<int>, depth: nat, alpha: int, beta: int, maximizing: bool)
    requires |g| == Size
    ensures var r := SearchGrid(g, depth, alpha, beta, maximizing);
      && (depth == 0 || Terminal(g) ==> r == Outcome(Evaluate(g), None))
      && (depth > 0 && !Terminal(g) ==>
            && r.move.Some? && r.move.value in LegalMoves(g)
            && (maximizing ==> r.value >= alpha)
            && (!maximizing ==> r.value <= beta))
  {
    SearchGridIsAlphaBeta(g, depth, alpha, beta, maximizing);
    var t := SearchTree(g, depth, maximizing);
    if t.Node? {
      SearchBranchesWithinWindow(t.moves, t.kids, 0, alpha, beta, maximizing, t.moves[0]);
    }
  }

  /** A root search, with the window Integer.MIN_VALUE .. Integer.MAX_VALUE,
      answers exactly the plain minimax value of the same tree. */
  lemma RootSearchIsMinimax(g: seq<int>, depth: nat, maximizing: bool)
    requires |g| == Size
    ensures SearchGrid(g, depth, MinInt, MaxInt, maximizing).value == Minimax(SearchTree(g, depth, maximizing), maximizing)
  {
    SearchGridIsAlphaBeta(g, depth, MinInt, MaxInt, maximizing);
    var t := SearchTree(g, depth, maximizing);
    MinimaxBounded(t, maximizing);
    AlphaBetaAgreesWithMinimax(t, MinInt, MaxInt, maximizing);
  }

  /** A maximizing search of a bounded node with the root window
      recommends the first move whose subtree has the node's minimax value:
      every earlier subtree has a strictly smaller value. */
  lemma RootMoveOfTree(t: Tree)
    requires Branching(t) && Bounded(t) && t.Node?
    ensures var v := Minimax(t, true);
      exists j :: 0 <= j < |t.moves|
        && AlphaBeta(t, MinInt, MaxInt, true).move == Some(t.moves[j])
        && Minimax(t.kids[j], false) == v
        && forall k :: 0 <= k < j ==> Minimax(t.kids[k], false) < v
  {
    var ms, ts := t.moves, t.kids;
    SearchBranchesFindsFirstBest(ms, ts, 0, MinInt, ms[0]);
    BestOfIsExtreme(ts, 0, true);
    BestOfBounded(ts, 0, true);
    var j := FirstBest(ts, 0, true);
    assert AlphaBeta(t, MinInt, MaxInt, true).move == Some(ms[j]);
  }

  /** A maximizing root search of a live position recommends the first legal
      column, in ascending order, whose subtree has the root's minimax value:
      every earlier legal column leads to a strictly smaller value. */
  lemma RootMoveIsFirstBest(g: seq<int>, depth: nat)
    requires |g| == Size && 0 < depth && !Terminal(g)
    ensures var t := SearchTree(g, depth, true);
      var v := Minimax(t, true);
      exists j :: 0 <= j < |LegalMoves(g)|
        && SearchGrid(g, depth, MinInt, MaxInt, true).move == Some(LegalMoves(g)[j])
        && Minimax(t.kids[j], false) == v
        && forall k :: 0 <= k < j ==> Minimax(t.kids[k], false) < v
  {
    SearchGridIsAlphaBeta(g, depth, MinInt, MaxInt, true);
    RootMoveOfTree(SearchTree(g, depth, true));
  }
}

/** Line patterns on the grid: the win/tie detector and the additive
    pattern-count heuristic. Both look, from every cell, along four
    directions: right (1, 0), down (0, 1), down-left (-1, 1) and
    down-right (1, 1), which together cover rows, columns and both
    diagonals once each. */
module Evaluation {
  import opened Grid

  const Tie := -1

  /** Points for one origin and direction: a 2-run, a 3-run and a 4-run are
      counted cumulatively, so a completed four is worth 5 + 10 + 1000. */
  const PointsForTwo := 5
  const PointsForThree := 10
  const PointsForFour := 1000
  /** At most four completed fours start at one cell: 4 * 1015. */
  const MaxCellScore := 4060
  /** No player can score more than every cell with every direction complete: 42 * 4060. */
  const MaxScore := 170520

  /** The cell at (x, y) is occupied and the next n-1 cells along (dx, dy)
      hold the same value; reads off the grid never match. */
  predicate Run(g: seq<int>, x: int, y: int, dx: int, dy: int, n: int)
    requires |g| == Size
  {
    var p := Piece(g, x, y);
    p != Empty && p == Piece(g, x + dx, y + dy)
    && (n <= 2 || p == Piece(g, x + 2 * dx, y + 2 * dy))
    && (n <= 3 || p == Piece(g, x + 3 * dx, y + 3 * dy))
  }

  /** Four in a row starts at (x, y) in one of the four directions. */
  predicate StartsFour(g: seq<int>, x: int, y: int)
    requires |g| == Size
  {
    Run(g, x, y, 1, 0, 4) || Run(g, x, y, 0, 1, 4) || Run(g, x, y, -1, 1, 4) || Run(g, x, y, 1, 1, 4)
  }

  ghost predicate HasFour(g: seq<int>)
    requires |g| == Size
  {
    exists x, y :: InGrid(x, y) && StartsFour(g, x, y)
  }

  ghost predicate HasFourOf(g: seq<int>, p: int)
    requires |g| == Size
  {
    exists x, y :: InGrid(x, y) && StartsFour(g, x, y) && Piece(g, x, y) == p
  }

  /** (x, y) comes at or after (x0, y0) in the row-by-row scan order. */
  predicate NotBefore(x: int, y: int, x0: int, y0: int)
  {
    y > y0 || (y == y0 && x >= x0)
  }

  /** The owner of the first four met scanning rows top to bottom and each
      row left to right from (x, y); 0 when there is none. */
  function FirstFour(g: seq<int>, x: int, y: int): int
    requires |g| == Size && 0 <= x <= Width && 0 <= y <= Height
    decreases |g| - y, Width - x
  {
    if y == Height then Empty
    else if x == Width then FirstFour(g, 0, y + 1)
    else if StartsFour(g, x, y) then Piece(g, x, y)
    else FirstFour(g, x + 1, y)
  }

  /** The scan answers the owner of a four that starts at or after (x, y),
      and answers 0 only when no four starts there. */
  lemma {:induction false} FirstFourMeaning(g: seq<int>, x: int, y: int)
    requires |g| == Size && 0 <= x <= Width && 0 <= y <= Height
    decreases |g| - y, Width - x
    ensures var r := FirstFour(g, x, y);
      && (r != Empty ==> exists cx, cy :: InGrid(cx, cy) && NotBefore(cx, cy, x, y) && StartsFour(g, cx, cy) && Piece(g, cx, cy) == r)
      && (r == Empty ==> forall cx, cy :: InGrid(cx, cy) && NotBefore(cx, cy, x, y) ==> !StartsFour(g, cx, cy))
  {
    if y < Height {
      if x == Width {
        FirstFourMeaning(g, 0, y + 1);
      } else if !StartsFour(g, x, y) {
        FirstFourMeaning(g, x + 1, y);
      }
    }
  }

  /** The result of the win/tie detector for a grid and a move counter:
      the winner, else Tie when the counter says the grid is full, else 0. */
  function Status(g: seq<int>, moves: int): (r: int)
    requires |g| == Size
    ensures r == Empty ==> moves != Size
  {
    var w := FirstFour(g, 0, 0);
    if w != Empty then w else if moves == Size then Tie else Empty
  }

  /** Without any assumption on the cells: the detector answers 0 exactly
      when there is no four and the counter is not 42, names the owner of a
      four when there is one, and answers Tie otherwise. */
  lemma StatusWithoutFour(g: seq<int>, moves: int)
    requires |g| == Size
    ensures Status(g, moves) == Empty <==> !HasFour(g) && moves != Size
    ensures HasFour(g) ==> HasFourOf(g, Status(g, moves))
    ensures !HasFour(g) ==> (Status(g, moves) == Tie <==> moves == Size)
  {
    FirstFourMeaning(g, 0, 0);
  }

  /** On a grid of valid cells the detector answers a player exactly when
      there is a four, Tie exactly when there is none and the board is full,
      and 0 otherwise. */
  lemma StatusMeaning(g: seq<int>, moves: int)
    requires |g| == Size && CellsValid(g)
    ensures IsPlayer(Status(g, moves)) <==> HasFour(g)
    ensures IsPlayer(Status(g, moves)) ==> HasFourOf(g, Status(g, moves))
    ensures Status(g, moves) == Tie <==> !HasFour(g) && moves == Size
    ensures Status(g, moves) == Empty <==> !HasFour(g) && moves != Size
  {
    StatusWithoutFour(g, moves);
    if HasFour(g) {
      var r := Status(g, moves);
      var cx, cy :| InGrid(cx, cy) && StartsFour(g, cx, cy) && Piece(g, cx, cy) == r;
      PieceMeaning(g, cx, cy);
    }
  }

  // ---------------------------------------------------------------------
  // The heuristic.
  // ---------------------------------------------------------------------

  /** The points of the run starting at (x, y) along (dx, dy): 0 without
      a 2-run, and 5, 15 or 1015 as the run reaches two, three or four. */
  function Points(g: seq<int>, x: int, y: int, dx: int, dy: int): nat
    requires |g| == Size
  {
    (if Run(g, x, y, dx, dy, 2) then PointsForTwo else 0)
    + (if Run(g, x, y, dx, dy, 3) then PointsForThree else 0)
    + (if Run(g, x, y, dx, dy, 4) then PointsForFour else 0)
  }

  /** The weights are cumulative: a direction earns nothing without a run of
      two, and otherwise 5, 15 or 1015. */
  lemma PointsValues(g: seq<int>, x: int, y: int, dx: int, dy: int)
    requires |g| == Size
    ensures Points(g, x, y, dx, dy) > 0 <==> Run(g, x, y, dx, dy, 2)
    ensures var r := Points(g, x, y, dx, dy);
      r == 0 || r == PointsForTwo || r == PointsForTwo + PointsForThree || r == PointsForTwo + PointsForThree + PointsForFour
  {
  }

  /** What the cell at (x, y) contributes to player p's score. */
  function CellScore(g: seq<int>, x: int, y: int, p: int): (r: nat)
    requires |g| == Size
    ensures r <= MaxCellScore
  {
    if Piece(g, x, y) == p
    then Points(g, x, y, 1, 0) + Points(g, x, y, 0, 1) + Points(g, x, y, -1, 1) + Points(g, x, y, 1, 1)
    else 0
  }

  /** The number of cells at or after (x, y) in scan order. */
  function CellsLeft(x: int, y: int): int
  {
    (Height - y) * 7 - x
  }

  /** The sum of the cell scores of p over the cells at or after (x, y). */
  function ScoreFrom(g: seq<int>, p: int, x: int, y: int): (r: nat)
    requires |g| == Size && 0 <= x <= Width && 0 <= y <= Height && (y == Height ==> x == 0)
    decreases |g| - y, Width - x
    ensures r <= 4060 * CellsLeft(x, y)
  {
    if y == Height then 0
    else if x == Width then ScoreFrom(g, p, 0, y + 1)
    else CellScore(g, x, y, p) + ScoreFrom(g, p, x + 1, y)
  }

  /** What getScore adds up for p: never more than MaxScore, far inside
      the 32-bit range. */
  function Score(g: seq<int>, p: int): (r: nat)
    requires |g| == Size
    ensures r <= MaxScore
  {
    ScoreFrom(g, p, 0, 0)
  }

  /** The static evaluation: positive is good for the computer. It lies in
      [-MaxScore, MaxScore], so it cannot overflow a Java int. */
  function Evaluate(g: seq<int>): (r: int)
    requires |g| == Size
    ensures -MaxScore <= r <= MaxScore
  {
    Score(g, Cpu) - Score(g, Human)
  }

  /** A completed four, from its origin and direction, is worth 1015. */
  lemma FourIsWorth(g: seq<int>, x: int, y: int, dx: int, dy: int)
    requires |g| == Size && Run(g, x, y, dx, dy, 4)
    ensures Points(g, x, y, dx, dy) == PointsForTwo + PointsForThree + PointsForFour
  {
  }

  /** The score over a suffix of the scan covers every cell in that suffix. */
  lemma {:induction false} ScoreFromCoversCell(g: seq<int>, p: int, x: int, y: int, cx: int, cy: int)
    requires |g| == Size && 0 <= x <= Width && 0 <= y <= Height && (y == Height ==> x == 0)
    requires InGrid(cx, cy) && NotBefore(cx, cy, x, y)
    decreases |g| - y, Width - x
    ensures ScoreFrom(g, p, x, y) >= CellScore(g, cx, cy, p)
  {
    if x == Width {
      ScoreFromCoversCell(g, p, 0, y + 1, cx, cy);
    } else if cx != x || cy != y {
      ScoreFromCoversCell(g, p, x + 1, y, cx, cy);
    }
  }

  /** A player owning a four scores at least 1015. */
  lemma FourScoresHigh(g: seq<int>, p: int)
    requires |g| == Size && HasFourOf(g, p)
    ensures Score(g, p) >= PointsForTwo + PointsForThree + PointsForFour
  {
    var x, y :| InGrid(x, y) && StartsFour(g, x, y) && Piece(g, x, y) == p;
    ScoreFromCoversCell(g, p, 0, 0, x, y);
  }

  /** Nobody scores anything on a grid without pieces. */
  lemma {:induction false} ScoreFromEmpty(g: seq<int>, p: int, x: int, y: int)
    requires |g| == Size && 0 <= x <= Width && 0 <= y <= Height && (y == Height ==> x == 0)
    requires forall i :: 0 <= i < Size ==> g[i] == Empty
    decreases |g| - y, Width - x
    ensures ScoreFrom(g, p, x, y) == 0
  {
    if y < Height {
      if x == Width {
        ScoreFromEmpty(g, p, 0, y + 1);
      } else {
        assert Piece(g, x, y) == Empty;
        ScoreFromEmpty(g, p, x + 1, y);
      }
    }
  }

  /** No four exists on a grid without pieces. */
  lemma NoFourWithoutPieces(g: seq<int>)
    requires |g| == Size && forall i :: 0 <= i < Size ==> g[i] == Empty
    ensures !HasFour(g)
  {
    forall x, y | InGrid(x, y) ensures !StartsFour(g, x, y) {
      assert Piece(g, x, y) == g[Index(x, y)] == Empty;
    }
  }

  /** On a grid without pieces both players score 0 and, with a move
      counter of 0, the game is in progress. */
  lemma NoPiecesEvaluatesToZero(g: seq<int>)
    requires |g| == Size && forall i :: 0 <= i < Size ==> g[i] == Empty
    ensures Score(g, Cpu) == 0 && Score(g, Human) == 0 && Evaluate(g) == 0
    ensures Status(g, 0) == Empty
  {
    ScoreFromEmpty(g, Cpu, 0, 0);
    ScoreFromEmpty(g, Human, 0, 0);
    NoFourWithoutPieces(g);
    StatusWithoutFour(g, 0);
  }

  // ---------------------------------------------------------------------
  // Swapping the colours.
  // ---------------------------------------------------------------------

  /** The other colour of a player; every other value is kept. */
  function Opponent(v: int): (w: int)
    ensures IsPlayer(v) ==> IsPlayer(w) && w != v
    ensures !IsPlayer(v) ==> w == v
  {
    if v == Human then Cpu else if v == Cpu then Human else v
  }

  /** The grid with every human piece replaced by a computer piece and
      every computer piece by a human one. */
  function SwapColours(g: seq<int>): (r: seq<int>)
    ensures |r| == |g|
  {
    seq(|g|, i requires 0 <= i < |g| => Opponent(g[i]))
  }

  /** A read of the swapped grid is the other colour of the same read. */
  lemma PieceSwapped(g: seq<int>, x: int, y: int)
    requires |g| == Size
    ensures Piece(SwapColours(g), x, y) == Opponent(Piece(g, x, y))
  {
  }

  /** The runs of the swapped grid are the runs of the grid. */
  lemma RunSwapped(g: seq<int>, x: int, y: int, dx: int, dy: int, n: int)
    requires |g| == Size
    ensures Run(SwapColours(g), x, y, dx, dy, n) <==> Run(g, x, y, dx, dy, n)
  {
    PieceSwapped(g, x, y);
    PieceSwapped(g, x + dx, y + dy);
    PieceSwapped(g, x + 2 * dx, y + 2 * dy);
    PieceSwapped(g, x + 3 * dx, y + 3 * dy);
  }

  /** Each direction earns the same points on the swapped grid. */
  lemma PointsSwapped(g: seq<int>, x: int, y: int, dx: int, dy: int)
    requires |g| == Size
    ensures Points(SwapColours(g), x, y, dx, dy) == Points(g, x, y, dx, dy)
  {
    RunSwapped(g, x, y, dx, dy, 2);
    RunSwapped(g, x, y, dx, dy, 3);
    RunSwapped(g, x, y, dx, dy, 4);
  }

  /** A cell scores for p on the swapped grid what it scores for p's
      opponent on the grid. */
  lemma CellScoreSwapped(g: seq<int>, x: int, y: int, p: int)
    requires |g| == Size
    ensures CellScore(SwapColours(g), x, y, p) == CellScore(g, x, y, Opponent(p))
  {
    PieceSwapped(g, x, y);
    PointsSwapped(g, x, y, 1, 0);
    PointsSwapped(g, x, y, 0, 1);
    PointsSwapped(g, x, y, -1, 1);
    PointsSwapped(g, x, y, 1, 1);
  }

  lemma {:induction false} ScoreFromSwapped(g: seq<int>, p: int, x: int, y: int)
    requires |g| == Size && 0 <= x <= Width && 0 <= y <= Height && (y == Height ==> x == 0)
    decreases |g| - y, Width - x
    ensures ScoreFrom(SwapColours(g), p, x, y) == ScoreFrom(g, Opponent(p), x, y)
  {
    if y < Height {
      if x == Width {
        ScoreFromSwapped(g, p, 0, y + 1);
      } else {
        CellScoreSwapped(g, x, y, p);
        ScoreFromSwapped(g, p, x + 1, y);
      }
    }
  }

  /** The evaluation is antisymmetric: swapping the colours negates it. */
  lemma EvaluateAntisymmetric(g: seq<int>)
    requires |g| == Size
    ensures Score(SwapColours(g), Cpu) == Score(g, Human)
    ensures Score(SwapColours(g), Human) == Score(g, Cpu)
    ensures Evaluate(SwapColours(g)) == -Evaluate(g)
  {
    ScoreFromSwapped(g, Cpu, 0, 0);
    ScoreFromSwapped(g, Human, 0, 0);
  }

  lemma {:induction false} FirstFourSwapped(g: seq<int>, x: int, y: int)
    requires |g| == Size && 0 <= x <= Width && 0 <= y <= Height
    decreases |g| - y, Width - x
    ensures FirstFour(SwapColours(g), x, y) == Opponent(FirstFour(g, x, y))
  {
    if y < Height {
      if x == Width {
        FirstFourSwapped(g, 0, y + 1);
      } else {
        PieceSwapped(g, x, y);
        RunSwapped(g, x, y, 1, 0, 4);
        RunSwapped(g, x, y, 0, 1, 4);
        RunSwapped(g, x, y, -1, 1, 4);
        RunSwapped(g, x, y, 1, 1, 4);
        if !StartsFour(g, x, y) {
          FirstFourSwapped(g, x + 1, y);
        }
      }
    }
  }

  /** Swapping the colours swaps the winner and keeps a tie or a game in
      progress. */
  lemma StatusSwapped(g: seq<int>, moves: int)
    requires |g| == Size
    ensures Status(SwapColours(g), moves) == Opponent(Status(g, moves))
  {
    FirstFourSwapped(g, 0, 0);
  }
}

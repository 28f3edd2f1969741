/** The Connect Four board object: a 42-cell array updated in place, the move
    counter, the player who moved last and the computer's recommended column.
    Each method is proved against the grid functions of Grid, Evaluation and
    Search, applied to the array's contents. */
module ConnectFour {
  import opened Wrappers
  import opened Grid
  import opened Evaluation
  import opened Search

  /** What minMax hands back: an evaluation, or the IllegalArgumentException
      it throws for a negative depth. */
  datatype MinMaxResult = Evaluated(value: int) | IllegalArgument

  class ConnectFourBoard {
    const board: array<int>
    var totalMoves: int
    var previousPlayer: int
    var nextCPUMove: int

    /** The board holds a settled grid of valid cells, the counter equals the
        number of pieces, and the last mover is a player. */
    ghost predicate Valid()
      reads this`totalMoves, this`previousPlayer, board
    {
      board.Length == Size && WellFormed(board[..]) && totalMoves == Occupied(board[..])
      && IsPlayer(previousPlayer)
    }

    /** A new game: an empty board, no moves, and the computer as the last
        mover, so that the human moves first. */
    constructor ()
      ensures Valid() && fresh(board)
      ensures forall i :: 0 <= i < Size ==> board[i] == Empty
      ensures totalMoves == 0 && previousPlayer == Cpu && nextCPUMove == 0
    {
      board := new int[Size](i => Empty);
      totalMoves := 0;
      previousPlayer := Cpu;
      nextCPUMove := 0;
      new;
      EmptyGridOccupiedNone(board[..]);
    }

    /** The bounds-checked read of cell (x, y). */
    function GetPiece(x: int, y: int): (r: int)
      reads board
      requires board.Length == Size
      ensures r == Piece(board[..], x, y)
    {
      if x < 0 || x >= Width || y < 0 || y >= Height then OutOfBounds else board[y * Width + x]
    }

    /** Drops player's piece into column: scans the column from the bottom
        row up and fills the first empty cell. */
    method DropPiece(column: int, player: int) returns (ok: bool)
      requires Valid() && IsPlayer(player)
      modifies this`totalMoves, board
      ensures Valid()
      ensures ok <==> HasRoom(old(board[..]), column)
      ensures board[..] == Drop(old(board[..]), column, player)
      ensures totalMoves == old(totalMoves) + (if ok then 1 else 0)
    {
      var y := Height - 1;
      while y >= 0
        invariant -1 <= y < Height
        invariant board[..] == old(board[..]) && totalMoves == old(totalMoves)
        invariant LowestEmptyFrom(board[..], column, y) == LowestEmpty(board[..], column)
        decreases y + 1
      {
        if GetPiece(column, y) == Empty {
          ghost var g := board[..];
          DropKeepsWellFormed(g, column, player);
          board[y * Width + column] := player;
          totalMoves := totalMoves + 1;
          assert board[..] == Drop(g, column, player);
          return true;
        }
        y := y - 1;
      }
      return false;
    }

    /** Clears the top piece of column: scans the column from the top row
        down and empties the first occupied cell. */
    method RemovePiece(column: int) returns (ok: bool)
      requires Valid() && 0 <= column < Width
      modifies this`totalMoves, board
      ensures Valid()
      ensures ok <==> Topmost(old(board[..]), column).Some?
      ensures board[..] == Remove(old(board[..]), column)
      ensures totalMoves == old(totalMoves) - (if ok then 1 else 0)
    {
      var y := 0;
      while y < Height
        invariant 0 <= y <= Height
        invariant board[..] == old(board[..]) && totalMoves == old(totalMoves)
        invariant TopmostFrom(board[..], column, y) == Topmost(board[..], column)
      {
        if GetPiece(column, y) != Empty {
          ghost var g := board[..];
          RemoveKeepsWellFormed(g, column);
          board[y * Width + column] := Empty;
          totalMoves := totalMoves - 1;
          assert board[..] == Remove(g, column);
          return true;
        }
        y := y + 1;
      }
      return false;
    }

    /** Hands the turn over: the player who did not move last is next, and is
        recorded as the last mover. */
    method GetNextPlayer() returns (next: int)
      modifies this`previousPlayer
      ensures next == previousPlayer
      ensures next == if old(previousPlayer) == Human then Cpu else Human
      ensures IsPlayer(next) && (IsPlayer(old(previousPlayer)) ==> next != old(previousPlayer))
    {
      previousPlayer := if previousPlayer == Human then Cpu else Human;
      next := previousPlayer;
    }

    /** The win/tie detector: scans origins row by row, and from each origin
        the row, the column and both diagonals. */
    method CheckWin() returns (r: int)
      requires board.Length == Size
      ensures r == Status(board[..], totalMoves)
    {
      ghost var g := board[..];
      var y := 0;
      while y < Height
        invariant 0 <= y <= Height
        invariant FirstFour(g, 0, y) == FirstFour(g, 0, 0)
      {
        var x := 0;
        while x < Width
          invariant 0 <= x <= Width
          invariant FirstFour(g, x, y) == FirstFour(g, 0, 0)
        {
          var p := GetPiece(x, y);
          if p != Empty && p == GetPiece(x + 1, y) && p == GetPiece(x + 2, y) && p == GetPiece(x + 3, y) {
            return p;
          }
          if p != Empty && p == GetPiece(x, y + 1) && p == GetPiece(x, y + 2) && p == GetPiece(x, y + 3) {
            return p;
          }
          var d := -1;
          while d <= 1
            invariant d == -1 || d == 1 || d == 3
            invariant d >= 1 ==> !Run(g, x, y, -1, 1, 4)
            invariant d == 3 ==> !Run(g, x, y, 1, 1, 4)
          {
            if p != Empty && p == GetPiece(x + 1 * d, y + 1) && p == GetPiece(x + 2 * d, y + 2) && p == GetPiece(x + 3 * d, y + 3) {
              return p;
            }
            d := d + 2;
          }
          x := x + 1;
        }
        y := y + 1;
      }
      return if totalMoves == Size then Tie else Empty;
    }

    /** The static evaluation: the computer's score minus the human's. */
    method EvaluateScore() returns (r: int)
      requires board.Length == Size
      ensures r == Evaluate(board[..])
    {
      var cpu := GetScore(Cpu);
      var human := GetScore(Human);
      r := cpu - human;
    }

    /** The points of one origin and direction: 5 for a run of two, 10 more
        for a run of three and 1000 more for a run of four, counting from the
        piece at (x, y) along (dx, dy). */
    method DirectionPoints(x: int, y: int, dx: int, dy: int) returns (points: int)
      requires board.Length == Size
      ensures points == Points(board[..], x, y, dx, dy)
    {
      var p := GetPiece(x, y);
      points := 0;
      if p != Empty && p == GetPiece(x + 1 * dx, y + 1 * dy) { points := points + 5; }
      if p != Empty && p == GetPiece(x + 1 * dx, y + 1 * dy) && p == GetPiece(x + 2 * dx, y + 2 * dy) { points := points + 10; }
      if p != Empty && p == GetPiece(x + 1 * dx, y + 1 * dy) && p == GetPiece(x + 2 * dx, y + 2 * dy) && p == GetPiece(x + 3 * dx, y + 3 * dy) {
        points := points + 1000;
      }
    }

    /** The pattern score of player: from every cell holding player's piece,
        the points of the row, the column and both diagonals. */
    method GetScore(player: int) returns (score: int)
      requires board.Length == Size
      ensures score == Score(board[..], player)
    {
      ghost var g := board[..];
      score := 0;
      var y := 0;
      while y < Height
        invariant 0 <= y <= Height
        invariant score + ScoreFrom(g, player, 0, y) == Score(g, player)
      {
        var x := 0;
        while x < Width
          invariant 0 <= x <= Width
          invariant score + ScoreFrom(g, player, x, y) == Score(g, player)
        {
          ghost var before := score;
          var p := GetPiece(x, y);
          if p == player {
            var row := DirectionPoints(x, y, 1, 0);
            var column := DirectionPoints(x, y, 0, 1);
            score := score + row + column;
            var d := -1;
            while d <= 1
              invariant d == -1 || d == 1 || d == 3
              invariant score == before + row + column
                + (if d >= 1 then Points(g, x, y, -1, 1) else 0) + (if d == 3 then Points(g, x, y, 1, 1) else 0)
            {
              var diagonal := DirectionPoints(x, y, d, 1);
              score := score + diagonal;
              d := d + 2;
            }
          }
          assert score == before + CellScore(g, x, y, player);
          x := x + 1;
        }
        y := y + 1;
      }
    }

    /** The legal columns, found by dropping a computer piece into every
        column in turn and taking it out again; the board ends as it began. */
    method GetPossibleMoves() returns (moves: seq<int>)
      requires Valid()
      modifies this`totalMoves, board
      ensures Valid() && board[..] == old(board[..]) && totalMoves == old(totalMoves)
      ensures moves == LegalMoves(board[..])
    {
      moves := [];
      var i := 0;
      while i < Width
        invariant 0 <= i <= Width
        invariant Valid() && board[..] == old(board[..]) && totalMoves == old(totalMoves)
        invariant moves == LegalBelow(board[..], i)
      {
        ghost var g := board[..];
        var dropped := DropPiece(i, Cpu);
        if dropped {
          moves := moves + [i];
          RemoveUndoesDrop(g, i, Cpu);
          var _ := RemovePiece(i);
        }
        i := i + 1;
      }
    }

    /** The body of the move loop of minMax: drops the mover's piece into
        column m, searches the resulting position one level shallower with
        the other side to move, and takes the piece out again. */
    method ProbeMove(ghost g: seq<int>, m: int, depth: int, alpha: int, beta: int, maximizing: bool) returns (eval: int)
      requires Valid() && board[..] == g && 0 < depth && HasRoom(g, m)
      modifies this`totalMoves, this`nextCPUMove, board
      decreases depth, 0
      ensures Valid() && board[..] == g && totalMoves == old(totalMoves)
      ensures eval == SearchGrid(Drop(g, m, Player(maximizing)), depth - 1, alpha, beta, !maximizing).value
    {
      var _ := DropPiece(m, Player(maximizing));
      var r := MinMax(Drop(g, m, Player(maximizing)), depth - 1, alpha, beta, !maximizing);
      RemoveUndoesDrop(g, m, Player(maximizing));
      var _ := RemovePiece(m);
      eval := r.value;
    }

    /** Depth-limited minimax with alpha-beta pruning from the current
        position. A negative depth is an illegal argument. Otherwise the
        answer is the value of the pruned search of the board's search tree,
        the recommended column is stored when the position is searched
        further (it is left alone at the horizon or when the game is over),
        and the board and the counter end as they began. */
    method MinMax(ghost g: seq<int>, depth: int, alpha: int, beta: int, maximizing: bool) returns (r: MinMaxResult)
      requires Valid() && board[..] == g
      modifies this`totalMoves, this`nextCPUMove, board
      decreases depth, 1
      ensures Valid() && board[..] == g && totalMoves == old(totalMoves)
      ensures depth < 0 ==> r == IllegalArgument && nextCPUMove == old(nextCPUMove)
      ensures depth >= 0 ==>
        var s := SearchGrid(g, depth, alpha, beta, maximizing);
        r == Evaluated(s.value) && nextCPUMove == (if s.move.Some? then s.move.value else old(nextCPUMove))
    {
      if depth < 0 {
        return IllegalArgument;
      }
      var status := CheckWin();
      if depth == 0 || status != Empty {
        var e := EvaluateScore();
        return Evaluated(e);
      }
      var moves := GetPossibleMoves();
      NonTerminalHasMove(g);
      ghost var goal := SearchGrid(g, depth, alpha, beta, maximizing);
      assert goal == SearchMoves(g, depth, moves, 0, alpha, beta, maximizing, moves[0]);
      var bestMove := moves[0];
      var a, b := alpha, beta;
      var i := 0;
      while i < |moves|
        invariant 0 <= i <= |moves|
        invariant Valid() && board[..] == g && totalMoves == old(totalMoves)
        invariant SearchMoves(g, depth, moves, i, a, b, maximizing, bestMove) == goal
      {
        var m := moves[i];
        var eval := ProbeMove(g, m, depth, a, b, maximizing);
        SearchMovesStep(g, depth, moves, i, a, b, maximizing, bestMove, eval);
        if maximizing {
          if eval > a {
            a := eval;
            bestMove := m;
          }
        } else {
          if eval < b {
            b := eval;
            bestMove := m;
          }
        }
        if b <= a {
          break;
        }
        i := i + 1;
      }
      nextCPUMove := bestMove;
      return Evaluated(if maximizing then a else b);
    }
  }
}

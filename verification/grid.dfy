/** The Connect Four grid as a value.

    The board is a flat sequence of 42 cells, 7 columns wide and 6 rows high,
    where cell (x, y) is stored at index y * 7 + x. Row 0 is the top row and
    row 5 the bottom row, so pieces fall towards larger y. A cell holds 0
    (empty), 1 (the human player) or 2 (the computer). Every operation on the
    board object is specified by a function of this module. */
module Grid {
  import opened Wrappers

  const Width := 7
  const Height := 6
  const Size := 42

  const Empty := 0
  const Human := 1
  const Cpu := 2
  /** What a read outside the grid yields. */
  const OutOfBounds := -1

  predicate IsPlayer(p: int) { p == Human || p == Cpu }

  predicate IsCell(v: int) { v == Empty || IsPlayer(v) }

  predicate InGrid(x: int, y: int) { 0 <= x < Width && 0 <= y < Height }

  function Index(x: int, y: int): (i: nat)
    requires InGrid(x, y)
    ensures i < Size
  {
    y * 7 + x
  }

  lemma IndexInjective(x: int, y: int, x': int, y': int)
    requires InGrid(x, y) && InGrid(x', y')
    ensures Index(x, y) == Index(x', y') <==> x == x' && y == y'
  {
  }

  /** Writing one cell changes what a read of that cell gives and nothing else. */
  lemma PieceAfterWrite(g: seq<int>, cx: int, cy: int, v: int, x: int, y: int)
    requires |g| == Size && InGrid(cx, cy)
    ensures Piece(g[Index(cx, cy) := v], x, y) == if x == cx && y == cy then v else Piece(g, x, y)
  {
    if InGrid(x, y) {
      IndexInjective(x, y, cx, cy);
    }
  }

  /** The bounds-safe read of one cell. */
  function Piece(g: seq<int>, x: int, y: int): int
    requires |g| == Size
  {
    if x < 0 || x >= Width || y < 0 || y >= Height then OutOfBounds else g[y * 7 + x]
  }

  /** Every stored value is empty or a player. */
  ghost predicate CellsValid(g: seq<int>)
  {
    forall i :: 0 <= i < |g| ==> IsCell(g[i])
  }

  /** Gravity: an occupied cell has an occupied cell right below it. */
  ghost predicate Settled(g: seq<int>)
    requires |g| == Size
  {
    forall x, y :: 0 <= x < Width && 0 <= y < Height - 1 && Piece(g, x, y) != Empty ==> Piece(g, x, y + 1) != Empty
  }

  ghost predicate WellFormed(g: seq<int>)
  {
    |g| == Size && CellsValid(g) && Settled(g)
  }

  /** The empty board that a new game starts from. */
  function EmptyGrid(): (g: seq<int>)
    ensures |g| == Size
  {
    seq(Size, i => Empty)
  }

  /** The number of non-empty cells. */
  function Occupied(g: seq<int>): (n: nat)
    ensures n <= |g|
  {
    OccupiedBelow(g, |g|)
  }

  /** The number of non-empty cells among the first n. */
  function OccupiedBelow(g: seq<int>, n: nat): (r: nat)
    requires n <= |g|
    ensures r <= n
  {
    if n == 0 then 0 else OccupiedBelow(g, n - 1) + (if g[n - 1] != Empty then 1 else 0)
  }

  /** A read answers out-of-bounds exactly outside the grid, and the stored
      value inside it; it never reads outside the sequence. */
  lemma PieceMeaning(g: seq<int>, x: int, y: int)
    requires |g| == Size && CellsValid(g)
    ensures Piece(g, x, y) == OutOfBounds <==> !InGrid(x, y)
    ensures InGrid(x, y) ==> Piece(g, x, y) == g[Index(x, y)] && IsCell(Piece(g, x, y))
  {
    if InGrid(x, y) {
      assert IsCell(g[Index(x, y)]);
    }
  }

  /** Writing v at i changes the count by what was there and what is new. */
  lemma OccupiedUpdate(g: seq<int>, i: nat, v: int)
    requires i < |g|
    ensures Occupied(g[i := v]) == Occupied(g) - (if g[i] != Empty then 1 else 0) + (if v != Empty then 1 else 0)
  {
    OccupiedBelowUpdate(g, i, v, |g|);
  }

  lemma {:induction false} OccupiedBelowUpdate(g: seq<int>, i: nat, v: int, n: nat)
    requires i < |g| && n <= |g|
    ensures OccupiedBelow(g[i := v], n)
      == OccupiedBelow(g, n) - (if i < n && g[i] != Empty then 1 else 0) + (if i < n && v != Empty then 1 else 0)
  {
    if n > 0 {
      OccupiedBelowUpdate(g, i, v, n - 1);
    }
  }

  /** Every cell is occupied exactly when the count reaches the length. */
  lemma OccupiedFull(g: seq<int>)
    ensures Occupied(g) == |g| <==> forall i :: 0 <= i < |g| ==> g[i] != Empty
  {
    OccupiedBelowFull(g, |g|);
  }

  lemma {:induction false} OccupiedBelowFull(g: seq<int>, n: nat)
    requires n <= |g|
    ensures OccupiedBelow(g, n) == n <==> forall i :: 0 <= i < n ==> g[i] != Empty
  {
    if n > 0 {
      OccupiedBelowFull(g, n - 1);
    }
  }

  /** A grid without pieces counts none. */
  lemma EmptyGridOccupiedNone(g: seq<int>)
    requires forall i :: 0 <= i < |g| ==> g[i] == Empty
    ensures Occupied(g) == 0
  {
    OccupiedBelowNone(g, |g|);
  }

  lemma {:induction false} OccupiedBelowNone(g: seq<int>, n: nat)
    requires n <= |g| && forall i :: 0 <= i < |g| ==> g[i] == Empty
    ensures OccupiedBelow(g, n) == 0
  {
    if n > 0 {
      OccupiedBelowNone(g, n - 1);
    }
  }

  /** Gravity extends to every row below an occupied cell. */
  lemma {:induction false} SettledBelow(g: seq<int>, x: int, y: int, y': int)
    requires |g| == Size && Settled(g)
    requires InGrid(x, y) && y <= y' < Height && Piece(g, x, y) != Empty
    ensures Piece(g, x, y') != Empty
  {
    if y < y' {
      SettledBelow(g, x, y, y' - 1);
    }
  }

  // ---------------------------------------------------------------------
  // Dropping a piece: scan the column from the bottom row upwards.
  // ---------------------------------------------------------------------

  /** The first empty row met when scanning rows y, y-1, ..., 0 of column c:
      the largest empty row not above y. */
  function LowestEmptyFrom(g: seq<int>, c: int, y: int): (r: Option<int>)
    requires |g| == Size
    decreases |g| + y
    ensures r.Some? ==> 0 <= r.value <= y && InGrid(c, r.value) && Piece(g, c, r.value) == Empty
    ensures r.Some? ==> forall y' :: r.value < y' <= y ==> Piece(g, c, y') != Empty
    ensures r.None? ==> forall y' :: 0 <= y' <= y ==> Piece(g, c, y') != Empty
  {
    if y < 0 then None
    else if Piece(g, c, y) == Empty then Some(y)
    else LowestEmptyFrom(g, c, y - 1)
  }

  function LowestEmpty(g: seq<int>, c: int): Option<int>
    requires |g| == Size
  {
    LowestEmptyFrom(g, c, Height - 1)
  }

  /** A drop into column c succeeds. */
  predicate HasRoom(g: seq<int>, c: int)
    requires |g| == Size
  {
    LowestEmpty(g, c).Some?
  }

  /** The grid after dropping p into column c (unchanged when the drop fails). */
  function Drop(g: seq<int>, c: int, p: int): (r: seq<int>)
    requires |g| == Size
    ensures |r| == Size
    ensures !HasRoom(g, c) ==> r == g
    ensures HasRoom(g, c) ==> var y := LowestEmpty(g, c).value;
      InGrid(c, y) && Piece(r, c, y) == p
  {
    match LowestEmpty(g, c)
    case None => g
    case Some(y) => g[Index(c, y) := p]
  }

  // ---------------------------------------------------------------------
  // Removing a piece: scan the column from the top row downwards.
  // ---------------------------------------------------------------------

  /** The first occupied row met when scanning rows y, y+1, ..., 5 of column c. */
  function TopmostFrom(g: seq<int>, c: int, y: int): (r: Option<int>)
    requires |g| == Size && 0 <= c < Width && 0 <= y <= Height
    decreases |g| - y
    ensures r.Some? ==> y <= r.value < Height && Piece(g, c, r.value) != Empty
    ensures r.Some? ==> forall y' :: y <= y' < r.value ==> Piece(g, c, y') == Empty
    ensures r.None? ==> forall y' :: y <= y' < Height ==> Piece(g, c, y') == Empty
  {
    if y == Height then None
    else if Piece(g, c, y) != Empty then Some(y)
    else TopmostFrom(g, c, y + 1)
  }

  function Topmost(g: seq<int>, c: int): Option<int>
    requires |g| == Size && 0 <= c < Width
  {
    TopmostFrom(g, c, 0)
  }

  /** The grid after clearing the top piece of column c (unchanged when the column is empty). */
  function Remove(g: seq<int>, c: int): (r: seq<int>)
    requires |g| == Size && 0 <= c < Width
    ensures |r| == Size
    ensures Topmost(g, c).None? ==> r == g
    ensures Topmost(g, c).Some? ==> var y := Topmost(g, c).value;
      Piece(r, c, y) == Empty
  {
    match Topmost(g, c)
    case None => g
    case Some(y) => g[Index(c, y) := Empty]
  }

  // ---------------------------------------------------------------------
  // What dropping and removing mean on a settled grid.
  // ---------------------------------------------------------------------

  /** On a settled grid a piece lands directly on top of the column's stack:
      every row above the landing row is empty. */
  lemma LandsOnStack(g: seq<int>, c: int)
    requires WellFormed(g) && HasRoom(g, c)
    ensures forall y :: 0 <= y <= LowestEmpty(g, c).value ==> Piece(g, c, y) == Empty
  {
    var low := LowestEmpty(g, c).value;
    forall y | 0 <= y <= low ensures Piece(g, c, y) == Empty {
      if Piece(g, c, y) != Empty {
        SettledBelow(g, c, y, low);
      }
    }
  }

  /** On a settled grid a column accepts a piece exactly when its top cell is empty. */
  lemma HasRoomIffTopEmpty(g: seq<int>, c: int)
    requires WellFormed(g)
    ensures HasRoom(g, c) <==> 0 <= c < Width && g[c] == Empty
  {
    if HasRoom(g, c) {
      LandsOnStack(g, c);
      assert Piece(g, c, 0) == Empty;
    }
    if 0 <= c < Width && g[c] == Empty {
      assert Piece(g, c, 0) == Empty;
    }
  }

  /** Dropping a player's piece keeps the grid well formed and adds exactly
      one occupied cell when the drop succeeds. */
  lemma DropKeepsWellFormed(g: seq<int>, c: int, p: int)
    requires WellFormed(g) && IsPlayer(p)
    ensures WellFormed(Drop(g, c, p))
    ensures Occupied(Drop(g, c, p)) == Occupied(g) + (if HasRoom(g, c) then 1 else 0)
  {
    if HasRoom(g, c) {
      var low := LowestEmpty(g, c).value;
      var i := Index(c, low);
      var r := Drop(g, c, p);
      assert r == g[i := p];
      OccupiedUpdate(g, i, p);
      forall x, y | 0 <= x < Width && 0 <= y < Height - 1 && Piece(r, x, y) != Empty
        ensures Piece(r, x, y + 1) != Empty
      {
        PieceAfterWrite(g, c, low, p, x, y);
        PieceAfterWrite(g, c, low, p, x, y + 1);
      }
    }
  }

  /** Removing a column's top piece keeps the grid well formed and removes
      exactly one occupied cell when the column was not empty. */
  lemma RemoveKeepsWellFormed(g: seq<int>, c: int)
    requires WellFormed(g) && 0 <= c < Width
    ensures WellFormed(Remove(g, c))
    ensures Occupied(Remove(g, c)) == Occupied(g) - (if Topmost(g, c).Some? then 1 else 0)
  {
    if Topmost(g, c).Some? {
      var top := Topmost(g, c).value;
      var i := Index(c, top);
      var r := Remove(g, c);
      assert r == g[i := Empty];
      OccupiedUpdate(g, i, Empty);
      forall x, y | 0 <= x < Width && 0 <= y < Height - 1 && Piece(r, x, y) != Empty
        ensures Piece(r, x, y + 1) != Empty
      {
        PieceAfterWrite(g, c, top, Empty, x, y);
        PieceAfterWrite(g, c, top, Empty, x, y + 1);
      }
    }
  }

  /** Removing right after a successful drop restores every cell. */
  lemma RemoveUndoesDrop(g: seq<int>, c: int, p: int)
    requires WellFormed(g) && IsPlayer(p) && HasRoom(g, c)
    ensures 0 <= c < Width
    ensures Remove(Drop(g, c, p), c) == g
  {
    var low := LowestEmpty(g, c).value;
    var i := Index(c, low);
    var d := Drop(g, c, p);
    assert d == g[i := p];
    LandsOnStack(g, c);
    forall y | 0 <= y < low ensures Piece(d, c, y) == Empty {
      PieceAfterWrite(g, c, low, p, c, y);
    }
    assert Piece(d, c, low) == p;
    assert Topmost(d, c) == Some(low);
    assert d[i := Empty] == g;
  }

  /** Dropping the removed piece back into its column restores every cell. */
  lemma DropUndoesRemove(g: seq<int>, c: int)
    requires WellFormed(g) && 0 <= c < Width && Topmost(g, c).Some?
    ensures Drop(Remove(g, c), c, Piece(g, c, Topmost(g, c).value)) == g
  {
    var top := Topmost(g, c).value;
    var i := Index(c, top);
    var q := Piece(g, c, top);
    var r := Remove(g, c);
    assert r == g[i := Empty];
    forall y | top < y < Height ensures Piece(r, c, y) != Empty {
      SettledBelow(g, c, top, y);
      PieceAfterWrite(g, c, top, Empty, c, y);
    }
    assert Piece(r, c, top) == Empty;
    assert LowestEmpty(r, c) == Some(top);
    assert r[i := q] == g;
  }
}

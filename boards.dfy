/**
 * Board.cs: a game position (whose ply it is, the grid's dimensions, one int
 * per tile, and the move that produced it), its value equality, the two
 * operations that rewrite a board in place, and the two abstract operations
 * every concrete game supplies (here the fields of a `Game` value).
 */
module Boards {
  import opened Scores

  datatype Option<T> = None | Some(value: T)

  /**
   * Move.cs: a move is known by the indices its game passed to CalculateMove
   * (the acting tile and any other index). ApplyMove, its effect on the real
   * game, has no body in this core; the engine records which moves it applied.
   */
  datatype Move = Move(index: seq<int>)

  /** The value of a board: its fields, with the grid as a sequence. */
  datatype BoardValue = BoardValue(
    playerPly: int,
    width: int,
    height: int,
    grid: seq<int>,
    lastMove: Option<Move>)

  /**
   * `a * n` by repeated addition. Proofs about the loops over the tiles then
   * need no nonlinear arithmetic; `ProductIsMul` says it is the product.
   */
  function Product(a: int, n: int): int
    decreases if n < 0 then -n else n
  {
    if n == 0 then 0
    else if n > 0 then Product(a, n - 1) + a
    else Product(a, n + 1) - a
  }

  lemma {:induction false} ProductIsMul(a: int, n: int)
    ensures Product(a, n) == a * n
    decreases if n < 0 then -n else n
  {
    if n > 0 {
      ProductIsMul(a, n - 1);
    } else if n < 0 {
      ProductIsMul(a, n + 1);
    }
  }

  /** Number of tiles, `width * height`: the loci of the board. */
  function Cells(b: BoardValue): int {
    Product(b.width, b.height)
  }

  lemma CellsIsProduct(b: BoardValue)
    ensures Cells(b) == b.width * b.height
  {
    ProductIsMul(b.width, b.height);
  }

  /** The grid holds every tile, so reading tile `i < width * height` stays in range. */
  predicate Fits(b: BoardValue) {
    Cells(b) <= |b.grid|
  }

  /** The three fields `Equal` compares before it looks at the tiles. */
  predicate SameShape(a: BoardValue, b: BoardValue) {
    a.height == b.height && a.width == b.width && a.playerPly == b.playerPly
  }

  /** What `Equal` needs so that its tile loop reads no index out of range. */
  predicate Comparable(a: BoardValue, b: BoardValue) {
    SameShape(a, b) ==> Fits(a) && Fits(b)
  }

  /** The first `n` tiles of `b`; none when `n` is not positive. */
  function Tiles(b: BoardValue, n: int): seq<int>
    requires n <= |b.grid|
  {
    if n <= 0 then [] else b.grid[..n]
  }

  /** Value equality of boards: same shape and the first `width * height` tiles agree. */
  predicate EqualValues(a: BoardValue, b: BoardValue)
    requires Comparable(a, b)
  {
    SameShape(a, b) && Tiles(a, Cells(a)) == Tiles(b, Cells(a))
  }

  lemma EqualReflexive(a: BoardValue)
    requires Fits(a)
    ensures EqualValues(a, a)
  {
  }

  lemma EqualSymmetric(a: BoardValue, b: BoardValue)
    requires Comparable(a, b)
    ensures EqualValues(a, b) == EqualValues(b, a)
  {
  }

  lemma EqualTransitive(a: BoardValue, b: BoardValue, c: BoardValue)
    requires Comparable(a, b) && Comparable(b, c)
    requires EqualValues(a, b) && EqualValues(b, c)
    ensures Comparable(a, c) && EqualValues(a, c)
  {
  }

  /** What reading a successor needs: its own grid fits and covers the parent's tiles. */
  predicate Admissible(parent: BoardValue, c: BoardValue) {
    Fits(c) && Cells(parent) <= |c.grid|
  }

  predicate AllAdmissible(parent: BoardValue, cs: seq<BoardValue>) {
    forall k :: 0 <= k < |cs| ==> Admissible(parent, cs[k])
  }

  /**
   * The abstract part of a board: `Heuristic()` (higher is better for the
   * maximizing player, an infinity is a forced outcome) and
   * `CalculateAllMoves(i)` (the boards reachable by acting on tile `i`).
   * Both are deterministic functions of the board's value.
   */
  datatype Game = Game(
    heuristic: BoardValue -> Score,
    calculateAllMoves: (BoardValue, int) -> seq<BoardValue>)
  {
    /**
     * What the engine needs of a game so that it never indexes a grid out of
     * range: from a board whose grid fits, every successor's grid fits and
     * covers the parent's tiles.
     */
    ghost predicate Valid() {
      forall b: BoardValue, i: int :: Fits(b) ==> AllAdmissible(b, calculateAllMoves(b, i))
    }
  }

  /** The board object of Board.cs, whose fields `Initialise` and `CopyBoard` rewrite. */
  class Board {
    var playerPly: int
    var width: int
    var height: int
    var grid: array<int>
    var lastMove: Option<Move>

    /** The field initialisers: an empty grid, no producing move. */
    constructor ()
      ensures playerPly == 0 && width == 0 && height == 0 && lastMove == None
      ensures fresh(grid) && grid.Length == 0
    {
      playerPly, width, height := 0, 0, 0;
      grid := new int[0];
      lastMove := None;
    }

    function Value(): BoardValue
      reads this, grid
    {
      BoardValue(playerPly, width, height, grid[..], lastMove)
    }

    /** Sets the dimensions and a fresh all-zero grid; a negative size would throw. */
    method Initialise(w: int, h: int)
      requires 0 <= w * h
      modifies this
      ensures width == w && height == h
      ensures fresh(grid) && grid[..] == seq(w * h, _ => 0)
      ensures playerPly == old(playerPly) && lastMove == old(lastMove)
    {
      width := w;
      height := h;
      grid := new int[w * h](_ => 0);
    }

    /**
     * Replaces this board's ply, dimensions and tiles with the target's, in a
     * freshly allocated grid. The grid is replaced before the tiles are read,
     * so a board copied onto itself ends with an all-zero grid.
     */
    method CopyBoard(target: Board)
      requires 0 <= target.width * target.height
      requires target != this ==> target.width * target.height <= target.grid.Length
      modifies this
      ensures playerPly == old(target.playerPly)
      ensures width == old(target.width) && height == old(target.height)
      ensures fresh(grid) && grid.Length == width * height
      ensures target != this ==> grid[..] == old(target.grid[..target.width * target.height])
      ensures target == this ==> grid[..] == seq(width * height, _ => 0)
      ensures lastMove == old(lastMove)
      ensures Comparable(Value(), target.Value()) && EqualValues(Value(), target.Value())
    {
      playerPly := target.playerPly;
      width := target.width;
      height := target.height;
      grid := new int[width * height](_ => 0);
      var i := 0;
      while i < width * height
        modifies grid
        invariant 0 <= i <= width * height == grid.Length
        invariant target != this ==> grid[..i] == old(target.grid[..i])
        invariant target == this ==> grid[..] == seq(width * height, _ => 0)
      {
        grid[i] := target.grid[i];
        i := i + 1;
      }
      CellsIsProduct(Value());
    }

    /** `Equal`: same ply and dimensions, and the first `width * height` tiles agree. */
    method Equal(b: Board) returns (r: bool)
      requires Comparable(Value(), b.Value())
      ensures r == EqualValues(Value(), b.Value())
    {
      CellsIsProduct(Value());
      if height == b.height && width == b.width && playerPly == b.playerPly {
        var i := 0;
        while i < width * height
          // `i` stays 0 when `width * height` is not positive
          invariant 0 <= i && (i == 0 || i <= width * height)
          invariant grid[..i] == b.grid[..i]
        {
          if grid[i] != b.grid[i] {
            return false;
          }
          i := i + 1;
        }
        return true;
      } else {
        return false;
      }
    }
  }
}

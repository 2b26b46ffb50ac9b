/**
 * Spatial rules of the toroidal board: coordinates wrap modulo the grid size,
 * a move shifts the head by one cell, and food goes on a free cell.
 */
module Grid {
  import opened Directions

  /** Cells per side of the square board. */
  const GridSize: int := 20

  /** A board position (x, y); x grows to the right and y grows downwards. */
  type Cell = (int, int)

  /** Where the snake starts, and restarts after a game over. */
  const Start: Cell := (10, 10)

  predicate InGrid(c: Cell)
  {
    0 <= c.0 < GridSize && 0 <= c.1 < GridSize
  }

  predicate AllInGrid(s: seq<Cell>)
  {
    forall i :: 0 <= i < |s| ==> InGrid(s[i])
  }

  /** No cell occurs twice in the body. */
  predicate Distinct(s: seq<Cell>)
  {
    forall i, j :: 0 <= i < j < |s| ==> s[i] != s[j]
  }

  /**
   * Reduction of one coordinate modulo the grid size. Python's `%` with a
   * positive right operand and Dafny's `%` agree: both land in [0, GridSize).
   */
  function Wrap(k: int): (r: int)
    ensures 0 <= r < GridSize
    ensures (r - k) % GridSize == 0
    ensures 0 <= k < GridSize ==> r == k
  {
    k % GridSize
  }

  /**
   * How far one step in a direction moves the head, before wrapping: exactly
   * one coordinate changes, by one; left and right move x, up and down move y;
   * left and up decrease it.
   */
  function Delta(d: Direction): (r: (int, int))
    ensures (r.0 == 0) != (r.1 == 0)
    ensures (d == Left || d == Right) <==> r.1 == 0
    ensures -1 <= r.0 <= 1 && -1 <= r.1 <= 1
    ensures (d == Left || d == Up) <==> r.0 + r.1 == -1
  {
    match d
    case Left => (-1, 0)
    case Right => (1, 0)
    case Up => (0, -1)
    case Down => (0, 1)
  }

  /**
   * The cell the head moves to: the old head plus the direction's delta,
   * each coordinate wrapped back onto the board.
   */
  function NextHead(head: Cell, d: Direction): (r: Cell)
    ensures InGrid(r)
    ensures (r.0 - (head.0 + Delta(d).0)) % GridSize == 0
    ensures (r.1 - (head.1 + Delta(d).1)) % GridSize == 0
  {
    (Wrap(head.0 + Delta(d).0), Wrap(head.1 + Delta(d).1))
  }

  /** A step forward and a step back along one axis cancel on the torus. */
  lemma WrapStepBack(x: int)
    requires 0 <= x < GridSize
    ensures Wrap(Wrap(x + 1) - 1) == x
    ensures Wrap(Wrap(x - 1) + 1) == x
  {
    if x == GridSize - 1 {
      assert Wrap(x + 1) == 0;
    } else {
      assert Wrap(x + 1) == x + 1;
    }
    if x == 0 {
      assert Wrap(x - 1) == GridSize - 1;
    } else {
      assert Wrap(x - 1) == x - 1;
    }
  }

  /** Moving in a direction and then in its opposite returns to the start cell. */
  lemma StepBackReturns(head: Cell, d: Direction)
    requires InGrid(head)
    ensures NextHead(NextHead(head, d), Opposite(d)) == head
  {
    WrapStepBack(head.0);
    WrapStepBack(head.1);
  }

  /** A move always changes the head: the board is wider than one cell. */
  lemma NextHeadMoves(head: Cell, d: Direction)
    requires InGrid(head)
    ensures NextHead(head, d) != head
  {
  }

  // ---- Counting the board's cells -------------------------------------------

  /** The cell with row-major index k. */
  function CellAt(k: int): Cell
  {
    (k % GridSize, k / GridSize)
  }

  /** The first k cells of the board in row-major order. */
  function FirstCells(k: nat): set<Cell>
  {
    if k == 0 then {} else FirstCells(k - 1) + {CellAt(k - 1)}
  }

  /** FirstCells(k) holds exactly the board cells whose row-major index is below k. */
  lemma {:induction false} FirstCellsExactly(k: nat, c: Cell)
    requires k <= GridSize * GridSize
    ensures c in FirstCells(k) <==> InGrid(c) && c.1 * GridSize + c.0 < k
  {
    if k > 0 {
      FirstCellsExactly(k - 1, c);
      assert c == CellAt(k - 1) <==> InGrid(c) && c.1 * GridSize + c.0 == k - 1;
    }
  }

  lemma {:induction false} FirstCellsCount(k: nat)
    requires k <= GridSize * GridSize
    ensures |FirstCells(k)| == k
  {
    if k > 0 {
      FirstCellsCount(k - 1);
      FirstCellsExactly(k - 1, CellAt(k - 1));
    }
  }

  /** A body without repeated cells occupies as many cells as it is long. */
  lemma {:induction false} DistinctOccupies(s: seq<Cell>)
    requires Distinct(s)
    ensures |set c | c in s| == |s|
  {
    if s != [] {
      DistinctOccupies(s[1..]);
      assert (set c | c in s) == {s[0]} + (set c | c in s[1..]);
      assert s[0] !in (set c | c in s[1..]);
    }
  }

  /**
   * A body of distinct board cells that is shorter than the board leaves a
   * free cell: the rejection-sampling loop of food placement can succeed.
   */
  lemma FreeCellExists(s: seq<Cell>)
    requires AllInGrid(s) && Distinct(s)
    requires |s| < GridSize * GridSize
    ensures exists c :: InGrid(c) && c !in s
  {
    var board := FirstCells(GridSize * GridSize);
    var occupied := set c | c in s;
    FirstCellsCount(GridSize * GridSize);
    DistinctOccupies(s);
    forall c | c in occupied
      ensures c in board
    {
      FirstCellsExactly(GridSize * GridSize, c);
    }
    assert |board - occupied| > 0;
    var free :| free in board - occupied;
    FirstCellsExactly(GridSize * GridSize, free);
  }

  /**
   * Food placement: any board cell the snake does not cover. The source draws
   * random cells until one is free; which free cell comes out is left open.
   */
  method PlaceFood(snake: seq<Cell>) returns (food: Cell)
    requires exists c :: InGrid(c) && c !in snake
    ensures InGrid(food) && food !in snake
  {
    food :| InGrid(food) && food !in snake;
  }
}

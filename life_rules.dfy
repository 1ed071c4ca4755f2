/**
 * The rules of Conway's Game of Life on a bounded, non-wrapping grid, as
 * values: a grid maps each cell it holds to its state, a cell it does not
 * hold reads as dead, and one generation advances every held cell from the
 * same current grid.
 */
module LifeRules {

  /** A cell coordinate: `x` is the row and `y` is the column. */
  datatype Point = Point(x: int, y: int)

  /** One generation: the state of every cell the grid holds; `true` means alive. */
  type Grid = map<Point, bool>

  /** The range of a Java `int`. */
  const IntMin: int := -0x8000_0000
  const IntMax: int := 0x7fff_ffff

  predicate IsInt(n: int) { IntMin <= n <= IntMax }

  /** The number of values of a Java `int`. */
  const IntRange: int := 0x1_0000_0000

  /**
   * Java `int` addition: the sum of two `int`s, wrapped into 32 bits two's
   * complement; it is the true sum whenever that fits.
   */
  function AddInt(a: int, b: int): (s: int)
    requires IsInt(a) && IsInt(b)
    ensures IsInt(s)
    ensures s == a + b || s == a + b - IntRange || s == a + b + IntRange
    ensures IsInt(a + b) ==> s == a + b
  {
    if a + b > IntMax then a + b - IntRange
    else if a + b < IntMin then a + b + IntRange
    else a + b
  }

  /** The cells of the `rows` by `cols` rectangle; empty when either is not positive. */
  function Domain(rows: int, cols: int): (cells: set<Point>)
    ensures forall p :: p in cells <==> 0 <= p.x < rows && 0 <= p.y < cols
  {
    set r, c | 0 <= r < rows && 0 <= c < cols :: Point(r, c)
  }

  /** The state of a cell, read with dead as the default for a cell the grid does not hold. */
  function CellAt(g: Grid, p: Point): (alive: bool)
    ensures alive <==> p in g && g[p]
  {
    if p in g then g[p] else false
  }

  /** On a grid holding exactly a rectangle, every point outside it reads as dead. */
  lemma OutsideReadsDead(g: Grid, rows: int, cols: int, p: Point)
    requires g.Keys == Domain(rows, cols)
    requires !(0 <= p.x < rows && 0 <= p.y < cols)
    ensures !CellAt(g, p)
  {
  }

  /** Both coordinates of `p` fit in a Java `int`. */
  predicate IsIntPoint(p: Point) { IsInt(p.x) && IsInt(p.y) }

  /**
   * On a grid of a rectangle whose sides fit in an `int`, a neighbour
   * coordinate whose `int` sum wraps past the end of the range reads as
   * dead, just as the unwrapped coordinate does.
   */
  lemma WrappedCellReadsAlike(g: Grid, rows: int, cols: int, p: Point, i: int, j: int)
    requires g.Keys == Domain(rows, cols) && IsInt(rows) && IsInt(cols) && IsIntPoint(p)
    requires -1 <= i <= 1 && -1 <= j <= 1
    ensures CellAt(g, Point(AddInt(p.x, i), AddInt(p.y, j))) == CellAt(g, Point(p.x + i, p.y + j))
  {
  }

  /** The row and column offsets the neighbour count walks through, in order. */
  const Directions: seq<int> := [-1, 0, 1]

  /**
   * The eight Moore neighbours of `p`, in the order the two direction loops
   * visit them: row offset -1, 0, 1 outside, column offset -1, 0, 1 inside,
   * skipping `p` itself.
   */
  function Neighbours(p: Point): (ns: seq<Point>)
    ensures |ns| == 8
  {
    [Point(p.x - 1, p.y - 1), Point(p.x - 1, p.y), Point(p.x - 1, p.y + 1),
     Point(p.x, p.y - 1), Point(p.x, p.y + 1),
     Point(p.x + 1, p.y - 1), Point(p.x + 1, p.y), Point(p.x + 1, p.y + 1)]
  }

  /** 1 for a live cell, 0 otherwise. */
  function Bit(g: Grid, q: Point): (n: nat)
    ensures n <= 1
    ensures n == 1 <==> CellAt(g, q)
  {
    if CellAt(g, q) then 1 else 0
  }

  /** The number of entries of `cells` that are alive in `g`, counted one by one. */
  function CountLive(g: Grid, cells: seq<Point>): (n: nat)
    ensures n <= |cells|
  {
    if cells == [] then 0
    else CountLive(g, cells[..|cells| - 1]) + Bit(g, cells[|cells| - 1])
  }

  /** Counting one more cell of a sequence adds that cell's state. */
  lemma CountPrefixStep(g: Grid, cells: seq<Point>, k: nat)
    requires k < |cells|
    ensures CountLive(g, cells[..k + 1]) == CountLive(g, cells[..k]) + Bit(g, cells[k])
  {
    assert cells[..k + 1][..k] == cells[..k];
  }

  /** The number of live cells among the eight Moore neighbours of `p`. */
  function LiveNeighbours(g: Grid, p: Point): (n: nat)
    ensures n <= 8
  {
    CountLive(g, Neighbours(p))
  }

  /**
   * How many neighbours the direction loops have visited once the outer loop
   * has finished `a` rounds and the inner loop `d` steps of round `a`.
   */
  function Visited(a: nat, d: nat): (k: nat)
    requires a <= 3 && d <= 3 && (a == 3 ==> d == 0)
    ensures k <= 8 && (a == 3 ==> k == 8)
  {
    3 * a + d - (if 3 * a + d > 4 then 1 else 0)
  }

  /** The neighbour the loops reach at step (a, d) is the next entry of `Neighbours(p)`. */
  lemma NeighbourOrder(p: Point, a: nat, d: nat)
    requires a < 3 && d < 3 && !(Directions[a] == 0 && Directions[d] == 0)
    ensures Visited(a, d) < 8 && Visited(a, d + 1) == Visited(a, d) + 1
    ensures Neighbours(p)[Visited(a, d)] == Point(p.x + Directions[a], p.y + Directions[d])
  {
  }

  /**
   * One step (a, d) of the direction loops on a rectangle whose sides fit in
   * an `int`: adding the state of the cell at the offset, summed as `int`s,
   * extends the count of the neighbours visited so far by the next one.
   */
  lemma CountStep(g: Grid, rows: int, cols: int, p: Point, a: nat, d: nat)
    requires g.Keys == Domain(rows, cols) && IsInt(rows) && IsInt(cols) && IsIntPoint(p)
    requires a < 3 && d < 3 && !(Directions[a] == 0 && Directions[d] == 0)
    ensures Visited(a, d) < 8 && Visited(a, d + 1) == Visited(a, d) + 1
    ensures CountLive(g, Neighbours(p)[..Visited(a, d) + 1])
         == CountLive(g, Neighbours(p)[..Visited(a, d)])
          + Bit(g, Point(AddInt(p.x, Directions[a]), AddInt(p.y, Directions[d])))
  {
    var k, ns := Visited(a, d), Neighbours(p);
    NeighbourOrder(p, a, d);
    WrappedCellReadsAlike(g, rows, cols, p, Directions[a], Directions[d]);
    CountPrefixStep(g, ns, k);
  }

  /** Underpopulation: a live cell with fewer than two live neighbours dies. */
  predicate FewerThanTwo(n: int) { n < 2 }

  /** Survival: a live cell with two or three live neighbours lives on. */
  predicate TwoOrThree(n: int) { n == 2 || n == 3 }

  /** Overpopulation: a live cell with more than three live neighbours dies. */
  predicate MoreThanThree(n: int) { n > 3 }

  /** Reproduction: a dead cell with exactly three live neighbours becomes alive. */
  predicate ExactlyThree(n: int) { n == 3 }

  /** The next state of a cell that is `alive` now and has `n` live neighbours. */
  function NextState(alive: bool, n: int): bool {
    if alive then !(FewerThanTwo(n) || MoreThanThree(n)) else ExactlyThree(n)
  }

  /** The next state of cell `p` of `g`. */
  function NextCell(g: Grid, p: Point): bool {
    NextState(CellAt(g, p), LiveNeighbours(g, p))
  }

  /** The next generation: every held cell advanced from the same, current grid. */
  function Step(g: Grid): (s: Grid)
    ensures s.Keys == g.Keys
  {
    map p | p in g :: NextCell(g, p)
  }

  /** A grid holding the same cells as `g`, each with its next state, is `Step(g)`. */
  lemma StepByCell(s: Grid, g: Grid)
    requires s.Keys == g.Keys
    requires forall p :: p in s ==> s[p] == NextCell(g, p)
    ensures s == Step(g)
  {
  }
}

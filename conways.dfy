/**
 * The Game of Life engine: a `rows` by `cols` grid of cells whose next
 * generation is built into a fresh map from the current one and then
 * swapped in.
 */
module Conways {
  import opened LifeRules

  class ConwaysByAttea {
    const rows: int
    const cols: int
    /** The current generation: the state of every cell of the rows × cols rectangle. */
    var grid: Grid

    /** The grid holds a state for exactly the cells of the rectangle. */
    ghost predicate Valid()
      reads this
    {
      IsInt(rows) && IsInt(cols) && grid.Keys == Domain(rows, cols)
    }

    /**
     * Creates the engine; `coin(p)` is the random value drawn for cell `p`.
     * Every cell of the rectangle gets its drawn state, and no other cell is held.
     */
    constructor (rows: int, cols: int, coin: Point -> bool)
      requires IsInt(rows) && IsInt(cols)
      ensures this.rows == rows && this.cols == cols
      ensures Valid()
      ensures forall p :: p in grid ==> grid[p] == coin(p)
    {
      this.rows := rows;
      this.cols := cols;
      grid := map[];
      new;
      InitializeGrid(coin);
    }

    /** Adds, row by row, every cell of the rectangle with the value drawn for it. */
    method InitializeGrid(coin: Point -> bool)
      requires IsInt(rows) && IsInt(cols) && grid == map[]
      modifies this
      ensures Valid()
      ensures forall p :: p in grid ==> grid[p] == coin(p)
    {
      for row := 0 to if rows < 0 then 0 else rows
        invariant forall p :: p in grid <==> 0 <= p.x < row && 0 <= p.y < cols
        invariant forall p :: p in grid ==> grid[p] == coin(p)
      {
        for col := 0 to if cols < 0 then 0 else cols
          invariant forall p :: p in grid <==> (0 <= p.x < row && 0 <= p.y < cols) || (p.x == row && 0 <= p.y < col)
          invariant forall p :: p in grid ==> grid[p] == coin(p)
        {
          grid := grid[Point(row, col) := coin(Point(row, col))];
        }
      }
      assert grid.Keys == Domain(rows, cols);
    }

    /** The number of rows: every held cell lies in a row below it, and each such row is held. */
    function GetRows(): (r: int)
      reads this
      requires Valid()
      ensures forall p :: p in grid ==> 0 <= p.x < r
      ensures cols > 0 ==> forall x :: 0 <= x < r ==> Point(x, 0) in grid
    {
      rows
    }

    /** The number of columns: every held cell lies in a column below it, and each such column is held. */
    function GetCols(): (c: int)
      reads this
      requires Valid()
      ensures forall p :: p in grid ==> 0 <= p.y < c
      ensures rows > 0 ==> forall y :: 0 <= y < c ==> Point(0, y) in grid
    {
      cols
    }

    /**
     * Counts the live cells among the eight neighbours of `p`; a cell the grid
     * does not hold is dead. Neighbour coordinates are summed as Java `int`s.
     */
    method CountLiveNeighbours(p: Point) returns (liveNeighbours: nat)
      requires Valid() && IsIntPoint(p)
      ensures liveNeighbours == LiveNeighbours(grid, p)
    {
      liveNeighbours := 0;
      for a := 0 to 3
        invariant liveNeighbours == CountLive(grid, Neighbours(p)[..Visited(a, 0)])
      {
        var i := Directions[a];
        for d := 0 to 3
          invariant liveNeighbours == CountLive(grid, Neighbours(p)[..Visited(a, d)])
        {
          var j := Directions[d];
          if i == 0 && j == 0 {
            continue;
          }
          var neighbour := Point(AddInt(p.x, i), AddInt(p.y, j));
          CountStep(grid, rows, cols, p, a, d);
          if neighbour in grid && grid[neighbour] {
            liveNeighbours := liveNeighbours + 1;
          }
        }
      }
      assert Neighbours(p)[..8] == Neighbours(p);
    }

    /** Underpopulation: whether `p` has fewer than two live neighbours. */
    method LiveCellWithFewerThanTwoLiveNeighboursDies(p: Point) returns (holds: bool)
      requires Valid() && IsIntPoint(p)
      ensures holds <==> LiveNeighbours(grid, p) < 2
    {
      var n := CountLiveNeighbours(p);
      holds := FewerThanTwo(n);
    }

    /** Survival: whether `p` has two or three live neighbours. */
    method LiveCellWithTwoOrThreeLiveNeighboursLives(p: Point) returns (holds: bool)
      requires Valid() && IsIntPoint(p)
      ensures holds <==> LiveNeighbours(grid, p) in {2, 3}
    {
      var n := CountLiveNeighbours(p);
      holds := TwoOrThree(n);
    }

    /** Overpopulation: whether `p` has more than three live neighbours. */
    method LiveCellWithMoreThanThreeLiveNeighboursDies(p: Point) returns (holds: bool)
      requires Valid() && IsIntPoint(p)
      ensures holds <==> LiveNeighbours(grid, p) > 3
    {
      var n := CountLiveNeighbours(p);
      holds := MoreThanThree(n);
    }

    /** Reproduction: whether `p` has exactly three live neighbours. */
    method DeadCellWithExactlyThreeLiveNeighboursBecomesAlive(p: Point) returns (holds: bool)
      requires Valid() && IsIntPoint(p)
      ensures holds <==> LiveNeighbours(grid, p) == 3
    {
      var n := CountLiveNeighbours(p);
      holds := ExactlyThree(n);
    }

    /** The state `point` takes in the next generation, decided by the four rules. */
    method NextStateOf(point: Point) returns (nextState: bool)
      requires Valid() && point in grid
      ensures nextState == NextCell(grid, point)
    {
      var isAlive := grid[point];
      if isAlive {
        var fewer := LiveCellWithFewerThanTwoLiveNeighboursDies(point);
        var more := false;
        if !fewer {
          more := LiveCellWithMoreThanThreeLiveNeighboursDies(point);
        }
        if fewer || more {
          nextState := false;
        } else {
          nextState := true;
        }
      } else {
        nextState := DeadCellWithExactlyThreeLiveNeighboursBecomesAlive(point);
      }
    }

    /**
     * Advances one generation. The cells are visited in no particular order;
     * each next state goes into a fresh map and is computed from the current
     * grid, which is replaced only once every cell is done.
     */
    method UpdateGrid()
      requires Valid()
      modifies this
      ensures Valid()
      ensures grid == Step(old(grid))
    {
      var newGrid: Grid := map[];
      var pending := grid.Keys;
      while pending != {}
        invariant grid == old(grid)
        invariant pending <= grid.Keys
        invariant newGrid.Keys == grid.Keys - pending
        invariant forall q :: q in newGrid ==> newGrid[q] == NextCell(grid, q)
        decreases pending
      {
        var point :| point in pending;
        var nextState := NextStateOf(point);
        newGrid := newGrid[point := nextState];
        pending := pending - {point};
      }
      StepByCell(newGrid, grid);
      grid := newGrid;
    }

    /** The current generation, holding a state for exactly the cells of the rectangle. */
    function GetGrid(): (m: Grid)
      reads this
      requires Valid()
      ensures m.Keys == Domain(rows, cols)
    {
      grid
    }
  }
}

# Conway's Game of Life engine, modelled in Dafny

This project models the simulation engine of a Game of Life desktop
application, the class `ConwaysByAttea`. The engine holds a `rows` by `cols`
grid of cells. Each cell is alive or dead, and the grid starts out random.
One call to `updateGrid` advances the grid by one generation under Conway's
four rules:

- underpopulation: a live cell with fewer than two live neighbours dies;
- survival: a live cell with two or three lives on;
- overpopulation: a live cell with more than three dies;
- reproduction: a dead cell with exactly three becomes alive.

The board does not wrap around. A neighbour outside the rectangle reads as
dead.

The project has three modules:

- `LifeRules` (`life_rules.dfy`) holds the rules as values:
  - a `Point` is a cell coordinate, and a `Grid` is a `map<Point, bool>`, as
    the engine's `Map<Point, Boolean>` is;
  - reading a cell the grid does not hold gives dead (`getOrDefault(…, false)`);
  - `Neighbours` lists the eight neighbours in the order the two direction
    loops visit them, and `LiveNeighbours` counts the live ones;
  - there is one predicate per rule;
  - `Step` is the synchronous next generation of a whole grid.
- `Conways` (`conways.dfy`) holds the class `ConwaysByAttea`:
  - its `rows` and `cols` are constants and its `grid` is a map field;
  - the constructor, the grid filling, the neighbour count, the four rule
    queries and `UpdateGrid` are methods with the source's own loops;
  - each method is proved against the specification functions of `LifeRules`.
    Most importantly, `UpdateGrid` reassigns the field to exactly
    `Step(old(grid))`.
- `LifeProperties` (`life_properties.dfy`) proves what the rules promise:
  - the rule predicates partition the counts;
  - the survive and birth conditions hold in both directions;
  - the count treats cells alone: it never includes the cell itself, it
    equals the number of distinct adjacent live cells, and the step is local;
  - the edge and corner bounds hold;
  - an all-dead grid stays dead;
  - the two 3×3 scenarios work out: a lone centre cell dies, and in the full
    square only the corners survive.

Java's `int` arithmetic is modelled where it can matter. `rows`, `cols` and
the coordinates of a queried point are 32-bit values (`IsInt`). The
neighbour coordinate `point.x + i` is a wrapping `int` sum (`AddInt`). The
lemma `WrappedCellReadsAlike` shows that this wrap never changes which
state is read.

The constructor accepts any `int` dimensions. With a non-positive one, the
filling loops run zero times and the grid is empty. The model does the same:
`Domain(rows, cols)` is empty then, and the constructor has no precondition on
the sign of the dimensions.

## Model

| member | source | states |
|---|---|---|
| `Conways.ConwaysByAttea.constructor` | src/ConwaysByAttea.java:11-16 | keeps the given dimensions; the grid holds exactly the cells of the rows × cols rectangle, each with the random value drawn for it |
| `Conways.ConwaysByAttea.InitializeGrid` | src/ConwaysByAttea.java:19-25 | the row-by-row filling loops leave exactly the rectangle's cells in the grid (none when a dimension is not positive), each with its drawn value |
| `Conways.ConwaysByAttea.GetRows` | src/ConwaysByAttea.java:28-30 | every held cell lies in a row below the result, and every such row is held (when there is a column) |
| `Conways.ConwaysByAttea.GetCols` | src/ConwaysByAttea.java:33-35 | every held cell lies in a column below the result, and every such column is held (when there is a row) |
| `Conways.ConwaysByAttea.CountLiveNeighbours` | src/ConwaysByAttea.java:38-52 | the two direction loops, skipping the centre and reading unheld cells as dead, return the number of live cells among the eight neighbours |
| `Conways.ConwaysByAttea.LiveCellWithFewerThanTwoLiveNeighboursDies` | src/ConwaysByAttea.java:54-57 | true exactly when the cell has fewer than two live neighbours |
| `Conways.ConwaysByAttea.LiveCellWithTwoOrThreeLiveNeighboursLives` | src/ConwaysByAttea.java:59-63 | true exactly when the cell has two or three live neighbours |
| `Conways.ConwaysByAttea.LiveCellWithMoreThanThreeLiveNeighboursDies` | src/ConwaysByAttea.java:65-68 | true exactly when the cell has more than three live neighbours |
| `Conways.ConwaysByAttea.DeadCellWithExactlyThreeLiveNeighboursBecomesAlive` | src/ConwaysByAttea.java:70-73 | true exactly when the cell has exactly three live neighbours |
| `Conways.ConwaysByAttea.NextStateOf` | src/ConwaysByAttea.java:80-93 | the rule queries combined as in the loop body (a live cell dies on underpopulation or overpopulation, a dead one is born on three) give the cell's state in the next generation |
| `Conways.ConwaysByAttea.UpdateGrid` | src/ConwaysByAttea.java:76-99 | visiting the cells in any order and building a fresh map from the current grid leaves the grid equal to the synchronous next generation, over the same rectangle |
| `Conways.ConwaysByAttea.GetGrid` | src/ConwaysByAttea.java:101-103 | the returned grid holds exactly the cells of the rows × cols rectangle |
| `LifeRules.AddInt` | src/ConwaysByAttea.java:45 | the Java `int` sum of two `int`s fits in an `int`, differs from the true sum by 0 or ±2^32, and equals it whenever it fits |
| `LifeRules.OutsideReadsDead` | src/ConwaysByAttea.java:46 | on a grid holding exactly the rows × cols rectangle, every point outside the rectangle reads as dead |
| `LifeRules.WrappedCellReadsAlike` | src/ConwaysByAttea.java:45-46 | on a grid of an `int`-sized rectangle, the cell at a wrapped neighbour coordinate reads the same as the cell at the true coordinate |
| `LifeRules.CountLive` | src/ConwaysByAttea.java:46-48 | counting the live cells of a sequence one by one gives at most its length |
| `LifeRules.LiveNeighbours` | src/ConwaysByAttea.java:38-52 | the neighbour count lies in 0..8 |
| `LifeRules.NeighbourOrder` | src/ConwaysByAttea.java:40-45 | step (i, j) of the two direction loops, the centre skipped, reaches the next entry of the neighbour list |
| `LifeRules.CountStep` | src/ConwaysByAttea.java:42-49 | one step of the loops, with the wrapped `int` coordinates, adds that neighbour's state to the count of the neighbours visited so far |
| `LifeRules.Step` | src/ConwaysByAttea.java:76-99 | the next generation holds the same cells as the current one |
| `LifeRules.StepByCell` | src/ConwaysByAttea.java:95-98 | a map over the same cells holding each cell's next state is the next generation |
| `LifeProperties.RulesPartition` | src/ConwaysByAttea.java:54-68 | for every count exactly one of underpopulation, survival and overpopulation holds |
| `LifeProperties.LiveCellSurvivesIff` | src/ConwaysByAttea.java:84-90 | a live cell is alive in the next generation if and only if it has two or three live neighbours |
| `LifeProperties.DeadCellBornIff` | src/ConwaysByAttea.java:91-93 | a dead cell is alive in the next generation if and only if it has exactly three live neighbours |
| `LifeProperties.NeighboursAreAdjacent` | src/ConwaysByAttea.java:40-45 | the visited neighbours are exactly the eight cells adjacent to the point, each once, and never the point itself |
| `LifeProperties.CountLiveAgree` | src/ConwaysByAttea.java:46-48 | two grids that agree on the cells of a sequence count the same number of them alive |
| `LifeProperties.StepIsLocal` | src/ConwaysByAttea.java:77-98 | two grids that agree on a cell and on its neighbourhood give it the same next state: the step reads only the current grid |
| `LifeProperties.CountIgnoresSelf` | src/ConwaysByAttea.java:44 | changing a cell never changes its own neighbour count |
| `LifeProperties.CountIsCardinality` | src/ConwaysByAttea.java:42-50 | counting a sequence without repetitions gives the size of its set of live cells |
| `LifeProperties.LiveNeighboursIsCardinality` | src/ConwaysByAttea.java:38-52 | the count is the number of distinct live cells held in the grid that are adjacent to the point |
| `LifeProperties.CountEight` | src/ConwaysByAttea.java:42-50 | the count of eight cells is the sum of their eight states |
| `LifeProperties.RowEdgeAtMostFive` | src/ConwaysByAttea.java:45-46 | a cell in the first or last row has at most five live neighbours, because the cells outside read as dead |
| `LifeProperties.ColumnEdgeAtMostFive` | src/ConwaysByAttea.java:45-46 | a cell in the first or last column has at most five live neighbours |
| `LifeProperties.CornerAtMostThree` | src/ConwaysByAttea.java:45-46 | a corner cell has at most three live neighbours |
| `LifeProperties.NoLiveNoCount` | src/ConwaysByAttea.java:46-48 | on a grid with no live cell every count is zero |
| `LifeProperties.AllDeadStaysDead` | src/ConwaysByAttea.java:76-99 | an all-dead grid is still all dead after one generation |
| `LifeProperties.LoneCentreCentre` | src/ConwaysByAttea.java:84-90 | on the 3 × 3 grid with only the centre alive, the centre has no live neighbour and dies |
| `LifeProperties.LoneCentreCorner` | src/ConwaysByAttea.java:91-93 | on that grid a corner has one live neighbour and stays dead |
| `LifeProperties.LoneCentreEdge` | src/ConwaysByAttea.java:91-93 | on that grid the middle of an edge has one live neighbour and stays dead |
| `LifeProperties.LoneCentreDies` | src/ConwaysByAttea.java:76-99 | a 3 × 3 grid whose only live cell is the centre is all dead one generation later |
| `LifeProperties.FullSquareCorner` | src/ConwaysByAttea.java:84-90 | in the full 3 × 3 grid a corner has three live neighbours and survives |
| `LifeProperties.FullSquareEdge` | src/ConwaysByAttea.java:84-90 | in the full 3 × 3 grid the middle of an edge has five live neighbours and dies |
| `LifeProperties.FullSquareCentre` | src/ConwaysByAttea.java:84-90 | in the full 3 × 3 grid the centre has eight live neighbours and dies |
| `LifeProperties.FullSquareStep` | src/ConwaysByAttea.java:76-99 | one generation of the full 3 × 3 grid keeps the four corners alive and kills every other cell |

## Left out

- Random initial states: `Math.random() < 0.5` becomes the constructor parameter `coin`. The model fixes no distribution.
- Hashing and iteration order of `HashMap`: the grid is a Dafny map, and `UpdateGrid` visits its cells in an arbitrary order. The result is proved the same for every order.
- Aliasing by `getGrid`: it returns the live `Map` object, which a caller could mutate. `GetGrid` returns the map as a value.
- Conways.ConwaysByAttea.constructor: it requires `rows` and `cols` to fit in an `int`, as their Java types guarantee. The rule queries and `CountLiveNeighbours` likewise require the point's coordinates to fit.
- The `ConwaysGameOfLife` interface is not part of this model. Only the four rule methods it declares appear here, as methods of the class.
- The graphical interface (`ConwaysGameOfLifeGUI.java`) is not part of this model: window, timers, button, the sine-wave flag animation and the `Marked` overlay state. The engine defines no marked state, and its grid holds only booleans.
- Concurrency: the engine creates no threads, but the interface calls `updateGrid` from timer threads, and after a toggle back to Life mode two such timers may run at once, while painting reads the grid. The model assumes calls are serialised: `UpdateGrid` ending in `Step(old(grid))` holds only for serialised callers.

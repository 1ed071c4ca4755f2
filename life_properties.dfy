/**
 * What the rules promise: the rule predicates partition the counts, the
 * step keeps a live cell alive exactly on two or three live neighbours and
 * brings a dead one to life exactly on three, the count is that of the
 * distinct live Moore neighbours and never includes the cell itself, and
 * a cell's next state depends only on its own neighbourhood.
 */
module LifeProperties {
  import opened LifeRules

  /** `q` is one of the eight cells around `p`. */
  predicate Adjacent(p: Point, q: Point) {
    q != p && -1 <= q.x - p.x <= 1 && -1 <= q.y - p.y <= 1
  }

  /** The live cells of `g` around `p`, as a set. */
  function LiveNeighbourSet(g: Grid, p: Point): set<Point> {
    set q | q in g && g[q] && Adjacent(p, q)
  }

  /** No cell of the grid is alive. */
  predicate AllDead(g: Grid) {
    forall p :: p in g ==> !g[p]
  }

  /** Underpopulation, survival and overpopulation: exactly one holds for every count. */
  lemma RulesPartition(n: int)
    ensures FewerThanTwo(n) ==> !TwoOrThree(n) && !MoreThanThree(n)
    ensures TwoOrThree(n) ==> !FewerThanTwo(n) && !MoreThanThree(n)
    ensures FewerThanTwo(n) || TwoOrThree(n) || MoreThanThree(n)
  {
  }

  /** A live cell is alive in the next generation if and only if it has two or three live neighbours. */
  lemma LiveCellSurvivesIff(g: Grid, p: Point)
    requires p in g && g[p]
    ensures Step(g)[p] <==> LiveNeighbours(g, p) == 2 || LiveNeighbours(g, p) == 3
  {
  }

  /** A dead cell is alive in the next generation if and only if it has exactly three live neighbours. */
  lemma DeadCellBornIff(g: Grid, p: Point)
    requires p in g && !g[p]
    ensures Step(g)[p] <==> LiveNeighbours(g, p) == 3
  {
  }

  /** The eight neighbours are exactly the cells adjacent to `p`, each listed once. */
  lemma NeighboursAreAdjacent(p: Point)
    ensures forall q :: q in Neighbours(p) <==> Adjacent(p, q)
    ensures forall i, j :: 0 <= i < j < 8 ==> Neighbours(p)[i] != Neighbours(p)[j]
  {
    forall q | Adjacent(p, q)
      ensures q in Neighbours(p)
    {
      var ns := Neighbours(p);
      if q.x == p.x - 1 {
        assert q == ns[0] || q == ns[1] || q == ns[2];
      } else if q.x == p.x {
        assert q == ns[3] || q == ns[4];
      } else {
        assert q == ns[5] || q == ns[6] || q == ns[7];
      }
    }
  }

  /** Two grids that agree on every cell of `cells` count the same number of them alive. */
  lemma {:induction false} CountLiveAgree(g: Grid, h: Grid, cells: seq<Point>)
    requires forall i :: 0 <= i < |cells| ==> CellAt(g, cells[i]) == CellAt(h, cells[i])
    ensures CountLive(g, cells) == CountLive(h, cells)
  {
    if cells != [] {
      CountLiveAgree(g, h, cells[..|cells| - 1]);
    }
  }

  /**
   * The step is local and synchronous: two grids that agree on `p` and on
   * every cell around it give `p` the same next state.
   */
  lemma StepIsLocal(g: Grid, h: Grid, p: Point)
    requires p in g && p in h && g[p] == h[p]
    requires forall q :: Adjacent(p, q) ==> CellAt(g, q) == CellAt(h, q)
    ensures Step(g)[p] == Step(h)[p]
  {
    NeighboursAreAdjacent(p);
    CountLiveAgree(g, h, Neighbours(p));
  }

  /** The count never includes the cell itself: changing `p` leaves its own count unchanged. */
  lemma CountIgnoresSelf(g: Grid, p: Point, v: bool)
    ensures LiveNeighbours(g[p := v], p) == LiveNeighbours(g, p)
  {
    NeighboursAreAdjacent(p);
    CountLiveAgree(g[p := v], g, Neighbours(p));
  }

  /** The cells of `cells` that are alive in `g`. */
  function LiveIn(g: Grid, cells: seq<Point>): set<Point> {
    set q | q in cells && CellAt(g, q)
  }

  /** Counting a sequence without repetitions one by one gives the size of its live part. */
  lemma {:induction false} CountIsCardinality(g: Grid, cells: seq<Point>)
    requires forall i, j :: 0 <= i < j < |cells| ==> cells[i] != cells[j]
    ensures CountLive(g, cells) == |LiveIn(g, cells)|
  {
    if cells == [] {
      assert LiveIn(g, cells) == {};
    } else {
      var init, last := cells[..|cells| - 1], cells[|cells| - 1];
      CountIsCardinality(g, init);
      assert last !in init;
      if CellAt(g, last) {
        assert LiveIn(g, cells) == LiveIn(g, init) + {last};
      } else {
        assert LiveIn(g, cells) == LiveIn(g, init);
      }
    }
  }

  /** The neighbour count is the number of distinct live cells adjacent to `p`; cells the grid does not hold never count. */
  lemma LiveNeighboursIsCardinality(g: Grid, p: Point)
    ensures LiveNeighbours(g, p) == |LiveNeighbourSet(g, p)|
  {
    NeighboursAreAdjacent(p);
    CountIsCardinality(g, Neighbours(p));
    assert LiveIn(g, Neighbours(p)) == LiveNeighbourSet(g, p);
  }

  /** The count of eight cells, spelled out as the sum of their states. */
  lemma CountEight(g: Grid, cells: seq<Point>)
    requires |cells| == 8
    ensures CountLive(g, cells)
         == Bit(g, cells[0]) + Bit(g, cells[1]) + Bit(g, cells[2]) + Bit(g, cells[3])
          + Bit(g, cells[4]) + Bit(g, cells[5]) + Bit(g, cells[6]) + Bit(g, cells[7])
  {
    assert cells[..8] == cells;
    assert cells[..0] == [];
    CountPrefixStep(g, cells, 0);
    CountPrefixStep(g, cells, 1);
    CountPrefixStep(g, cells, 2);
    CountPrefixStep(g, cells, 3);
    CountPrefixStep(g, cells, 4);
    CountPrefixStep(g, cells, 5);
    CountPrefixStep(g, cells, 6);
    CountPrefixStep(g, cells, 7);
  }

  /** A cell in the first or last row of a rectangle has at most five live neighbours. */
  lemma RowEdgeAtMostFive(g: Grid, rows: int, cols: int, p: Point)
    requires g.Keys == Domain(rows, cols) && p in g
    requires p.x == 0 || p.x == rows - 1
    ensures LiveNeighbours(g, p) <= 5
  {
    CountEight(g, Neighbours(p));
  }

  /** A cell in the first or last column of a rectangle has at most five live neighbours. */
  lemma ColumnEdgeAtMostFive(g: Grid, rows: int, cols: int, p: Point)
    requires g.Keys == Domain(rows, cols) && p in g
    requires p.y == 0 || p.y == cols - 1
    ensures LiveNeighbours(g, p) <= 5
  {
    CountEight(g, Neighbours(p));
  }

  /** A corner cell of a rectangle has at most three live neighbours. */
  lemma CornerAtMostThree(g: Grid, rows: int, cols: int, p: Point)
    requires g.Keys == Domain(rows, cols) && p in g
    requires p.x == 0 || p.x == rows - 1
    requires p.y == 0 || p.y == cols - 1
    ensures LiveNeighbours(g, p) <= 3
  {
    CountEight(g, Neighbours(p));
  }

  /** A grid with no live cell gives no cell a live neighbour. */
  lemma {:induction false} NoLiveNoCount(g: Grid, cells: seq<Point>)
    requires AllDead(g)
    ensures CountLive(g, cells) == 0
  {
    if cells != [] {
      NoLiveNoCount(g, cells[..|cells| - 1]);
    }
  }

  /** An all-dead grid stays all-dead: no dead cell has three live neighbours. */
  lemma AllDeadStaysDead(g: Grid)
    requires AllDead(g)
    ensures AllDead(Step(g))
  {
    forall p | p in g
      ensures !Step(g)[p]
    {
      NoLiveNoCount(g, Neighbours(p));
    }
  }

  /** A 3 by 3 grid whose only live cell is the centre. */
  function LoneCentre(): (g: Grid)
    ensures g.Keys == Domain(3, 3)
    ensures forall q :: CellAt(g, q) <==> q == Point(1, 1)
  {
    map q | q in Domain(3, 3) :: q == Point(1, 1)
  }

  /** On the 3 by 3 grid whose only live cell is the centre, the centre has no live neighbour and dies. */
  lemma LoneCentreCentre()
    ensures LiveNeighbours(LoneCentre(), Point(1, 1)) == 0
    ensures !Step(LoneCentre())[Point(1, 1)]
  {
    CountEight(LoneCentre(), Neighbours(Point(1, 1)));
  }

  /** On the 3 by 3 grid whose only live cell is the centre, a corner has one live neighbour and stays dead. */
  lemma LoneCentreCorner(p: Point)
    requires p in Domain(3, 3) && p.x != 1 && p.y != 1
    ensures LiveNeighbours(LoneCentre(), p) == 1
    ensures !Step(LoneCentre())[p]
  {
    CountEight(LoneCentre(), Neighbours(p));
  }

  /** On the 3 by 3 grid whose only live cell is the centre, the middle of an edge has one live neighbour and stays dead. */
  lemma LoneCentreEdge(p: Point)
    requires p in Domain(3, 3) && (p.x == 1) != (p.y == 1)
    ensures LiveNeighbours(LoneCentre(), p) == 1
    ensures !Step(LoneCentre())[p]
  {
    CountEight(LoneCentre(), Neighbours(p));
  }

  /** On a 3 by 3 grid whose only live cell is the centre, every cell is dead one generation later. */
  lemma LoneCentreDies()
    ensures AllDead(Step(LoneCentre()))
  {
    forall p | p in LoneCentre()
      ensures !Step(LoneCentre())[p]
    {
      if p == Point(1, 1) {
        LoneCentreCentre();
      } else if p.x != 1 && p.y != 1 {
        LoneCentreCorner(p);
      } else {
        LoneCentreEdge(p);
      }
    }
  }

  /** A fully live 3 by 3 grid. */
  function FullSquare(): (g: Grid)
    ensures g.Keys == Domain(3, 3)
    ensures forall q :: CellAt(g, q) <==> 0 <= q.x < 3 && 0 <= q.y < 3
  {
    map q | q in Domain(3, 3) :: true
  }

  /** In the full 3 by 3 grid a corner has three live neighbours and stays alive. */
  lemma FullSquareCorner(p: Point)
    requires p in Domain(3, 3) && p.x != 1 && p.y != 1
    ensures LiveNeighbours(FullSquare(), p) == 3
    ensures Step(FullSquare())[p]
  {
    CountEight(FullSquare(), Neighbours(p));
  }

  /** In the full 3 by 3 grid the middle of an edge has five live neighbours and dies. */
  lemma FullSquareEdge(p: Point)
    requires p in Domain(3, 3) && (p.x == 1) != (p.y == 1)
    ensures LiveNeighbours(FullSquare(), p) == 5
    ensures !Step(FullSquare())[p]
  {
    CountEight(FullSquare(), Neighbours(p));
  }

  /** In the full 3 by 3 grid the centre has eight live neighbours and dies. */
  lemma FullSquareCentre()
    ensures LiveNeighbours(FullSquare(), Point(1, 1)) == 8
    ensures !Step(FullSquare())[Point(1, 1)]
  {
    CountEight(FullSquare(), Neighbours(Point(1, 1)));
  }

  /** A fully live 3 by 3 grid keeps its four corners alive and loses every other cell. */
  lemma FullSquareStep()
    ensures forall p :: p in Domain(3, 3) ==> Step(FullSquare())[p] == (p.x != 1 && p.y != 1)
  {
    forall p | p in Domain(3, 3)
      ensures Step(FullSquare())[p] == (p.x != 1 && p.y != 1)
    {
      if p == Point(1, 1) {
        FullSquareCentre();
      } else if p.x != 1 && p.y != 1 {
        FullSquareCorner(p);
      } else {
        FullSquareEdge(p);
      }
    }
  }
}

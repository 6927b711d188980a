/**
 * Geometry of the maze grid (`MazeCell[][]`, indexed `grid[y][x]`): directions,
 * walls, functional cell updates, paths through open walls, and the counting
 * facts the generator and the game need.
 */
module Grid {
  import opened Types

  /** The grid as the source stores it: rows of cells, `g[y][x]`. */
  type Maze = seq<seq<Cell>>

  datatype Direction = Up | Right | Down | Left

  /** All four walls present. */
  const Closed: Walls := Walls(true, true, true, true)

  /** The coordinate one step from `p` towards `d`; up is `y - 1`. */
  function Step(p: Pos, d: Direction): Pos {
    match d
    case Up => Pos(p.x, p.y - 1)
    case Right => Pos(p.x + 1, p.y)
    case Down => Pos(p.x, p.y + 1)
    case Left => Pos(p.x - 1, p.y)
  }

  function Opposite(d: Direction): Direction {
    match d
    case Up => Down
    case Right => Left
    case Down => Up
    case Left => Right
  }

  lemma StepBack(p: Pos, d: Direction)
    ensures Step(Step(p, d), Opposite(d)) == p
    ensures Opposite(Opposite(d)) == d
  {
  }

  /** The wall of `w` that faces `d`. */
  function Wall(w: Walls, d: Direction): bool {
    match d
    case Up => w.top
    case Right => w.right
    case Down => w.bottom
    case Left => w.left
  }

  /** `w` with the wall facing `d` removed. */
  function Clear(w: Walls, d: Direction): (r: Walls)
    ensures forall e :: Wall(r, e) == (Wall(w, e) && e != d)
  {
    match d
    case Up => w.(top := false)
    case Right => w.(right := false)
    case Down => w.(bottom := false)
    case Left => w.(left := false)
  }

  /** `g[p.y][p.x]` exists: the source's `maze[y]?.[x]` is defined. */
  predicate InGrid(g: Maze, p: Pos) {
    0 <= p.y < |g| && 0 <= p.x < |g[p.y]|
  }

  function At(g: Maze, p: Pos): Cell
    requires InGrid(g, p)
  {
    g[p.y][p.x]
  }

  /** No wall on the side of `p` that faces `d`. */
  predicate Open(g: Maze, p: Pos, d: Direction)
    requires InGrid(g, p)
  {
    !Wall(At(g, p).walls, d)
  }

  /** `h` rows of `w` cells each. */
  predicate Shaped(g: Maze, w: int, h: int) {
    |g| == h && forall y :: 0 <= y < h ==> |g[y]| == w
  }

  predicate SameShape(a: Maze, b: Maze) {
    |a| == |b| && forall y :: 0 <= y < |a| ==> |a[y]| == |b[y]|
  }

  /** Every coordinate of a `w` by `h` grid. */
  function AllCells(w: int, h: int): set<Pos> {
    set x, y | 0 <= x < w && 0 <= y < h :: Pos(x, y)
  }

  /** `g` with the cell at `p` replaced by `c`. */
  function Update(g: Maze, p: Pos, c: Cell): (r: Maze)
    requires InGrid(g, p)
    ensures SameShape(r, g)
    ensures At(r, p) == c
    ensures forall q :: InGrid(g, q) && q != p ==> At(r, q) == At(g, q)
  {
    g[p.y := g[p.y][p.x := c]]
  }

  /**
   * Adjacent cells agree on their shared wall: `p`'s wall towards `d` is open
   * exactly when the neighbour's wall back towards `p` is open.
   */
  ghost predicate Symmetric(g: Maze) {
    forall p, d {:trigger Open(g, Step(p, d), Opposite(d))} :: InGrid(g, p) && InGrid(g, Step(p, d)) ==>
      (Open(g, p, d) <==> Open(g, Step(p, d), Opposite(d)))
  }

  /** Every open wall leads to a cell of the grid: the outer boundary is closed. */
  ghost predicate Enclosed(g: Maze) {
    forall p, d {:trigger Open(g, p, d)} :: InGrid(g, p) && Open(g, p, d) ==> InGrid(g, Step(p, d))
  }

  /** One move from `p` to `q` through an open wall. */
  ghost predicate Link(g: Maze, p: Pos, q: Pos) {
    InGrid(g, p) && exists d :: Step(p, d) == q && Open(g, p, d)
  }

  ghost predicate IsPath(g: Maze, path: seq<Pos>) {
    && |path| > 0
    && (forall i :: 0 <= i < |path| ==> InGrid(g, path[i]))
    && (forall i :: 0 <= i < |path| - 1 ==> Link(g, path[i], path[i + 1]))
  }

  /** `q` can be reached from `p` by moving through open walls only. */
  ghost predicate Reachable(g: Maze, p: Pos, q: Pos) {
    exists path :: IsPath(g, path) && path[0] == p && path[|path| - 1] == q
  }

  /** `g'` has the shape of `g` and keeps open every wall that is open in `g`. */
  ghost predicate OnlyOpens(g: Maze, g': Maze) {
    && SameShape(g', g)
    && forall p, d :: InGrid(g, p) && Open(g, p, d) ==> Open(g', p, d)
  }

  lemma PathSurvivesOpening(g: Maze, g': Maze, path: seq<Pos>)
    requires OnlyOpens(g, g') && IsPath(g, path)
    ensures IsPath(g', path)
  {
    forall i | 0 <= i < |path| - 1
      ensures Link(g', path[i], path[i + 1])
    {
      var d :| Step(path[i], d) == path[i + 1] && Open(g, path[i], d);
      assert Open(g', path[i], d);
    }
  }

  /**
   * An open wall pair, named once: by its upper or left cell and the cell to
   * the right of or below it.
   */
  ghost predicate IsOpenEdge(g: Maze, e: (Pos, Pos)) {
    && InGrid(g, e.0)
    && InGrid(g, e.1)
    && ((e.1 == Step(e.0, Right) && Open(g, e.0, Right))
        || (e.1 == Step(e.0, Down) && Open(g, e.0, Down)))
  }

  /** The pair of cells joined by `p`'s wall towards `d`, in the naming of `IsOpenEdge`. */
  function Edge(p: Pos, d: Direction): (Pos, Pos) {
    match d
    case Right => (p, Step(p, d))
    case Down => (p, Step(p, d))
    case Up => (Step(p, d), p)
    case Left => (Step(p, d), p)
  }

  /** The set of open wall pairs of a `w` by `h` grid. */
  ghost function OpenEdges(g: Maze, w: int, h: int): set<(Pos, Pos)>
    requires Shaped(g, w, h)
  {
    (set p | p in AllCells(w, h) && InGrid(g, Step(p, Right)) && Open(g, p, Right) :: (p, Step(p, Right)))
    + (set p | p in AllCells(w, h) && InGrid(g, Step(p, Down)) && Open(g, p, Down) :: (p, Step(p, Down)))
  }

  lemma OpenEdgesMembers(g: Maze, w: int, h: int)
    requires Shaped(g, w, h)
    ensures forall e :: e in OpenEdges(g, w, h) <==> IsOpenEdge(g, e)
  {
    forall e | IsOpenEdge(g, e)
      ensures e in OpenEdges(g, w, h)
    {
      assert e.0 in AllCells(w, h);
    }
  }

  lemma InAllCells(g: Maze, w: int, h: int, p: Pos)
    requires Shaped(g, w, h) && InGrid(g, p)
    ensures p in AllCells(w, h)
  {
    assert p == Pos(p.x, p.y);
  }

  function RowOf(w: int, y: int): set<Pos> {
    set x | 0 <= x < w :: Pos(x, y)
  }

  lemma {:induction false} RowOfCard(w: nat, y: int)
    ensures |RowOf(w, y)| == w
  {
    if w == 0 {
      assert RowOf(w, y) == {};
    } else {
      RowOfCard(w - 1, y);
      assert RowOf(w, y) == RowOf(w - 1, y) + {Pos(w - 1, y)};
    }
  }

  /** A `w` by `h` grid has `w * h` cells. */
  lemma {:induction false} AllCellsCard(w: nat, h: nat)
    ensures |AllCells(w, h)| == w * h
  {
    if h == 0 {
      assert AllCells(w, h) == {};
    } else {
      AllCellsCard(w, h - 1);
      RowOfCard(w, h - 1);
      assert AllCells(w, h) == AllCells(w, h - 1) + RowOf(w, h - 1);
      assert AllCells(w, h - 1) !! RowOf(w, h - 1);
      assert w * h == w * (h - 1) + w;
    }
  }

  function Count(b: bool): nat {
    if b then 1 else 0
  }

  /** The number of cells of `row` that hold an item. */
  function RowItems(row: seq<Cell>): nat {
    if |row| == 0 then 0 else Count(row[0].hasItem) + RowItems(row[1..])
  }

  /** The number of cells holding an item: `maze.flat().filter(c => c.hasItem).length`. */
  function ItemCount(g: Maze): nat {
    if |g| == 0 then 0 else RowItems(g[0]) + ItemCount(g[1..])
  }

  lemma {:induction false} RowItemsUpdate(row: seq<Cell>, i: nat, c: Cell)
    requires i < |row|
    ensures RowItems(row[i := c]) + Count(row[i].hasItem) == RowItems(row) + Count(c.hasItem)
  {
    if i == 0 {
      assert row[i := c][1..] == row[1..];
    } else {
      RowItemsUpdate(row[1..], i - 1, c);
      assert row[i := c][1..] == row[1..][i - 1 := c];
    }
  }

  lemma {:induction false} ItemCountRows(g: Maze, y: nat, row: seq<Cell>)
    requires y < |g|
    ensures ItemCount(g[y := row]) + RowItems(g[y]) == ItemCount(g) + RowItems(row)
  {
    if y == 0 {
      assert g[y := row][1..] == g[1..];
    } else {
      ItemCountRows(g[1..], y - 1, row);
      assert g[y := row][1..] == g[1..][y - 1 := row];
    }
  }

  /** Replacing one cell changes the item count by exactly the change in that cell. */
  lemma ItemCountUpdate(g: Maze, p: Pos, c: Cell)
    requires InGrid(g, p)
    ensures ItemCount(Update(g, p, c)) + Count(At(g, p).hasItem) == ItemCount(g) + Count(c.hasItem)
  {
    RowItemsUpdate(g[p.y], p.x, c);
    ItemCountRows(g, p.y, g[p.y][p.x := c]);
  }

  lemma {:induction false} RowItemsNone(row: seq<Cell>)
    requires forall x :: 0 <= x < |row| ==> !row[x].hasItem
    ensures RowItems(row) == 0
  {
    if |row| > 0 {
      RowItemsNone(row[1..]);
    }
  }

  lemma {:induction false} ItemCountNone(g: Maze)
    requires forall p :: InGrid(g, p) ==> !At(g, p).hasItem
    ensures ItemCount(g) == 0
  {
    if |g| > 0 {
      forall x | 0 <= x < |g[0]|
        ensures !g[0][x].hasItem
      {
        assert InGrid(g, Pos(x, 0));
      }
      RowItemsNone(g[0]);
      forall p | InGrid(g[1..], p)
        ensures !At(g[1..], p).hasItem
      {
        assert InGrid(g, Pos(p.x, p.y + 1));
      }
      ItemCountNone(g[1..]);
    }
  }

  /** `b` has the shape and the walls of `a`; other fields may differ. */
  ghost predicate SameWalls(a: Maze, b: Maze) {
    && SameShape(b, a)
    && forall p :: InGrid(a, p) ==> At(b, p).walls == At(a, p).walls
  }

  lemma SameWallsOpen(a: Maze, b: Maze)
    requires SameWalls(a, b)
    ensures forall p, d :: InGrid(a, p) ==> (Open(b, p, d) <==> Open(a, p, d))
    ensures forall p :: InGrid(b, p) <==> InGrid(a, p)
  {
  }

  lemma SameWallsTransitive(a: Maze, b: Maze, c: Maze)
    requires SameWalls(a, b) && SameWalls(b, c)
    ensures SameWalls(a, c)
  {
  }

  lemma SameWallsSymmetric(a: Maze, b: Maze)
    requires SameWalls(a, b) && Symmetric(a) && Enclosed(a)
    ensures Symmetric(b) && Enclosed(b)
  {
    SameWallsOpen(a, b);
  }

  lemma SameWallsReachable(a: Maze, b: Maze, src: Pos)
    requires SameWalls(a, b)
    requires forall p :: InGrid(a, p) ==> Reachable(a, src, p)
    ensures forall p :: InGrid(b, p) ==> Reachable(b, src, p)
  {
    SameWallsOpen(a, b);
    assert OnlyOpens(a, b);
    forall p | InGrid(b, p)
      ensures Reachable(b, src, p)
    {
      var path :| IsPath(a, path) && path[0] == src && path[|path| - 1] == p;
      PathSurvivesOpening(a, b, path);
    }
  }

  lemma SameWallsEdges(a: Maze, b: Maze, w: int, h: int)
    requires Shaped(a, w, h) && SameWalls(a, b)
    ensures Shaped(b, w, h) && OpenEdges(b, w, h) == OpenEdges(a, w, h)
  {
    SameWallsOpen(a, b);
    OpenEdgesMembers(a, w, h);
    OpenEdgesMembers(b, w, h);
    assert forall e :: IsOpenEdge(a, e) <==> IsOpenEdge(b, e);
  }
}

/**
 * services/mazeGenerator.ts: the randomised depth-first "recursive
 * backtracker". `Math.random` is replaced by two injected streams of draws,
 * one for the carve loop's neighbour choice and one for item placement, and
 * every property is proved for all draws.
 */
module MazeGenerator {
  import opened Wrappers
  import opened Types
  import opened Grid

  datatype GenError =
    | InvalidDimension     // a side below 1: the source fails indexing `grid[0][0]`
    | ItemDrawsExhausted   // the item draws ran out before enough items were placed

  /** A fresh cell: all four walls, no flags. */
  function NewCell(x: int, y: int): Cell {
    Cell(x, y, Closed, false, false, false, false)
  }

  /** The `height` by `width` grid of fresh cells that generation starts from. */
  function InitialGrid(w: nat, h: nat): (g: Maze)
    ensures Shaped(g, w, h)
    ensures forall p :: InGrid(g, p) ==> At(g, p) == NewCell(p.x, p.y)
  {
    seq(h, y => seq(w, x => NewCell(x, y)))
  }

  /** The index `Math.floor(Math.random() * n)`, taken from the `k`-th draw (0 once the draws run out). */
  function Pick(draws: seq<nat>, k: nat, n: nat): (i: nat)
    requires n > 0
    ensures i < n
  {
    if k < |draws| then draws[k] % n else 0
  }

  /**
   * The side of `from` that faces `to`, decided by the comparison chain the
   * source uses when it removes walls (top, right, bottom, left).
   */
  function Toward(from: Pos, to: Pos): Option<Direction> {
    if to.y < from.y then Some(Up)
    else if to.x > from.x then Some(Right)
    else if to.y > from.y then Some(Down)
    else if to.x < from.x then Some(Left)
    else None
  }

  /**
   * The neighbour of `cur` towards `d` when it lies in the grid and is
   * unvisited, tested with the source's bound checks on the coordinates.
   */
  function Candidate(g: Maze, w: int, h: int, cur: Pos, d: Direction): (r: seq<Pos>)
    requires Shaped(g, w, h) && InGrid(g, cur)
    ensures r == (if InGrid(g, Step(cur, d)) && !At(g, Step(cur, d)).visited then [Step(cur, d)] else [])
  {
    var x, y := cur.x, cur.y;
    match d
    case Up => if y > 0 && !g[y - 1][x].visited then [Pos(x, y - 1)] else []
    case Right => if x < w - 1 && !g[y][x + 1].visited then [Pos(x + 1, y)] else []
    case Down => if y < h - 1 && !g[y + 1][x].visited then [Pos(x, y + 1)] else []
    case Left => if x > 0 && !g[y][x - 1].visited then [Pos(x - 1, y)] else []
  }

  /** The unvisited in-grid neighbours of `cur`, in the order top, right, bottom, left. */
  function UnvisitedNeighbors(g: Maze, w: int, h: int, cur: Pos): (r: seq<Pos>)
    requires Shaped(g, w, h) && InGrid(g, cur)
    ensures forall q :: q in r ==>
      && InGrid(g, q)
      && !At(g, q).visited
      && Toward(cur, q).Some?
      && Step(cur, Toward(cur, q).value) == q
    ensures forall d :: InGrid(g, Step(cur, d)) && !At(g, Step(cur, d)).visited ==> Step(cur, d) in r
  {
    var r := Candidate(g, w, h, cur, Up) + Candidate(g, w, h, cur, Right)
      + Candidate(g, w, h, cur, Down) + Candidate(g, w, h, cur, Left);
    NeighborsMembers(g, w, h, cur, r);
    NeighborsComplete(g, w, h, cur, r);
    r
  }

  lemma NeighborsMembers(g: Maze, w: int, h: int, cur: Pos, r: seq<Pos>)
    requires Shaped(g, w, h) && InGrid(g, cur)
    requires r == Candidate(g, w, h, cur, Up) + Candidate(g, w, h, cur, Right)
      + Candidate(g, w, h, cur, Down) + Candidate(g, w, h, cur, Left)
    ensures forall q :: q in r ==>
      && InGrid(g, q)
      && !At(g, q).visited
      && Toward(cur, q).Some?
      && Step(cur, Toward(cur, q).value) == q
  {
    forall q | q in r
      ensures InGrid(g, q) && !At(g, q).visited
      ensures Toward(cur, q).Some? && Step(cur, Toward(cur, q).value) == q
    {
      if q in Candidate(g, w, h, cur, Up) {
        CandidateSound(g, w, h, cur, Up, q);
      } else if q in Candidate(g, w, h, cur, Right) {
        CandidateSound(g, w, h, cur, Right, q);
      } else if q in Candidate(g, w, h, cur, Down) {
        CandidateSound(g, w, h, cur, Down, q);
      } else {
        CandidateSound(g, w, h, cur, Left, q);
      }
    }
  }

  lemma CandidateSound(g: Maze, w: int, h: int, cur: Pos, d: Direction, q: Pos)
    requires Shaped(g, w, h) && InGrid(g, cur) && q in Candidate(g, w, h, cur, d)
    ensures InGrid(g, q) && !At(g, q).visited
    ensures Toward(cur, q) == Some(d) && Step(cur, d) == q
  {
    TowardStep(cur, d);
  }

  lemma NeighborsComplete(g: Maze, w: int, h: int, cur: Pos, r: seq<Pos>)
    requires Shaped(g, w, h) && InGrid(g, cur)
    requires r == Candidate(g, w, h, cur, Up) + Candidate(g, w, h, cur, Right)
      + Candidate(g, w, h, cur, Down) + Candidate(g, w, h, cur, Left)
    ensures forall d :: InGrid(g, Step(cur, d)) && !At(g, Step(cur, d)).visited ==> Step(cur, d) in r
  {
    forall d | InGrid(g, Step(cur, d)) && !At(g, Step(cur, d)).visited
      ensures Step(cur, d) in r
    {
      assert Step(cur, d) in Candidate(g, w, h, cur, d);
    }
  }

  /** The comparison chain finds the direction of every neighbour. */
  lemma TowardStep(cur: Pos, d: Direction)
    ensures Toward(cur, Step(cur, d)) == Some(d)
  {
  }

  /** A cell with its walls and its generator scratch flag erased. */
  function Skeleton(c: Cell): Cell {
    c.(walls := Closed, visited := false)
  }

  /** `g` differs from `g0` at most in walls and visited flags. */
  ghost predicate Keeps(g: Maze, g0: Maze) {
    && SameShape(g, g0)
    && forall p :: InGrid(g0, p) ==> Skeleton(At(g, p)) == Skeleton(At(g0, p))
  }

  /** `g` with the wall of `p` facing `d` removed. */
  function Knock(g: Maze, p: Pos, d: Direction): (r: Maze)
    requires InGrid(g, p)
    ensures SameShape(r, g)
    ensures forall q :: InGrid(g, q) ==> Skeleton(At(r, q)) == Skeleton(At(g, q)) && At(r, q).visited == At(g, q).visited
    ensures forall q, e :: InGrid(g, q) ==> (Open(r, q, e) <==> Open(g, q, e) || (q == p && e == d))
  {
    Update(g, p, At(g, p).(walls := Clear(At(g, p).walls, d)))
  }

  /** Removes the wall pair between `cur` and its neighbour `chosen`, on both sides. */
  function RemoveWallsBetween(g: Maze, cur: Pos, chosen: Pos): (r: Maze)
    requires InGrid(g, cur) && InGrid(g, chosen)
    ensures SameShape(r, g)
    ensures forall q :: InGrid(g, q) ==> Skeleton(At(r, q)) == Skeleton(At(g, q)) && At(r, q).visited == At(g, q).visited
  {
    if chosen.y < cur.y then Knock(Knock(g, cur, Up), chosen, Down)
    else if chosen.x > cur.x then Knock(Knock(g, cur, Right), chosen, Left)
    else if chosen.y > cur.y then Knock(Knock(g, cur, Down), chosen, Up)
    else if chosen.x < cur.x then Knock(Knock(g, cur, Left), chosen, Right)
    else g
  }

  /** Exactly the two sides of the shared wall between `cur` and its neighbour towards `d` open. */
  lemma RemoveWallsPaired(g: Maze, cur: Pos, d: Direction)
    requires InGrid(g, cur) && InGrid(g, Step(cur, d))
    ensures forall q, e :: InGrid(g, q) ==>
      (Open(RemoveWallsBetween(g, cur, Step(cur, d)), q, e) <==>
        (Open(g, q, e) || (q == cur && e == d) || (q == Step(cur, d) && e == Opposite(d))))
  {
    var chosen := Step(cur, d);
    var g1 := Knock(g, cur, d);
    assert RemoveWallsBetween(g, cur, chosen) == Knock(g1, chosen, Opposite(d));
  }

  function MarkVisited(g: Maze, p: Pos): (r: Maze)
    requires InGrid(g, p)
    ensures SameShape(r, g)
    ensures forall q :: InGrid(g, q) ==> Skeleton(At(r, q)) == Skeleton(At(g, q)) && At(r, q).walls == At(g, q).walls
    ensures forall q :: InGrid(g, q) ==> (At(r, q).visited <==> At(g, q).visited || q == p)
  {
    Update(g, p, At(g, p).(visited := true))
  }

  /** Every in-grid neighbour of `p` has been visited. */
  ghost predicate Explored(g: Maze, p: Pos)
    requires InGrid(g, p)
  {
    forall d :: InGrid(g, Step(p, d)) ==> At(g, Step(p, d)).visited
  }

  /** The grid part of the carve invariant: shape, untouched flags, paired and enclosed walls. */
  ghost predicate WallsInv(g: Maze, g0: Maze, w: int, h: int) {
    && Shaped(g, w, h)
    && Keeps(g, g0)
    && Symmetric(g)
    && Enclosed(g)
  }

  /**
   * `visited` mirrors the cells' flags; every visited cell off the stack has
   * no unvisited neighbour; unvisited cells still have all four walls.
   */
  ghost predicate VisitInv(g: Maze, stack: seq<Pos>, visited: set<Pos>) {
    && (forall p :: p in visited ==> InGrid(g, p))
    && (forall p :: InGrid(g, p) ==> (At(g, p).visited <==> p in visited))
    && Pos(0, 0) in visited
    && (forall i :: 0 <= i < |stack| ==> stack[i] in visited)
    && (forall p :: p in visited && p !in stack ==> Explored(g, p))
    && (forall p, d :: InGrid(g, p) && p !in visited ==> !Open(g, p, d))
  }

  /** `edges` is the set of open wall pairs, one fewer than the visited cells. */
  ghost predicate EdgeInv(g: Maze, edges: set<(Pos, Pos)>, visited: set<Pos>) {
    && (forall e :: e in edges <==> IsOpenEdge(g, e))
    && |edges| == |visited| - 1
  }

  /** `paths` holds, for every visited cell, a path to it from the start through open walls. */
  ghost predicate PathInv(g: Maze, visited: set<Pos>, paths: map<Pos, seq<Pos>>) {
    forall p :: p in visited ==>
      && p in paths
      && IsPath(g, paths[p])
      && paths[p][0] == Pos(0, 0)
      && paths[p][|paths[p]| - 1] == p
  }

  /** The invariant of the carve loop. */
  ghost predicate CarveInv(
    g: Maze, g0: Maze, w: int, h: int, stack: seq<Pos>,
    visited: set<Pos>, edges: set<(Pos, Pos)>, paths: map<Pos, seq<Pos>>)
  {
    && WallsInv(g, g0, w, h)
    && VisitInv(g, stack, visited)
    && EdgeInv(g, edges, visited)
    && PathInv(g, visited, paths)
  }

  /** The effect of one carve step on the grid: the pair between `cur` and its neighbour is opened and the neighbour visited. */
  ghost predicate CarvedPair(g: Maze, g': Maze, cur: Pos, d: Direction)
    requires InGrid(g, cur)
  {
    && SameShape(g', g)
    && (forall q :: InGrid(g, q) ==> Skeleton(At(g', q)) == Skeleton(At(g, q)))
    && (forall q :: InGrid(g, q) ==> (At(g', q).visited <==> At(g, q).visited || q == Step(cur, d)))
    && (forall q, e :: InGrid(g, q) ==>
          (Open(g', q, e) <==> Open(g, q, e) || (q == cur && e == d) || (q == Step(cur, d) && e == Opposite(d))))
  }

  lemma AddFresh<T>(s: set<T>, x: T)
    requires x !in s
    ensures |s + {x}| == |s| + 1
  {
  }

  lemma CarveInvInit(g0: Maze, w: int, h: int)
    requires w >= 1 && h >= 1 && Shaped(g0, w, h)
    requires forall p, d :: InGrid(g0, p) ==> Wall(At(g0, p).walls, d)
    requires forall p :: InGrid(g0, p) ==> (At(g0, p).visited <==> p == Pos(0, 0))
    ensures CarveInv(g0, g0, w, h, [Pos(0, 0)], {Pos(0, 0)}, {}, map[Pos(0, 0) := [Pos(0, 0)]])
  {
    forall e | IsOpenEdge(g0, e)
      ensures false
    {
    }
  }

  lemma CarvePop(
    g: Maze, g0: Maze, w: int, h: int, stack: seq<Pos>,
    visited: set<Pos>, edges: set<(Pos, Pos)>, paths: map<Pos, seq<Pos>>)
    requires CarveInv(g, g0, w, h, stack, visited, edges, paths)
    requires |stack| > 0 && InGrid(g, stack[|stack| - 1]) && Explored(g, stack[|stack| - 1])
    ensures CarveInv(g, g0, w, h, stack[..|stack| - 1], visited, edges, paths)
  {
    VisitPop(g, stack, visited);
  }

  lemma VisitPop(g: Maze, stack: seq<Pos>, visited: set<Pos>)
    requires VisitInv(g, stack, visited)
    requires |stack| > 0 && InGrid(g, stack[|stack| - 1]) && Explored(g, stack[|stack| - 1])
    ensures VisitInv(g, stack[..|stack| - 1], visited)
  {
    var rest := stack[..|stack| - 1];
    forall p | p in visited && p !in rest
      ensures Explored(g, p)
    {
      if p in stack {
        assert stack == rest + [stack[|stack| - 1]];
        assert p == stack[|stack| - 1];
      }
    }
  }

  lemma CarvePushSymmetric(g: Maze, g': Maze, cur: Pos, d: Direction)
    requires InGrid(g, cur) && InGrid(g, Step(cur, d))
    requires Symmetric(g) && CarvedPair(g, g', cur, d)
    ensures Symmetric(g')
  {
    var chosen := Step(cur, d);
    forall p, e | InGrid(g', p) && InGrid(g', Step(p, e))
      ensures Open(g', p, e) <==> Open(g', Step(p, e), Opposite(e))
    {
      var q := Step(p, e);
      assert InGrid(g, p) && InGrid(g, q);
      assert Open(g, p, e) <==> Open(g, q, Opposite(e));
      StepBack(p, e);
      StepBack(cur, d);
      assert (p == cur && e == d) <==> (q == chosen && Opposite(e) == Opposite(d));
      assert (p == chosen && e == Opposite(d)) <==> (q == cur && Opposite(e) == d);
    }
  }

  lemma CarvePushEdges(
    g: Maze, g': Maze, cur: Pos, d: Direction, edges: set<(Pos, Pos)>, visited: set<Pos>)
    requires InGrid(g, cur) && InGrid(g, Step(cur, d))
    requires CarvedPair(g, g', cur, d)
    requires EdgeInv(g, edges, visited)
    requires cur in visited && Step(cur, d) !in visited
    requires !Open(g, Step(cur, d), Opposite(d)) && !Open(g, cur, d)
    ensures EdgeInv(g', edges + {Edge(cur, d)}, visited + {Step(cur, d)})
  {
    CarvePushEdgeSet(g, g', cur, d, edges);
    AddFresh(edges, Edge(cur, d));
    AddFresh(visited, Step(cur, d));
  }

  lemma CarvePushEdgeSet(g: Maze, g': Maze, cur: Pos, d: Direction, edges: set<(Pos, Pos)>)
    requires InGrid(g, cur) && InGrid(g, Step(cur, d))
    requires CarvedPair(g, g', cur, d)
    requires forall e :: e in edges <==> IsOpenEdge(g, e)
    requires !Open(g, Step(cur, d), Opposite(d)) && !Open(g, cur, d)
    ensures forall e :: e in edges + {Edge(cur, d)} <==> IsOpenEdge(g', e)
    ensures Edge(cur, d) !in edges
  {
    var chosen := Step(cur, d);
    forall e | IsOpenEdge(g', e)
      ensures e in edges + {Edge(cur, d)}
    {
      if !IsOpenEdge(g, e) {
        assert e.0 == cur || e.0 == chosen;
      }
    }
    assert IsOpenEdge(g', Edge(cur, d)) by {
      match d
      case Up =>
      case Right =>
      case Down =>
      case Left =>
    }
  }

  lemma CarvePushPaths(
    g: Maze, g': Maze, cur: Pos, d: Direction, visited: set<Pos>, paths: map<Pos, seq<Pos>>)
    requires InGrid(g, cur) && InGrid(g, Step(cur, d)) && cur in visited
    requires CarvedPair(g, g', cur, d)
    requires PathInv(g, visited, paths)
    ensures PathInv(g', visited + {Step(cur, d)}, paths[Step(cur, d) := paths[cur] + [Step(cur, d)]])
  {
    var chosen := Step(cur, d);
    assert OnlyOpens(g, g');
    forall p | p in visited
      ensures IsPath(g', paths[p])
    {
      PathSurvivesOpening(g, g', paths[p]);
    }
    var path := paths[cur] + [chosen];
    assert IsPath(g', path) by {
      PathSurvivesOpening(g, g', paths[cur]);
      assert Link(g', cur, chosen) by {
        assert Step(cur, d) == chosen && Open(g', cur, d);
      }
      forall i | 0 <= i < |path| - 1
        ensures Link(g', path[i], path[i + 1])
      {
        if i < |path| - 2 {
          assert path[i] == paths[cur][i] && path[i + 1] == paths[cur][i + 1];
        }
      }
    }
  }

  lemma CarvePushFrame(g: Maze, g': Maze, g0: Maze, w: int, h: int, cur: Pos, d: Direction)
    requires InGrid(g, cur) && InGrid(g, Step(cur, d))
    requires WallsInv(g, g0, w, h)
    requires CarvedPair(g, g', cur, d)
    ensures WallsInv(g', g0, w, h)
  {
    CarvePushSymmetric(g, g', cur, d);
    forall p, e | InGrid(g', p) && Open(g', p, e)
      ensures InGrid(g', Step(p, e))
    {
      StepBack(cur, d);
    }
  }

  lemma CarvePushVisited(
    g: Maze, g': Maze, cur: Pos, d: Direction, stack: seq<Pos>, visited: set<Pos>)
    requires InGrid(g, cur) && InGrid(g, Step(cur, d)) && cur in visited
    requires CarvedPair(g, g', cur, d)
    requires VisitInv(g, stack, visited)
    ensures VisitInv(g', stack + [Step(cur, d)], visited + {Step(cur, d)})
  {
    var chosen := Step(cur, d);
    var stack' := stack + [chosen];
    var visited' := visited + {chosen};
    forall i | 0 <= i < |stack'|
      ensures stack'[i] in visited'
    {
      if i < |stack| {
        assert stack'[i] == stack[i];
      }
    }
    forall p | p in visited' && p !in stack'
      ensures Explored(g', p)
    {
      assert p in visited && p !in stack;
      assert Explored(g, p);
    }
  }

  /** One push step of the carve loop keeps the invariant. */
  lemma CarvePush(
    g: Maze, g': Maze, g0: Maze, w: int, h: int, stack: seq<Pos>,
    visited: set<Pos>, edges: set<(Pos, Pos)>, paths: map<Pos, seq<Pos>>, cur: Pos, d: Direction)
    requires CarveInv(g, g0, w, h, stack, visited, edges, paths)
    requires |stack| > 0 && cur == stack[|stack| - 1]
    requires InGrid(g, Step(cur, d)) && !At(g, Step(cur, d)).visited
    requires CarvedPair(g, g', cur, d)
    ensures
      var chosen := Step(cur, d);
      CarveInv(g', g0, w, h, stack + [chosen], visited + {chosen}, edges + {Edge(cur, d)},
               paths[chosen := paths[cur] + [chosen]])
  {
    var chosen := Step(cur, d);
    assert cur in visited;
    assert chosen !in visited;
    assert !Open(g, chosen, Opposite(d));
    assert !Open(g, cur, d) by {
      StepBack(cur, d);
    }
    CarvePushFrame(g, g', g0, w, h, cur, d);
    CarvePushVisited(g, g', cur, d, stack, visited);
    CarvePushEdges(g, g', cur, d, edges, visited);
    CarvePushPaths(g, g', cur, d, visited, paths);
  }

  /** The grid after one carve step is `CarvedPair` of the grid before it. */
  lemma CarveStepEffect(g: Maze, cur: Pos, d: Direction)
    requires InGrid(g, cur) && InGrid(g, Step(cur, d))
    ensures CarvedPair(g, MarkVisited(RemoveWallsBetween(g, cur, Step(cur, d)), Step(cur, d)), cur, d)
  {
    var chosen := Step(cur, d);
    var knocked := RemoveWallsBetween(g, cur, chosen);
    var g' := MarkVisited(knocked, chosen);
    RemoveWallsPaired(g, cur, d);
    forall q, e | InGrid(g, q)
      ensures Open(g', q, e) <==> Open(g, q, e) || (q == cur && e == d) || (q == chosen && e == Opposite(d))
    {
      assert Open(g', q, e) == Open(knocked, q, e);
    }
    forall q | InGrid(g, q)
      ensures Skeleton(At(g', q)) == Skeleton(At(g, q))
      ensures At(g', q).visited <==> At(g, q).visited || q == chosen
    {
      assert Skeleton(At(knocked, q)) == Skeleton(At(g, q));
    }
  }

  /** A push step keeps the invariant and visits a cell not visited before. */
  lemma CarveStep(
    g: Maze, g0: Maze, w: int, h: int, stack: seq<Pos>,
    visited: set<Pos>, edges: set<(Pos, Pos)>, paths: map<Pos, seq<Pos>>, cur: Pos, chosen: Pos)
    requires CarveInv(g, g0, w, h, stack, visited, edges, paths)
    requires |stack| > 0 && cur == stack[|stack| - 1]
    requires InGrid(g, chosen) && !At(g, chosen).visited
    requires Toward(cur, chosen).Some? && Step(cur, Toward(cur, chosen).value) == chosen
    ensures InGrid(g, cur)
    ensures
      var d := Toward(cur, chosen).value;
      CarveInv(MarkVisited(RemoveWallsBetween(g, cur, chosen), chosen), g0, w, h,
               stack + [chosen], visited + {chosen}, edges + {Edge(cur, d)},
               paths[chosen := paths[cur] + [chosen]])
    ensures AllCells(w, h) - (visited + {chosen}) < AllCells(w, h) - visited
  {
    var d := Toward(cur, chosen).value;
    assert cur in visited;
    CarveStepEffect(g, cur, d);
    CarvePush(g, MarkVisited(RemoveWallsBetween(g, cur, chosen), chosen), g0, w, h, stack, visited, edges, paths, cur, d);
    assert chosen !in visited;
    CarveShrinks(g, w, h, visited, chosen);
  }

  /** A cell without unvisited neighbours is explored. */
  lemma NoNeighborsExplored(g: Maze, w: int, h: int, p: Pos)
    requires Shaped(g, w, h) && InGrid(g, p)
    requires |UnvisitedNeighbors(g, w, h, p)| == 0
    ensures Explored(g, p)
  {
  }

  /** Visiting a new cell shrinks the set of cells still to visit. */
  lemma CarveShrinks(g: Maze, w: int, h: int, visited: set<Pos>, chosen: Pos)
    requires Shaped(g, w, h) && InGrid(g, chosen) && chosen !in visited
    ensures AllCells(w, h) - (visited + {chosen}) < AllCells(w, h) - visited
  {
    InAllCells(g, w, h, chosen);
    assert chosen in AllCells(w, h) - visited;
    assert AllCells(w, h) - (visited + {chosen}) == (AllCells(w, h) - visited) - {chosen};
  }

  /**
   * When the stack is empty every visited cell is explored, so the visited
   * region, which contains the start, is the whole grid.
   */
  lemma ExploredFromStart(g: Maze, w: int, h: int)
    requires w >= 1 && h >= 1 && Shaped(g, w, h)
    requires At(g, Pos(0, 0)).visited
    requires forall p :: InGrid(g, p) && At(g, p).visited ==> Explored(g, p)
    ensures forall p :: InGrid(g, p) ==> At(g, p).visited
  {
    var x := 0;
    while x < w - 1
      invariant 0 <= x < w
      invariant forall i :: 0 <= i <= x ==> At(g, Pos(i, 0)).visited
    {
      assert Step(Pos(x, 0), Right) == Pos(x + 1, 0);
      x := x + 1;
    }
    forall p | InGrid(g, p)
      ensures At(g, p).visited
    {
      var y := 0;
      while y < p.y
        invariant 0 <= y <= p.y
        invariant At(g, Pos(p.x, y)).visited
      {
        assert Step(Pos(p.x, y), Down) == Pos(p.x, y + 1);
        y := y + 1;
      }
    }
  }

  lemma CarveDone(
    g: Maze, g0: Maze, w: int, h: int, stack: seq<Pos>,
    visited: set<Pos>, edges: set<(Pos, Pos)>, paths: map<Pos, seq<Pos>>)
    requires w >= 1 && h >= 1
    requires CarveInv(g, g0, w, h, stack, visited, edges, paths) && |stack| == 0
    ensures Shaped(g, w, h) && Keeps(g, g0) && Symmetric(g) && Enclosed(g)
    ensures forall p :: InGrid(g, p) ==> At(g, p).visited
    ensures forall p :: InGrid(g, p) ==> Reachable(g, Pos(0, 0), p)
    ensures |OpenEdges(g, w, h)| == w * h - 1
  {
    ExploredFromStart(g, w, h);
    assert visited == AllCells(w, h) by {
      forall p | p in AllCells(w, h)
        ensures p in visited
      {
        assert InGrid(g, p);
      }
      forall p | p in visited
        ensures p in AllCells(w, h)
      {
        InAllCells(g, w, h, p);
      }
    }
    AllCellsCard(w, h);
    OpenEdgesMembers(g, w, h);
    assert edges == OpenEdges(g, w, h);
    forall p | InGrid(g, p)
      ensures Reachable(g, Pos(0, 0), p)
    {
      assert IsPath(g, paths[p]);
    }
  }

  /**
   * The carve loop (mazeGenerator.ts lines 26-62). The source pops `current`
   * and pushes it back when it still has unvisited neighbours; that leaves
   * the same stack as reading the top and popping only when it has none,
   * which is what the loop below does.
   */
  method Carve(g0: Maze, w: int, h: int, draws: seq<nat>) returns (g: Maze)
    requires w >= 1 && h >= 1 && Shaped(g0, w, h)
    requires forall p, d :: InGrid(g0, p) ==> Wall(At(g0, p).walls, d)
    requires forall p :: InGrid(g0, p) ==> (At(g0, p).visited <==> p == Pos(0, 0))
    ensures Shaped(g, w, h) && Keeps(g, g0)
    ensures Symmetric(g) && Enclosed(g)
    ensures forall p :: InGrid(g, p) ==> At(g, p).visited
    ensures forall p :: InGrid(g, p) ==> Reachable(g, Pos(0, 0), p)
    ensures |OpenEdges(g, w, h)| == w * h - 1
  {
    g := g0;
    var stack := [Pos(0, 0)];
    ghost var visited := {Pos(0, 0)};
    ghost var edges: set<(Pos, Pos)> := {};
    ghost var paths := map[Pos(0, 0) := [Pos(0, 0)]];
    var k := 0;
    CarveInvInit(g0, w, h);
    while |stack| > 0
      invariant CarveInv(g, g0, w, h, stack, visited, edges, paths)
      decreases AllCells(w, h) - visited, |stack|
    {
      var current := stack[|stack| - 1];
      assert current in visited;
      var neighbors := UnvisitedNeighbors(g, w, h, current);
      if |neighbors| > 0 {
        var chosen := neighbors[Pick(draws, k, |neighbors|)];
        k := k + 1;
        ghost var d := Toward(current, chosen).value;
        CarveStep(g, g0, w, h, stack, visited, edges, paths, current, chosen);
        g := MarkVisited(RemoveWallsBetween(g, current, chosen), chosen);
        stack := stack + [chosen];
        visited := visited + {chosen};
        edges := edges + {Edge(current, d)};
        paths := paths[chosen := paths[current] + [chosen]];
      } else {
        NoNeighborsExplored(g, w, h, current);
        CarvePop(g, g0, w, h, stack, visited, edges, paths);
        stack := stack[..|stack| - 1];
      }
    }
    CarveDone(g, g0, w, h, stack, visited, edges, paths);
  }

  /** The cell of the draw pair `(randX, randY)`: `Math.floor(Math.random() * width)` and likewise for the height. */
  function DrawnCell(draw: (nat, nat), w: int, h: int): (p: Pos)
    requires w >= 1 && h >= 1
    ensures 0 <= p.x < w && 0 <= p.y < h
  {
    Pos(draw.0 % w, draw.1 % h)
  }

  /** The number of items a `w` by `h` maze receives. */
  function MaxItems(w: int, h: int): int {
    (w * h) / 20
  }

  /** Some draw lands on every cell other than the start and the end. */
  ghost predicate CoversEligible(draws: seq<(nat, nat)>, w: int, h: int)
    requires w >= 1 && h >= 1
  {
    forall p: Pos :: 0 <= p.x < w && 0 <= p.y < h && p != Pos(0, 0) && p != Pos(w - 1, h - 1) ==>
      exists i :: 0 <= i < |draws| && DrawnCell(draws[i], w, h) == p
  }

  lemma SubsetCard<T>(a: set<T>, b: set<T>)
    requires a <= b
    ensures |a| <= |b|
  {
    assert b == a + (b - a);
  }

  /** There are at least `MaxItems(w, h)` cells that are neither the start nor the end. */
  lemma EnoughEligible(w: int, h: int)
    requires w >= 1 && h >= 1
    ensures |AllCells(w, h) - {Pos(0, 0), Pos(w - 1, h - 1)}| >= MaxItems(w, h)
  {
    var all := AllCells(w, h);
    var ends := {Pos(0, 0), Pos(w - 1, h - 1)};
    AllCellsCard(w, h);
    assert Pos(0, 0) in all && Pos(w - 1, h - 1) in all;
    assert all == (all - ends) + ends;
    assert |ends| <= 2;
    if w * h >= 2 {
      assert |all - ends| >= w * h - 2;
    } else {
      assert w * h == 1;
    }
  }

  /**
   * Rejection-sampled item placement (mazeGenerator.ts lines 68-78): each
   * draw that lands on a cell which is not the start, not the end and has no
   * item yet gets an item, until `MaxItems` are placed. The source draws
   * until it succeeds; here the draws are finite and running out is an error.
   */
  method PlaceItems(g0: Maze, w: int, h: int, draws: seq<(nat, nat)>) returns (r: Result<Maze, GenError>)
    requires w >= 1 && h >= 1 && Shaped(g0, w, h)
    requires forall p :: InGrid(g0, p) ==> !At(g0, p).hasItem
    requires forall p :: InGrid(g0, p) ==> (At(g0, p).isStart <==> p == Pos(0, 0))
    requires forall p :: InGrid(g0, p) ==> (At(g0, p).isEnd <==> p == Pos(w - 1, h - 1))
    ensures r.Success? ==> Shaped(r.value, w, h)
    ensures r.Success? ==> forall p :: InGrid(r.value, p) ==> At(r.value, p).(hasItem := false) == At(g0, p)
    ensures r.Success? ==> forall p :: InGrid(r.value, p) && At(r.value, p).hasItem ==> !At(r.value, p).isStart && !At(r.value, p).isEnd
    ensures r.Success? ==> ItemCount(r.value) == MaxItems(w, h)
    ensures r.Failure? ==> r.error == ItemDrawsExhausted
    ensures CoversEligible(draws, w, h) ==> r.Success?
  {
    var g := g0;
    var itemsPlaced := 0;
    var maxItems := MaxItems(w, h);
    var i := 0;
    ghost var items: set<Pos> := {};
    ItemCountNone(g0);
    while itemsPlaced < maxItems && i < |draws|
      invariant 0 <= i <= |draws| && itemsPlaced <= maxItems
      invariant ItemsInv(g, g0, w, h, items, itemsPlaced, draws, i)
    {
      var cell := DrawnCell(draws[i], w, h);
      if !At(g, cell).isStart && !At(g, cell).isEnd && !At(g, cell).hasItem {
        PlaceOne(g, g0, w, h, items, itemsPlaced, draws, i);
        g := Update(g, cell, At(g, cell).(hasItem := true));
        items := items + {cell};
        itemsPlaced := itemsPlaced + 1;
      } else {
        SkipOne(g, g0, w, h, items, itemsPlaced, draws, i);
      }
      i := i + 1;
    }
    if itemsPlaced == maxItems {
      r := Success(g);
    } else {
      r := Failure(ItemDrawsExhausted);
      if CoversEligible(draws, w, h) {
        CoveredMeansPlaced(draws, w, h, items);
      }
    }
  }

  /** Only `hasItem` flags of `g` differ from `g0`. */
  ghost predicate OnlyItems(g: Maze, g0: Maze)
    requires SameShape(g, g0)
  {
    forall p :: InGrid(g, p) ==> At(g, p).(hasItem := false) == At(g0, p)
  }

  /** The item flags of `g` mark exactly `items`, none of which is the start or the end. */
  ghost predicate ItemsAt(g: Maze, items: set<Pos>, w: int, h: int) {
    && (forall p :: InGrid(g, p) ==> (At(g, p).hasItem <==> p in items))
    && (forall p :: p in items ==> InGrid(g, p) && p != Pos(0, 0) && p != Pos(w - 1, h - 1))
  }

  /** Every eligible cell among the first `i` draws is in `items`. */
  ghost predicate DrawsCovered(draws: seq<(nat, nat)>, i: int, items: set<Pos>, w: int, h: int)
    requires w >= 1 && h >= 1 && 0 <= i <= |draws|
  {
    forall j :: 0 <= j < i && DrawnCell(draws[j], w, h) != Pos(0, 0) && DrawnCell(draws[j], w, h) != Pos(w - 1, h - 1) ==>
      DrawnCell(draws[j], w, h) in items
  }

  /**
   * The item loop's invariant after `i` draws: only `hasItem` flags changed,
   * they mark exactly `items`, none of which is the start or the end, their
   * number is `placed`, and every eligible cell drawn so far holds an item.
   */
  ghost predicate ItemsInv(
    g: Maze, g0: Maze, w: int, h: int, items: set<Pos>, placed: int, draws: seq<(nat, nat)>, i: int)
    requires w >= 1 && h >= 1 && 0 <= i <= |draws| && Shaped(g0, w, h)
  {
    && Shaped(g, w, h)
    && OnlyItems(g, g0)
    && ItemsAt(g, items, w, h)
    && |items| == placed
    && ItemCount(g) == placed
    && DrawsCovered(draws, i, items, w, h)
  }

  lemma PlaceOne(
    g: Maze, g0: Maze, w: int, h: int, items: set<Pos>, placed: int, draws: seq<(nat, nat)>, i: int)
    requires w >= 1 && h >= 1 && 0 <= i < |draws| && Shaped(g0, w, h)
    requires forall p :: InGrid(g0, p) ==> (At(g0, p).isStart <==> p == Pos(0, 0))
    requires forall p :: InGrid(g0, p) ==> (At(g0, p).isEnd <==> p == Pos(w - 1, h - 1))
    requires ItemsInv(g, g0, w, h, items, placed, draws, i)
    requires var cell := DrawnCell(draws[i], w, h);
      !At(g, cell).isStart && !At(g, cell).isEnd && !At(g, cell).hasItem
    ensures var cell := DrawnCell(draws[i], w, h);
      ItemsInv(Update(g, cell, At(g, cell).(hasItem := true)), g0, w, h, items + {cell}, placed + 1, draws, i + 1)
  {
    var cell := DrawnCell(draws[i], w, h);
    var g' := Update(g, cell, At(g, cell).(hasItem := true));
    assert At(g, cell).(hasItem := false) == At(g0, cell);
    assert cell != Pos(0, 0) && cell != Pos(w - 1, h - 1);
    PlaceFrame(g, g0, cell);
    PlaceMarks(g, items, cell, w, h);
    AddFresh(items, cell);
    ItemCountUpdate(g, cell, At(g, cell).(hasItem := true));
    assert Count(At(g, cell).hasItem) == 0 && Count(true) == 1;
    assert ItemCount(g') == placed + 1;
  }

  lemma PlaceFrame(g: Maze, g0: Maze, cell: Pos)
    requires SameShape(g, g0) && InGrid(g, cell) && OnlyItems(g, g0)
    ensures SameShape(Update(g, cell, At(g, cell).(hasItem := true)), g0)
    ensures OnlyItems(Update(g, cell, At(g, cell).(hasItem := true)), g0)
  {
    var g' := Update(g, cell, At(g, cell).(hasItem := true));
    forall p | InGrid(g', p)
      ensures At(g', p).(hasItem := false) == At(g0, p)
    {
      if p == cell {
        assert At(g, p).(hasItem := false) == At(g0, p);
      } else {
        assert At(g', p) == At(g, p);
      }
    }
  }

  lemma PlaceMarks(g: Maze, items: set<Pos>, cell: Pos, w: int, h: int)
    requires ItemsAt(g, items, w, h) && InGrid(g, cell) && !At(g, cell).hasItem
    requires cell != Pos(0, 0) && cell != Pos(w - 1, h - 1)
    ensures cell !in items
    ensures ItemsAt(Update(g, cell, At(g, cell).(hasItem := true)), items + {cell}, w, h)
  {
    var g' := Update(g, cell, At(g, cell).(hasItem := true));
    forall p | InGrid(g', p)
      ensures At(g', p).hasItem <==> p in items + {cell}
    {
      if p != cell {
        assert At(g', p) == At(g, p);
      }
    }
  }

  lemma SkipOne(
    g: Maze, g0: Maze, w: int, h: int, items: set<Pos>, placed: int, draws: seq<(nat, nat)>, i: int)
    requires w >= 1 && h >= 1 && 0 <= i < |draws| && Shaped(g0, w, h)
    requires forall p :: InGrid(g0, p) ==> (At(g0, p).isStart <==> p == Pos(0, 0))
    requires forall p :: InGrid(g0, p) ==> (At(g0, p).isEnd <==> p == Pos(w - 1, h - 1))
    requires ItemsInv(g, g0, w, h, items, placed, draws, i)
    requires var cell := DrawnCell(draws[i], w, h);
      At(g, cell).isStart || At(g, cell).isEnd || At(g, cell).hasItem
    ensures ItemsInv(g, g0, w, h, items, placed, draws, i + 1)
  {
    var cell := DrawnCell(draws[i], w, h);
    assert InGrid(g0, cell) && At(g, cell).(hasItem := false) == At(g0, cell);
    if cell != Pos(0, 0) && cell != Pos(w - 1, h - 1) {
      assert cell in items;
    }
  }

  /** If every eligible cell was drawn and got an item, at least `MaxItems` items were placed. */
  lemma CoveredMeansPlaced(draws: seq<(nat, nat)>, w: int, h: int, items: set<Pos>)
    requires w >= 1 && h >= 1 && CoversEligible(draws, w, h)
    requires forall j :: 0 <= j < |draws| && DrawnCell(draws[j], w, h) != Pos(0, 0) && DrawnCell(draws[j], w, h) != Pos(w - 1, h - 1) ==>
      DrawnCell(draws[j], w, h) in items
    ensures |items| >= MaxItems(w, h)
  {
    var eligible := AllCells(w, h) - {Pos(0, 0), Pos(w - 1, h - 1)};
    forall p | p in eligible
      ensures p in items
    {
      var j :| 0 <= j < |draws| && DrawnCell(draws[j], w, h) == p;
    }
    SubsetCard(eligible, items);
    EnoughEligible(w, h);
  }

  /**
   * A perfect maze on a `w` by `h` grid: neighbours agree on shared walls,
   * the outer boundary is closed, every cell is reachable from the start, and
   * exactly `w * h - 1` wall pairs are open, so the open walls form a spanning
   * tree of the grid.
   */
  ghost predicate PerfectMaze(g: Maze, w: int, h: int) {
    && Shaped(g, w, h)
    && Symmetric(g)
    && Enclosed(g)
    && (forall p :: InGrid(g, p) ==> Reachable(g, Pos(0, 0), p))
    && |OpenEdges(g, w, h)| == w * h - 1
  }

  /** Every cell knows its coordinates; the start is (0, 0) and the end is (w - 1, h - 1), and nothing else is either. */
  ghost predicate Marked(g: Maze, w: int, h: int) {
    forall p :: InGrid(g, p) ==>
      && At(g, p).x == p.x && At(g, p).y == p.y
      && (At(g, p).isStart <==> p == Pos(0, 0))
      && (At(g, p).isEnd <==> p == Pos(w - 1, h - 1))
  }

  /** The fresh grid with its (0, 0) cell marked as the start and visited. */
  function StartGrid(w: int, h: int): (g: Maze)
    requires w >= 1 && h >= 1
    ensures Shaped(g, w, h)
    ensures forall p, d :: InGrid(g, p) ==> Wall(At(g, p).walls, d)
    ensures forall p :: InGrid(g, p) ==> At(g, p).x == p.x && At(g, p).y == p.y
    ensures forall p :: InGrid(g, p) ==> (At(g, p).visited <==> p == Pos(0, 0))
    ensures forall p :: InGrid(g, p) ==> (At(g, p).isStart <==> p == Pos(0, 0)) && !At(g, p).isEnd && !At(g, p).hasItem
  {
    var init := InitialGrid(w, h);
    Update(init, Pos(0, 0), At(init, Pos(0, 0)).(isStart := true, visited := true))
  }

  /** The grid before item placement: carved, with start and end marked and no item yet. */
  method CarvedGrid(w: int, h: int, carveDraws: seq<nat>) returns (g: Maze)
    requires w >= 1 && h >= 1
    ensures PerfectMaze(g, w, h) && Marked(g, w, h)
    ensures forall p :: InGrid(g, p) ==> !At(g, p).hasItem
  {
    var init := StartGrid(w, h);
    var carved := Carve(init, w, h, carveDraws);
    var end := Pos(w - 1, h - 1);
    g := Update(carved, end, At(carved, end).(isEnd := true));
    EndMarked(init, carved, g, w, h);
    MazeCarriesOver(carved, g, w, h);
  }

  /**
   * `generateMaze(width, height)`: fresh grid, start at (0, 0), carve, end at
   * (width - 1, height - 1), then items.
   */
  method GenerateMaze(w: int, h: int, carveDraws: seq<nat>, itemDraws: seq<(nat, nat)>)
    returns (r: Result<Maze, GenError>)
    ensures w < 1 || h < 1 ==> r == Failure(InvalidDimension)
    ensures r.Success? ==> PerfectMaze(r.value, w, h)
    ensures r.Success? ==> Marked(r.value, w, h)
    ensures r.Success? ==> ItemCount(r.value) == MaxItems(w, h)
    ensures r.Success? ==> forall p :: InGrid(r.value, p) && At(r.value, p).hasItem ==> !At(r.value, p).isStart && !At(r.value, p).isEnd
    ensures w >= 1 && h >= 1 && CoversEligible(itemDraws, w, h) ==> r.Success?
  {
    if w < 1 || h < 1 {
      return Failure(InvalidDimension);
    }
    var g := CarvedGrid(w, h, carveDraws);
    r := PlaceItems(g, w, h, itemDraws);
    if r.Success? {
      ItemsKeepMaze(g, r.value, w, h);
    }
  }

  /** Placing items changes neither the maze's walls nor its start and end. */
  lemma ItemsKeepMaze(g: Maze, m: Maze, w: int, h: int)
    requires PerfectMaze(g, w, h) && Marked(g, w, h)
    requires Shaped(m, w, h)
    requires forall p :: InGrid(m, p) ==> At(m, p).(hasItem := false) == At(g, p)
    ensures PerfectMaze(m, w, h) && Marked(m, w, h)
  {
    ItemsKeepWalls(g, m, w, h);
    MazeCarriesOver(g, m, w, h);
    ItemsKeepMarks(g, m, w, h);
  }

  lemma ItemsKeepWalls(g: Maze, m: Maze, w: int, h: int)
    requires Shaped(g, w, h) && Shaped(m, w, h)
    requires forall p :: InGrid(m, p) ==> At(m, p).(hasItem := false) == At(g, p)
    ensures SameWalls(g, m)
  {
    forall p | InGrid(g, p)
      ensures At(m, p).walls == At(g, p).walls
    {
      assert At(m, p).(hasItem := false).walls == At(m, p).walls;
    }
  }

  lemma ItemsKeepMarks(g: Maze, m: Maze, w: int, h: int)
    requires Marked(g, w, h) && Shaped(g, w, h) && Shaped(m, w, h)
    requires forall p :: InGrid(m, p) ==> At(m, p).(hasItem := false) == At(g, p)
    ensures Marked(m, w, h)
  {
    forall p | InGrid(m, p)
      ensures At(m, p).x == p.x && At(m, p).y == p.y
      ensures At(m, p).isStart <==> p == Pos(0, 0)
      ensures At(m, p).isEnd <==> p == Pos(w - 1, h - 1)
    {
      assert At(m, p).(hasItem := false) == At(g, p);
    }
  }

  /** Setting the end flag on the carved grid leaves exactly one start and one end. */
  lemma EndMarked(g: Maze, carved: Maze, ended: Maze, w: int, h: int)
    requires w >= 1 && h >= 1 && Shaped(g, w, h)
    requires forall p :: InGrid(g, p) ==> At(g, p).x == p.x && At(g, p).y == p.y
    requires forall p :: InGrid(g, p) ==> (At(g, p).isStart <==> p == Pos(0, 0)) && !At(g, p).isEnd && !At(g, p).hasItem
    requires Shaped(carved, w, h) && Keeps(carved, g)
    requires ended == Update(carved, Pos(w - 1, h - 1), At(carved, Pos(w - 1, h - 1)).(isEnd := true))
    ensures Shaped(ended, w, h) && SameWalls(carved, ended)
    ensures forall p :: InGrid(ended, p) ==> At(ended, p).x == p.x && At(ended, p).y == p.y
    ensures forall p :: InGrid(ended, p) ==> !At(ended, p).hasItem
    ensures forall p :: InGrid(ended, p) ==> (At(ended, p).isStart <==> p == Pos(0, 0))
    ensures forall p :: InGrid(ended, p) ==> (At(ended, p).isEnd <==> p == Pos(w - 1, h - 1))
  {
    forall p | InGrid(ended, p)
      ensures At(ended, p).x == p.x && At(ended, p).y == p.y && !At(ended, p).hasItem
      ensures At(ended, p).isStart <==> p == Pos(0, 0)
      ensures At(ended, p).isEnd <==> p == Pos(w - 1, h - 1)
    {
      assert Skeleton(At(carved, p)) == Skeleton(At(g, p));
    }
  }

  /** A grid with the walls of a carved maze keeps all of that maze's wall properties. */
  lemma MazeCarriesOver(a: Maze, b: Maze, w: int, h: int)
    requires Shaped(a, w, h) && SameWalls(a, b)
    requires Symmetric(a) && Enclosed(a)
    requires forall p :: InGrid(a, p) ==> Reachable(a, Pos(0, 0), p)
    requires |OpenEdges(a, w, h)| == w * h - 1
    ensures Shaped(b, w, h) && Symmetric(b) && Enclosed(b)
    ensures forall p :: InGrid(b, p) ==> Reachable(b, Pos(0, 0), p)
    ensures |OpenEdges(b, w, h)| == w * h - 1
  {
    SameWallsSymmetric(a, b);
    SameWallsReachable(a, b, Pos(0, 0));
    SameWallsEdges(a, b, w, h);
  }
}

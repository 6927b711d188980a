/**
 * The traversal controller of components/Game.tsx: the level's maze size,
 * starting a level, key presses that move the runner through open walls and
 * pick up items, the win with its completion score, and the one-second timer.
 *
 * React state is one `Round` record and every handler is a function from the
 * round before to the round after. `handleWin` reads the `score` of the render
 * that handled the key, so the completion points use the score from before the
 * winning move; `CompletionUsesFinalScore` shows this never matters.
 */
module Game {
  import opened Wrappers
  import opened Types
  import opened Constants
  import opened Grid
  import opened MazeGenerator

  datatype GameState = Ready | Playing | Won

  /** The component's state: the maze, the runner, the clock, the score and the lifecycle. */
  datatype Round = Round(
    maze: Maze,
    pos: Pos,
    time: int,
    score: int,
    itemsCollected: int,
    totalItems: int,
    state: GameState,
    level: int)

  /** The arguments `onLevelComplete(points, time)` is called with. */
  datatype Completion = Completion(points: int, time: int)

  /** A handler's effect: the next round, and the completion it reports, if any. */
  datatype Outcome = Outcome(round: Round, completion: Option<Completion>)

  /** The side length of the square maze of a level: grows by two per level, capped at 30. */
  function MazeSize(level: int): (n: int)
    ensures n <= 30
    ensures level >= 1 ==> 12 <= n
    ensures n == 30 <==> level >= 10
    ensures n < 30 ==> n == 10 + 2 * level
  {
    if 10 + level * 2 < 30 then 10 + level * 2 else 30
  }

  /** A later level never gets a smaller maze. */
  lemma MazeSizeMonotone(a: int, b: int)
    requires a <= b
    ensures MazeSize(a) <= MazeSize(b)
  {
  }

  /** One point per second under par, where par is five seconds per row of the maze. */
  function TimeBonus(size: int, time: int): (b: int)
    ensures b >= 0
    ensures b > 0 <==> time < size * 5
    ensures b > 0 ==> b == (size * 5 - time) * TIME_BONUS_PER_SECOND
  {
    var raw := (size * 5 - time) * TIME_BONUS_PER_SECOND;
    if raw > 0 then raw else 0
  }

  /** The points reported for completing a level: collected items, the completion award and the time bonus. */
  function FinalScore(score: int, size: int, time: int): (f: int)
    ensures f >= score + LEVEL_COMPLETE
    ensures f == score + LEVEL_COMPLETE <==> time >= size * 5
  {
    score + LEVEL_COMPLETE + TimeBonus(size, time)
  }

  /** Finishing later never earns more. */
  lemma FinalScoreAntitone(score: int, size: int, t1: int, t2: int)
    requires t1 <= t2
    ensures FinalScore(score, size, t2) <= FinalScore(score, size, t1)
  {
  }

  /** A level-1 maze is 12 wide, so par is 60 seconds. */
  lemma FinalScoreExamples()
    ensures FinalScore(0, MazeSize(1), 0) == 160
    ensures FinalScore(50, MazeSize(1), 10) == 200
    ensures FinalScore(25, MazeSize(1), 75) == 125
    ensures FinalScore(0, MazeSize(10), 149) == 101
  {
  }

  /** The direction a key selects: arrow keys and W, A, S, D. */
  function KeyDirection(key: string): (d: Option<Direction>)
    ensures d == Some(Up) <==> key == "ArrowUp" || key == "w"
    ensures d == Some(Down) <==> key == "ArrowDown" || key == "s"
    ensures d == Some(Left) <==> key == "ArrowLeft" || key == "a"
    ensures d == Some(Right) <==> key == "ArrowRight" || key == "d"
  {
    if key == "ArrowUp" || key == "w" then Some(Up)
    else if key == "ArrowDown" || key == "s" then Some(Down)
    else if key == "ArrowLeft" || key == "a" then Some(Left)
    else if key == "ArrowRight" || key == "d" then Some(Right)
    else None
  }

  /** The state of the component before its first level starts. */
  function Initial(level: int): (r: Round)
    ensures r.state == Ready && r.maze == [] && r.pos == Pos(0, 0)
    ensures r.time == 0 && r.score == 0 && r.itemsCollected == 0 && r.totalItems == 0
  {
    Round([], Pos(0, 0), 0, 0, 0, 0, Ready, level)
  }

  /** `startNewLevel`: a new maze, the runner at the start, clock, score and items reset. */
  function StartNewLevel(r: Round, maze: Maze): (s: Round)
    ensures s.maze == maze && s.level == r.level
    ensures s.pos == Pos(0, 0) && s.time == 0 && s.score == 0 && s.itemsCollected == 0
    ensures s.totalItems == ItemCount(maze)
    ensures s.state == Playing
  {
    Round(maze, Pos(0, 0), 0, 0, 0, ItemCount(maze), Playing, r.level)
  }

  /** The one-second interval: the clock runs only while playing. */
  function Tick(r: Round): (s: Round)
    ensures r.state == Playing ==> s == r.(time := r.time + 1)
    ensures r.state != Playing ==> s == r
  {
    if r.state == Playing then r.(time := r.time + 1) else r
  }

  /** The position `handleKeyDown` aims for: one step towards the key's side when that wall is open. */
  function Target(g: Maze, pos: Pos, key: string): Pos
    requires InGrid(g, pos)
  {
    match KeyDirection(key)
    case Some(d) => if !Wall(At(g, pos).walls, d) then Step(pos, d) else pos
    case None => pos
  }

  /**
   * `handleKeyDown`. Ignored unless playing or when the runner is off the
   * grid. A move whose target lies off the grid throws before any state
   * changes in the source, so it changes nothing here either. Entering a cell
   * with an item takes the item; entering the end cell wins.
   */
  function KeyDown(r: Round, key: string): (o: Outcome)
    ensures r.state != Playing ==> o == Outcome(r, None)
    ensures o.round.time == r.time && o.round.level == r.level && o.round.totalItems == r.totalItems
  {
    if r.state != Playing || !InGrid(r.maze, r.pos) then Outcome(r, None)
    else
      var next := Target(r.maze, r.pos, key);
      if next == r.pos || !InGrid(r.maze, next) then Outcome(r, None)
      else
        var cell := At(r.maze, next);
        var taken :=
          if cell.hasItem then
            r.(maze := Update(r.maze, next, cell.(hasItem := false)),
               itemsCollected := r.itemsCollected + 1,
               score := r.score + HIDDEN_ITEM)
          else r;
        var moved := taken.(pos := next);
        if cell.isEnd then
          Outcome(moved.(state := Won), Some(Completion(FinalScore(r.score, MazeSize(r.level), r.time), r.time)))
        else Outcome(moved, None)
  }

  /** A key that selects no direction, or one whose wall is present, changes nothing. */
  lemma BlockedKeyIgnored(r: Round, key: string)
    requires InGrid(r.maze, r.pos)
    requires KeyDirection(key).None? || Wall(At(r.maze, r.pos).walls, KeyDirection(key).value)
    ensures KeyDown(r, key) == Outcome(r, None)
  {
  }

  /** Whenever the runner moves, it moves one step through an open wall, towards the key's side. */
  lemma MoveThroughOpenWall(r: Round, key: string)
    requires KeyDown(r, key).round.pos != r.pos
    ensures r.state == Playing && InGrid(r.maze, r.pos)
    ensures KeyDirection(key).Some?
    ensures Open(r.maze, r.pos, KeyDirection(key).value)
    ensures KeyDown(r, key).round.pos == Step(r.pos, KeyDirection(key).value)
    ensures InGrid(r.maze, KeyDown(r, key).round.pos)
  {
  }

  /** A successful move changes exactly one coordinate by exactly one. */
  lemma MoveIsUnitStep(r: Round, key: string)
    requires KeyDown(r, key).round.pos != r.pos
    ensures var p, q := r.pos, KeyDown(r, key).round.pos;
      (q.x == p.x && (q.y == p.y - 1 || q.y == p.y + 1)) || (q.y == p.y && (q.x == p.x - 1 || q.x == p.x + 1))
  {
    MoveThroughOpenWall(r, key);
  }

  /** In a maze whose boundary is closed, an open wall never leads off the grid, so the throwing path is unreachable. */
  lemma EnclosedMovesStayInGrid(r: Round, key: string)
    requires r.state == Playing && InGrid(r.maze, r.pos) && Enclosed(r.maze)
    requires KeyDirection(key).Some? && Open(r.maze, r.pos, KeyDirection(key).value)
    ensures KeyDown(r, key).round.pos == Step(r.pos, KeyDirection(key).value)
  {
    var d := KeyDirection(key).value;
    assert InGrid(r.maze, Step(r.pos, d));
    assert Step(r.pos, d) != r.pos;
  }

  /** Entering a cell: its item, if any, is taken for 25 points; without one nothing but the position changes. */
  lemma MovePicksUpItem(r: Round, key: string)
    requires KeyDown(r, key).round.pos != r.pos
    ensures var s, q := KeyDown(r, key).round, KeyDown(r, key).round.pos;
      && InGrid(r.maze, q)
      && SameShape(s.maze, r.maze)
      && InGrid(s.maze, q)
      && !At(s.maze, q).hasItem
      && (At(r.maze, q).hasItem ==>
            && s.itemsCollected == r.itemsCollected + 1
            && s.score == r.score + HIDDEN_ITEM
            && At(s.maze, q) == At(r.maze, q).(hasItem := false))
      && (!At(r.maze, q).hasItem ==>
            s.itemsCollected == r.itemsCollected && s.score == r.score && s.maze == r.maze)
  {
  }

  /** Only the entered cell's item flag can change in the maze. */
  lemma KeyDownFrame(r: Round, key: string, p: Pos)
    requires InGrid(r.maze, p) && p != KeyDown(r, key).round.pos
    ensures SameShape(KeyDown(r, key).round.maze, r.maze)
    ensures At(KeyDown(r, key).round.maze, p) == At(r.maze, p)
  {
  }

  /** The game is won exactly by a move onto the end cell, and only that move reports a completion. */
  lemma WinOnlyAtEnd(r: Round, key: string)
    ensures var o := KeyDown(r, key);
      (o.round.state == Won <==>
         r.state == Won || (r.state == Playing && o.round.pos != r.pos && At(r.maze, o.round.pos).isEnd))
    ensures var o := KeyDown(r, key);
      (o.completion.Some? <==> r.state == Playing && o.round.state == Won)
    ensures var o := KeyDown(r, key);
      o.completion.Some? ==>
        o.completion.value == Completion(FinalScore(r.score, MazeSize(r.level), r.time), r.time)
  {
    var o := KeyDown(r, key);
    if o.round.pos != r.pos {
      MoveThroughOpenWall(r, key);
    }
  }

  /** A won round ignores keys and stops the clock. */
  lemma WonIsFinal(r: Round, key: string)
    requires r.state == Won
    ensures KeyDown(r, key) == Outcome(r, None)
    ensures Tick(r) == r
  {
  }

  /** An event the component reacts to: a key press or a timer tick. */
  datatype Event = Key(key: string) | Second

  /** One event. */
  function Apply(r: Round, e: Event): Round {
    match e
    case Key(k) => KeyDown(r, k).round
    case Second => Tick(r)
  }

  /** The round after a sequence of events. */
  function Run(r: Round, events: seq<Event>): Round
    decreases |events|
  {
    if |events| == 0 then r else Run(Apply(r, events[0]), events[1..])
  }

  /**
   * What holds of a round from `startNewLevel` on: the runner is on the grid,
   * the score is 25 per item taken, taken items and items left add up to the
   * level's total, the end cell holds no item, and a won round stands on the end.
   */
  ghost predicate RoundInv(r: Round) {
    && (r.state == Playing || r.state == Won)
    && InGrid(r.maze, r.pos)
    && r.time >= 0
    && r.itemsCollected >= 0
    && r.score == HIDDEN_ITEM * r.itemsCollected
    && r.itemsCollected + ItemCount(r.maze) == r.totalItems
    && (forall p :: InGrid(r.maze, p) && At(r.maze, p).isEnd ==> !At(r.maze, p).hasItem)
    && (r.state == Won ==> At(r.maze, r.pos).isEnd)
  }

  /**
   * A level started on a non-empty maze whose end cells hold no item, as
   * every generated maze is, satisfies the round invariant.
   */
  lemma StartEstablishesInv(r: Round, maze: Maze, w: int, h: int)
    requires w >= 1 && h >= 1 && Shaped(maze, w, h)
    requires forall p :: InGrid(maze, p) && At(maze, p).hasItem ==> !At(maze, p).isEnd
    ensures RoundInv(StartNewLevel(r, maze))
  {
  }

  lemma KeyDownKeepsInv(r: Round, key: string)
    requires RoundInv(r)
    ensures RoundInv(KeyDown(r, key).round)
  {
    var s := KeyDown(r, key).round;
    if s.pos != r.pos {
      MovePicksUpItem(r, key);
      var q := s.pos;
      if At(r.maze, q).hasItem {
        ItemCountUpdate(r.maze, q, At(r.maze, q).(hasItem := false));
        forall p | InGrid(s.maze, p) && At(s.maze, p).isEnd
          ensures !At(s.maze, p).hasItem
        {
          if p != q {
            KeyDownFrame(r, key, p);
          }
        }
      }
    }
  }

  lemma TickKeepsInv(r: Round)
    requires RoundInv(r)
    ensures RoundInv(Tick(r))
  {
  }

  lemma ApplyKeepsInv(r: Round, e: Event)
    requires RoundInv(r)
    ensures RoundInv(Apply(r, e))
  {
    match e
    case Key(k) => KeyDownKeepsInv(r, k);
    case Second => TickKeepsInv(r);
  }

  /** One event never adds an item and never lowers the score. */
  lemma ApplyOnlyTakesItems(r: Round, e: Event)
    requires RoundInv(r)
    ensures ItemCount(Apply(r, e).maze) <= ItemCount(r.maze)
    ensures Apply(r, e).score >= r.score
  {
    if e.Key? {
      KeyDownKeepsInv(r, e.key);
    }
  }

  /** Every reachable round satisfies the invariant. */
  lemma {:induction false} RunKeepsInv(r: Round, events: seq<Event>)
    requires RoundInv(r)
    ensures RoundInv(Run(r, events))
    decreases |events|
  {
    if |events| > 0 {
      ApplyKeepsInv(r, events[0]);
      RunKeepsInv(Apply(r, events[0]), events[1..]);
    }
  }

  /** Once won, no sequence of events changes the round. */
  lemma {:induction false} RunWonIsFinal(r: Round, events: seq<Event>)
    requires r.state == Won
    ensures Run(r, events) == r
    decreases |events|
  {
    if |events| > 0 {
      if events[0].Key? {
        WonIsFinal(r, events[0].key);
      }
      RunWonIsFinal(Apply(r, events[0]), events[1..]);
    }
  }

  /** One event never puts an item back into a cell without one. */
  lemma ApplyKeepsEmpty(r: Round, e: Event, p: Pos)
    requires InGrid(r.maze, p) && !At(r.maze, p).hasItem
    ensures InGrid(Apply(r, e).maze, p) && !At(Apply(r, e).maze, p).hasItem
  {
    if e.Key? {
      var s := KeyDown(r, e.key).round;
      if s.pos != r.pos {
        MovePicksUpItem(r, e.key);
        if p != s.pos {
          KeyDownFrame(r, e.key, p);
        }
      }
    }
  }

  /**
   * Items are only ever taken: no sequence of events adds one, the score never
   * drops, and a cell without an item (one already collected, say) stays
   * without one, so re-entering it later earns nothing.
   */
  lemma {:induction false} RunOnlyTakesItems(r: Round, events: seq<Event>)
    requires RoundInv(r)
    ensures ItemCount(Run(r, events).maze) <= ItemCount(r.maze)
    ensures Run(r, events).score >= r.score
    ensures forall p :: InGrid(r.maze, p) && !At(r.maze, p).hasItem ==>
      InGrid(Run(r, events).maze, p) && !At(Run(r, events).maze, p).hasItem
    decreases |events|
  {
    if |events| > 0 {
      var next := Apply(r, events[0]);
      ApplyKeepsInv(r, events[0]);
      ApplyOnlyTakesItems(r, events[0]);
      RunOnlyTakesItems(next, events[1..]);
      forall p | InGrid(r.maze, p) && !At(r.maze, p).hasItem
        ensures InGrid(Run(r, events).maze, p) && !At(Run(r, events).maze, p).hasItem
      {
        ApplyKeepsEmpty(r, events[0], p);
      }
    }
  }

  /** Before the first level starts the component is idle: no key press and no tick changes it. */
  lemma {:induction false} InitialIsIdle(level: int, events: seq<Event>)
    ensures Run(Initial(level), events) == Initial(level)
    decreases |events|
  {
    if |events| > 0 {
      assert Apply(Initial(level), events[0]) == Initial(level);
      InitialIsIdle(level, events[1..]);
    }
  }

  /** Play never touches a wall: an event changes at most item flags of the maze. */
  lemma ApplyKeepsWalls(r: Round, e: Event)
    ensures SameWalls(r.maze, Apply(r, e).maze)
  {
    if e.Key? {
      var s := KeyDown(r, e.key).round;
      if s.pos != r.pos {
        MovePicksUpItem(r, e.key);
        forall p | InGrid(r.maze, p)
          ensures At(s.maze, p).walls == At(r.maze, p).walls
        {
          if p != s.pos {
            KeyDownFrame(r, e.key, p);
          }
        }
      }
    }
  }

  /** The walls of a round stay as they are under any sequence of events. */
  lemma {:induction false} RunKeepsWalls(r: Round, events: seq<Event>)
    ensures SameWalls(r.maze, Run(r, events).maze)
    decreases |events|
  {
    if |events| > 0 {
      var next := Apply(r, events[0]);
      ApplyKeepsWalls(r, events[0]);
      RunKeepsWalls(next, events[1..]);
      SameWallsTransitive(r.maze, next.maze, Run(next, events[1..]).maze);
    }
  }

  /** A round whose maze has a closed boundary keeps it closed under any sequence of events. */
  lemma RunKeepsEnclosed(r: Round, events: seq<Event>)
    requires Enclosed(r.maze)
    ensures Enclosed(Run(r, events).maze)
  {
    RunKeepsWalls(r, events);
    SameWallsOpen(r.maze, Run(r, events).maze);
  }

  /**
   * In every round reached from an enclosed start, a key moves the runner
   * exactly when the round is playing and the key's wall is open, and then
   * onto the neighbouring cell: the off-grid path is never taken.
   */
  lemma RunMovesThroughOpenWalls(r: Round, events: seq<Event>, key: string)
    requires RoundInv(r) && Enclosed(r.maze)
    ensures RoundInv(Run(r, events)) && Enclosed(Run(r, events).maze)
    ensures var s := Run(r, events);
      KeyDown(s, key).round.pos != s.pos <==>
        s.state == Playing && KeyDirection(key).Some? && Open(s.maze, s.pos, KeyDirection(key).value)
    ensures var s := Run(r, events);
      KeyDown(s, key).round.pos != s.pos ==> KeyDown(s, key).round.pos == Step(s.pos, KeyDirection(key).value)
  {
    RunKeepsInv(r, events);
    RunKeepsEnclosed(r, events);
    var s := Run(r, events);
    if KeyDown(s, key).round.pos != s.pos {
      MoveThroughOpenWall(s, key);
    } else if s.state == Playing && KeyDirection(key).Some? && Open(s.maze, s.pos, KeyDirection(key).value) {
      EnclosedMovesStayInGrid(s, key);
    }
  }

  /**
   * The completion is reported with the score from before the winning move,
   * yet it equals the final score of the round after it: the end cell never
   * holds an item, so the winning move takes none.
   */
  lemma CompletionUsesFinalScore(r: Round, key: string)
    requires RoundInv(r)
    requires KeyDown(r, key).completion.Some?
    ensures var s := KeyDown(r, key).round;
      KeyDown(r, key).completion.value == Completion(FinalScore(s.score, MazeSize(s.level), s.time), s.time)
  {
    WinOnlyAtEnd(r, key);
    MovePicksUpItem(r, key);
  }

  /**
   * Starts a level on a freshly generated maze (`startNewLevel` calling
   * `generateMaze(mazeSize, mazeSize)`); the random draws are parameters.
   */
  method BeginLevel(r: Round, carveDraws: seq<nat>, itemDraws: seq<(nat, nat)>) returns (res: Result<Round, GenError>)
    ensures res.Success? ==> RoundInv(res.value)
    ensures res.Success? ==> PerfectMaze(res.value.maze, MazeSize(r.level), MazeSize(r.level))
    ensures res.Success? ==> res.value.totalItems == MaxItems(MazeSize(r.level), MazeSize(r.level))
    ensures res.Success? ==> res.value.state == Playing && res.value.pos == Pos(0, 0) && res.value.score == 0
    ensures res.Success? ==> res.value.time == 0 && res.value.level == r.level && res.value.itemsCollected == 0
    ensures res.Success? ==> Marked(res.value.maze, MazeSize(r.level), MazeSize(r.level))
    ensures MazeSize(r.level) < 1 ==> res == Failure(InvalidDimension)
    ensures MazeSize(r.level) >= 1 && CoversEligible(itemDraws, MazeSize(r.level), MazeSize(r.level)) ==> res.Success?
  {
    var n := MazeSize(r.level);
    var generated := GenerateMaze(n, n, carveDraws, itemDraws);
    if generated.Failure? {
      return Failure(generated.error);
    }
    StartEstablishesInv(r, generated.value, n, n);
    res := Success(StartNewLevel(r, generated.value));
  }
}

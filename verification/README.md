# MarczMaze core in Dafny

This project models the core of MarczMaze, a browser maze game.

- **Maze generation.** `generateMaze` builds the maze with a randomised
  depth-first "recursive backtracker". It then marks the end cell and
  scatters hidden items.
- **Traversal.** The `Game` component moves the runner through open walls
  and collects items. It wins on the end cell, scores the level with a time
  bonus, and runs a one-second clock.
- **Account bookkeeping.** The `App` component keeps the signed-in user.
  After each level it updates the level, the points and the best time. It
  converts points into $MARCZ, edits the profile, and builds the leaderboard
  rows.
- **Sign-in / sign-up form.** The `Login` component validates the form and
  creates accounts in the local account store.
- **Leaderboard order.** The `Leaderboard` component sorts the rows by
  $MARCZ, level or fastest time, then renumbers their ranks.

The model and the proofs are organised as follows:

- Every React state update is a pure function from the state before to the
  state after.
- `Math.random` is replaced by streams of draws passed in as parameters.
  Every property is proved for all draws.
- The account store in `localStorage` is a `map` from email to account.

Modules:

| file | module | models |
|---|---|---|
| `wrappers.dfy` | `Wrappers` | `Option` and `Result` |
| `types.dfy` | `Types` | the records of `types.ts` |
| `constants.dfy` | `Constants` | point values and the eight mock leaderboard rows of `constants.ts` |
| `grid.dfy` | `Grid` | grids of cells, walls, adjacency, paths, open wall pairs, item counts |
| `maze_generator.dfy` | `MazeGenerator` | `services/mazeGenerator.ts` |
| `game.dfy` | `Game` | the non-rendering logic of `components/Game.tsx` |
| `accounts.dfy` | `Accounts` | the `db.saveUser` helper shared by `App.tsx` and `Login.tsx` |
| `app.dfy` | `App` | the user updaters and leaderboard rows of `App.tsx` |
| `login.dfy` | `Login` | the form logic of `components/Login.tsx` |
| `leaderboard.dfy` | `Leaderboard` | the sort and ranking of `components/Leaderboard.tsx` |

The main results:

- Whenever it succeeds, **`GenerateMaze`** returns a *perfect maze* (`PerfectMaze`):
  - neighbouring cells agree on their shared wall;
  - the outer boundary is closed;
  - every cell is reachable from the start;
  - exactly `w*h - 1` wall pairs are open, so the passages form a spanning
    tree.

  In addition:
  - the start is (0,0) and the end is (w-1,h-1);
  - exactly `floor(w*h/20)` items are placed, none on the start or the end.
- **Game rounds:** every sequence of key presses and clock ticks keeps a
  round invariant:
  - the runner is on the grid;
  - the score is 25 per item taken;
  - taken plus remaining items equal the level's total;
  - a won round stands on the end cell and never changes again.
  - the walls never change, so every open wall leads onto the grid.
- **Accounts:**
  - the best time is the minimum of all recorded times;
  - converting points into $MARCZ conserves `points + 10 * $MARCZ`;
  - the sign-in form reports the first failing check, in the source's order;
  - a sign-up never overwrites an account, and the new account can then
    sign in.
- **Leaderboard:** the sorted leaderboard is a permutation of its input
  (ignoring ranks), ordered by the chosen column, and ranked 1..n.

## Model

| member | source | states |
|---|---|---|
| `MazeGenerator.InitialGrid` | services/mazeGenerator.ts:6-17 | the initial grid has `height` rows of `width` cells, and each cell sits at its own coordinates with all four walls and no flags |
| `MazeGenerator.StartGrid` | services/mazeGenerator.ts:6-24 | before carving, every wall is present, and only (0,0) is visited and the start; no cell is the end or holds an item |
| `MazeGenerator.Pick` | services/mazeGenerator.ts:42 | the chosen neighbour index always lies within the candidate list |
| `MazeGenerator.UnvisitedNeighbors` | services/mazeGenerator.ts:30-38 | the candidates are exactly the in-grid, unvisited cells one step away from `current` (sound and complete); each lies in a direction the wall-removal chain recognises |
| `MazeGenerator.TowardStep` | services/mazeGenerator.ts:45-57 | the top/right/bottom/left comparison chain identifies the side of `current` that faces an adjacent cell |
| `MazeGenerator.RemoveWallsPaired` | services/mazeGenerator.ts:45-57 | removing the walls between two adjacent cells opens exactly the wall of `current` facing `chosen` and the opposite wall of `chosen`; every other wall stays as it was |
| `MazeGenerator.Carve` | services/mazeGenerator.ts:19-62 | the backtracking loop terminates for every sequence of draws; it visits every cell and keeps shared walls consistent and the boundary closed; every cell becomes reachable from (0,0), with exactly `w*h-1` open wall pairs; only walls and visited flags change |
| `MazeGenerator.CarvedGrid` | services/mazeGenerator.ts:19-65 | after carving and marking the end, the grid is a perfect maze with exactly one start at (0,0), one end at (w-1,h-1) and no items |
| `MazeGenerator.EndMarked` | services/mazeGenerator.ts:65 | setting the end flag on (w-1,h-1) changes no wall, start flag or coordinates, and makes that cell the only end |
| `MazeGenerator.DrawnCell` | services/mazeGenerator.ts:71-73 | a pair of random draws always names a cell inside the grid |
| `MazeGenerator.EnoughEligible` | services/mazeGenerator.ts:69-74 | there are always at least `floor(w*h/20)` cells that are neither the start nor the end, so the item quota can be met |
| `MazeGenerator.PlaceItems` | services/mazeGenerator.ts:68-78 | item placement changes only item flags; it places exactly `floor(w*h/20)` items, never on the start or the end; it succeeds whenever the draws land on every eligible cell |
| `MazeGenerator.ItemsKeepMaze` | services/mazeGenerator.ts:68-78 | placing items keeps every property of the carved maze and of its start and end marks |
| `MazeGenerator.GenerateMaze` | services/mazeGenerator.ts:4-81 | a side below 1 is an error; otherwise the result is a perfect maze with its start, end and item count as above; it succeeds whenever the item draws cover every eligible cell |
| `Game.MazeSize` | components/Game.tsx:50 | the maze side is `10 + 2*level`, capped at 30; it is at least 12 from level 1 on, and it reaches the cap exactly from level 10 |
| `Game.MazeSizeMonotone` | components/Game.tsx:50 | a higher level never gets a smaller maze |
| `Game.TimeBonus` | components/Game.tsx:81 | the time bonus is never negative; it is positive exactly when the time beats five seconds per row, and then it is one point per second saved |
| `Game.FinalScore` | components/Game.tsx:81-82 | the completion points are at least the item score plus 100, with exactly 100 on top when the par time was missed |
| `Game.FinalScoreAntitone` | components/Game.tsx:81-82 | finishing later never earns more points |
| `Game.FinalScoreExamples` | components/Game.tsx:81-82 | concrete scores for a level-1 maze (par 60 s) and a level-10 maze (par 150 s) |
| `Game.KeyDirection` | components/Game.tsx:95-103 | the arrow keys and lowercase w/a/s/d select up, down, left and right, and no other key selects a direction |
| `Game.Initial` | components/Game.tsx:42-48 | before any level starts the component is ready, with an empty maze, the runner at (0,0), and clock, score and item counts at 0 |
| `Game.InitialIsIdle` | components/Game.tsx:42-48 | until a level starts, no key press (guarded at line 87) and no tick (line 71) changes the initial state |
| `Game.StartNewLevel` | components/Game.tsx:52-62 | a new level places the runner at (0,0), resets clock, score and items, sets the item total to the maze's item count, and starts playing |
| `Game.Tick` | components/Game.tsx:70-77 | the clock advances by one second only while playing; otherwise nothing changes |
| `Game.KeyDown` | components/Game.tsx:86-117 | keys are ignored unless playing; a key press never changes the clock, the level or the item total |
| `Game.BlockedKeyIgnored` | components/Game.tsx:93-105 | a key that selects no direction, or whose wall is present, changes nothing |
| `Game.MoveThroughOpenWall` | components/Game.tsx:95-112 | whenever the runner moves, the round was playing, the key selected a direction, the wall on that side was open, and the runner moved one step that way, onto the grid |
| `Game.MoveIsUnitStep` | components/Game.tsx:95-103 | a move changes exactly one coordinate by exactly one |
| `Game.EnclosedMovesStayInGrid` | components/Game.tsx:105-106 | in a maze with a closed boundary, every open wall can be walked through, so the off-grid lookup is never reached |
| `Game.MovePicksUpItem` | components/Game.tsx:106-112 | entering a cell with an item clears it, counts it and adds 25 points; entering an empty cell leaves the maze, the item count and the score unchanged (the round may still be won, see `WinOnlyAtEnd`) |
| `Game.KeyDownFrame` | components/Game.tsx:106-112 | a key press changes no cell other than the one entered |
| `Game.WinOnlyAtEnd` | components/Game.tsx:79-115 | the round becomes won exactly by a move onto the end cell; only that move reports a completion, with the final score and the time |
| `Game.WonIsFinal` | components/Game.tsx:70-87 | a won round ignores keys and its clock stands still |
| `Game.StartEstablishesInv` | components/Game.tsx:52-62 | a level started on any non-empty maze whose end cell holds no item (every generated maze qualifies) satisfies the round invariant |
| `Game.KeyDownKeepsInv` | components/Game.tsx:86-117 | every key press keeps the round invariant: runner on the grid, score = 25 per item taken, taken + remaining = total, no item on the end, won only on the end |
| `Game.TickKeepsInv` | components/Game.tsx:70-77 | the clock tick keeps the round invariant |
| `Game.ApplyKeepsInv` | components/Game.tsx:70-117 | every event, key or tick, keeps the round invariant |
| `Game.ApplyOnlyTakesItems` | components/Game.tsx:105-111 | one event never adds an item to the maze and never lowers the score |
| `Game.RunKeepsInv` | components/Game.tsx:64-117 | every sequence of events from a started level keeps the round invariant |
| `Game.RunWonIsFinal` | components/Game.tsx:70-117 | once won, no sequence of events changes the round |
| `Game.ApplyKeepsEmpty` | components/Game.tsx:105-112 | one event never puts an item into a cell that has none |
| `Game.RunOnlyTakesItems` | components/Game.tsx:105-111 | over any sequence of events the items in the maze only decrease and the score only increases; a cell without an item, such as one already collected, never gets one back, so re-entering it later earns nothing |
| `Game.ApplyKeepsWalls` | components/Game.tsx:105-112 | a key press or a tick never changes a wall: the maze keeps its shape and every cell its walls |
| `Game.RunKeepsWalls` | components/Game.tsx:70-117 | the walls stay as they are under any sequence of events |
| `Game.RunKeepsEnclosed` | components/Game.tsx:70-117 | a maze with a closed boundary keeps it closed under any sequence of events |
| `Game.RunMovesThroughOpenWalls` | components/Game.tsx:86-117 | in every round reached by events from a started level on an enclosed maze, a key moves the runner exactly when the round is playing and the key's wall is open, and then onto the neighbouring cell, so the off-grid lookup is never reached |
| `Game.CompletionUsesFinalScore` | components/Game.tsx:79-84 | the completion is computed from the score before the winning move, yet it equals the final score of the won round, because the end cell never holds an item |
| `Game.BeginLevel` | components/Game.tsx:50-62 | starting a level on a freshly generated maze of the level's size yields a playing round of the same level at (0,0), with clock, score and collected items at 0; the round satisfies the invariant, and its maze is perfect, starts at (0,0), ends at (n-1,n-1) and holds `floor(n*n/20)` items |
| `Accounts.SaveUser` | App.tsx:24-28 | saving stores the account under its email and leaves every other account as it was (Login.tsx:34-38 is the same helper) |
| `Accounts.SaveUserKeepsKeyed` | App.tsx:24-28 | a store where every account sits under its own email stays that way after a save |
| `Accounts.SaveUserIdempotent` | App.tsx:24-28 | saving the same account twice is the same as saving it once |
| `Accounts.SaveStoredUser` | App.tsx:44-48 | re-saving an account exactly as stored leaves the store unchanged |
| `App.BestTime` | App.tsx:67 | the new best time is no worse than the new time or the old best, and it is one of the two |
| `App.UpdatePlayerStats` | App.tsx:64-76 | with no user nothing happens; otherwise the level rises by one, the points grow by the level's points, the best time never worsens, and nothing else changes |
| `App.FastestIsMinimum` | App.tsx:67 | after any sequence of levels, the stored best time is the minimum of the old best and all the new times |
| `App.AfterLevelsTotals` | App.tsx:64-76 | after any sequence of levels: the level rises by their number, the points by their sum, the best time is their minimum, and nothing else changes |
| `App.MarczFor` | App.tsx:79 | ten points make one $MARCZ |
| `App.ConvertPointsToMarcz` | App.tsx:78-90 | the points leave the point total and reach the balance divided by ten; nothing else changes, and the earned amount is returned even with no user |
| `App.ConversionConservesWorth` | App.tsx:78-90 | a conversion keeps `points + 10 * $MARCZ` unchanged, for any amount |
| `App.ConvertEverything` | components/RewardsHub.tsx:16-17 | converting the whole point total, as the rewards page does, leaves zero points and adds a tenth of them to the balance |
| `App.HandleProfileUpdate` | App.tsx:92-97 | a profile edit sets the name and avatar and keeps email, password and stats |
| `App.ProfileUpdateOverwrites` | App.tsx:92-97 | only the last of two profile edits counts |
| `App.HandleLogin` | App.tsx:50-57 | a stored email signs in that account; an unknown email leaves the current user as it was |
| `App.Persist` | App.tsx:44-48 | a signed-in user is written back to the store; with nobody signed in the store stays as it was |
| `App.PersistedUserSignsBackIn` | App.tsx:44-57 | after a level's update is persisted, signing in again with that email yields the updated account |
| `App.PlayerEntry` | App.tsx:101-108 | the player's row has rank 0, the profile name, the balance, the level and the best time (absent if none), and is marked as the player |
| `App.LeaderboardData` | App.tsx:99-110 | with no user the rows are the eight mock rows; otherwise they are those rows followed by the player's row |
| `App.OnePlayerRow` | App.tsx:99-110 | exactly one row, the last, is the player's, and every other row has a time |
| `Login.ValidEmailIsAt` | components/Login.tsx:45 | the email check accepts exactly the strings that contain `@` |
| `Login.ToggleMode` | components/Login.tsx:24-27 | toggling switches to the other mode and clears email, passwords and error |
| `Login.ToggleTwice` | components/Login.tsx:17-27 | toggling twice returns to the original mode with an empty form |
| `Login.NewAccount` | components/Login.tsx:66-73 | a new account has level 1, no points, no $MARCZ, no best time and no profile, with the typed email and password |
| `Login.HandleSubmit` | components/Login.tsx:41-85 | a submission signs in the typed email exactly when it leaves no error; it never changes the mode or the typed fields |
| `Login.SubmitErrors` | components/Login.tsx:43-82 | each error message appears exactly when its check is the first to fail, in the order: email, password length, password mismatch (sign-up), existing account (sign-up), unknown email or wrong password (sign-in) |
| `Login.SignInIff` | components/Login.tsx:76-84 | sign-in succeeds exactly when the email is valid, the password is long enough and matches the stored account; it never changes the store |
| `Login.SignUpIff` | components/Login.tsx:54-75 | sign-up succeeds exactly when the email is valid and unused, and the password is long enough and confirmed |
| `Login.SubmitStoreFrame` | components/Login.tsx:54-84 | the store changes only by a successful sign-up adding the new account; no stored account is ever overwritten or removed |
| `Login.SubmitKeepsKeyed` | components/Login.tsx:73-74 | every submission keeps each account under its own email |
| `Login.SignUpThenSignIn` | components/Login.tsx:54-84 | an account just created by sign-up can sign in with the same email and password |
| `Login.SubmitThenHandleLogin` | components/Login.tsx:74-83 | handing the signed-in email to the app signs in an account with the typed email and password; after a sign-up, that is the fresh account |
| `Leaderboard.BeforeAgreesWithCompare` | components/Leaderboard.tsx:13-19 | wherever the comparator is consistent, a row goes first exactly when the comparator is at most 0; the two rows tie exactly when it is 0 |
| `Leaderboard.CompareClashesOnTwoMissingTimes` | components/Leaderboard.tsx:14-16 | for two rows without a time, the comparator asks each to come after the other |
| `Leaderboard.BeforeTotal` | components/Leaderboard.tsx:13-19 | any two rows are ordered one way or the other |
| `Leaderboard.BeforeTransitive` | components/Leaderboard.tsx:13-19 | the order is transitive, so the sort is well defined |
| `Leaderboard.Insert` | components/Leaderboard.tsx:13 | inserting a row adds exactly that row |
| `Leaderboard.InsertSorted` | components/Leaderboard.tsx:13-19 | inserting into a sorted list keeps it sorted |
| `Leaderboard.Sort` | components/Leaderboard.tsx:13 | sorting a copy keeps exactly the same rows |
| `Leaderboard.SortSorted` | components/Leaderboard.tsx:13-19 | the sorted copy is ordered by the chosen column |
| `Leaderboard.InsertKeepsRows` | components/Leaderboard.tsx:13 | ignoring ranks, inserting a row adds exactly that row |
| `Leaderboard.SortKeepsRows` | components/Leaderboard.tsx:13 | ignoring ranks, the sorted copy has the same rows as the input |
| `Leaderboard.Ranked` | components/Leaderboard.tsx:20 | renumbering gives row i the rank i+1 and changes nothing else |
| `Leaderboard.RankedKeepsOrder` | components/Leaderboard.tsx:20 | renumbering keeps a sorted list sorted |
| `Leaderboard.RankedKeepsRows` | components/Leaderboard.tsx:20 | renumbering changes only ranks |
| `Leaderboard.SortedDataSpec` | components/Leaderboard.tsx:12-21 | the displayed rows are the input rows (ignoring ranks), ordered by the chosen column and ranked 1..n |
| `Leaderboard.SortedColumns` | components/Leaderboard.tsx:13-19 | $MARCZ and level never increase down the list; rows without a time come last, and times never decrease among the rest |
| `Leaderboard.RowIsListed` | components/Leaderboard.tsx:12-21 | every input row appears in the sorted leaderboard under some rank |
| `Leaderboard.PlayerIsListed` | components/Leaderboard.tsx:12-21 | the signed-in player's row appears in the sorted leaderboard |

## Left out

- Rendering, JSX, CSS and icons are not modelled. So are the keyboard
  listener registration and the `setInterval` wiring: the clock is the
  `Tick` event and key presses are `KeyDown` events.
- Storage is not modelled: `localStorage`, `sessionStorage` and the JSON
  round trip of the account store. The store is a `map`; restoring the
  session on load (App.tsx:32-41) is `HandleLogin` with the remembered email.
- `handleLogout` and page navigation are not part of this model.
- Randomness is not modelled. `Math.random` is replaced by draw sequences:
  `Pick` takes a draw modulo the number of candidates, `DrawnCell` takes
  two draws modulo the width and the height.
- `MazeGenerator.Pick`: once the carve draws run out, it picks index 0. No
  behaviour is lost: the carve loop takes finitely many steps, so every
  run of the source is matched by some finite draw sequence long enough
  never to reach the fallback, and every property is proved for all draws.
- `MazeGenerator.PlaceItems`: the source draws until the quota is met, which
  does not terminate unless the random stream cooperates. The model consumes
  a finite draw sequence and reports `ItemDrawsExhausted` if the draws run
  out first. Success is proved whenever the draws land on every eligible
  cell.
- `MazeGenerator.GenerateMaze`: a side below 1 makes the source crash while
  indexing `grid[0][0]`. Here it is the error `InvalidDimension`.
- The `hasBonus` cell flag and the `BONUS_OBJECTIVE` constant are not
  modelled. The generator always sets the flag to false and nothing reads
  it; the source declares the constant but never uses it.
- `Game.KeyDown`: the source reads `maze[newPos.y][newPos.x]` without a bound
  check and would throw for a move off the grid. The model treats such a
  move as a no-op. The branch is unreachable in a generated maze. Play
  never changes a wall (`RunKeepsWalls`), so a closed boundary stays closed
  (`RunKeepsEnclosed`). `RunMovesThroughOpenWalls` then shows that every
  round reached from `BeginLevel`, whose maze is perfect and so enclosed,
  walks every open wall onto the grid.
- Floating point is not modelled. JavaScript numbers are `int` where the
  game only stores whole values, and `real` for the $MARCZ balance and the
  leaderboard times. Rounding of `points / 10` and `toFixed` formatting
  are not modelled.
- String lengths are counted in characters, not UTF-16 code units. This
  matters only for the six-character password check with characters outside
  the Basic Multilingual Plane.
- Passwords are compared and stored as plain text, as in the source.
  Nothing about hashing is modelled, because the source does none.
- `Leaderboard.Before`: the source comparator returns `1` for two rows that
  both lack a time, claiming each must come after the other
  (`CompareClashesOnTwoMissingTimes`). The model treats such rows as tied.
  The app's leaderboard data has at most one row without a time
  (`OnePlayerRow`), so the clash never arises.
- `Leaderboard.Sort`: the host sort is modelled as a stable insertion sort.
  The proofs state ordering and permutation but not stability.
- Profile avatar hashing, the trivia modal and the header are outside the
  core.
- The rewards page's `totalPoints > 0` guard (RewardsHub.tsx:16) is not a
  precondition of `ConvertPointsToMarcz`. The app function accepts any
  amount.

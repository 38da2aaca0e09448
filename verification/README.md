# RayBikeSupreme light-cycle core, in Dafny

RayBikeSupreme is a two-player light-cycle game in the browser. Each player steers a bike that leaves a permanent trail. A bike dies when its front leaves the 1200 × 600 arena or runs into any trail, its own or the other player's. The round ends 100 ms after the first death, so that near-simultaneous deaths score as a tie. This project models the simulation core of `scripts/script.js`: the `Player` class and the parts of the `game` object that drive it.

The project has two layers.

- **Values and rules** (modules `Geometry`, `Bikes`, `Rounds`). These hold the headings, points and trail segments, the boundary and obstacle tests, one bike's state as a datatype (`Bike`), and the operations as functions: a move, a turn, a respawn, one tick over all players, one frame callback of the driver, the victory rule and the key-press guard. The properties are proved about these functions.
- **Objects** (modules `Players`, `Games`). `Players.Player` and `Games.Game` are classes whose methods update fields in place, as the JavaScript does. Each method's postcondition ties the new state to the functions above. For example, `Player.Move` ends in `MoveBike(old(State()), …)` and `Game.DrawLoop` ends in `Frame(old(RoundState()), timestamp)`.

Conventions taken from the code:

- A bike's position `(x, y)` is its back. The bike is a line of length `PLAYER_HEIGHT` = 75 along its travel axis, and its front is 75 ahead of the back. `PLAYER_WIDTH` takes no part in collisions.
- A trail segment is `Vertical(x, y1, y2)` or `Horizontal(y, x1, x2)`. Endpoints are kept in creation order and sorted with min/max before each test. Every test applies only to the segment kind it was written for. In JavaScript the comparisons against the other kind's missing fields are always false.
- The obstacle list for a move holds every player's committed segments plus each player's in-flight stretch, which runs from its last line point to its live position. Players move in array order, so player 2 is tested against player 1's position after player 1 has moved in the same tick.
- Timestamps are `real`. `lastTimestamp` and `deathTimestamp` are `Option<real>`.

Three behaviours of the code a reader might not expect:

- Pressing the key of the heading a bike already has is accepted. It saves a line point, and the heading does not change (`RepeatedKeySavesPoint`).
- The bike is tested as a line of length 75 from its back, not as a rectangle of full width, and not as a body centred on its position.
- The turn guard only compares the request with the current heading. Two key presses between ticks can therefore reverse a bike (`TwoKeysCanReverse`).

## Model

| member | source | states |
|---|---|---|
| `Geometry.OppositeInvolution` | scripts/script.js:651-690 | The reverse of a heading is a different heading on the same axis, and reversing twice gives the original heading back |
| `Geometry.Advance` | scripts/script.js:769-788 | The candidate position keeps the fixed-axis coordinate and moves the travel coordinate by exactly −speed for up/left and +speed for right/down |
| `Geometry.HitsBoundary` | scripts/script.js:812-840 | The four per-heading tests are one rule: the bike with its back at the candidate reaches strictly past the arena edge ahead of it |
| `Geometry.PerpendicularHit` | scripts/script.js:877-999 | The first obstacle layer only matches a segment perpendicular to travel, and only when the bike's fixed coordinate lies strictly between the segment's endpoints |
| `Geometry.ParallelHit` | scripts/script.js:877-999 | The second obstacle layer only matches a segment parallel to travel that lies on the bike's own line of travel |
| `Geometry.ClosingSegment` | scripts/script.js:1010-1024 | A stretch closes into a segment iff its endpoints share x or y. The segment runs from the first point to the second, and it is vertical exactly when the x values agree |
| `Geometry.CollisionIsGeometric` | scripts/script.js:877-999 | The four per-heading obstacle branches are one rule. A perpendicular segment kills iff it properly crosses the bike's body. A parallel segment kills iff the bike's front lies strictly inside it |
| `Geometry.BoundaryIsFrontPastEdge` | scripts/script.js:812-840 | The four boundary branches are one rule: the bike dies iff its front is strictly past the arena edge ahead of it (below 0 going up or left, above 600/1200 going down or right) |
| `Geometry.PointSegmentHarmless` | scripts/script.js:1010-1024 | A zero-length segment, saved when a line point repeats the position, never kills |
| `Bikes.StartingConditions` | scripts/script.js:227-233 | A spawn sits on the left wall facing right or on the right wall facing left, and the bike's length fits within the arena height |
| `Bikes.SpawnsFaceEachOther` | scripts/script.js:227-233 | Both spawns lie on row 225 with opposite headings, and each spawn's first move at speed 3 or 8 stays inside the arena |
| `Bikes.Verticals` | scripts/script.js:1012-1017 | The vertical segments derived from the line points are all vertical, and there are fewer of them than line points |
| `Bikes.Horizontals` | scripts/script.js:1018-1023 | The horizontal segments derived from the line points are all horizontal, and there are fewer of them than line points |
| `Bikes.SegmentCount` | scripts/script.js:1005-1028 | On an axis-aligned trail, each consecutive pair of line points closes exactly one segment: vertical plus horizontal = points − 1 |
| `Bikes.ObstaclesOf` | scripts/script.js:859-876 | Every committed segment and every in-flight stretch of every player is in the obstacle list |
| `Bikes.ObstaclesCover` | scripts/script.js:859-876 | A segment is an obstacle iff it is a committed segment or the in-flight stretch of some player |
| `Bikes.SaveLinePoint` | scripts/script.js:1005-1028 | Saving a line point appends the position to the line points and adds at most one segment to the existing lists. Nothing else changes |
| `Bikes.SaveKeepsTrailDerived` | scripts/script.js:1005-1028 | Saving a line point appends the current position and keeps both segment lists equal to those derived from the line points |
| `Bikes.Turn` | scripts/script.js:1001-1004 | A turn takes the new heading, keeps the position, the alive flag and the speed, and appends the position to the line points |
| `Bikes.TurnGrowsTrail` | scripts/script.js:1001-1028 | A turn appends exactly one line point (the position) and exactly one segment: vertical if the last point shares x, else horizontal. It sets the new heading and keeps the bike invariant |
| `Bikes.MoveBike` | scripts/script.js:769-811 | A move changes only the position and the alive flag. A bike alive afterwards was alive before and stands at the candidate position. A bike dead afterwards keeps its position |
| `Bikes.MoveCommitsOnlyTravelAxis` | scripts/script.js:769-811 | A move changes only the position and the alive flag. The bike survives iff it was alive and fails both checks. The fixed coordinate never changes. The travel coordinate moves by ±speed only when the bike survives, so a bike killed during the move keeps its old position |
| `Bikes.MovePreservesInv` | scripts/script.js:769-811 | A move keeps the bike invariant (trail derived from line points, axis-aligned, in-flight stretch behind the bike) and never revives a dead bike |
| `Bikes.OwnInFlightHarmless` | scripts/script.js:859-999 | A bike moving straight is never killed by its own in-flight stretch: adding that stretch anywhere to the obstacle list does not change the move |
| `Bikes.NewBike` | scripts/script.js:743-767 | A new bike is alive at its spawn with speed 3, its line points are exactly its position, and it keeps its spawn |
| `Bikes.Respawn` | scripts/script.js:425-434 | A respawned bike is alive at its spawn, its line points are exactly its position, and it keeps its spawn and speed |
| `Bikes.FreshTrail` | scripts/script.js:755-767 | After construction, and after a respawn, the bike is alive at its spawn with its spawn heading, its line points are exactly the spawn point, and both segment lists are empty |
| `Rounds.TickFrom` | scripts/script.js:711-715 | Moving players i, i+1, … in turn keeps the number of players and leaves the players before i untouched |
| `Rounds.Tick` | scripts/script.js:711-715 | A tick keeps the number of players and every player's line points non-empty |
| `Rounds.TickFromPreserves` | scripts/script.js:711-715 | Moving the players in turn keeps every bike invariant |
| `Rounds.TickFromMovesOnly` | scripts/script.js:711-715 | Moving the players in turn changes each bike only in position and alive flag, and never revives a bike |
| `Rounds.TickPreserves` | scripts/script.js:711-715 | A whole tick keeps every bike invariant, changes each bike only in position and alive flag, and never revives a bike |
| `Rounds.TwoPlayerTickOrder` | scripts/script.js:711-715 | With two players, player 2 is tested against the obstacles as they stand after player 1's move |
| `Rounds.TickOrderMatters` | scripts/script.js:859-876 | A concrete tick in which player 2 dies only because player 1 moved first, and survives when the order is swapped |
| `Rounds.Winner` | scripts/script.js:389-390 | The result is a tie exactly when both players are alive or both are dead |
| `Rounds.WinnerFair` | scripts/script.js:389-406 | A player wins iff it is the only one alive, otherwise the result is a tie, and the rule is symmetric in the two players |
| `Rounds.Frame` | scripts/script.js:697-739 | A frame keeps the number of players, either leaves the players as they were or applies one tick, and reports an outcome exactly when it stops a running round |
| `Rounds.FrameWhenStopped` | scripts/script.js:697-700 | A callback while the game is not running changes nothing and reports no outcome |
| `Rounds.FrameThrottle` | scripts/script.js:702-715 | Players move iff a last timestamp exists and t − 1000/60 exceeds it. The first callback only records its time. The last timestamp becomes t on a tick and is otherwise kept |
| `Rounds.DeathTimestampFirstWrite` | scripts/script.js:716-736 | An existing death timestamp is kept until the round ends. A new one equals the time of the tick, and that tick left a player dead. Conversely, a due tick that leaves a player dead while none is recorded records its time and does not end the round. A callback that starts with no recorded death never ends the round, because the JavaScript comparison against an unset timestamp is false |
| `Rounds.GraceWindow` | scripts/script.js:729-736 | With death timestamp d, the round ends iff t − 100 > d. Ending stops the game, clears both timestamps and scores the players as they stand |
| `Rounds.FrameKeepsRoundInv` | scripts/script.js:697-739 | A frame keeps the round invariant: two players while running, no timestamps while stopped, every bike invariant |
| `Rounds.FrameKeepsDeathWitness` | scripts/script.js:716-736 | A recorded death timestamp always belongs to a dead player. So a round ends in a tie only when both players are dead |
| `Rounds.KeyBinding` | scripts/script.js:651-693 | A bound key always names player 1 or player 2 |
| `Rounds.KeyBindingRoundTrip` | scripts/script.js:651-693 | The key table and `KeyFor` are inverse: every request of either player has exactly one key, and every bound key names one request |
| `Rounds.Steer` | scripts/script.js:643-696 | A key press keeps the number of players, and leaves each player untouched or turned to a new heading |
| `Rounds.SteerNeverReverses` | scripts/script.js:647-695 | A single key press never gives a player the reverse of its heading |
| `Rounds.SteerGuard` | scripts/script.js:647-695 | A key changes player i iff the game is running, the key is player i's, the player is alive and the request is not a reversal. The player then takes the request and its trail gains the position. Otherwise it is untouched |
| `Rounds.RepeatedKeySavesPoint` | scripts/script.js:1001-1004 | Pressing the current heading's key keeps the heading and still saves a line point |
| `Rounds.TwoKeysCanReverse` | scripts/script.js:647-695 | Two key presses between ticks ("w" then "a" while heading right) reverse player 1 |
| `Rounds.SteerPreserves` | scripts/script.js:1001-1004 | Steering keeps every bike invariant |
| `Rounds.SpeedKeepsTrails` | scripts/script.js:370-380 | Setting every player's speed to 3 or 8 keeps every bike invariant and leaves the obstacle list unchanged |
| `Rounds.RespawnAllFresh` | scripts/script.js:425-434 | After a replay every player is alive at its spawn with its spawn heading, one line point and no segments, keeping its spawn and speed. When the speeds are 3 or 8, every bike invariant holds |
| `Players.Player.constructor` | scripts/script.js:743-767 | A new player is the fresh bike at its spawn: alive, speed 3, one line point, no segments, no last direction |
| `Players.Player.SaveLinePoint` | scripts/script.js:1005-1028 | The new state is the old one with the in-flight stretch closed and the position appended |
| `Players.Player.UpdatePlayerDirection` | scripts/script.js:1001-1004 | The new state is the turn of the old one, and the invariant holds |
| `Players.Player.Die` | scripts/script.js:1029-1033 | The player is dead afterwards |
| `Players.Player.CheckBounds` | scripts/script.js:812-840 | The player is alive afterwards iff it was alive and the candidate does not hit the boundary |
| `Players.Player.CollectObstacles` | scripts/script.js:855-876 | The list built over the players is the obstacle list of their states |
| `Players.Player.CheckObstacles` | scripts/script.js:841-1000 | After both passes, the player is alive iff it was alive and no obstacle is hit by either layer |
| `Players.Player.Move` | scripts/script.js:769-811 | The new state is the move of the old one against the obstacles of all players before the move, and the invariant holds |
| `Players.Player.Respawn` | scripts/script.js:425-434 | The new state is the respawn of the old one |
| `Games.Game.constructor` | scripts/script.js:21-70 | A new game is stopped, with no players and no timestamps |
| `Games.Game.AddPlayer` | scripts/script.js:187-241 | A named player is appended with the spawn its number gives it and no last direction, and nothing else changes. A nameless one is not added |
| `Games.Game.SetSpeed` | scripts/script.js:372-379 | Player i gets the given speed, the invariant holds, and the other players are untouched |
| `Games.Game.StartGame` | scripts/script.js:368-386 | Every player gets speed 3 or 8 as chosen, the game runs, and each player's last direction is kept |
| `Games.Game.ToggleGameRunning` | scripts/script.js:356-367 | The running flag flips. Stopping clears both timestamps. Starting sets the speeds and keeps both timestamps, so the first frame afterwards only records its time |
| `Games.Game.EndGame` | scripts/script.js:387-419 | The game stops, both timestamps are cleared, the players are untouched, and the outcome is the victory rule on the alive flags |
| `Games.Game.RespawnPlayer` | scripts/script.js:425-434 | Player i respawns, the invariant holds, and the other players are untouched |
| `Games.Game.PlayAgain` | scripts/script.js:420-436 | Every player respawns, gets the chosen speed, and the game runs. Last directions are kept |
| `Games.Game.ResetGame` | scripts/script.js:437-449 | No players remain, and the game is stopped with no timestamps |
| `Games.Game.RecordHeadings` | scripts/script.js:647-650 | Both players' last direction becomes their heading, and their states are unchanged |
| `Games.Game.SteerPlayer` | scripts/script.js:651-693 | Player i turns to the request iff it is alive and the request is not the reverse of its recorded heading. Otherwise nothing changes |
| `Games.Game.UpdateAllPlayersDirection` | scripts/script.js:643-696 | The players' new states are the steering function of the old ones, and both last directions record the heading before the key. While stopped, the last directions are kept |
| `Games.Game.MoveIfAlive` | scripts/script.js:711-715 | Player i moves if it is alive, and the other players are untouched |
| `Games.Game.MovePlayers` | scripts/script.js:711-715 | The players' new states are one tick of the old ones, and last directions are kept |
| `Games.Game.Keyframe` | scripts/script.js:709-721 | A due callback records its time, ticks, and records the first death time |
| `Games.Game.KeyframeIfDue` | scripts/script.js:702-721 | The players move iff more than one keyframe has passed since the last timestamp (or since now when none is set). The last timestamp becomes now on a tick and is otherwise kept or first set. The death time is recorded only on a tick that leaves a player dead |
| `Games.Game.RecordDeath` | scripts/script.js:716-721 | The death timestamp becomes the given time iff a player is dead and none was recorded. Otherwise it is kept |
| `Games.Game.DrawLoop` | scripts/script.js:697-739 | The new game state and the reported outcome are exactly the frame function of the old state and the timestamp. The players' last directions are kept |

## Left out

- Screens, menus, the help modal, start-screen key navigation, button enabling, player pop-ups, score cards and trophies (scripts/script.js:79-353). These are DOM manipulation only. `EndGame` returns the outcome instead of writing the victory text.
- Audio: the track volume and death noise in `die`, the track choice and playback in `startGame`, and the title music toggle. These are media calls, and `Die` only clears the alive flag.
- Canvas rendering (`drawBackground`, `drawPlayers`, `drawPlayersLines`). It is visual output only.
- Frame scheduling with `requestAnimationFrame`/`cancelAnimationFrame` and the delayed game-over popup (`setTimeout`). These are host callbacks. `DrawLoop` takes the callback's timestamp as a parameter.
- The falsy checks `!game.lastTimestamp`/`!game.deathTimestamp`, under which a timestamp of exactly 0 counts as unset. Unset is `None` instead.
- Reading the speed checkbox from the page. `StartGame`, `ToggleGameRunning` and `PlayAgain` take `normalSpeed` as a parameter.
- The image, audio and score-card element fields of `Player`, and the bike-colour select handling in `addPlayer`. `AddPlayer`'s empty-input guard is modelled as an empty name.
- Routing of key events by screen (`keyDownHandler`). `UpdateAllPlayersDirection` is called directly. Its eight switch cases are driven through the key table `KeyBinding`, which has the same key-to-request pairs.
- `Games.Game.AddPlayer` requires fewer than two players, and `Games.Game.StartGame`, `Games.Game.ToggleGameRunning` (when starting) and `Games.Game.PlayAgain` require exactly two. The code does not check these; the page only enables the corresponding buttons and keys in those situations (scripts/script.js:178-185, 323-335).
- That a living bike's trail never crosses itself, except where its newest segment meets the bike, is not proved.
- A whole head-on round ending in a tie is not proved as a run of many ticks. Only single ticks and frames are related.
- JavaScript numbers are doubles. All positions here are small integers (spawns 0, 1200 and 225, speeds 3 and 8, length 75), so the model uses unbounded `int`. Callback timestamps and the keyframe duration 1000/60 are doubles too. The model compares timestamps exactly, against the rational 1000/60, so its throttle can differ from the code's only when a timestamp lies within one rounding step of the threshold.

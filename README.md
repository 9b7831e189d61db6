# aMaze: the maze logic, modelled in Dafny

aMaze is a browser maze game. The game:

- generates a maze by a randomized depth-first carve and reveals it cell by cell in one of four orders;
- lets the player colour path cells into groups that merge when they touch;
- once the entry and the exit share a group, draws the shortest route through that group and makes the entry and the exit blink;
- offers a first-person view that can be walked with the keyboard.

This project models the logic behind all of that. Each source file is one Dafny module:

| module | file | source |
|---|---|---|
| `Generator` | maze_generator.dfy | src/app/utils/MazeGenerator.ts |
| `Cells` | maze_cell.dfy | src/app/screens/main/MazeCell.ts |
| `Grouping` | maze_manager.dfy | src/app/screens/main/MazeManager.ts |
| `Paths` | path_utils.dfy | src/app/screens/main/PathUtils.ts |
| `Reveal` | reveal_patterns.dfy | src/app/screens/main/MazeRevealPatterns.ts |
| `PathAnimation` | path_animator.dfy | src/app/screens/main/PathAnimator.ts |
| `EntryExitAnimation` | entry_exit_animator.dfy | src/app/screens/main/EntryExitAnimator.ts |
| `Transitions` | cell_transitions.dfy | src/app/screens/main/CellTransitions.ts |
| `Raycasting` | raycaster.dfy | src/app/screens/main/Raycaster.ts |

Small shared modules:

- `Wrappers`: `Option`.
- `Sets`: cardinality facts.
- `Seqs`: members, distinctness, reverse, permutations.
- `Grid`: positions, coordinates, adjacency, a grid of distinct cells.
- `Arith`: a few facts about `*`, `/` and `%`.

## How the code is modelled

State that the source updates in place stays mutable in the model:

- The generator carves an `array2<CellKind>` indexed `[y, x]`, recursively, as the source does.
- A maze cell is a `class` whose setters have `modifies` clauses.
- `MazeManager` relabels an `array2<MazeCell>` of distinct cells in nested loops.
- The path search fills `visited` and `prev` arrays and drains a queue in a loop.
- The revealer, the two animators, the `shade` transition and the raycaster's player are classes. Each timer callback is one `Tick`/`Step` method call.

The pure parts are functions on sequences:

- the reveal orders;
- the `flyIn` border choice;
- `pickCellTransition`;
- the raycaster's fallback shade band.

Several methods are proved against a value-level specification:

- `MazeManager.HandleCellClick` leaves the manager in the state `Click(old state, …)`, and `Click` is proved to keep the grouping invariant.
- `FindShortestPath` returns the cells of a walk proved shortest.
- Each `fillRevealQueue*` returns a function of the grid size, proved to be a permutation of all coordinates in the promised order.
- Each animator tick is tied to a counter function whose range and reachability are proved over any number of ticks.

Randomness is passed in as a parameter:

- the direction order of each `carve` call, as `shuffle(x, y)`;
- the pattern index of `fillRevealQueueRandomPattern`, as `choice`;
- `Math.random()` in `pickCellTransition`, as `draw`.

The raycaster's `Math.cos`/`Math.sin` of the heading are also parameters.

Behaviour of the code worth noting:

- With the exit unreachable, `findShortestPath` returns `[exitCell]`, not an empty list.
- A new group's palette is `paletteShades[id % 9]`, because `getNextShades` reads the counter after it was incremented.
- The connection is reported after every later click that is not ignored, not only the first time.
- `MazeCell.ts` does not declare `groupId`, although `MazeManager.ts` reads it, writes it and compares it with `null`. The model gives each cell a `groupId: Option<int>` that starts at `None`. If the field really started as `undefined`, the comparison with `null` at src/app/screens/main/MazeManager.ts:37 would ignore every click.

## Model

| member | source | states |
|---|---|---|
| Generator.RoundUpToOdd | src/app/utils/MazeGenerator.ts:5-6 | the dimension used is odd, at most one more than the one asked for, and an odd one is kept |
| Generator.ReachKept | src/app/utils/MazeGenerator.ts:22-23 | a cell reachable from (1, 1) over path cells stays reachable once no path cell has turned back to wall |
| Generator.ReachStep | src/app/utils/MazeGenerator.ts:22-23 | a path cell next to a cell reachable from (1, 1) is itself reachable |
| Generator.OpenKeepsConnected | src/app/utils/MazeGenerator.ts:22-23 | the connector and room opened from a reachable room are reachable in turn, so every path cell stays reachable from (1, 1) |
| Generator.StubsKeepConnected | src/app/utils/MazeGenerator.ts:34-35 | the entry is next to room (1, 1) and the exit next to room (width-2, height-2), so both stubs are reachable and every other path cell stays so |
| Generator.AllWalls | src/app/utils/MazeGenerator.ts:9-11 | a fresh grid of exactly `height` rows of `width` cells, every one a wall |
| Generator.StartIsCarved | src/app/utils/MazeGenerator.ts:29-31 | the all-wall grid with only (1, 1) open satisfies the carve invariant (shape, finished rooms, every path cell reachable from (1, 1)) with one more room than connectors |
| Generator.OpenPassage | src/app/utils/MazeGenerator.ts:22-23 | opening the connector and the next room changes those two cells only, keeps every path cell a room or a connector between path rooms, keeps every path cell reachable from (1, 1) over path cells, keeps rooms minus connectors, and leaves one fewer wall room |
| Generator.TryDirection | src/app/utils/MazeGenerator.ts:16-25 | one direction is tried: afterwards its room is in the grid and path, or out of the grid; the shape, reachability of every path cell from (1, 1) and the room/connector balance are kept, and path never turns back to wall |
| Generator.Carve | src/app/utils/MazeGenerator.ts:13-27 | after `carve(x, y)` every room it reached has tried all four directions, every path cell is still reachable from (1, 1) over path cells, rooms minus connectors is unchanged, and the number of wall rooms never grows, which is why the recursion ends |
| Generator.CompletedCarveReachesAllRooms | src/app/utils/MazeGenerator.ts:13-31 | once no call of `carve` is left, every room with both coordinates odd inside the grid is path |
| Generator.EvenCellsStayWall | src/app/utils/MazeGenerator.ts:14-23 | no cell with both coordinates even is ever path |
| Generator.BorderStaysWall | src/app/utils/MazeGenerator.ts:18-35 | the first and last row and column stay wall except for the entry and the exit |
| Generator.AddStubs | src/app/utils/MazeGenerator.ts:33-35 | opens exactly `maze[1][0]` and `maze[height-2][width-1]`, keeps the rooms and connectors, and keeps every path cell reachable from (1, 1) |
| Generator.GenerateMaze | src/app/utils/MazeGenerator.ts:3-38 | the grid has the rounded dimensions, (1, 1), the entry and the exit are path, every path cell but the two stubs is a room or a connector between path rooms, every room is path, every path cell (entry and exit included) is reachable from (1, 1) through path cells, and there is exactly one connector fewer than rooms: rooms joined by open connectors form a connected graph with one edge fewer than vertices, that is, a spanning tree |
| Cells.MazeCell.constructor | src/app/screens/main/MazeCell.ts:11-21 | stores the shades, the shade index (default 0) and the size (default 40); the cell has no group yet |
| Cells.MazeCell.DisplayColor | src/app/screens/main/MazeCell.ts:26 | the colour is `shades[shadeIndex]` when that index is in range and 0xFFFFFF otherwise |
| Cells.MazeCell.SetColorKey | src/app/screens/main/MazeCell.ts:30-33 | replaces the shades and nothing else |
| Cells.MazeCell.SetShadeIndex | src/app/screens/main/MazeCell.ts:35-38 | replaces the shade index and nothing else |
| Cells.MazeCell.SetSize | src/app/screens/main/MazeCell.ts:40-43 | replaces the size and nothing else |
| Grouping.GroupsAt | src/app/screens/main/MazeManager.ts:40-54 | an id is listed exactly when some examined position is on the grid and coloured with it, and no more ids than positions come back |
| Grouping.Dedup | src/app/screens/main/MazeManager.ts:56 | the ids without repeats, the same set of ids, and the first one found still first |
| Grouping.NeighboursAmong | src/app/screens/main/MazeManager.ts:40-56 | every coloured 4-neighbour's id is among the groups the click considers |
| Grouping.RelabelKeepsAgreement | src/app/screens/main/MazeManager.ts:70-77 | relabelling merged groups keeps every two coloured neighbours in one group |
| Grouping.MergeIdsOnGrid | src/app/screens/main/MazeManager.ts:67-81 | after a merge the ids on the grid are the old ones minus the absorbed ones |
| Grouping.ClickKeepsInv | src/app/screens/main/MazeManager.ts:37-82 | every click keeps the invariant: ids lie in [1, counter), adjacent coloured cells share an id, and the keys of `groupShades` are exactly the ids on the grid |
| Grouping.ClickEffectOnCells | src/app/screens/main/MazeManager.ts:37-82 | a click on a coloured cell changes nothing; otherwise the cell gets a group, every cell of a merged group gets the survivor's id and shades, and every other cell keeps its id and shades |
| Grouping.MergeErasesAbsorbed | src/app/screens/main/MazeManager.ts:67-79 | after a merge no absorbed id remains in `groupShades` or on any cell |
| Grouping.ConnectionPersists | src/app/screens/main/MazeManager.ts:105-117 | once the entry and the exit share a group, every later click leaves them connected, so the report repeats |
| Grouping.GroupsAtCells | src/app/screens/main/MazeManager.ts:40-54 | reading the neighbours' ids from the cells gives the value-level neighbour groups |
| Grouping.MazeManager.constructor | src/app/screens/main/MazeManager.ts:22-24 | over a grid of uncoloured distinct cells the manager starts valid with counter 1 and no groups |
| Grouping.MazeManager.GetNextShades | src/app/screens/main/MazeManager.ts:26-29 | the palette of the group just numbered is `paletteShades[id % 9]`, one of the nine palettes |
| Grouping.MazeManager.CheckEntryExitConnection | src/app/screens/main/MazeManager.ts:105-117 | true exactly when the entry `[1][0]` is coloured and shares its id with the exit `[h-2][w-1]` |
| Grouping.MazeManager.NewGroup | src/app/screens/main/MazeManager.ts:60-63 | the new id is the old counter, the counter goes up by one, the id's palette is recorded, and no cell changes |
| Grouping.MazeManager.Merge | src/app/screens/main/MazeManager.ts:67-79 | the merged groups' cells are relabelled and repainted to the survivor and the absorbed ids are forgotten |
| Grouping.MazeManager.Relabel | src/app/screens/main/MazeManager.ts:70-77 | the grid's ids and shades become exactly the relabelled and repainted maps; shade indices and sizes are untouched |
| Grouping.MazeManager.ForgetGroups | src/app/screens/main/MazeManager.ts:78 | removes exactly the absorbed ids from `groupShades` |
| Grouping.MazeManager.ColourCell | src/app/screens/main/MazeManager.ts:81-82 | only the clicked cell's id and shades change |
| Grouping.MazeManager.HandleCellClick | src/app/screens/main/MazeManager.ts:31-85 | the manager ends in the state the click specification gives, stays valid, changes no shade index or size, and reports the connection exactly when the click was not ignored and the entry and the exit share a group |
| Paths.ScanLocates | src/app/screens/main/PathUtils.ts:14-19 | the row-by-row scan finds the last position holding the cell, or that no position holds it |
| Paths.Locate | src/app/screens/main/PathUtils.ts:14-19 | the entry and the exit positions are where the scan locates them |
| Paths.Search | src/app/screens/main/PathUtils.ts:30-63 | the predecessor table links every reached position `v` back to the start by a walk of `d[v]` steps through the entry's group; when the exit is reached, no same-group walk from the start to it is shorter than `d[exit]`; the exit is reached if and only if it can be |
| Paths.Reconstruct | src/app/screens/main/PathUtils.ts:65-74 | following predecessors from a reached exit gives the cells of the chain from the start; an unreached exit gives just its own cell |
| Paths.FoundShortest | src/app/screens/main/PathUtils.ts:36-63 | when the search reached the exit, the chain of predecessors is a walk through the group and no walk between the two is shorter |
| Paths.Route | src/app/screens/main/PathUtils.ts:30-74 | between located cells the result is the cells of a shortest same-group walk, entry first and exit last, or `[exitCell]` when the exit cannot be reached |
| Paths.FindShortestPath | src/app/screens/main/PathUtils.ts:3-75 | empty when either cell is missing from the grid; otherwise the cells of a shortest walk through the entry's group from entry to exit, or `[exitCell]` when there is none |
| Paths.SameCellIsSingleton | src/app/screens/main/PathUtils.ts:68-73 | when the entry and the exit are the same cell, the path is that single cell |
| Reveal.RowMajorQueue | src/app/screens/main/MazeRevealPatterns.ts:13-17 | the nested loops push the coordinates in row-major order |
| Reveal.RowMajorArranges | src/app/screens/main/MazeRevealPatterns.ts:13-17 | the row-major list holds each of the w·h coordinates exactly once, in row-major order |
| Reveal.SortPermutes | src/app/screens/main/MazeRevealPatterns.ts:18-21 | sorting is a permutation |
| Reveal.SortSorts | src/app/screens/main/MazeRevealPatterns.ts:18-21 | the sort orders by key, with positions of equal key in their original row-major order, as a stable sort does |
| Reveal.SortedUnique | src/app/screens/main/MazeRevealPatterns.ts:18-21 | only one arrangement of a set of positions is ordered that way, so the result is determined |
| Reveal.CenterKeyIsScaledDistance | src/app/screens/main/MazeRevealPatterns.ts:10-20 | the integer centre key is four times the squared distance to ((w-1)/2, (h-1)/2), so it orders like `Math.hypot` |
| Reveal.FillCenterOut | src/app/screens/main/MazeRevealPatterns.ts:7-23 | every coordinate exactly once, nearest to the centre first, ties in row-major order |
| Reveal.FillEdgesIn | src/app/screens/main/MazeRevealPatterns.ts:25-27 | exactly the reverse of the centre-out queue: every coordinate once, farthest from the centre first |
| Reveal.MixedRearranges | src/app/screens/main/MazeRevealPatterns.ts:29-43 | the mix is a permutation of the base of the same length, taking `base[m]` at even places `2m` and `base[n-1-m]` at odd places `2m+1`, the middle element once |
| Reveal.FillMix | src/app/screens/main/MazeRevealPatterns.ts:29-43 | the two-pointer loop builds exactly the mix of the centre-out queue, which holds every coordinate once |
| Reveal.MixedArranges | src/app/screens/main/MazeRevealPatterns.ts:29-43 | mixing a queue of every coordinate once gives one too |
| Reveal.FillCornerToCorner | src/app/screens/main/MazeRevealPatterns.ts:45-59 | every coordinate exactly once, ordered by x²+y², ties in row-major order |
| Reveal.FillRandomPattern | src/app/screens/main/MazeRevealPatterns.ts:61-70 | the pattern chosen by the index is one of the four queues, each holding every coordinate once |
| Reveal.RevealedByIsPrefix | src/app/screens/main/MazeRevealPatterns.ts:104-112 | k ticks reveal exactly the first k·N cells of the queue (all of them once it is that short), in order |
| Reveal.RevealsEachOnce | src/app/screens/main/MazeRevealPatterns.ts:104-112 | from a queue without repeats no cell is revealed twice, and enough ticks reveal every cell |
| Reveal.StepIsFirstBatch | src/app/screens/main/MazeRevealPatterns.ts:104-108 | one tick reveals the first min(N, length) cells |
| Reveal.MazeRevealer.constructor | src/app/screens/main/MazeRevealPatterns.ts:78-87 | the queue is the pattern's, N defaults to 3, nothing is revealed, no ticker |
| Reveal.MazeRevealer.Start | src/app/screens/main/MazeRevealPatterns.ts:89-94 | stops any ticker first and leaves exactly one running; the queue is untouched |
| Reveal.MazeRevealer.Stop | src/app/screens/main/MazeRevealPatterns.ts:96-102 | no ticker afterwards, whether one ran or not; the queue is untouched |
| Reveal.MazeRevealer.Step | src/app/screens/main/MazeRevealPatterns.ts:104-112 | passes the first min(N, length) cells in order, removes exactly those, keeps revealed + queued equal to the starting queue, and stops the ticker when the queue is empty |
| PathAnimation.BounceKeepsRange | src/app/screens/main/PathAnimator.ts:29-38 | the bounce keeps the shade inside its palette and the palette among the palettes, and on a path of two or more cells turns the painter back into the path |
| PathAnimation.AdvanceBy | src/app/screens/main/PathAnimator.ts:27-47 | after any number of ticks the shade and palette indices are still in range |
| PathAnimation.StaysOnPath | src/app/screens/main/PathAnimator.ts:27-47 | on a path of two or more cells the index stays on the path after any number of ticks |
| PathAnimation.PathAnimator.constructor | src/app/screens/main/PathAnimator.ts:6-10 | counters at 0, direction forward, no interval |
| PathAnimation.PathAnimator.Start | src/app/screens/main/PathAnimator.ts:17-26 | stops the previous interval, resets index, palette and shade to 0 and direction to 1, and runs along the new path |
| PathAnimation.PathAnimator.Stop | src/app/screens/main/PathAnimator.ts:50-55 | no interval afterwards; counters and path untouched |
| PathAnimation.PathAnimator.Tick | src/app/screens/main/PathAnimator.ts:27-47 | the direction flips exactly at the ends, moving on to the next shade and, when it wraps, the next palette; the current cell gets that palette and shade, the index moves one step, no other cell changes, and on a path of two or more cells every tick paints |
| EntryExitAnimation.IndexAfterRoundRobin | src/app/screens/main/EntryExitAnimator.ts:14-18 | after k ticks the colour index is (start + k) mod the palette count, so the palettes come round in turn |
| EntryExitAnimation.EntryExitAnimator.constructor | src/app/screens/main/EntryExitAnimator.ts:4-5 | colour index 0 and no interval |
| EntryExitAnimation.EntryExitAnimator.Start | src/app/screens/main/EntryExitAnimator.ts:7-19 | clears any previous interval and starts one over the given cells and palettes without resetting the colour index |
| EntryExitAnimation.EntryExitAnimator.Stop | src/app/screens/main/EntryExitAnimator.ts:21-26 | no interval afterwards, whether one ran or not; nothing else changes |
| EntryExitAnimation.EntryExitAnimator.Tick | src/app/screens/main/EntryExitAnimator.ts:14-18 | the index moves to the next palette modulo the list's length and both cells get that same palette, nothing else of theirs changing |
| Transitions.RemainingCountsDown | src/app/screens/main/CellTransitions.ts:11-20 | from counter `idx` the ticks set `idx-1`, `idx-2`, … down to the target and then the target once more |
| Transitions.ShadeScheduleDescends | src/app/screens/main/CellTransitions.ts:7-21 | the transition starts at the last shade and ends at the cell's own shade, never brightening on the way when that shade is in the palette |
| Transitions.ShadeTicks | src/app/screens/main/CellTransitions.ts:7-21 | the ticks set at least one index and, for a shade inside the palette, the whole transition sets `len - target + 1` indices, counting the one set at the start |
| Transitions.ShadeTransition.constructor | src/app/screens/main/CellTransitions.ts:7-10 | the counter and the cell's shade index go to the last shade, the target is the cell's shade index |
| Transitions.ShadeTransition.Tick | src/app/screens/main/CellTransitions.ts:11-20 | the counter goes down by one, the index set is the counter while it is at or above the target, and the interval ends at the target exactly when the counter reaches it |
| Transitions.Closest | src/app/screens/main/CellTransitions.ts:44 | the `reduce` picks a least distance, and the last one of several equal least distances |
| Transitions.ClosestBorderIsNearest | src/app/screens/main/CellTransitions.ts:31-44 | the chosen border is at least as near as every other and strictly nearer than every later one in the order left, right, top, bottom |
| Transitions.FlyInStartOutside | src/app/screens/main/CellTransitions.ts:46-64 | the cell is moved along one axis only, to just outside the maze on the chosen side |
| Transitions.PickCellTransition | src/app/screens/main/CellTransitions.ts:75-78 | the name picked is one of the transitions' names |
| Transitions.EveryTransitionPickable | src/app/screens/main/CellTransitions.ts:75-78 | each transition's name is picked by some draw |
| Raycasting.MovedStaysOpen | src/app/screens/main/Raycaster.ts:105-120 | a move is taken exactly when the target is strictly inside the maze and not over a wall, and then lands exactly on it; otherwise the player stays put, so the player never leaves open cells |
| Raycasting.StartIsOpen | src/app/screens/main/Raycaster.ts:24 | the start (1.5, 1) is open when cell (1, 1) is a path |
| Raycasting.WalkStaysOpen | src/app/screens/main/Raycaster.ts:73-88 | the forward and backward moves of one frame keep the player in an open cell |
| Raycasting.LowerIsCharwise | src/app/screens/main/Raycaster.ts:62-68 | the key's lower-casing keeps its length, lower-cases letter by letter, and is idempotent |
| Raycasting.ShadeBucket | src/app/screens/main/Raycaster.ts:193-197 | for a non-negative distance the fallback band lies in [0, steps-1] |
| Raycasting.ShadeBucketMonotone | src/app/screens/main/Raycaster.ts:193-197 | a farther slice is never in a nearer band, and from the maximum depth on it is in the last |
| Raycasting.Raycaster.constructor | src/app/screens/main/Raycaster.ts:24-27 | the player starts at (1.5, 1), angle 0, no key held |
| Raycasting.Raycaster.TryMove | src/app/screens/main/Raycaster.ts:105-120 | moves and returns true exactly when the target is open, otherwise leaves the player in place and returns false |
| Raycasting.Raycaster.OnKeyDown | src/app/screens/main/Raycaster.ts:62-64 | the lower-cased key is held and nothing else changes |
| Raycasting.Raycaster.OnKeyUp | src/app/screens/main/Raycaster.ts:66-68 | the lower-cased key is released and nothing else changes |
| Raycasting.Raycaster.Tick | src/app/screens/main/Raycaster.ts:71-99 | forward then backward are tried as moves, left and right turn by the rotation speed unconditionally, and the view is redrawn exactly when a move was taken or a turn key is held |

## Left out

- Rendering is not modelled: the ray marching in `renderRaycastView`, slice heights, the fisheye correction, the drawing of cells and the `scale`/`flyIn` animations. These are floating-point graphics. Only the fallback shade band of a wall slice is kept.
- Timers are not modelled: `setInterval`, `clearInterval`, the pixi `Ticker` and `requestAnimationFrame`. Each callback is one method call, and a running timer is a boolean flag. Timing and cancellation races are out.
- Randomness is a parameter: the `Math.random` comparator of `carve`, the random pattern index and `pickCellTransition`'s draw.
- `Math.hypot` is replaced by exact integer keys with the same order. Ties that floating-point rounding could break differently are not modelled.
- Real arithmetic stands in for IEEE doubles throughout the raycaster and `flyIn`. `Math.cos`/`Math.sin` of the heading come in as parameters.
- The palette contents are abstract. A palette is a sequence of colour integers; the path animator's palettes and the manager's nine palettes are constructor parameters.
- The scene, UI and wiring files are not part of this model: MainScreen.ts, UIScreenUIManager.ts, SettingsPopup.ts and MazeDisplayUtils.ts. The manager and the path search assume a fully built grid of distinct cells.
- `setupCellInteractions` is not modelled. It only registers pointer handlers that call `handleCellClick`.
- The `onEntryExitConnected` callback is not called. `HandleCellClick` returns whether the source would call it.
- `MazeRevealer` returns each tick's batch instead of calling `onReveal`, and takes the queue a pattern produced instead of the pattern itself.
- Reveal.FillCenterOut: requires a grid with at least one row, because the source reads the width from `mazeData[0]`. The same holds for the other three orders.
- Reveal.MazeRevealer.Step: models N as an integer. A fractional N is not modelled.
- Generator.GenerateMaze: the step from "connected with one connector fewer than rooms" to "exactly one simple path between any two rooms" is standard graph theory and is not proved; the contract states the two facts it rests on.
- Generator.GenerateMaze: requires both dimensions at least 2, so the rounded grid is at least 3 by 3. Smaller sizes make the source write outside the array.
- EntryExitAnimation.EntryExitAnimator.Tick: requires a non-empty palette list. With an empty list the source computes a NaN index.
- PathAnimation.PathAnimator.Tick: when the index is off the path, the source throws on the missing cell; the model reports `painted == false` instead. This happens only on paths of fewer than two cells.
- Raycasting.LowerIsCharwise: lower-cases the ASCII letters only. Full Unicode case mapping is not modelled.
- Paths.FindShortestPath: requires a grid with at least one row, because the source reads the width from `cellGroups[0]`. The `console.error` messages are not modelled.

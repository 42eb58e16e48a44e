# pymazelabyrinth: the dungeon generator and the bot's path planners in Dafny

This project models three parts of a maze game:

- **The dungeon generator** (`create_map`). It makes a grid of `'#'` walls. It places rooms by rejection sampling and carves their interiors to `' '`. It joins each room to the previous one with an L-shaped corridor. When the last room is smaller than 6 x 6, it tries to add one 6 x 6 room. It marks one `'E'` exit in the last room. Finally it turns every wall that is not a room corner and has no open neighbour into `'B'`.
- **The bot's path planners.** These are the neighbour rule, breadth-first search, breadth-first search that avoids the exit, the row-major exit scan, the `find_exit_bfs`/`dfs`/`astar` entry points, and the exploring planner `find_exit_explore`.
- **The 3D viewer's grid helpers.** These are the largest floor component, the nearest floor cell, and the room/corridor test.

A grid is a rectangular `seq<seq<char>>` indexed `g[y][x]`. A cell is an `(x, y)` pair. The width is read from the first row, as the source does.

Every search shares one traversability rule: a step goes to an in-bounds cardinal neighbour holding `' '` or `'E'`. The searches are written once over a successor function:

- `Bfs.Search` is the FIFO search with a predecessor map.
- `Pathfinding.DepthFirst` is the LIFO search.
- `Astar.Search` is the priority search with a consistent heuristic.

Each entry point instantiates one of them.

Randomness is an explicit stream of raw draws, `nat -> int`. The k-th `random.randint(lo, hi)` call takes draw k and folds it into `[lo, hi]`. A draw that is already in range is used unchanged.

Modules, in dependency order:

| module | file | what |
|---|---|---|
| Paths | paths.dfy | walks over a successor function, reconstruction from a predecessor map |
| Grid | grid.dfy | grid, `neighbors`, Manhattan distance, the first-exit scan |
| Bfs | bfs.dfy | breadth-first engine |
| Pathfinding | pathfinding.dfy | `bfs_path`, `bfs_path_no_exit`, `find_exit_bfs`, `find_exit_dfs` |
| Astar | astar.dfy | A* engine with a min-priority frontier |
| ExitAstar | exitastar.dfy | `heuristic`, `find_exit_astar` |
| Rooms | rooms.dfy | `Rect`, `intersect`, `cell_in_room` |
| Carving | carving.dfy | carving rectangles to floor |
| ExitRule | exitrule.dfy | where the exit goes in the last room |
| Classify | classify.dfy | the final `'B'` pass |
| Generator | generator.dfy | `create_map` |
| Helpers | helpers.dfy | `compute_largest_component`, `find_nearest_floor`, `get_area_type` |
| Explore | explore.dfy | `find_exit_explore` |

## Model

| member | source | states |
|---|---|---|
| Grid.Neighbors | bot_pathfinding.py:4-15 | at most four cells; a cell is listed exactly when it is at Manhattan distance 1 and in bounds holding `' '` or `'E'` |
| Paths.Rebuild | bot_pathfinding.py:23-28 | following the predecessor links from the goal yields a walk that starts at start and ends at the goal, no longer than the goal's depth plus one |
| Bfs.Search | bot_pathfinding.py:17-33 | a found path ends on a goal and no walk to a goal is shorter; no path means no walk from start reaches a goal, and the visited set is closed under steps |
| Pathfinding.BfsPath | bot_pathfinding.py:17-33 | the result is empty exactly when goal is unreachable; otherwise it is a start-to-goal path of least length, so `start == goal` gives `[start]` |
| Pathfinding.BfsPathNoExit | bot_pathfinding.py:35-56 | when goal is not the exit, no cell after the first is the exit; the result is a shortest such path, and it is empty exactly when no such path exists |
| Grid.FindExit | bot_pathfinding.py:60-71 | None exactly when the grid has no `'E'`; otherwise the first `'E'` in row-major order |
| Pathfinding.FirstExitUnique | bot_pathfinding.py:63-69 | the first exit in row-major order is unique, so every entry point targets the same cell |
| Pathfinding.FindExitBfs | bot_pathfinding.py:58-72 | no exit gives `[]`; otherwise empty exactly when the first exit is unreachable, and else a shortest path to it |
| Pathfinding.DepthFirst | bot_pathfinding.py:88-103 | with cells marked when pushed the loop ends; the result is a start-to-target walk, and it is empty exactly when the target is unreachable |
| Pathfinding.FindExitDfs | bot_pathfinding.py:74-103 | no exit gives `[]`; otherwise empty exactly when the first exit is unreachable, and else a path from start to it |
| Grid.ManhattanMetric | bot_pathfinding.py:105-107 | the heuristic is symmetric and zero only between equal cells |
| ExitAstar.HeuristicConsistent | bot_pathfinding.py:105-107 | the distance to the exit drops by at most one per neighbour step |
| ExitAstar.HeuristicAdmissible | bot_pathfinding.py:105-107 | the distance to the exit never exceeds the number of steps of any path to it |
| Astar.PopIndex | bot_pathfinding.py:128 | `heappop` takes an entry of least (priority, cell) in tuple order |
| Astar.Search | bot_pathfinding.py:123-146 | with a consistent heuristic: empty exactly when the goal is unreachable, otherwise a path to it that no path beats in length |
| ExitAstar.FindExitAstar | bot_pathfinding.py:109-146 | no exit gives `[]`; otherwise empty exactly when the first exit is unreachable, else a shortest path to it |
| ExitAstar.AstarAgreesWithBfs | bot_pathfinding.py:109-146 | on the same input A* and breadth-first search both fail or both succeed, with paths of equal length |
| Rooms.MakeRect | nethack_map_generator.py:6-10 | `Rect(x, y, w, h)` has its corner at (x, y), width w and height h |
| Rooms.Center | nethack_map_generator.py:12 | each coordinate of the centre is the floor of the mean of the two bounds: twice it is the sum of the bounds or one less |
| Rooms.CenterInside | nethack_map_generator.py:12 | the floor-divided centre of a room with at least one cell lies in the room |
| Rooms.Intersect | nethack_map_generator.py:14-17 | the overlap test with strict inequalities on both axes; its meaning is stated by the three lemmas below |
| Rooms.IntersectSymmetric | nethack_map_generator.py:14-17 | overlap does not depend on which room asks |
| Rooms.IntersectIffSharedCell | nethack_map_generator.py:14-17 | two non-empty rooms intersect exactly when some cell lies in both |
| Rooms.CellInRoom | bot_pathfinding.py:148-154 | the half-open membership test holds exactly when the one-cell room at the cell intersects the room, tying `cell_in_room` to `intersect` |
| Rooms.TouchingDoNotIntersect | nethack_map_generator.py:15-17 | rooms that only share an edge line do not intersect |
| Generator.Pick | nethack_map_generator.py:42-46 | a randint draw lies in its range, and an in-range raw draw is kept unchanged |
| Generator.Walls | nethack_map_generator.py:37 | the starting grid has height rows of width cells, all `'#'` |
| Generator.AnyIntersect | nethack_map_generator.py:49 | true exactly when the candidate intersects some room already placed |
| Carving.CarveRegionInside | nethack_map_generator.py:53-61 | the carved part of a non-empty room is non-empty and inside the room |
| Carving.Fill | nethack_map_generator.py:53-61 | cells of the rectangle become `' '`, every other cell is unchanged |
| Generator.Carve | nethack_map_generator.py:53-61 | the cells of the rectangle become `' '` and no other cell changes |
| Generator.Corridor | nethack_map_generator.py:63-80 | the cells of the L (row first when the coin is 1, column first when 0) become `' '`, all of them open, and no other cell changes |
| Generator.Drawn | nethack_map_generator.py:42-47 | the room drawn from four draws lies inside the one-cell border and has width and height in [room_min_size, room_max_size] |
| Generator.Attempt | nethack_map_generator.py:41-81 | the drawn room is appended exactly when it overlaps no earlier room, and otherwise grid and rooms are unchanged; an appended room after the first records the drawn corridor bend; layout, carving and tracing are kept |
| Generator.Sample | nethack_map_generator.py:40-81 | the reference room loop over the draws: after t attempts at most t rooms, pairwise non-overlapping, one corridor bend per room after the first, at least four draws used per attempt, and with t >= 1 the first drawn room is kept |
| Generator.PlaceRooms | nethack_map_generator.py:40-81 | at most max_rooms rooms, pairwise non-overlapping, inside the border, sized in range, carved, corridors traced; with max_rooms >= 1 the rooms, the corridor bends and the next unused draw are exactly those of the reference loop after max_rooms attempts, so the first draw is always placed |
| Generator.BackfillDrawn | nethack_map_generator.py:89-94 | each backfill draw is a 6 x 6 room inside the one-cell border |
| Generator.Backfill | nethack_map_generator.py:83-101 | a room is added only after a last room smaller than 6 x 6; it is the first of the 100 draws that overlaps no room, and when none is added all 100 overlap |
| Generator.TracedJoined | nethack_map_generator.py:63-80 | each recorded corridor is open, so consecutive main-loop centres are joined by an open L |
| Generator.OpenIffDug | nethack_map_generator.py:52-101 | with rooms carved and corridors traced, a cell is open exactly when it is a carved room cell or on a recorded corridor |
| ExitRule.ExitOf | nethack_map_generator.py:103-131 | a 6 x 6 or larger room puts the exit at the first inner corner farthest from the centre; otherwise at the first edge-adjacent interior cell nearest to it, or at the centre when there is none |
| ExitRule.ExitCarved | nethack_map_generator.py:103-132 | the exit cell lies in the room's carved part, so it is floor before it is marked |
| Generator.MarkExit | nethack_map_generator.py:103-132 | exactly one `'E'`, at the last room's exit cell, or none when there are no rooms; the set of open cells is unchanged |
| Classify.CornerOfAny | nethack_map_generator.py:139-150 | true exactly when the cell is one of the four corners of some room |
| Classify.OpenAround | nethack_map_generator.py:151-157 | true exactly when some in-bounds cardinal neighbour holds `' '` or `'E'` |
| Classify.Blacken | nethack_map_generator.py:134-159 | the in-place scan gives every cell the value of the rule applied to the grid before the scan |
| Classify.BlackenMeaning | nethack_map_generator.py:134-159 | a cell becomes `'B'` exactly when it was `'#'`, is no corner and has no open neighbour; a `'#'` that stays is a corner or has an open neighbour; other cells are unchanged |
| Generator.FinalPass | nethack_map_generator.py:134-161 | the pass keeps the shape, the open cells and the single exit, and leaves every `'B'` and `'#'` classified by the rule |
| Generator.NoRoomsAllBlack | nethack_map_generator.py:134-159 | with no rooms and no open cell, every cell ends up `'B'` |
| Generator.CreateMap | nethack_map_generator.py:19-162 | the maze is width x height over `#`, space, `E` and `B`; rooms are non-overlapping, inside the border, carved and sized; with max_rooms >= 1 there is a room, the first one drawn, and so exactly one exit, in the last room; with max_rooms >= 1 the main-loop rooms and their bends are those of the reference loop, and the backfill works from the draw that loop left off at, appending the first free 6 x 6 draw after a small last room or nothing when all 100 overlap; a cell is open exactly when it is a carved room cell or on a corridor between consecutive main-loop rooms with its recorded bend; a backfilled room is 6 x 6 and follows a small last room; no rooms gives an all-`'B'` maze; walls classified |
| Helpers.Flood | pymazemain.py:91-103 | the flood from a floor cell collects exactly the cells reachable from it through floor |
| Helpers.ComponentIsRegion | pymazemain.py:91-103 | a component is floor only, contains its seed, is closed under floor steps and is connected |
| Helpers.LargestComponent | pymazemain.py:84-106 | the result is floor only; it is empty exactly when the grid has no floor; otherwise it is the component of a floor cell, no component is larger, and every component met earlier in row-major order is strictly smaller |
| Helpers.Stair | pymazemain.py:116-124 | through in-bounds cells any two in-bounds cells are joined by a walk of exactly Manhattan-distance steps, so search depth equals Manhattan distance |
| Helpers.NearestFloor | pymazemain.py:108-125 | a floor start is returned unchanged; with floor anywhere, a floor cell no farther, in Manhattan distance, than any other floor cell; with no floor, the start |
| Helpers.AreaType | pymazemain.py:127-132 | `"room"` exactly when some room holds the position by the half-open test, `"corridor"` otherwise |
| Explore.ExitRoom | bot_pathfinding.py:174-179 | the first room holding the exit, or None exactly when no room holds it |
| Explore.OtherCenters | bot_pathfinding.py:181-189 | exactly the centres of the rooms other than the exit room |
| Explore.Dedup | bot_pathfinding.py:190 | no repeated centre, and the same centres as before |
| Explore.TourCenters | bot_pathfinding.py:190-205 | the other centres without repeats, plus the exit room's centre when it is not the first waypoint |
| Explore.TourOrder | bot_pathfinding.py:209-212 | the reversed order, farthest from the exit, is used exactly when the bot is in the exit room within one step of the exit; otherwise nearest to the bot |
| Explore.SortSorted | bot_pathfinding.py:209-212 | the sort orders by key (ascending, or descending distance for the reversed sort) |
| Explore.SortHead | bot_pathfinding.py:209-213 | after the stable sort the first element is the earliest element of least key |
| Explore.NearHead | bot_pathfinding.py:212-213 | under the usual order the popped centre is the first one nearest to the bot |
| Explore.FarHead | bot_pathfinding.py:209-213 | under the reversed order the popped centre is the first one farthest from the exit |
| Explore.PopTarget | bot_pathfinding.py:209-213 | the popped target is minimal (or maximal) as the order says, and the rest is the list with that one element removed |
| Explore.JoinChain | bot_pathfinding.py:215-219 | a leg starting where the walk ends continues it, keeps the earlier cells, and adds the joint cell once |
| Explore.Leg | bot_pathfinding.py:214-220 | the walk grows to the target when it is reachable and is unchanged otherwise |
| Explore.Tour | bot_pathfinding.py:208-220 | each centre is popped exactly once, so the loop ends; pop k takes the first nearest (or, in the exit room next to the exit, the first farthest) of the centres still left, judged from the cell the bot stood on, and the bot moves there exactly when it can reach it; the walk only grows and still leads from its start to the bot; from an open start cell every centre that cell reaches lies on the walk |
| Explore.ApproachAsWritten | bot_pathfinding.py:196-201 | the first leg avoids the exit when it can, is empty exactly when the centre is unreachable, and the bot is taken to be at the centre either way |
| Explore.Approach | bot_pathfinding.py:196-201 | the corrected first leg: the bot moves to the centre exactly when the centre is reachable |
| Explore.TourStep | bot_pathfinding.py:209-220 | one pop and one leg: the popped centre is the one the order picks from where the bot stands, it leaves the centres still to visit, the walk only grows, and a popped centre the start reaches ends up on the walk |
| Explore.FinalLeg | bot_pathfinding.py:222-228 | the walk only grows; it ends at the exit when the exit is reachable from the bot's position, and otherwise is unchanged and ends where the exit cannot be reached |
| Explore.FindExitExploreAsWritten | bot_pathfinding.py:156-229 | no exit gives `[]`; the result is a grid walk from the bot or from an exit-room centre the bot cannot reach, and in a detour it never starts at the bot; a non-empty walk ends at the first exit or at a cell that cannot reach it; it passes through every tour centre reachable from the open bot cell, or, when the bot cannot reach the exit room's centre, every one reachable from that open centre |
| Explore.DetourExample | bot_pathfinding.py:196-201 | a concrete grid on which the bot cannot reach the exit room's centre, but the centre reaches the exit |
| Explore.FindExitExplore | bot_pathfinding.py:156-229 | the corrected planner: no exit gives `[]`; the result is a grid walk from the bot; when the bot stands on an open cell and can reach the first exit, the walk ends there; a non-empty walk ends at the first exit or at a cell that cannot reach it; from an open bot cell it passes through the exit room's centre (when that was the first waypoint) and every tour centre the bot can reach |

## Left out

- Rendering, input, textures, the `main` loop, fog of war and the unstuck heuristics in `pymazemain.py`. These are graphics and I/O.
- Float positions. The planners take an integer start cell, and `int(player_pos.x)` truncation is not modelled.
- Python's `random` module. Draws are an input stream, so statements hold for every stream.
- `create_map`'s `seed` argument and its `print`. Neither affects the map.
- Generator.CreateMap: the requires ask `1 <= room_min_size <= room_max_size`, `room_max_size + 2 <= width, height`, and `8 <= width, height` when a backfill can happen. The model excludes other inputs by choice, so that every room has at least one cell. In the source a size of 0 or less gives a room that carves nothing, and a room wider than the grid allows makes `randint` raise only on the draws that pick such a width.
- Generator.CreateMap: no claim that the exit is reachable from every room. The backfilled 6 x 6 room gets no corridor.
- Explore.Dedup: `list(set(...))` has a hash-dependent order in Python. The model keeps first occurrences. That order only decides ties between equally distant centres.
- Helpers.NearestFloor: it does not fix which of several equally near floor cells is returned. The source's neighbour order decides that tie.
- Helpers.LargestComponent: an empty maze makes `maze[0]` raise in the source. The model reads the width as 0, so it returns the empty set.
- Grid.Cols, Grid.Neighbors, Grid.FindExit, Pathfinding.FindExitBfs, Pathfinding.FindExitDfs, ExitAstar.FindExitAstar, Explore.FindExitExplore and Explore.FindExitExploreAsWritten: a maze with no rows makes `len(maze[0])` raise `IndexError` in the source (bot_pathfinding.py:10, 62, 78, 113, 163). The model reads the width as 0 instead, so no cell is in bounds, no exit is found and the entry points return `[]`.
- Helpers.NearestFloor requires an in-bounds start. The source would index outside the grid (or wrap around on negative indices) otherwise.
- Explore.FindExitExplore: the walk need not reach the exit when the bot stands on a wall cell. Steps out of a wall cell cannot be taken back.
- Rooms are told apart by their position in the list. The source compares room objects by identity, which agrees for the generator's rooms.
- `is_collision` and the other movement code are not part of this model.

## Findings

| source | as written | input that shows it | evidently intended | confidence | as-written member | corrected member |
|---|---|---|---|---|---|---|
| bot_pathfinding.py:196-201 | after the first leg toward the exit room's centre, `current` is set to that centre even when both searches return `[]` | the grid `#######`, `# #  E#`, `#######`, the bot at (1, 1), and one room `Rect(2, 0, 5, 3)` with centre (4, 1): the bot is walled in, so both searches fail, and the walk that comes back starts at (4, 1), a cell the bot cannot reach | move `current` only when the leg was found, so the walk always starts at the bot | medium, not executed | Explore.FindExitExploreAsWritten | Explore.FindExitExplore |

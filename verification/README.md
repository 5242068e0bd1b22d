# A* maze player: map, search and turn

This project models the maze-exploring "A* Player" of a small maze game. The
player starts on an unexplored maze and does not know the maze's size. Each
turn the game reports the kinds of the four cells around the player. The
player then:

- records them in a map that grows whenever the player stands on one of its
  bounds;
- lists the "interesting" cells: known Path cells next to a cell not yet
  known;
- searches a path to each of them with a priority-queue search;
- takes one step along the first strictly shortest path found.

An adjacent Finish cell is taken at once.

Modules:

- `Field`: cell kinds (`Unknown` stands for the map's `None`), the sensed
  surroundings, moves, positions and `Option`.
- `Queue`: the search's priority queue as a sequence of `(cost, position)`
  entries. Pop removes a least entry in the lexicographic order of the tuple,
  as `heappop` does.
- `AStarMap`: `Dist`, the class `Map` (position, bounds, column-major grid,
  growth, sensing, queries) and the search `FindPathTo`.
- `AStarPlayer`: the class `Player` and its `Turn`.

The map's contents are described by `Map.Get(x, y)`, the kind at logical
`(x, y)`, which is `Unknown` outside the bounds. Under this view:

- growth leaves every cell's kind unchanged;
- "Path on a bound, or Path next to an unknown cell" is the same as "Path with
  a neighbour whose kind is Unknown".

A search's answer is a `Search`:

- `Found(path)`;
- `NoPath`, where the Python search returns `None`;
- `OutOfFuel`, when the pop budget `fuel` runs out;
- `Cycle`, when the predecessor links loop while the path is rebuilt, where
  the Python search never returns.

`Map.Sound` states what each answer guarantees:

- a found path is a walk of legal cardinal moves from the player's position
  that ends at the target, never visits the start and never repeats a
  position;
- `NoPath` means that no such walk exists at all.

`Found` and `NoPath` settle a search. A turn whose searches all settle is
complete, and then it decides by the same rule as the Python code. When a search
answers `OutOfFuel` or `Cycle`, the turn gives up: it passes and reports
`complete` as false.

Facts about the code that the model keeps:

- On the fresh one-cell map the position touches all four bounds, so the first
  sensing grows the map in all four directions, whatever the surroundings.
- When every search settles and none finds a path (an explored, enclosed
  maze), the code fails on `shortest_path[0]` with a `TypeError`. `Turn`
  returns `Pass` in that case, and its contract then states that no
  interesting cell can be reached.
- Sensing overwrites the four neighbouring cells unconditionally, including
  cells already known.

## Model

| member | source | states |
|---|---|---|
| AStarMap.Dist | players/astarplayer.py:27-29 | the cardinal distance is a natural number, zero exactly when the two points coincide, and at least the difference of either coordinate |
| AStarMap.DistSymmetric | players/astarplayer.py:27-29 | the distance does not depend on the order of the two points |
| AStarMap.AdjacentIsOneStep | players/astarplayer.py:169-181 | a position is one of the four cardinal neighbours exactly when it is at distance 1 |
| AStarMap.Map.constructor | players/astarplayer.py:36-41 | the player starts at (0, 0) on a one-cell map whose only known cell is a Path; the shape agrees with the bounds |
| AStarMap.Map.Get | players/astarplayer.py:139-142 | a cell known to be anything other than Unknown lies within the bounds |
| AStarMap.Map.MoveLeft | players/astarplayer.py:43-44 | x decreases by one; nothing else changes |
| AStarMap.Map.MoveRight | players/astarplayer.py:46-47 | x increases by one; nothing else changes |
| AStarMap.Map.MoveUp | players/astarplayer.py:49-50 | y increases by one; nothing else changes |
| AStarMap.Map.MoveDown | players/astarplayer.py:52-53 | y decreases by one; nothing else changes |
| AStarMap.Map.Height | players/astarplayer.py:55-56 | the height is the length of every column |
| AStarMap.Map.Width | players/astarplayer.py:58-59 | the width is the number of columns |
| AStarMap.Map.GrowLeft | players/astarplayer.py:61-67 | the shape stays consistent, x0 moves down by one, no other bound moves, and every cell keeps its kind at its logical coordinate (the new column is Unknown) |
| AStarMap.Map.GrowRight | players/astarplayer.py:69-75 | the shape stays consistent, x1 moves up by one, no other bound moves, and every cell keeps its kind (the new column is Unknown) |
| AStarMap.Map.GrowUp | players/astarplayer.py:77-83 | the shape stays consistent, y1 moves up by one, no other bound moves, and every cell keeps its kind (the new row is Unknown) |
| AStarMap.Map.GrowDown | players/astarplayer.py:85-97 | the shape stays consistent, y0 moves down by one, no other bound moves, and every cell keeps its kind (the new row is Unknown) |
| AStarMap.Map.GrowAround | players/astarplayer.py:103-110 | each bound the position touches moves out by one, the others stay, the position ends strictly inside, and every cell keeps its kind |
| AStarMap.Map.Write | players/astarplayer.py:113-116 | an in-bounds write changes the kind of that one cell and no other |
| AStarMap.Map.RememberSurroundings | players/astarplayer.py:99-116 | from an in-bounds position: the position ends strictly inside; bounds only widen, each by one where the position touched it; the left, right, down and up neighbours hold the sensed kinds; every other cell keeps its kind |
| AStarMap.Map.IsInteresting | players/astarplayer.py:138-159 | an in-bounds cell is interesting exactly when it is a Path and one of its four neighbours is Unknown, counting the outside of the map as Unknown, so a Path on a bound always is |
| AStarMap.Map.AllInteresting | players/astarplayer.py:161-167 | the result holds exactly the in-bounds interesting cells, each once, in x-major then y-ascending order |
| AStarMap.Map.Moves | players/astarplayer.py:169-181 | the result holds exactly the cardinal neighbours whose kind is Path or Start (such a neighbour is always in bounds) |
| AStarMap.Map.MovesInOrder | players/astarplayer.py:169-181 | the moves come in the order left, right, down, up |
| AStarMap.Map.CurPriority | players/astarplayer.py:183-192 | the result is the first queue index whose position is q, or -1 exactly when no entry is at q |
| Queue.MinIndex | players/astarplayer.py:207 | the index of an entry no greater than any other in the tuple order |
| Queue.PopMin | players/astarplayer.py:207 | removes one least entry: the result is a minimum of the queue, the rest is the queue without it (as multisets), and no queued position is lost except the popped one |
| Queue.NotAboveTotal | players/astarplayer.py:207 | the tuple order is total, transitive and antisymmetric |
| Queue.RemoveKeepsPositions | players/astarplayer.py:233 | deleting an entry adds no entry and keeps every other queued position |
| Queue.AppendPositions | players/astarplayer.py:236 | appending an entry queues its position and no other |
| AStarMap.Map.Relax | players/astarplayer.py:221-238 | a neighbour is queued and recorded exactly when it was never visited, its recorded estimate is larger, or its first queue entry has a larger estimate; that entry is then deleted; otherwise the queue and the visited map are untouched; the predecessor links and queue stay rooted at the start |
| AStarMap.Map.Recorded | players/astarplayer.py:235-238 | recording a legal move and queueing its end keeps every predecessor link a legal move back towards the start and loses no reached position |
| AStarMap.Map.RelaxMove | players/astarplayer.py:219-222 | the neighbour is visited afterwards; when it is recorded, and always when it was not visited before, its record is the estimate cost + distance to the target with `from` as predecessor (Expand passes the popped cost plus one); otherwise the visited map is unchanged; the search invariants hold |
| AStarMap.Map.RelaxAll | players/astarplayer.py:220-238 | every listed neighbour is visited afterwards and the search invariants hold |
| AStarMap.Map.Expand | players/astarplayer.py:218-238 | every legal move out of the popped position lands on a visited position, no visited position is dropped, and every reached position stays queued or covered |
| AStarMap.Map.VisitedInBounds | players/astarplayer.py:223-238 | a visited position was reached by a legal move, so it lies within the bounds |
| AStarMap.Map.Backtrack | players/astarplayer.py:210-217 | the answer is the rebuilt path or Cycle; the path, read forwards, is a walk of legal moves from the start that ends at the target, excludes the start and repeats no position, and is empty when the target is the start; Cycle only when the links followed back from the target form a loop that never reaches the start (Loops) |
| AStarMap.LoopClosed | players/astarplayer.py:213-216 | on a loop of links every position's predecessor lies on the loop again and is never the start, so the Python walk back from the target never ends |
| AStarMap.Map.Confined | players/astarplayer.py:206-239 | a walk of legal moves from inside a set closed under legal moves stays in the set |
| AStarMap.Map.Sealed | players/astarplayer.py:239 | once the queue is empty, with every reached position expanded and the target never reached, no walk leads from the start to the target |
| AStarMap.Map.Popped | players/astarplayer.py:206-207 | after a pop the popped position is the start or visited, and every reached position is closed, popped or still queued |
| AStarMap.Map.Closing | players/astarplayer.py:218-238 | expanding the popped position and closing it restores the search invariant |
| AStarMap.Map.FindPathTo | players/astarplayer.py:194-239 | every answer is sound: a found path is a legal walk from the position to (x, y) that excludes the start and repeats nothing; NoPath only when no such walk exists; the target equal to the position gives the empty path |
| AStarPlayer.FinishMove | players/astarplayer.py:251-259 | the move goes onto a Finish neighbour, and no neighbour earlier in the order left, right, up, down is a Finish |
| AStarPlayer.FirstShortestKept | players/astarplayer.py:270-271 | a later result that is no shorter leaves the kept path in place |
| AStarPlayer.FirstShortestNew | players/astarplayer.py:270-271 | a found path strictly shorter than every earlier one becomes the kept path |
| AStarPlayer.Player.constructor | players/astarplayer.py:245-246 | the player starts at (0, 0) on a fresh one-cell map holding a Path |
| AStarPlayer.Player.Shortest | players/astarplayer.py:264-271 | one sound search per candidate, in order; complete exactly when every search ran and settled; a search that runs out of fuel or meets a predecessor loop ends the run with no path; when complete, the result is None exactly when no search found a path, else the first strictly shortest path found |
| AStarPlayer.Player.Choose | players/astarplayer.py:264-274 | the candidates are exactly the interesting cells, in AllInteresting's order; the searches ran as Shortest states; when complete with no path, no interesting cell is reachable; a chosen cell is a legal step and the first cell of the first strictly shortest path |
| AStarPlayer.Player.Concluded | players/astarplayer.py:264-271 | searches over exactly the interesting cells, in order, that all settled without a path leave no interesting cell reachable by any walk of legal moves |
| AStarPlayer.Player.LeadsAway | players/astarplayer.py:274-288 | the first shortest path found is non-empty and its first cell is a legal step from the position |
| AStarMap.Map.FirstStep | players/astarplayer.py:210-217 | a walk to a different position is non-empty and starts with a legal move |
| AStarPlayer.Player.Follow | players/astarplayer.py:277-288 | the position moves onto the chosen neighbour, the returned move leads there, and the map is unchanged |
| AStarPlayer.Player.Advance | players/astarplayer.py:264-288 | the searches over the interesting cells, in order, are as Choose states; Pass exactly when the run was given up or, complete, no search found a path, in which case no interesting cell is reachable; otherwise one legal cardinal step onto the first cell of the first strictly shortest path; the map's cells are unchanged |
| AStarPlayer.Player.Turn | players/astarplayer.py:248-289 | an adjacent Finish gives its move, first in the order left, right, up, down, with map and position unchanged; otherwise the map records the surroundings exactly as sensing does, the interesting cells are searched in order with sound answers, and the move is Pass exactly when a search was given up or, complete, none found a path, and then no interesting cell is reachable; otherwise it is one legal step onto the first cell of the first strictly shortest path |

## Left out

- `Map.dump`, the `DEBUG` switch, `pprint` output and the `input()` pause are output and input only.
- The `Player` base class and the `game.moves` / `game.mazefield_attributes` modules are not part of this model. Cell kinds and moves are small datatypes. The string `"pass"` returned at line 289 is unreachable: the first cell of a found path is always a cardinal neighbour, so one of the four tests before it succeeds (the `assert false` branch of `Player.Follow`). The model's `Pass` is the no-path case instead, described below for line 274.
- The heap layout of the priority queue is left out. The queue is a sequence, and a pop removes a least `(cost, (x, y))` entry, as `heappop` does on a heapified list. When a position is queued twice, `_cur_priority` may therefore find a different one of its entries than the heap's array order would.
- AStarMap.Map.FindPathTo: termination is not proved. The search pops at most `fuel` entries and then answers `OutOfFuel`. A predecessor loop met while rebuilding the path answers `Cycle`, where the Python search would not return. Neither outcome is claimed to be reachable or unreachable, and no value of `fuel` is shown to be enough.
- AStarMap.Map.FindPathTo: shortest-path optimality is not claimed. The next cost is built from the popped estimate, which already includes the heuristic.
- AStarPlayer.Player.Shortest, AStarPlayer.Player.Choose, AStarPlayer.Player.Advance, AStarPlayer.Player.Turn: a search that answers `OutOfFuel` or `Cycle` makes the turn give up and pass with `complete` false, where the Python code would go on searching. A too small `fuel` can therefore turn a move into a Pass; the contracts flag that case but do not exclude it.
- AStarPlayer.Player.Turn: when every search settles and none finds a path, the Python code fails indexing `None` at line 274. The model returns `Pass` there instead.
- AStarPlayer.Player.Turn: requires the sensed surroundings to be real kinds, never Unknown. The game always reports one.
- AStarPlayer.Player.Turn: the pop budget `fuel` is an added parameter.
- The columns are values in a field that the methods reassign; `append` on a column list is modelled by reassigning the grid. The Python code builds every new column fresh, so no two columns are shared.
- `is_interesting` is only specified for in-bounds coordinates, which is how `all_interesting` calls it. Out of bounds, Python's negative indexing wraps within one width or height below the bounds, and any other coordinate raises `IndexError`.

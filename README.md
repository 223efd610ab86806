# Sparse Game of Life engine, modelled in Dafny

This project models the engine of a Java implementation of Conway's Game of
Life (rule B3/S23) on the unbounded integer grid. The engine stores only
the cells that matter. `GameManager` keeps an `ArrayList<Entity>` with one
entry per tracked position. Each `Entity` holds a `Vector2D` position, an
`isAlive` flag and a `neighbourNum` counter. The propagate pass adds a dead
entry for every neighbour of a live entity that has none yet
(`PropagateCorrect`). After a step, the list holds exactly the positions that
had a live neighbour before it (`GenerationTracked`). So a newly born cell's
neighbours need not be tracked yet. Right after a load, only the live cells
are.

One generation is four passes over that list (`GameManager.run`, lines 67-70):

1. **Reset:** every counter becomes 0.
2. **Propagate:** every live entity bumps the counter of each of its eight
   neighbours. Where a neighbour has no entity yet, a dead one is appended.
3. **Rule:** the B3/S23 rule is applied to each entity, using its own counter.
4. **Clean up:** entities whose counter is 0 are removed.

The engine also writes the board as a text grid of `'0'` and `'#'` over the
bounding rectangle of the tracked entities, and reads it back.

Modules, one file each:

- `Vectors` (`vectors.dfy`): `Vector2D` as an immutable datatype with
  `IsEqual` and `Add`. It also defines the neighbourhood: `Adjacent`, and
  `Offsets`, the eight offsets in the order the nested loops of
  `Entity.updateNeighbours` visit them.
- `Conway` (`conway.dfy`): the reference definition. `Next(live)` is the
  Conway successor of a finite set of live positions. `Rule` is the B3/S23
  rule, written with the thresholds of `Entity.update`.
- `Passes` (`passes.dfy`): the entity list as a value, `seq<Cell>`. Each pass
  is a function on it. The lemmas prove that the four passes together turn
  the live set into its Conway successor.
- `StateFormat` (`stateformat.dfy`): the bounding rectangle, the saved grid
  and the line scan of the loader, as functions. It also proves the
  save-then-load round trip.
- `Entities` (`entity.dfy`): `class Entity`, whose methods assign its fields.
- `Engine` (`gamemanager.dfy`): `class GameManager`, whose `entities` field
  is a `seq<Entity>` that its methods reassign. Each method that changes
  state is proved to compute the matching function of `Passes` or
  `StateFormat` on `Cells()`, the list of entity states. `Step` then gets the
  Conway guarantee from `Passes.GenerationCorrect`.

In three places the model follows the code as written:

- `getEntityBounds` ranges over every entity, dead ones included. So a saved
  grid can carry margins of all-`'0'` rows and columns.
- `loadStateFromFile` clears the list before it reads the file. A failed
  read therefore leaves an empty board, and `LoadStateFromFile` models
  exactly that.
- A `'#'` at column j of line i becomes position (x = j, y = i), as the code
  builds it, whatever the comment on line 150 says.

## Model

| member | source | states |
|---|---|---|
| Vectors.Vector2D.IsEqual | Vector2D.java:24-31 | true exactly when the other vector is the same position, i.e. both coordinates agree |
| Vectors.Vector2D.Add | Vector2D.java:36-38 | the result lies exactly (dx, dy) away from the receiver; the receiver is a value and stays as it is |
| Vectors.IsEqualReflexive | Vector2D.java:24-31 | every position is equal to itself |
| Vectors.IsEqualSymmetric | Vector2D.java:24-31 | p equals q exactly when q equals p |
| Vectors.AddZero | Vector2D.java:36-38 | adding (0, 0) gives back an equal position |
| Vectors.AddInverse | Vector2D.java:36-38 | adding (dx, dy) and then (-dx, -dy) gives back an equal position |
| Vectors.AddNonZeroOffsetMoves | Entity.java:96-101 | every visited offset (j, k) != (0, 0) in {-1,0,1}² leads away from the position (the self-skip), and always to one of its eight neighbours |
| Vectors.OffsetsAreTheNeighbourhood | Entity.java:96-100 | the offsets the loops visit are exactly the translations to a neighbour, and no offset is visited twice |
| Vectors.OffsetIndex | Entity.java:96-101 | every neighbour of p is reached from p by one of the visited offsets |
| Conway.Rule | Entity.java:63-76 | at most 1 or at least 4 neighbours: dead; exactly 3: alive; exactly 2: the flag is kept |
| Conway.NextIsConwaySuccessor | Entity.java:63-76 | a position is in the successor exactly when the rule, applied to its flag and its number of live neighbours, says alive |
| Conway.LonelyCellDies | Entity.java:70-72 | a single live cell dies of isolation and nothing is born |
| Entities.Entity.constructor | Entity.java:28-37 | a new entity sits at the given position, is dead, and has count 0 |
| Entities.Entity.Update | Entity.java:63-76 | the flag becomes the rule's verdict on the old flag and the count; the count itself is unchanged |
| Entities.Entity.IncrementNeighbourNum | Entity.java:121-123 | the count grows by exactly 1; the flag is unchanged |
| Entities.Entity.ResetNeighbourNum | Entity.java:128-130 | the count becomes 0; the flag is unchanged |
| Entities.Entity.SetAlive | Entity.java:164-166 | the flag takes the given value; the count is unchanged |
| Entities.Entity.SetNeighbourNum | Entity.java:172-174 | the count takes the given value; the flag is unchanged |
| Passes.IndexOf | GameManager.java:291-300 | -1 exactly when no entry has the position; otherwise the first index whose entry has it |
| Passes.ResetCounts | GameManager.java:327-331 | same length, same positions and flags, and every count 0 |
| Passes.Touch | Entity.java:101-112 | one neighbour visit of q (a definition): the list never shrinks; what it does to positions, flags and counts is TouchBumpsOne |
| Passes.TouchTracked | Entity.java:101-112 | one visit adds at most one entry, and the tracked positions become exactly the old ones plus q |
| Passes.TouchBumpsOne | Entity.java:101-112 | one visit of q: positions stay unique; existing entries keep position and flag, and an added entry is dead; at most one entry is added and the tracked positions become exactly the old ones plus q; the entry at q gains exactly 1 (a missing one is appended dead with count 1), and no other count changes |
| Passes.TouchAll | Entity.java:96-115 | the visits to src + d for the first n offsets d, in loop order (a definition): the list never shrinks; what they yield is TouchAllCounts |
| Passes.TouchAllExtends | Entity.java:96-115 | the visits keep every existing entry's position and flag in place, and what they append is dead |
| Passes.TouchAllCounts | Entity.java:96-115 | after the first n visits from src: positions stay unique, every visited position is tracked, and each entry's count has grown by the number of visited offsets that land on it |
| Passes.TouchAllTracksOnlyNeighbours | Entity.java:96-115 | when every offset leads to a neighbour of src, the visits newly track only neighbours of src |
| Passes.HitsOfOffsets | Entity.java:96-100 | the eight offsets from src land on p once if p is a neighbour of src and never otherwise, so src's own count is untouched |
| Passes.PropagateEntity | Entity.java:84-116 | updateNeighbours of entry i: nothing for a dead entry, the eight visits around it for a live one (a definition): the list never shrinks; what it yields is PropagateEntityCounts |
| Passes.PropagateEntityTracksOnly | Entity.java:84-116 | updateNeighbours of entry i newly tracks only neighbours of entry i, and only when it is live |
| Passes.PropagateEntityExtends | Entity.java:84-116 | the visits of one entity keep every entry's position and flag in place, and append only dead entries |
| Passes.PropagateUpTo | GameManager.java:318-322 | updateNeighbours of the first n entries in list order, each acting on the list its predecessors left (a definition): the list never shrinks; what it yields is PropagateUpToCounts |
| Passes.Propagate | GameManager.java:318-322 | the propagate pass over every entry the list held when the pass began (a definition): the list never shrinks; what it yields is PropagateCorrect |
| Passes.PropagateUpToExtends | GameManager.java:318-322 | the propagate pass keeps every entry's position and flag, and appends only dead entries |
| Passes.PropagateUpToNext | GameManager.java:318-322 | the loop re-reads the list size: an index past the original entries holds an appended dead entry, whose visit does nothing |
| Passes.PropagateUpToTracks | GameManager.java:318-322 | after the pass over the first n sources, positions are unique and every neighbour of a live source is tracked |
| Passes.PropagateUpToTracksOnly | GameManager.java:318-322 | after the pass over the first n sources, every newly tracked position is a neighbour of a live one of them |
| Passes.PropagateUpToCounts | GameManager.java:318-322 | after the pass over the first n sources, each entry's count has grown by its number of live neighbours among those sources |
| Passes.LiveAdjacentIsNeighbourCount | GameManager.java:318-322 | on a list with one entry per position, counting live neighbours entry by entry equals the number of live neighbours in the live set |
| Passes.PropagateCorrect | GameManager.java:318-322 | reset then propagate, from a position-unique list: positions stay unique and the live set is unchanged; every count equals the number of live neighbours at pass start; the tracked positions become exactly the old ones plus the frontier positions with at least one live neighbour |
| Passes.PropagateTrackedExactly | GameManager.java:318-322 | the propagate pass adds to the tracked positions exactly the frontier positions with a live neighbour, and nothing else |
| Passes.ApplyRule | GameManager.java:336-340 | every entry's flag becomes the rule's verdict on its own flag and count; positions, counts and length are kept |
| Passes.RuleGivesSuccessor | GameManager.java:336-340 | when every count is exact and every position with a live neighbour is tracked, the live set after the rule pass is the Conway successor |
| Passes.Prune | GameManager.java:263-270 | clean-up as a filter in list order: no longer than its input, and every kept entry has a non-zero count |
| Passes.PruneMembers | GameManager.java:263-270 | clean-up keeps exactly the entries whose count is not 0, and is no longer than its input |
| Passes.PruneUnique | GameManager.java:263-270 | clean-up keeps positions unique |
| Passes.PruneKeepsCounted | GameManager.java:263-270 | when every live entry has a non-zero count, clean-up removes no live entry; every kept count is non-zero; the tracked positions are exactly those with a non-zero count |
| Passes.CleanUpFrom | GameManager.java:264-268 | the clean-up loop from index i: an entry with count 0 is removed and index i is examined again; the first i entries are kept as they are and the list never grows |
| Passes.CleanUpFromFilters | GameManager.java:264-268 | the remove-and-`i--` loop, started at i with the first i entries counted, keeps those entries and filters the rest, so no entry is skipped after a removal |
| Passes.CleanUpIsPrune | GameManager.java:263-270 | the remove-and-`i--` loop removes exactly the entries with count 0 and keeps the others in order |
| Passes.Generation | GameManager.java:67-70 | reset, propagate, rule, clean-up in that order; every entry left has a non-zero count |
| Passes.GenerationLive | GameManager.java:67-70 | one generation turns the live set into its Conway successor, and clean-up prunes no live entity |
| Passes.GenerationCounts | GameManager.java:67-70 | after one generation positions are unique, and every remaining entry counts at least one live neighbour, its exact number at step start |
| Passes.GenerationTracked | GameManager.java:67-70 | after one generation the tracked positions are exactly the positions with at least one live neighbour |
| Passes.GenerationCorrect | GameManager.java:67-70 | all of the above, for one generation of a position-unique list |
| StateFormat.MinUpTo | GameManager.java:229-243 | the first bounds loop over n coordinates: starts from the first coordinate and takes any smaller one (a definition; what it yields is MinUpToIsLeast) |
| StateFormat.SpanUpTo | GameManager.java:245-255 | the second bounds loop over n coordinates: starts from extent 0 and takes any larger distance from the corner, so the extent is never negative |
| StateFormat.Bounds | GameManager.java:211-258 | getEntityBounds as a value: (0, 0, 0, 0) for an empty list, otherwise the two passes; width and height are never negative |
| StateFormat.MinUpToIsLeast | GameManager.java:229-243 | the first bounds loop yields a coordinate no larger than any entry's, attained by some entry |
| StateFormat.SpanUpToIsGreatest | GameManager.java:245-255 | the second bounds loop yields the largest distance from the corner, attained by some entry |
| StateFormat.BoundsIsSmallestCover | GameManager.java:211-258 | (0, 0, 0, 0) for an empty list; otherwise width and height are non-negative, every position lies inside the rectangle, and each of its four sides touches an entry |
| StateFormat.OnBoard | GameManager.java:181-182 | the absolute position that grid cell q stands for; shifting it by (-x, -y) gives q back |
| StateFormat.SavedGrid | GameManager.java:168-189 | the rows saveStateToFile builds: height+1 rows of width+1 characters over the bounds, `'#'` exactly at the live positions |
| StateFormat.BlankGrid | GameManager.java:168-174 | height+1 rows of width+1 `'0'` characters show an empty live set |
| StateFormat.MarkGrid | GameManager.java:179-187 | writing `'#'` at row y-by, column x-bx of a valid grid shows one more live position |
| StateFormat.LiveInsideGrid | GameManager.java:178-187 | every live position falls inside the saved grid, so no row or column index goes out of range |
| StateFormat.SavedChar | GameManager.java:168-189 | in a saved grid (row r, column c) holds `'#'` exactly when a live entity sits at (x+c, y+r) |
| StateFormat.SavedHashes | GameManager.java:168-189 | the `'#'` characters of a saved grid are exactly the live positions shifted by (-x, -y) |
| StateFormat.Normalised | GameManager.java:181-182 | the live set shifted by the corner of the rectangle |
| StateFormat.ScanLine | GameManager.java:146-151 | the inner loop over the first j characters of line i, one live entry per `'#'` in column order: at most j entries (which entries is ScanLineMembers) |
| StateFormat.ScanLines | GameManager.java:144-153 | the outer loop over the first n lines, in reading order (a definition; what it yields is ScanLinesMembers) |
| StateFormat.LoadCells | GameManager.java:126-153 | the entries loadStateFromFile leaves: the scan of every line, or none when the read fails, as the list is cleared first |
| StateFormat.ScanLinesMembers | GameManager.java:144-153 | scanning the first n lines yields exactly one live entry with count 0 at (j, i) for each `'#'` at column j of line i < n, and no duplicates |
| StateFormat.LoadedCells | GameManager.java:131-153 | a successful load yields only live entries with count 0 at distinct positions, and its live set is exactly the positions of the `'#'` characters |
| StateFormat.SaveThenLoad | GameManager.java:131-189 | loading the saved lines gives back the original live set shifted by (-x, -y) of the bounds |
| Engine.ColumnFrom | Entity.java:97-114 | the inner loop over dy = k..1 for one column dx = j, skipping (0, 0); the list never shrinks |
| Engine.ColumnsFrom | Entity.java:96-115 | the outer loop over dx = j..1, each column running the inner loop from dy = -1; the list never shrinks |
| Engine.ColumnsVisitOffsets | Entity.java:96-115 | the two nested loops, dx outer and dy inner with (0, 0) skipped, make the visits of Offsets in order |
| Engine.GameManager.constructor | GameManager.java:43-45 | a new engine has an empty entity list |
| Engine.GameManager.AddEntity | GameManager.java:275-278 | exactly one fresh entity is appended, with the given position and flag and count 0; the earlier entries are unchanged |
| Engine.GameManager.DeleteEntity | GameManager.java:283-285 | the entry at the index leaves the list; the others keep their order and state |
| Engine.GameManager.IsEntityAtPosition | GameManager.java:291-300 | -1 exactly when no entity's position is equal to the given one; otherwise the first index whose position is equal to it |
| Engine.GameManager.TouchNeighbour | Entity.java:101-112 | one neighbour visit changes the entity list exactly as `Passes.Touch` describes |
| Engine.GameManager.UpdateNeighboursColumn | Entity.java:97-114 | the inner loop over dy for one column dx changes the list exactly as that column's visits describe |
| Engine.GameManager.UpdateNeighboursOf | Entity.java:84-116 | updateNeighbours of entity i changes the list exactly as `Passes.PropagateEntity` describes: nothing for a dead entity, the eight visits for a live one |
| Engine.GameManager.UpdateNeighbours | GameManager.java:318-322 | the propagate pass, re-reading the size, changes the list exactly as `Passes.Propagate` describes |
| Engine.GameManager.ResetEntityNeighbours | GameManager.java:327-331 | every count becomes 0; positions, flags and the list are unchanged |
| Engine.GameManager.UpdateEntities | GameManager.java:336-340 | every entity's flag becomes the rule's verdict on its own old flag and count |
| Engine.GameManager.CleanUpEntities | GameManager.java:263-270 | exactly the entries with count 0 leave the list, and the others keep their order |
| Engine.GameManager.Step | GameManager.java:67-70 | one generation; on a position-unique list the live set becomes its Conway successor, positions stay unique, and every remaining entity counts at least one neighbour |
| Engine.GameManager.GetEntityBounds | GameManager.java:211-258 | the rectangle `StateFormat.Bounds` computes, i.e. the smallest one covering every entity |
| Engine.GameManager.SaveStateToFile | GameManager.java:161-189 | the rows are the grid over the bounds with `'#'` exactly at the live positions and `'0'` elsewhere |
| Engine.GameManager.LoadStateFromFile | GameManager.java:126-153 | the list is cleared, then holds exactly the scanned live entities; after a failed read it is empty |

## Left out

- File I/O. `Files.readAllLines` (GameManager.java:135) becomes the
  `ReadResult` parameter of `LoadStateFromFile`. Writing with `PrintWriter`
  (GameManager.java:191-205) is left out: `SaveStateToFile` returns the rows
  instead. The confirmation and stack-trace printouts are left out too.
- The game thread, the `run` loop, `enforceFps`, `Thread.sleep` and
  `System.nanoTime` (GameManager.java:43-121). These are concurrency and
  timing. Only the four passes of one iteration are modelled, as `Step`.
- Rendering: `draw`, `drawAllEntities`, `paint`, `startPosition` and
  `GRID_SIZE`. The back-reference `Entity.gm` is also left out; the
  propagation that uses it is expressed as `UpdateNeighboursOf`, a method on
  the engine.
- `GameHud.java`, `Frame.java` and `Life.java` (Swing controls and window
  setup) are not part of this model.
- `Entity.setPosition`, `setStartPosition`, `Vector2D.setX`/`setY` and
  `GameManager.setEntities`: none of them is called by the modelled code, so
  positions are immutable (`const position`).
- The inner `k` loop of `Entity.updateNeighbours` is its own method,
  `UpdateNeighboursColumn`, called once per value of `j` by
  `UpdateNeighboursOf`. The order of the visits is the same.
- `Repr`, the set of entity objects a pass may change, is ghost state with
  no counterpart in the code. It is there so that frames can be stated.
- Engine.GameManager.LoadStateFromFile: a line is a sequence of Unicode
  characters, while Java's `length()` and `charAt` count UTF-16 code units.
  A character outside the Basic Multilingual Plane therefore takes two
  columns in the code and one in the model, and every `'#'` after it lands
  one column further left in the model. Grids written by save hold only
  `'0'` and `'#'`, so the round trip is not affected.
- Vectors.Vector2D.Add: does not model 32-bit wrap-around; coordinates are
  unbounded integers.
- Entities.Entity.IncrementNeighbourNum: does not model 32-bit wrap-around
  of the counter. It never exceeds 8 within one generation.
- Engine.GameManager.GetEntityBounds: does not model 32-bit overflow of the
  differences `currentPos.x - bounds.x`.

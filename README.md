# N-tile puzzle search engines, modelled in Dafny

This project models the search core of an N-tile sliding-puzzle solver. A puzzle is an
n by n board with tiles and one blank (0). A state is the blank's row and column plus
the board. The solver has two search engines. Both work the same way:

- They keep a dictionary ("tree") from a board's key to a record. The record holds the
  board's depth, its parent board and, for IDA*, its f-score.
- They keep an explicit stack of states.
- They never push a child whose board is already on the current root-to-node path.

The engines differ in when they stop and what they admit:

- **IDDFS** (`IDDFS.py`) runs one depth-first search. It stops when the goal comes off
  the stack, or once the deepest recorded depth (`lowest_depth`) exceeds `max_level`.
- **IDA\*** (`IDAstar.py`) runs threshold passes. A child is admitted only when its
  f-score (depth plus Manhattan distance) is within the threshold. Every larger f-score
  is kept, and the least kept one becomes the next pass's threshold.

Files:

- `common.dfy` (module `Common`): boards, keys, `find_tile_position`, `generate_state`,
  `check_state`, `move_blank`, `move` and `get_path`.
- `search_tree.dfy` (module `SearchTree`): the shared invariant of the record tree. It
  proves that writing a child's record keeps every recorded board's parent chain a
  legal, repetition-free path back to the start board. That is why `get_path`
  terminates.
- `idastar.dfy` (module `IDAstar`): `manhattan_distance` and IDA*'s `solve_puzzle`.
- `iddfs.dfy` (module `IDDFS`): IDDFS's `solve_puzzle`.

How the model represents the source:

- Loops in the source are methods with loops or loop-body methods, proved against
  functions. Examples: `ManhattanDistance` against `Manhattan`, `Move` against
  `Children`, `GenerateState` against `KeyOf`.
- The root path of every recorded board is ghost state. The invariant over it is what
  the engines' contracts rely on.
- Board keys are the row-major list of tiles (`KeyOf`). The source builds its key by
  joining decimal tile strings without separators. That key is modelled as well
  (`StringKey`); see "## Findings".
- The source describes IDDFS as iterative deepening with a depth bound that grows
  round by round. The code in `IDDFS.py` does not do that: it runs a single
  depth-first search, cut off when `lowest_depth` exceeds `max_level`. The model
  follows the code.

## Model

| member | source | states |
|---|---|---|
| Common.KeyInjective | Common.py:65-71 | Two boards of the same shape with the same row-major key are the same board: the key the tree is meant to use identifies a board. |
| Common.KeyAt | Common.py:65-71 | The key has n entries per row, and cell (r, c) of the board sits at position r*n + c of the key. |
| Common.KeyHolds | Common.py:65-71 | A value occurs in the row-major key exactly when some row of the board holds it. |
| Common.StringKeyCollision | Common.py:65-71 | With the separator-less decimal key, two different 4 by 4 boards get the same key: top rows [1,10,11,0] and [11,0,1,10] over the same other rows. |
| Common.RotatedRowsKey | Common.py:65-71 | For any remaining rows, a top row [1,10,11,0] and a top row [11,0,1,10] give the same decimal key, because both render as "110110". |
| Common.StringKeyDigits | Common.py:65-71 | On a board whose tiles are all single digits, the decimal key is the row-major key written one digit character per tile. |
| Common.StringKeyInjectiveOnDigits | Common.py:65-71 | On boards of one shape whose tiles are all single digits (every board of side 3 or less), equal decimal keys mean equal boards, so the source's key is sound there. |
| Common.IndexOf | Common.py:88 | list.index: the first position holding x, and the length exactly when x is absent. |
| Common.FirstRowWith | Common.py:82 | The first row containing x, or the number of rows when no row does. |
| Common.FindTilePosition | Common.py:74-88 | None exactly when no row contains the tile (the source's IndexError). Otherwise the first row holding it and the first column of that row holding it. |
| Common.FindTileOnDistinct | Common.py:74-88 | On a board whose cells are all different, looking up the tile at (r, c) gives back (r, c). |
| Common.GenerateState | Common.py:91-117 | Side 0 and a board without a blank are errors. Otherwise the board's rows, read in order, are the input tiles, the state is valid, and the blank is at the first 0 in reading order. |
| Common.CheckState | Common.py:127 | The goal test holds only for a board with as many rows as the goal board and the same row-major key. |
| Common.CheckStateByKey | Common.py:120-130 | check_state holds exactly when the two boards have the same key. |
| Common.MoveBlank | Common.py:148-163 | At most four destinations, each adjacent to the blank and on the board when the blank is, listed in the order down, up, right, left. |
| Common.MoveBlankExactly | Common.py:148-163 | A cell is a destination exactly when it is on the board and adjacent to the blank. |
| Common.MoveBlankCount | Common.py:148-163 | There are four destinations, less one for each board edge the blank touches. |
| Common.SwapTwice | Common.py:176-178 | Swapping the same two cells twice restores the board, which is why move can reuse one grid. |
| Common.SwapPermutes | Common.py:176 | Swapping two cells keeps the multiset of tiles. |
| Common.ChildIsMove | Common.py:166-178 | Each child of a valid state is valid, is one legal move away, and holds the same tiles. |
| Common.Children | Common.py:166-178 | One child per destination of move_blank, in move_blank's order: the blank moved to that destination. |
| Common.Move | Common.py:166-178 | The yielded children are exactly Children(s). |
| Common.RootIffSingle | Common.py:140-145 | On a recorded root path, the last board has no parent exactly when the path has a single board. |
| Common.PathUnique | Common.py:133-145 | Two recorded root paths that end at the same board are equal. |
| Common.GetPath | Common.py:133-145 | Returns the recorded root path ending at the given board, and it is the only such path. |
| SearchTree.PathEndsAt | IDAstar.py:86 | Every recorded board has a good root path from the start board that ends at that board. |
| SearchTree.RecordChild | IDAstar.py:91-109 | Recording a child that is off the current path keeps every root path good. The child's path is the current path plus the child, and paths not through the child are unchanged. (IDDFS.py:60-70 does the same.) |
| SearchTree.StackStep | IDDFS.py:64 | Pushing a valid, recorded child keeps every stacked state valid and recorded. |
| SearchTree.StackPop | IDDFS.py:50 | The popped state is valid and recorded, and the rest of the stack stays so. |
| IDAstar.ManhattanDistance | IDAstar.py:18-32 | The nested loop returns the Manhattan distance of the board from the goal. |
| IDAstar.Manhattan | IDAstar.py:18-32 | The distance of a board from the goal board is 0 exactly when every nonzero tile stands where the goal board has it. |
| IDAstar.ManhattanAtGoal | IDAstar.py:18-32 | The goal board's distance from itself is 0. |
| IDAstar.CoversTiles | IDAstar.py:30 | A board with the same tiles as one whose tiles all occur in the goal has its tiles in the goal too, so the lookup in manhattan_distance succeeds for every child. |
| IDAstar.InitialInv | IDAstar.py:56-65 | The initial tree (the start board at depth 0 with f-score h0) satisfies the IDA* tree invariant. |
| IDAstar.MinExists | IDAstar.py:73 | A nonempty set of f-scores has a least element. |
| IDAstar.RemoveLeast | IDAstar.py:73-75 | After removing the least f-score, every remaining one lies above it. |
| IDAstar.StillAbove | IDAstar.py:103-107 | A pass only adds f-scores above its threshold, so every kept f-score stays above it. |
| IDAstar.NextThreshold | IDAstar.py:69-75 | The thresholds strictly increase and start at the start board's heuristic. |
| IDAstar.IncreasingAppend | IDAstar.py:73-75 | Appending a threshold larger than the last keeps the thresholds strictly increasing. |
| IDAstar.RecordScoredChild | IDAstar.py:109 | Recording the child with depth g and f-score g + h keeps the IDA* tree invariant, and the current path stays its root path. |
| IDAstar.ChildRecord | IDAstar.py:94-109 | The child's record points back to the current board, whose record is one level shallower. Its f-score is at least its depth, and equal to it exactly when every nonzero tile of the child is in its goal place. |
| IDAstar.Score | IDAstar.py:96-107 | The child's record has depth one more than its parent's and f = depth + Manhattan distance. It is pushed when f is within the threshold; otherwise f is kept. |
| IDAstar.ConsiderChild | IDAstar.py:91-109 | A child on the current path changes nothing. Otherwise its record is written, lowest_depth rises to its depth if lower, and it is pushed or its f-score kept, with the invariant preserved. |
| IDAstar.ChildrenCovered | IDAstar.py:30 | Every child of a recorded state has only tiles that occur on the goal board, so every child can be scored. |
| IDAstar.AdmittedAt | IDAstar.py:91-105 | A state is among the children a pop pushes exactly when it is one of the children, its board is off the current path and its f-score is within the threshold. |
| IDAstar.OverAt | IDAstar.py:96-107 | An f-score is kept by a pop exactly when it is above the threshold and is the f-score of a child off the current path. |
| IDAstar.RecordsAt | IDAstar.py:91-109 | After a pop's writes, a key is in the tree exactly when it was before or a child off the path has that board. A key no such child has keeps its old record; any other holds the record written for such a child. |
| IDAstar.ScannedStep | IDAstar.py:88-109 | After each child, the stack, the tree, the kept f-scores and lowest_depth are exactly what considering the children so far gives: a child on the path changes nothing, any other is recorded and then pushed or has its f-score kept. |
| IDAstar.Visit | IDAstar.py:88-109 | One turn of the loop over the children counts one node, keeps the tree invariant, and advances the state to what the children so far give. |
| IDAstar.Expand | IDAstar.py:86-109 | Expanding a state pushes exactly the children off its root path whose f-score is within the threshold, in move's order, after the old stack. It writes their records under it, keeps exactly their f-scores above the threshold, raises lowest_depth to their level when any child is off the path, and counts every child. The tree invariant is kept. |
| IDAstar.CountedStep | IDAstar.py:88-89 | nodes grows by the number of children of each expanded state. |
| IDAstar.RunExtend | IDAstar.py:69-109 | A run followed by one more expansion or new-round step that keeps the tree invariant is again a run. |
| IDAstar.TracedStep | IDAstar.py:76-109 | A turn of a pass that expands a state extends the run by that step; a turn that ends the pass leaves the run as it was and records why it ended. |
| IDAstar.OpenRound | IDAstar.py:69-75 | Opening a round after an emptied stack, with lowest_depth within max_level, extends the run by the configuration holding the least kept f-score as threshold and the start state alone. |
| IDAstar.FoundGoal | IDAstar.py:80-84 | When the goal is recorded, its record gives the depth reported as moves. Its root path is a good path from the start to the goal, and the depth is 0 exactly when start is the goal. |
| IDAstar.Pop | IDAstar.py:78-109 | The pass ends with the goal exactly when the board on top is the goal board. It then reports that board's recorded depth, and nothing but the stack changes. Otherwise the pop is an expansion step: the rest of the stack grows by exactly the admitted children, the tree, the kept f-scores, lowest_depth and nodes change as Expand states, and the top joins the expanded states. |
| IDAstar.PassStep | IDAstar.py:76-109 | With no pop left, the step reports it and changes nothing. Otherwise it spends one pop and behaves as Pop: the goal comes off exactly when it is on top, and any other top state is expanded exactly as Expand states. The run's trace grows by the new configuration after an expansion and by nothing otherwise. |
| IDAstar.Drain | IDAstar.py:76-109 | Popping until the stack is empty, the goal comes off or no pop is left continues the run's trace by one expansion step per non-goal pop. It ends with a reason: an empty stack, a goal popped off the top, or no pops left with a nonempty stack. Every pop spent is either an expansion or the goal. |
| IDAstar.Pass | IDAstar.py:70-109 | A pass from the start state alone continues the run's trace by its expansion steps and ends with a reason: the stack emptied, the goal came off the top, or no pops are left. Each pop spent expands a state or takes off the goal. If the start is the goal, the pass ends at once with nothing counted. |
| IDAstar.Round | IDAstar.py:69-109 | The new threshold is the least kept f-score. It is removed from the set and appended to the thresholds, and the run's trace gets the configuration holding it and the start state alone. The pass then only adds f-scores above it, and every invariant and the fuel account are kept. |
| IDAstar.Search | IDAstar.py:69-112 | The outer loop ends with the goal popped, with no pops left, with no kept f-score left, or with lowest_depth above max_level. The run's trace goes from the initial configuration through every new round and expansion, and the thresholds taken so far end with the current one. |
| IDAstar.SolvePuzzle | IDAstar.py:35-117 | The run's trace starts from the start board alone with f-score h(start) and goes step by step (a pop expands the top, or a round takes the least kept f-score). It ends at the returned tree, nodes, lowest_depth and kept f-scores, and says how it stopped: goal on top, lowest_depth past max_level with an empty stack, no f-score left, or every pop spent. solution is 1 exactly when solved, moves is the goal's recorded depth along a good root path, and max_level < 0 ends at once with nothing counted. |
| IDDFS.InitialInv | IDDFS.py:36-45 | The initial tree (the start board at depth 0, no parent) satisfies the IDDFS tree invariant. |
| IDDFS.RecordPlainChild | IDDFS.py:67-70 | Recording the child one level below its parent keeps the IDDFS tree invariant, and the current path stays its root path. |
| IDDFS.ChildRecord | IDDFS.py:63-70 | The child's record points back to the current board, whose record is one level shallower, and carries no f-score. |
| SearchTree.KeepExactly | IDDFS.py:58-64 | The children a pop keeps are exactly those among the first k whose board is not on the current path, and there are at most k of them. |
| IDDFS.ConsiderChild | IDDFS.py:60-70 | A child on the current path changes nothing. Otherwise it is pushed and counted, its record is written, and lowest_depth rises to its depth if lower. |
| IDDFS.Visit | IDDFS.py:58-70 | After considering child t, the stack holds the off-path children among the first t + 1, and nodes counts them. |
| IDDFS.RecordedAt | IDDFS.py:66-70 | After writing one record for each of a list of children, a key is recorded exactly when it was before or is one of the children's keys, and it holds the new record exactly in the second case. |
| IDDFS.WrittenStep | IDDFS.py:58-70 | If the tree and lowest_depth so far are what writing the off-path children among the first t gives, then after child t (written when off the path, skipped when on it) they are what writing the off-path children among the first t + 1 gives. |
| IDDFS.Expand | IDDFS.py:55-70 | The stack grows by the off-path children in move's order, and nodes by their number. Each of them is recorded one level below the current board, every other key keeps its record, and lowest_depth rises to that depth if there is such a child. The invariant is kept. |
| IDDFS.TallyStep | IDDFS.py:54 | moves counts the non-goal states popped. |
| IDDFS.FoundGoal | IDDFS.py:51-53 | When the goal is recorded, its record's root path is a good path from the start to the goal. |
| IDDFS.Pop | IDDFS.py:50-70 | Found exactly when the top is the goal, and then nothing but the stack changes. Otherwise moves grows by one, the top state is appended to the expanded states, and the stack loses its top and gains the off-path children, with their records and lowest_depth as Expand states. |
| IDDFS.Turn | IDDFS.py:46-70 | The cutoff fires exactly when lowest_depth > max_level, and then nothing changes. Within budget and with fuel, one pop is spent and the turn is solved exactly when the goal is on top. Otherwise the top is expanded as one step of the run (Advance) and the loop continues. Running out is reported only with no fuel left. Stack size plus pops is balanced by the children pushed. |
| IDDFS.RunExtend | IDDFS.py:46-70 | A run followed by one more expansion step within max_level that keeps the tree invariant is again a run. |
| IDDFS.TracedStep | IDDFS.py:46-70 | A turn that expands a state extends the run by that step; a turn that stops leaves the run as it was and records how it stopped. |
| IDDFS.Search | IDDFS.py:46-70 | The loop ends with an empty stack or a stopping turn, keeping the node and pop counts and the run's trace. |
| IDDFS.SolvePuzzle | IDDFS.py:19-76 | The run's trace starts from the start state alone and goes step by step, each a pop that expands the top within max_level. It ends at the returned tree, moves, nodes and lowest_depth, and says how it stopped: goal on top, lowest_depth past max_level, empty stack, or every pop spent. solution is 1 exactly when solved, with a good recorded root path to the goal. max_level < 0 ends at once with nothing counted, nodes ≤ 4·moves, and an emptied stack means moves = nodes + 1. |

## Left out

- Parameter file reading, CSV output, printing of states, timing (`timeit`), `main` and the repetition over runs are I/O and are not modelled. The returned `time` is not modelled.
- Shuffling in `generate_state` (`random.sample`) is randomness and is not modelled; `GenerateState` takes the tiles in the given order.
- Common.GenerateState: the side length is a parameter with `|tiles| == n*n` required, instead of the floating-point `int(math.sqrt(len(tiles)))`.
- The search loops of both `solve_puzzle`s have no bound in the source. The model adds a `fuel` count of pops, and running out is reported as the extra status `OutOfFuel`. The extra value `Continue` (of `IDDFS.Status` and of `IDAstar.PassEnd`) marks a turn after which the loop goes on; it is never a final result.
- IDAstar.SolvePuzzle: `min` of an empty set raises ValueError in the source; the model reports it as the status `NoThreshold`.
- IDAstar.SolvePuzzle: a start tile missing from the goal board makes `find_tile_position` raise IndexError; the model requires every start tile to occur in the goal (`Covers`) instead of modelling that exception.
- IDAstar.ManhattanDistance: requires `Covers` rather than modelling the IndexError path of `find_tile_position`.
- Tree keys: both engines key their trees with the row-major list of tiles (`KeyOf`), the key the source evidently intends. On boards of side 4 or more the source's decimal key can merge two boards (see "## Findings"), and that overwrite is not modelled. On boards of side 3 or less the two keys identify the same boards (`Common.StringKeyInjectiveOnDigits`).
- Aliasing: `move` yields one grid object that it swaps back after each yield, and the engines `deepcopy` the children they keep. The model works on values, so every child is a separate board.
- Admissibility of the heuristic, optimality of the reported number of moves and termination of the search are not proved.
- A recorded depth can be stale: when a board is recorded again through a different parent, the records below it keep their old depths. So `moves` is proved to be the goal's recorded depth with a good root path, not that path's length.
- IDDFS.SolvePuzzle: proves `nodes <= 4 * moves` rather than an exact count per expansion; `IDDFS.Pop` gives the exact count.
- The returned `start_state` is the input unchanged and is not returned again; the tree and `lowest_depth` are returned as extra outputs, and root paths, thresholds and expanded states as ghost outputs.

## Findings

| source | as written | input that shows it | evidently intended | confidence | as-written member | corrected member |
|---|---|---|---|---|---|---|
| Common.py:65-71 | The tree key joins the decimal strings of the tiles with no separator, so boards with two-digit tiles can share a key, and one board's record then overwrites another's. | [[1,10,11,0],[2,3,4,5],[6,7,8,9],[12,13,14,15]] and [[11,0,1,10],[2,3,4,5],[6,7,8,9],[12,13,14,15]] both give "1101102345678912131415"; the second is the first with its top row rotated by two cells, so both boards are reachable in one search | A key that identifies the board, such as the row-major list of tiles | not executed; certain for boards of side 4 or more, no effect on 3 by 3 boards | Common.StringKeyCollision | Common.KeyInjective |

# 2048-tui board engine in Dafny

This project models the board engine of 2048-tui, a terminal version of the
2048 sliding-tile game written in C, and proves properties of it. The model
covers:

- the bounds-checked `uint32_t` array that stores the tiles;
- the `uint16_t` array;
- the `GameState` board: cell access, tile spawning, creation, copying, the
  rightward move (slide, merge, slide) with its score, and the undo history
  kept through `prev` links, which a move prunes to the undo budget
  `prev_left` and `GameState_destroy` releases;
- the tile-to-colour-pair mapping of the renderer.

The C code changes state step by step, and the model does the same:

- `UInt32Array`, `UInt16Array` and `GameState` are classes whose methods
  update their fields and arrays in place.
- The loops of `slide_right`, `merge_right`, `add_random`, `copy`, `destroy`
  and the history walk are `while`/`for` loops with invariants.
- Each method is proved against pure specification functions. `SlideRow`,
  `MergeRow` and `MergeScore` describe one row; `SlideRows`, `MergeRows`,
  `MoveBoard` and `MoveScore` describe a row-major board; `EmptyCells` and
  `Spawn` describe a spawn; `Retained` describes pruning.
- The lemmas about those functions state what a move promises. Sliding
  packs a row, keeps its tiles in order, only rearranges them, and a second
  slide changes nothing. Each cell takes part in at most one merge. Every
  cell stays empty or a power of two. When no tile reaches 2^31, a move
  conserves the board's total.

The modules are:

| file | module | models |
|---|---|---|
| `ints.dfy` | `Ints` | `uint32_t`/`uint16_t`, wrapped addition, powers of two, `calloc`'s zeros |
| `uint32_array.dfy` | `UInt32Arrays` | `src/uint32_array.c` |
| `uint16_array.dfy` | `UInt16Arrays` | `src/uint16array.c` |
| `row_moves.dfy` | `RowMoves` | what `slide_right` and `merge_right` do to a row and a board |
| `spawn.dfy` | `Spawning` | which cell `add_random` fills, and with what |
| `game_state.dfy` | `GameStates` | `src/game_state.c` |
| `render.dfy` | `Render` | `pair_for_value` of `src/render.c` |

Modelling choices:

- **Integers.** `uint32_t` and `uint16_t` are subset types of `int`.
  - The doubling `right_tile * 2` is written `Double` and wraps at 2^32.
  - `score_add += merged_value` and `new_gs->score += ...` are written as
    `% TWO_32` and `AddWrapped`.
  - A tile 2^31 doubles to 0; the conservation lemmas therefore require
    every tile to be below 2^31 (`NoWrap`).
- **Cell offsets.** `i * dim` is `Mul(i, dim)` (repeated addition, tied to
  `*` by `MulIsProduct`).
- **`rand()`.** Its two results are the parameters `pick` and `roll`. The
  model keeps `% zero_count` and `(roll % 10) < 9`.
- **Allocation failures.** Each `malloc`/`calloc` failure is a `bool`
  parameter (`allocFails`, `structFails`, `arrayFails`, `itemsFails`).
- **The history.** It is a ghost `seq<GameState>` that lists the boards
  reached through `prev`, newest first. `IsChainFrom` ties the sequence to
  the links. `Separate` says every board owns its own struct and tile
  storage.

Three behaviours of the source differ from what the game's rules might
suggest, and the model follows the source:

- **Boards kept after a move.** With undo budget `prev_left > 0`,
  `slide_and_merge_right` keeps `prev_left` boards in all, the new one
  included, and not `prev_left + 1`.
- **The total after a merge.** `merge_right` returns the sum of the doubled
  values. The board's total is unchanged by the merge; it does not grow by
  that delta.
- **Small boards.** `GameState_create` does not reject any `dim`.

## Model

| member | source | states |
|---|---|---|
| Ints.AddWrapped | src/game_state.c:199 | `uint32_t` addition: equal to the sum below 2^32, smaller than it once it wraps |
| Ints.AddWrappedAbsorbs | src/game_state.c:182-199 | adding a score delta that was already wrapped gives the same score as adding the unwrapped delta |
| Ints.MulIsProduct | src/game_state.c:23 | the offset function used for `i * dim` is multiplication |
| Ints.ZerosAreZero | src/uint32_array.c:15 | every item of a `calloc`ed buffer is 0 |
| UInt32Arrays.UInt32Array.Create | src/uint32_array.c:14-25 | on success: a fresh buffer of `capacity` zeros, with the given length and capacity; on failure: no items, length 0, capacity 0 |
| UInt32Arrays.UInt32Array.Destroy | src/uint32_array.c:27-34 | the items are gone afterwards; a live array ends with length and capacity 0; a second call changes nothing |
| UInt32Arrays.UInt32Array.Get | src/uint32_array.c:36-41 | the item at `index` when `index < length`, and 0 otherwise |
| UInt32Arrays.UInt32Array.Set | src/uint32_array.c:43-49 | succeeds exactly when the items exist and `index < length`; then only that slot changes and a following Get returns the value; otherwise nothing changes |
| UInt32Arrays.UInt32Array.Copy | src/uint32_array.c:51-66 | a fresh buffer of the same length and capacity, holding the source's items in use followed by zeros, so later writes to either array do not reach the other; the empty array on failure |
| UInt16Arrays.UInt16Array.Init | src/uint16array.c:12-27 | NULL exactly when either allocation fails; otherwise a fresh array with the given length and capacity whose items are all 0 |
| UInt16Arrays.UInt16Array.Get | src/uint16array.c:36-41 | the item at `index` when `index < length`, and 0 otherwise |
| UInt16Arrays.UInt16Array.Set | src/uint16array.c:43-49 | succeeds exactly when `index < length`; then only that slot changes and Get at it returns the value; Get at every other index is unchanged |
| RowMoves.SlideRowPacked | src/game_state.c:147-164 | after a slide, no empty cell lies right of a tile |
| RowMoves.SlideRowKeepsOrder | src/game_state.c:147-164 | a slide keeps the row's length and its nonzero tiles in their left-to-right order |
| RowMoves.SlideRowPermutes | src/game_state.c:147-164 | a slide only rearranges the row: the multiset of the cells is unchanged |
| RowMoves.SlideRowUnique | src/game_state.c:147-164 | SlideRow is the only packed row of the same length with the same tiles in the same order |
| RowMoves.SlideRowIdempotent | src/game_state.c:146-166 | sliding a slid row changes nothing |
| RowMoves.PackedShape | src/game_state.c:147-164 | a packed row is already slid |
| RowMoves.NonZerosPermutes | src/game_state.c:147-164 | a row's tiles together with its empty cells are exactly the row's cells |
| RowMoves.SlideRow | src/game_state.c:147-164 | a row slid right: its empty cells first, then its tiles in their left-to-right order (SlideRowKeepsOrder proves the length is kept) |
| RowMoves.SlideScanTile | src/game_state.c:150-164 | a tile met by the scan, with the row right of it already slid, has exactly the empty cells it crosses next to it; moving it onto the last of them slides the row from its column on |
| RowMoves.SlideScanEmpty | src/game_state.c:150-153 | an empty cell met by the scan leaves the row from its column on slid |
| RowMoves.Double | src/game_state.c:179 | `right_tile * 2` is 2v for v below 2^31 |
| RowMoves.DoubleIsTile | src/game_state.c:179 | the wrapped double of an empty cell or a power of two is again one |
| RowMoves.MergeRowAt | src/game_state.c:175-184 | a merged cell holds the double of an equal pair of tiles whose left partner is emptied; no cell is in two pairs; cell 0 is never the right cell of a pair; other cells keep their tile |
| RowMoves.MergeRowTrailingZero | src/game_state.c:175-184 | an empty rightmost cell takes part in no merge and adds no score |
| RowMoves.MergeScoreIsWritten | src/game_state.c:179-186 | the score of a pass is the sum of the values written into the merged cells |
| RowMoves.MergeRowConserves | src/game_state.c:174-184 | with every tile below 2^31, one merging pass keeps the row's total |
| RowMoves.MergeRowKeepsTiles | src/game_state.c:174-184 | a merging pass keeps every cell empty or a power of two |
| RowMoves.SlideRowKeepsTiles | src/game_state.c:147-164 | a slide keeps every cell empty or a power of two |
| RowMoves.SlideRowSum | src/game_state.c:147-164 | a slide keeps the row's total |
| RowMoves.MergeRow | src/game_state.c:175-184 | one right-to-left pass over a row: the rightmost pair of equal nonzero neighbours becomes an empty cell and the doubled tile (wrapped at 2^32), and the scan goes on left of the pair; the length is kept |
| RowMoves.MergeScore | src/game_state.c:179-182 | the sum of the doubled values that pass writes, before wrapping to 32 bits |
| RowMoves.MoveRow | src/game_state.c:195-202 | one row slid, merged and slid again; the length is kept |
| RowMoves.MergePairStep | src/game_state.c:176-183 | merging the pair at (c-1, c) advances the right-to-left scan: what stays to be merged and the score are accounted for |
| RowMoves.MergeSkipStep | src/game_state.c:176-178 | a column without a pair advances the scan without changing the result or the score |
| RowMoves.MoveRowExample1 | src/game_state.c:189-202 | `[2,2,0,0]` moves right to `[0,0,0,4]` and scores 4 |
| RowMoves.MoveRowExample2 | src/game_state.c:189-202 | `[2,0,2,4]` moves right to `[0,0,4,4]` and scores 4 |
| RowMoves.MoveRowExample3 | src/game_state.c:189-202 | `[4,4,4,4]` moves right to `[0,0,8,8]` and scores 16 |
| RowMoves.MoveRowEmpty | src/game_state.c:189-202 | an empty row stays empty and scores nothing |
| RowMoves.SlideRowsIdempotent | src/game_state.c:143-167 | sliding a slid board changes nothing |
| RowMoves.SlideRowsPermutes | src/game_state.c:143-167 | sliding a board only rearranges its cells |
| RowMoves.SlideRowsSum | src/game_state.c:143-167 | sliding a board keeps its total |
| RowMoves.SlideRowsKeepsTiles | src/game_state.c:143-167 | sliding a board keeps every cell empty or a power of two |
| RowMoves.MergeRowsConserves | src/game_state.c:169-187 | with every tile below 2^31, merging a board keeps its total |
| RowMoves.MergeRowsKeepsTiles | src/game_state.c:169-187 | merging a board keeps every cell empty or a power of two |
| RowMoves.MoveBoardConserves | src/game_state.c:195-202 | with every tile below 2^31, slide, merge and slide keep the board's total |
| RowMoves.MoveBoardKeepsTiles | src/game_state.c:195-202 | slide, merge and slide keep every cell empty or a power of two |
| RowMoves.SlideRows | src/game_state.c:143-167 | every dim-wide row of a row-major board slid on its own; the length is kept |
| RowMoves.MergeRows | src/game_state.c:169-187 | every dim-wide row of a row-major board through one merging pass on its own; the length is kept |
| RowMoves.MergeScoreRows | src/game_state.c:169-187 | the sum of the rows' merge scores, before wrapping to 32 bits |
| RowMoves.MoveBoard | src/game_state.c:195-202 | the board slid, merged and slid again; the length is kept |
| RowMoves.MoveScore | src/game_state.c:199 | the merge score of the slid board, before wrapping to 32 bits |
| RowMoves.MoveBoardOneRow | src/game_state.c:189-202 | a one-row board moves exactly as MoveRow moves that row, and scores the same |
| RowMoves.MoveBoardSnoc | src/game_state.c:146-202 | rows do not mix: a board with one more row below moves as the board above plus MoveRow of that row, and the scores add up |
| RowMoves.MoveBoardFourRows | src/game_state.c:189-202 | a 4-by-4 board moves row by row, and its score is the sum of the rows' scores |
| RowMoves.MoveBoardExample | src/game_state.c:189-202 | the board with rows `[2,2,0,0]`, `[2,0,2,4]`, `[4,4,4,4]`, `[0,0,0,0]` moves right to rows `[0,0,0,4]`, `[0,0,4,4]`, `[0,0,8,8]`, `[0,0,0,0]` and scores 24 |
| Spawning.EmptyCellsExact | src/game_state.c:39-65 | the listed cells are exactly the empty ones, each once, in increasing row-major order |
| Spawning.EmptyCells | src/game_state.c:59-65 | the linear indices of the empty cells, in the row-major order of the loops; never more than there are cells |
| Spawning.EmptyCellsPrefix | src/game_state.c:59-65 | scanning the first k cells lists a prefix of all the empty cells |
| Spawning.SpawnValue | src/game_state.c:70 | the spawned value is 2 or 4 |
| Spawning.Spawn | src/game_state.c:67-71 | the (pick mod n)-th of the n empty cells gets SpawnValue(roll), and a full board stays as it is; the length is kept |
| Spawning.SpawnFillsOneEmptyCell | src/game_state.c:67-71 | a spawn on a board with an empty cell writes 2 or 4 into one previously empty cell and adds exactly one tile |
| Spawning.TwoSpawnsOnEmptyBoard | src/game_state.c:97-98 | two spawns on an empty board of at least two cells leave exactly two tiles, each 2 or 4 |
| GameStates.RowStart | src/game_state.c:146-148 | row i of the board starts at i*dim, the next row dim cells later, and every row ends inside the board |
| GameStates.GameState.constructor | src/game_state.c:90-96 | the compound literal: the given tiles, dim, budget and score, with no previous board |
| GameStates.GameState.Get | src/game_state.c:22-24 | reads the slot at linear index i*dim + j when that index is on the board, and 0 past it; the coordinates are not checked one by one |
| GameStates.GameState.Set | src/game_state.c:26-28 | succeeds exactly when i*dim + j is on the board; then only that cell changes; otherwise nothing does |
| GameStates.GameState.AddRandom | src/game_state.c:30-75 | reports success exactly when the board has an empty cell and the buffer allocation succeeds; then the board becomes Spawn of the old board with the two draws; otherwise it is unchanged |
| GameStates.GameState.CountEmpty | src/game_state.c:36-46 | the counting loop finds the number of empty cells |
| GameStates.GameState.CountEmptyInRow | src/game_state.c:41-45 | adding one row's empty cells to the count of the rows above gives the count of the empty cells up to the end of that row |
| GameStates.GameState.CollectEmpty | src/game_state.c:52-65 | the collecting loop fills a fresh buffer with the coordinates of the empty cells in row-major order |
| GameStates.GameState.CollectEmptyInRow | src/game_state.c:60-64 | after one more row, the buffer's filled prefix lists the empty cells up to the end of that row |
| GameStates.GameState.CollectCell | src/game_state.c:61-63 | after one more cell, the buffer's filled prefix lists the empty cells up to and including that cell |
| GameStates.GameState.Create | src/game_state.c:77-100 | NULL exactly when an allocation fails; otherwise a fresh board of dim*dim cells, budget 3, no history, score 0, holding two spawns on an empty board, and so exactly two tiles, each 2 or 4, when dim*dim >= 2 |
| GameStates.GameState.Copy | src/game_state.c:122-141 | NULL exactly for NULL input or failed allocation; otherwise a fresh, detached board with the same dim, budget and score and an independent copy of the tiles, or no tiles when that copy fails |
| GameStates.GameState.SlideRight | src/game_state.c:143-167 | the board becomes SlideRows of the old board: every row slid right on its own |
| GameStates.GameState.SlideRowOfBoard | src/game_state.c:146-166 | one iteration of the row loop: the slid part of the board grows by one slid row, and the rows below are untouched |
| GameStates.GameState.SlideRowRight | src/game_state.c:147-165 | the loop over columns slides one row and leaves every other cell alone |
| GameStates.GameState.SlideTile | src/game_state.c:150-164 | moving one tile right keeps the part of the row right of the scan slid |
| GameStates.GameState.FarthestEmpty | src/game_state.c:155-159 | the inner `while` stops on the last empty cell before the next tile or the edge |
| GameStates.GameState.MergeRight | src/game_state.c:169-187 | the board becomes MergeRows of the old board, and the result is the merge score of the whole board wrapped at 2^32 |
| GameStates.GameState.MergeRowOfBoard | src/game_state.c:174-185 | one iteration of the row loop: the merged part of the board grows by one merged row, and the running score by its score, wrapped |
| GameStates.GameState.MergeRowRight | src/game_state.c:175-184 | the loop over columns applies MergeRow to one row, adds its score to the running score (wrapped), and leaves every other cell alone |
| GameStates.GameState.MergeAt | src/game_state.c:176-183 | one column step keeps the scan's invariant: the cells merged so far, the pending rest and the running score |
| GameStates.GameState.MergePair | src/game_state.c:179-182 | a pair becomes an empty cell and a doubled tile, and the doubled value is what the score gains |
| GameStates.GameState.Move | src/game_state.c:195-202 | slide, merge, slide: the board becomes MoveBoard of the old one and the score gains MoveScore, wrapped at 2^32 |
| GameStates.GameState.AddScore | src/game_state.c:199 | `score += delta` in `uint32_t` arithmetic; the link is not touched |
| GameStates.GameState.SetAt | src/game_state.c:180-181 | `GameState_set` of an on-board cell, as at lines 162-163 and 180-181: that one slot gets the value, every other slot keeps its value |
| GameStates.MergeRowsGrow | src/game_state.c:174-186 | one more merged row extends the merged board by MergeRow of that row and the wrapped score by its score |
| GameStates.Retained | src/game_state.c:204-214 | the number of older boards a move keeps: all of them with budget 0; otherwise at most prevLeft boards in all, exactly prevLeft when any are dropped |
| GameStates.Destroy | src/game_state.c:102-120 | every board of the chain loses its tile storage, and every live one ends with length and capacity 0 |
| GameStates.SlideAndMergeRight | src/game_state.c:189-216 | a fresh board with the same dim and budget holds the moved tiles and the score plus the move's score; it is linked in front of the first Retained older boards, which keep their tiles; the boards behind them lose their tile storage; no score of an older board changes |
| GameStates.MovedCopy | src/game_state.c:192-202 | a fresh copy linked to its input, then moved |
| GameStates.PruneBehind | src/game_state.c:204-214 | for a new board linked in front of a chain: the new chain is the new board and the first Retained older boards, which keep their tiles; the boards behind them lose their storage; the new board and every score are untouched |
| GameStates.WalkBack | src/game_state.c:206-209 | the walk ends at board min(steps, n - 1), which has a predecessor exactly when the walk stopped early |
| GameStates.PruneHistory | src/game_state.c:204-214 | with a positive budget the chain is cut after its prevLeft-th board, whose older boards lose their storage; the kept boards are untouched |
| GameStates.CutAfter | src/game_state.c:210-213 | the boards behind board i are destroyed and board i becomes the oldest |
| Render.PairFromMeaning | src/render.c:57-62 | the search from exponent k returns k' + 1 for a k' >= k with value 2^k', or the shared pair exactly when no exponent from k on fits |
| Render.PairFrom | src/render.c:57-62 | the `for k` search from exponent k: k' + 1 for the first k' >= k below NR_OF_COLORS with value 2^k', or NR_OF_COLORS + 1 when there is none |
| Render.PairForValue | src/render.c:53-63 | the pair is between 0 and 15, and 0 exactly for the empty cell |
| Render.PairOfPower | src/render.c:57-60 | 2^k with k < 14 gets pair k + 1 |
| Render.PairOfOther | src/render.c:62 | the shared pair 15 goes exactly to the nonzero values that are not 2^k for any k < 14 |
| Render.PairNamesPower | src/render.c:57-60 | a pair between 1 and 14 names the power of two it was given |
| Render.PairInjective | src/render.c:53-63 | distinct values with a pair of their own get distinct pairs |
| Render.PairOf2048 | src/render.c:57-60 | the tile 2048 gets pair 12 |

## Left out

- Rendering is not modelled: `GameState_print` in `src/game_state.c` and
  `src/render.c`, and `ensure_colors_initialized`. They are ncurses output.
  The model keeps only `pair_for_value`.
- `src/main.c` is not modelled. It is the key loop, screen drawing,
  `srand(time)` and command-line parsing.
- Some operations are called by `src/main.c` but defined in no source file,
  so there is nothing to model: the left, up and down moves, undo,
  `can_move`, `destroy_chain` and a two-argument `GameState_create`.
- `free` is not modelled, because the model does not track released
  memory:
  - `UInt16Array_Free` only calls `free`, so it has no Dafny counterpart.
  - `GameState_destroy` and `UInt32Array_destroy` are modelled by what
    they do to the fields (`items` becomes null, length and capacity 0).
    The release of the `GameState` struct itself is not modelled.
  - The `free` of the coordinate buffer in `add_random` is not modelled.
- `size_t` wrap-around is not modelled. `i * dim + j`, `dim * dim` and
  `zero_count * sizeof(index)` are unbounded naturals.
- NULL receivers are not modelled: a Dafny receiver is never null.
  - The `!array` test of `UInt32Array_set` and the `array &&` test of
    `UInt32Array_destroy` have no counterpart.
  - Calls that C would make on NULL (`GameState_get` on NULL, say) are
    not modelled.
  - `GameState_copy` of NULL is modelled, since its parameter may be null.
- The tile array is an object, not a struct. `UInt32Array` is embedded by
  value in `GameState`, but the model makes it a separate object that each
  board owns alone (`Separate`). The struct copy in `GameState_copy`
  becomes a fresh object.
- `rand()` is not modelled. Its results are the parameters `pick` and
  `roll`.
- UInt32Arrays.UInt32Array.Create: requires `length <= capacity`. The source
  does not check this, but a larger length would let get and set index past
  the buffer.
- UInt16Arrays.UInt16Array.Init: requires `length <= capacity`, for the
  same reason.
- GameStates.SlideAndMergeRight: requires the copy to succeed. The source
  writes `new_gs->prev` without testing for NULL. The copy of the tiles is
  taken to succeed as well.
- GameStates.GameState.Create: the coordinate buffer that each of the two
  `add_random` calls allocates is taken to succeed.
- GameStates.GameState.Copy: the result is `Valid` only when the source
  board is. The C code copies any `UInt32Array`.
- The move does not detect a no-op: `slide_and_merge_right` always returns
  a new, linked board, and the model does the same.

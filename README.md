# Linear domino in Dafny

This project models the core of Linear-Domino, a one-player domino game written in C. The player lays tiles from a hand in a single line (the field). A tile goes at the start ('S'), at the left end ('L') or at the right end ('R'). It is legal at an end when one of its values matches the exposed value there. An exposed 0 matches anything. Three special tiles are legal anywhere:

- the wildcard `[0|0]`;
- the increment tile `[11|11]`, which raises both values of every field tile by 1 and then enters as a copy of its raised neighbour;
- the mirror tile `[12|21]`, which enters as the reverse of its neighbour.

The score of a field is the sum of all tile values. The "recursive" mode searches over the whole hand for the best score, and also keeps the moves that reach it.

The model is split into modules that follow the program:

- `Tiles`: the `Tile` record and the special tiles.
- `Containers`: the growable tile array `vector`, as class `Vector`. It includes the capacity policy (double when full, halve when at most half is used) and the two defects of `delete_at` listed under Findings.
- `Moves`: the move log `m_vector`, as class `MoveLog`.
  - A move is three bytes: the end, then each tile value plus `'0'`.
  - The table `print_moves` uses to turn the bytes back into text is modelled too.
  - The lemma `RenderEntry` proves that a move whose tile values are 0 to 9, 11, 12 or 21 prints as its end and its two decimal values. Those are the values of the tiles `generate_random_hand` draws. Increment tiles can raise field values past 9, and those are not covered.
- `Rules`: `delete_tile`, `valid_move`, `move_tile`, `possible_moves` and `points`.
  - Each is a specification on sequences (`RemoveFirst`, `ValidMove`, `Apply`, `AnyMove`, `Total`).
  - Each except `valid_move` also has a method over `Vector`s, proved to agree with its specification. `valid_move` only reads the field, so the methods call the function `ValidMove` on the field's contents.
- `Exhaustive`: `recursive_mode_aux` and `recursive_mode`.
  - `Search`, `Iteration`, `SearchLoop` and `Solve` state on values what the C search computes, quirks included:
    - the field and hand are shared and never undone between siblings;
    - every legal move is logged, even one whose tile is not in the hand;
    - `max_points` is overwritten rather than maximised;
    - a start tile replaces the best outcome only when it scores strictly more, so the outcome kept in the end is that of the first start tile reaching the maximum.
  - Class `Solver` runs the search over the shared vectors and is proved equal to those functions.
- `HandTable`: the table of 39 tile names in `generate_random_hand` and the hand drawn through it.

The increment tile enters as a copy of its raised neighbour (main.c:279 and main.c:297). Played to the right of `[(3,4)]`, it gives `[(4,5),(4,5)]` (`Rules.ApplyIncrementExample`). Some descriptions of the game give `[(4,5),(5,5)]` for this move instead; the model follows the code.

## Model

| member | source | states |
|---|---|---|
| Containers.GrowCapacity | main.c:59-61 | A push never lowers the capacity. It keeps the capacity when the vector is not full, and otherwise sets it to twice the size. The result has room for one more tile exactly when the old capacity was positive. |
| Containers.ShrinkCapacityAsWritten | main.c:92-93 | `delete_at` as written: the capacity is halved whenever the new size is at most half of it. The result still holds the size. |
| Containers.CapacityReachesZero | main.c:92-93 | Four removals from a full four-slot vector take the capacity through 4, 2, 1 and 0. The next push then resizes to 0 slots. |
| Containers.ShrinkCapacity | main.c:92-93 | Corrected halving: the same rule, but a positive capacity never drops to 0. |
| Containers.ShrinkKeepsRoom | main.c:59-65 | After a corrected removal, the next push always has a free slot. |
| Containers.DeleteAtReadsAsWritten | main.c:87-89 | The slots the as-written shift reads: `index + 1` up to the old size, inclusive. |
| Containers.DeleteAtReadsPastEnd | main.c:87-88 | On a full vector, the as-written shift reads slot `capacity`, one past the buffer. |
| Containers.DeleteAtReads | main.c:87-89 | The corrected shift reads the slots `index + 1` up to `size - 1`, in order, and so only slots strictly between `index` and the size. |
| Containers.Vector.constructor | main.c:18-34 | `create_vector`: an empty vector with capacity 4. |
| Containers.Vector.Resize | main.c:41-57 | The tiles are kept in order in a fresh buffer of the requested capacity. |
| Containers.Vector.PushBack | main.c:59-66 | The tile is appended after the old tiles. The capacity follows `GrowCapacity`. |
| Containers.Vector.PushFront | main.c:68-79 | The tile is put before the old tiles. The capacity follows `GrowCapacity`. |
| Containers.Vector.DeleteAt | main.c:81-95 | An index in range removes exactly that tile and keeps the others in order; the capacity follows `ShrinkCapacity`. The slots its shift reads are exactly `DeleteAtReads`, all inside the buffer. An index out of range is reported and leaves the vector as it was. |
| Containers.Vector.Clone | main.c:97-114 | A fresh vector with its own buffer, the same tiles and the same capacity. |
| Containers.Vector.CopyFrom | main.c:116-125 | The destination ends up holding exactly the source's tiles. It is resized to the source's size only when it held fewer tiles. |
| Containers.CloneIsIndependent | lib.c:101-106 | Pushing onto, deleting from and pushing in front of a clone leave the original's tiles unchanged. |
| Moves.Encode | main.c:185-189 | The byte logged for a tile value is one byte wide, and equals value + '0' for every value small enough not to wrap. |
| Moves.Entry | main.c:185-189 | A logged move is three bytes: its end, then the encoded left value, then the encoded right value. |
| Moves.Render | main.c:478-486 | Bytes 59, 60 and 69 print as two characters, each a '1' or a '2'. Every other byte prints as itself. |
| Moves.RenderMoves | main.c:475-489 | Printing a log writes at least two characters per byte. |
| Moves.RenderEncode | main.c:478-486 | Every value 0 to 9, 11, 12 or 21 prints back as its own decimal text once encoded. |
| Moves.RenderEnd | main.c:478-486 | An end prints as itself, and no encoded tile value prints as an end. |
| Moves.RenderMovesAppend | main.c:477-488 | Printing a concatenated log is printing each part in turn. |
| Moves.RenderThree | main.c:477-488 | Three bytes print as their three texts, each followed by a space. |
| Moves.RenderEntry | main.c:185-189 | Logging a move whose tile values are 0 to 9, 11, 12 or 21 adds exactly its end and its two decimal values to the printed moves. |
| Moves.MoveLog.constructor | main.c:132-148 | `create_m_vector`: an empty log with capacity 4. |
| Moves.MoveLog.Resize | main.c:155-170 | The bytes are kept in order in a fresh buffer of the requested capacity. |
| Moves.MoveLog.Push | main.c:177-183 | The byte is appended. The capacity follows `GrowCapacity`. |
| Moves.MoveLog.PushMove | main.c:185-189 | The log grows by exactly the move's three bytes. |
| Moves.MoveLog.CopyFrom | main.c:191-200 | The destination ends up holding exactly the source's bytes. It is resized only when it held fewer bytes. |
| Rules.IndexOf | main.c:253-258 | The first slot holding the tile, with no earlier match; the length when the tile is absent. |
| Rules.RemoveFirst | main.c:249-261 | An absent tile leaves the hand as it was; a present one shortens it by one. |
| Rules.RemoveFirstMultiset | lib.c:159-165 | Removal takes away exactly one copy of the tile and keeps every other tile. |
| Rules.RemoveFirstOrder | main.c:253-256 | Tiles before the match keep their slots. Later tiles move down by one. |
| Rules.DeleteTile | main.c:249-261 | Reports whether the tile was in the vector, and leaves the vector without its first copy. |
| Rules.ValidMove | main.c:308-332 | An unknown end is illegal. A special tile is legal at any end. On a non-empty field, an ordinary tile is never legal at 'S'. |
| Rules.ValidMoveAtEnds | main.c:317-331 | On a non-empty field, an ordinary tile is legal at 'L' or 'R' exactly when that end's value is one of its values or 0. |
| Rules.ValidMoveOnEmptyField | main.c:310-314 | On an empty field a move is legal exactly when the tile is special or has left value not 11 and right value not 12. |
| Rules.ValidMoveDependsOnEnds | main.c:316-331 | Two non-empty fields with the same exposed values give the same legality. |
| Rules.Place | main.c:266-303 | The new field is one tile longer. The old tiles (raised, for the increment tile) stay in place beside the new tile. |
| Rules.Apply | main.c:263-306 | A move that is illegal, or whose tile is not in the hand, changes nothing. Otherwise one copy leaves the hand and the field grows by one. |
| Rules.ApplyConserves | main.c:263-306 | The number of tiles is conserved, the field never shrinks, and the hand only loses tiles. |
| Rules.ApplyPlain | main.c:266-303 | An ordinary tile, or any first tile, enters the field unchanged at its end. |
| Rules.ApplyIncrement | main.c:270-297 | The increment tile raises every field tile and enters as a copy of its raised neighbour. |
| Rules.ApplyMirror | main.c:280-300 | The mirror tile enters as the reverse of its neighbour. |
| Rules.ApplyIncrementExample | main.c:270-286 | Increment to the right of `[(3,4)]` gives `[(4,5),(4,5)]`. |
| Rules.ApplyStartExample | main.c:264-268 | Starting with (1,2) from hand [(1,2),(2,3)] moves it to the field. |
| Rules.ApplyRightExample | main.c:270-287 | Then (2,3) at 'R' is appended and empties the hand. |
| Rules.ApplySequenceExample | main.c:263-306 | The two moves together give field [(1,2),(2,3)] worth 8. |
| Rules.IncrementAll | main.c:273-276 | Every tile of the vector has both values raised by 1, in place, and the tiles keep their order. |
| Rules.PlaceTile | main.c:266-303 | The field vector becomes `Place` of its old contents. |
| Rules.MoveTile | main.c:263-306 | The field and hand vectors become `Apply` of the old board. |
| Rules.AnyMoveIsSomeValidMove | main.c:334-359 | On a non-empty field, `possible_moves`' test holds exactly when some hand tile is legal at 'L' or 'R' (both directions). |
| Rules.AnyMoveEdges | main.c:334-359 | An empty hand on a non-empty field has no move. A special tile in hand always leaves a move. |
| Rules.PossibleMoves | main.c:334-359 | The scan returns `AnyMove` of the field and hand. |
| Rules.TotalAppend | main.c:436-443 | The points of a concatenation are the sum of the parts' points. |
| Rules.TotalBump | main.c:273-276 | The increment effect adds 2 points per field tile. |
| Rules.ApplyTotal | main.c:263-306 | What each kind of move adds to the score: an ordinary tile its own values; the mirror its neighbour's values; the increment 2 per field tile plus its raised neighbour's values. |
| Rules.Points | main.c:436-443 | The sum of both values of every tile. |
| Exhaustive.Search | main.c:369-394 | Tiles only move from hand to field and the log only grows. With no move left, the board and log are untouched. A legal move is logged first. |
| Exhaustive.Iteration | main.c:381-390 | One loop iteration keeps the same descent: tiles move from hand to field and the log only grows. |
| Exhaustive.SearchLoop | main.c:379-393 | The loop over the hand keeps the same descent. |
| Exhaustive.SearchPlays | main.c:373-381 | A legal move with moves left is applied and logged, then the loop runs from slot 0. |
| Exhaustive.SearchLeaf | main.c:370-371 | No move left: the score is the field's points and nothing changes. |
| Exhaustive.SearchIllegal | main.c:373-377 | An illegal move with moves left scores 0 and changes nothing. |
| Exhaustive.SearchEmptiedHand | main.c:379-393 | Playing the last tile of the hand scores 0, not the finished field's points. |
| Exhaustive.SearchLoopOverwrites | main.c:386-389 | The loop's score does not depend on the `max_points` it started with. |
| Exhaustive.BestIsFirstMaximum | main.c:407-423 | The kept outcome scores at least every candidate. Unless it is the initial one, it is the first candidate reaching that score. |
| Exhaustive.SolveFromIsBest | main.c:407-423 | `recursive_mode`'s loop is the first-maximum selection over the start tiles' outcomes. |
| Exhaustive.SolveBest | main.c:396-434 | The result is at least 0 and at least every start tile's score. Score 0 means an empty board and an empty move log. Otherwise it is the outcome of the first start tile reaching the best score. |
| Exhaustive.StartsAre | main.c:408-410 | Each start tile is searched from the initial board with a fresh log. |
| Exhaustive.Solver.RecursiveModeAux | main.c:369-394 | The score, board and log left on the shared vectors are exactly `Search` of the old board and log. |
| Exhaustive.Solver.Play | main.c:373-376 | The board becomes `Apply` of the old one and the log gains the move's three bytes. |
| Exhaustive.Solver.HandLoop | main.c:379-393 | The loop over the shared hand is exactly `SearchLoop` from slot 0. |
| Exhaustive.Solver.Iterate | main.c:381-390 | One iteration on the shared vectors is exactly `Iteration`. |
| Exhaustive.Solver.SearchFrom | main.c:408-410 | A fresh log, then exactly the 'S' search from start tile `i`. |
| Exhaustive.Solver.Restore | main.c:419-421 | The field and hand again hold the copies taken at the start. |
| Exhaustive.Solver.TryStart | main.c:407-423 | The best outcome is replaced only by a strictly better search, and the board is restored. |
| Exhaustive.Solver.RecursiveMode | main.c:396-434 | The returned outcome is `Solve` of the initial board, and the field and hand are left as they were. |
| HandTable.NamedTileRow1 | main.c:211 | The names "11" to "16" give tiles (1,1) to (1,6). |
| HandTable.NamedTileRow2 | main.c:212 | The names "21" to "26" give tiles (2,1) to (2,6). |
| HandTable.NamedTileRow3 | main.c:213 | The names "31" to "36" give tiles (3,1) to (3,6). |
| HandTable.NamedTileRow4 | main.c:214 | The names "41" to "46" give tiles (4,1) to (4,6). |
| HandTable.NamedTileRow5 | main.c:215 | The names "51" to "56" give tiles (5,1) to (5,6). |
| HandTable.NamedTileRow6 | main.c:216 | The names "61" to "66" give tiles (6,1) to (6,6). |
| HandTable.NamedTileSpecials | main.c:227-235 | "sum", "any" and "mirror" give the increment, wildcard and mirror tiles. |
| HandTable.NamedTileRange | main.c:210-239 | Every table tile is special, or has both values between 1 and 6. |
| HandTable.TableRange | main.c:210-239 | Every one of the 39 table entries gives a special tile or a tile with both values between 1 and 6. |
| HandTable.Drawn | main.c:222-244 | One tile per draw, and every drawn tile is special or has both values between 1 and 6. |
| HandTable.GenerateHand | main.c:207-247 | A fresh vector holding the `HAND_SIZE` drawn tiles in draw order. |

## Left out

- Terminal I/O is not modelled: `print_field`, the `printf` calls in `print_moves` and `recursive_mode`, `scanf` and the interactive loop of `main`. Of `print_moves`, only the text its loop writes is modelled (`Moves.RenderMoves`), without the leading "Moves: ".
- `progress_bar` only draws on the terminal and is left out.
- `srand(time(NULL))` and `rand()` are replaced by the `draws` parameter of `HandTable.GenerateHand`.
- `malloc` failure and its `exit` are not modelled: allocation always succeeds in Dafny. `free_vector` and `free_m_vector` have no counterpart.
- Tile values, scores and points are unbounded integers, so C `int` overflow is not modelled. The game's values stay far from the limits.
- Moves.RenderEntry: only covers tile values 0 to 9, 11, 12 and 21. A tile read from the keyboard, or raised by increment tiles, can hold other values; value 10, for instance, is logged as byte 58 and prints as ":".
- Moves.Encode: the log byte is taken as an unsigned 8-bit `char`. A signed `char` would store the same bit pattern.
- Exhaustive.Solver.RecursiveMode: it returns the best outcome (score, field, hand and log) as a value. It does not copy them into the `max_field`, `max_hand` and `max_moves` vectors that the C code only prints and frees. The copying itself is modelled by `Vector.CopyFrom` and `MoveLog.CopyFrom`.
- Exhaustive.Search: when the 'R' search has emptied slot `i`, the 'L' search reads `hand->data[i]` past the end of the hand. That stale tile is modelled as one fixed parameter `stale` for the whole search, not as whatever the freed or reused buffer holds.
- Containers.Vector.Resize: requires a capacity of at least one slot. With the corrected halving, the C callers never ask for less.
- Containers.Vector.DeleteAt: an out-of-range index ends the C program. Here it returns `ok == false` and leaves the vector unchanged.
- Rules.ValidMove: requires `ValidMoveInBounds`, which excludes the `valid_move` calls on an empty field that read `field->data[0]` or `field->data[-1]`.
- Rules.Apply: requires `MoveInBounds`, which excludes the `move_tile` calls on an empty field with the increment or mirror tile at 'L' or 'R'.

## Findings

| source | as written | input that shows it | evidently intended | confidence | as-written member | corrected member |
|---|---|---|---|---|---|---|
| main.c:87-88 | The shift loop in `delete_at` runs `i` up to `size - 1` and reads `data[i + 1]`, so its last read is `data[size]` | `delete_at` at index 0 on a full vector of 4 tiles reads `data[4]`, past the 4-slot buffer | Shift only while `i + 1 < size` | not executed | Containers.DeleteAtReadsAsWritten | Containers.Vector.DeleteAt |
| main.c:92-93 | `delete_at` halves the capacity whenever `size <= capacity / 2`, including from 1 to 0 | Removing the 4 tiles of a full 4-slot vector leaves capacity 0. The next `push_back` calls `resize(v, 0)` and writes `data[0]` into an empty buffer | Never halve below one slot | not executed | Containers.ShrinkCapacityAsWritten | Containers.ShrinkCapacity |

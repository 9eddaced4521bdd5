# image-to-tetris, modelled in Dafny

This project models the core of `image-to-tetris`, a program that approximates
images and audio with Tetris material:

- **Image engine.** It approximates an image by filling a board with Tetris
  pieces drawn in block skins. Cells come off a max-heap. At each empty cell
  every skin and every candidate piece is scored, and the best candidate is
  placed.
- **Legacy engine.** An earlier piece geometry with its board.
- **Audio toolkit.** It handles clips of sampled channels:
  - windowing, zero padding, adding and appending clips;
  - splitting a clip by duration or at its onsets;
  - the short-time Fourier transform (STFT) with its harmonic/percussive masks and its overlap-add inverse;
  - the onset-detection feature pipeline.

Modules, one per source file (two for the image engine's scoring and queue):

| module | file | models |
|---|---|---|
| `Wrappers` | wrappers.dfy | `Option`, `Result`, `Unit` |
| `Pieces` | pieces.dfy | `src/approx_image/piece.rs`: cells, pieces, offset tables, `get_occupancy` with its i32 arithmetic |
| `Boards` | boards.dfy | `src/approx_image/board.rs`: the board as a class over a `seq<char>` grid and a piece list |
| `Skins` | skins.dfy | `src/approx_image/draw.rs`: block images, skins, `resize_skins`, the skinned board |
| `CellHeaps` | cellheaps.dfy | the `BinaryHeap<Cell>` of `src/approx_image.rs`, as a class over a sorted sequence |
| `Scoring` | scoring.dfy | `average_pixel_grid`, `find_context_cells`, `find_average_source_cell_pixel`, `subtract_pixels` |
| `Approx` | approx.dfy | `process_heap`, `process_heap_prioritize`, `approx` |
| `LegacyPieces` | legacy_pieces.dfy | `src/piece.rs`, as written and corrected |
| `LegacyBoards` | legacy_boards.dfy | `src/board.rs` |
| `AudioClips` | audio_clips.dfy | `src/approx_audio/audio_clip.rs`: the clip as a value, and a class for the `*_mut` methods |
| `Windowing` | windowing.dfy | `src/approx_audio/windowing.rs` and `split_by_duration` |
| `Fft` | fft.dfy | `src/approx_audio/fft.rs`: STFT, binary masks, mask application, inverse STFT, `medfilt_h` reassembly |
| `OnsetDetect` | onset_detect.dfy | `src/approx_audio/onset_detect.rs` |

Modelling conventions:

- Code that mutates objects in place is modelled as classes or methods with loops:
  - the boards and the skinned board;
  - the heap;
  - `add_mut` and the other `*_mut` methods;
  - `get_occupancy`'s loop, `can_place`, the STFT loop and the overlap-add;
  - the mask loops, the reassembly loop, `find_local_avgs`, the debounce loop and `split_by_onsets`.
- Each such method is proved equal to a specification function. The properties are proved about that function.
- Iterator chains are modelled as functions.
- Floating-point samples are modelled as reals.
- Machine integers are unbounded. The model writes out the i32 wrap-around and the truncating casts where the program depends on them.

## Model

| member | source | states |
|---|---|---|
| Pieces.AddI32 | src/approx_image/piece.rs:183-184 | the i32 sum of anchor and offset stays in the i32 range and is the exact sum whenever that fits |
| Pieces.AddI32Wraps | src/approx_image/piece.rs:183-184 | the i32 sum differs from the exact sum by a multiple of 2^32 |
| Pieces.AddI32Sign | src/approx_image/piece.rs:183-188 | for an anchor that fits in an i32 and a table offset, the wrapped sum is negative exactly when the exact sum leaves [0, i32::MAX]; otherwise it is the exact sum |
| Pieces.CellLessTotal | src/approx_image/piece.rs:10-14 | the derived ordering of cells (x first, then y) is a strict total order |
| Pieces.ShapeTablesWellFormed | src/approx_image/piece.rs:45-92 | every row of the seven offset tables holds four distinct offsets in [-3, 3], one of them (0, 0) |
| Pieces.AllOrientations | src/approx_image/piece.rs:94-98 | the four orientations in the order North, East, South, West |
| Pieces.AllNormal | src/approx_image/piece.rs:101-111 | seven tetrominoes, none garbage, all at the given anchor and orientation |
| Pieces.AllGarbage | src/approx_image/piece.rs:113-115 | Gray then Black at the anchor |
| Pieces.GetCharDistinct | src/approx_image/piece.rs:117-129 | the character is never the empty cell, is one of IOTLJSZGB, and two pieces share it exactly when they are of the same kind |
| Pieces.GetOrientation | src/approx_image/piece.rs:131-142 | the returned orientation is one at which `all_normal` yields the piece; garbage is excluded, as the program panics on it |
| Pieces.GetCell | src/approx_image/piece.rs:144-156 | the returned anchor is one at which `all_garbage` or `all_normal` yields the piece |
| Pieces.ShapeTable | src/approx_image/piece.rs:161-170 | a tetromino's table is a well-formed table |
| Pieces.RowIndex | src/approx_image/piece.rs:173-178 | the orientation picks row 0 to 3, its position in `Orientation::all` |
| Pieces.Dirs | src/approx_image/piece.rs:172-178 | the selected row is well formed |
| Pieces.OffsetCells | src/approx_image/piece.rs:180-190 | four distinct cells, anchor plus offset k for each k, including the anchor |
| Pieces.RowOccupancy | src/approx_image/piece.rs:180-190 | a successful occupancy has four distinct cells and includes the anchor |
| Pieces.Occupancy | src/approx_image/piece.rs:159-191 | garbage occupies only its anchor; a successful occupancy has 1 or 4 distinct cells including the anchor |
| Pieces.RowOccupancyCharacterised | src/approx_image/piece.rs:180-190 | the occupancy fails exactly when the anchor does not fit in an i32 or some anchor + offset leaves [0, i32::MAX]; otherwise cell k is anchor + offset k |
| Pieces.RowOccupancySameOffsets | src/approx_image/piece.rs:173-190 | two rows with the same offsets in any order occupy the same set of cells |
| Pieces.OccupancyOIgnoresOrientation | src/approx_image/piece.rs:52-57 | the O piece occupies the same cells in every orientation |
| Pieces.GetOccupancy | src/approx_image/piece.rs:159-191 | the method computes `Occupancy` |
| Pieces.OffsetCell | src/approx_image/piece.rs:183-188 | one loop step fails exactly when anchor + offset leaves [0, i32::MAX], and otherwise yields that cell |
| Pieces.GetRowOccupancy | src/approx_image/piece.rs:180-190 | the early-returning loop computes `RowOccupancy` |
| Boards.IndexInRange | src/approx_image/board.rs:94-99 | an in-bounds cell's row-major position lies inside the `width * height` grid |
| Boards.IndexInjective | src/approx_image/board.rs:94-106 | distinct in-bounds cells have distinct positions |
| Boards.WriteCells | src/approx_image/board.rs:64-66 | the grid after the `get_mut` writes: complete exactly when every cell is in bounds; uncovered positions unchanged; every covered position written when complete |
| Boards.WriteCellsStops | src/approx_image/board.rs:78-80 | after a failed write, the remaining cells are not written |
| Boards.NewBoardConsistent | src/approx_image/board.rs:16-23 | an empty grid is consistent with an empty piece list |
| Boards.PlacedCells | src/approx_image/board.rs:64-66 | placing keeps the grid size |
| Boards.ClearedCells | src/approx_image/board.rs:78-80 | blanking keeps the grid size |
| Boards.PlacedOccupies | src/approx_image/board.rs:64-66 | after a placement the piece's letter stands in each of its cells |
| Boards.PlacedOwned | src/approx_image/board.rs:52-70 | after a placement every non-empty cell belongs to a listed piece |
| Boards.PlacedAllOccupy | src/approx_image/board.rs:52-70 | a placement keeps every listed piece written in the grid |
| Boards.PlacedDisjoint | src/approx_image/board.rs:52-70 | the placed piece is new to the list and shares no cell with a listed piece |
| Boards.PlaceKeepsConsistent | src/approx_image/board.rs:52-70 | placing a placeable piece keeps the grid consistent with the extended piece list |
| Boards.ClearedAllOccupy | src/approx_image/board.rs:85-92 | blanking a listed piece keeps every other listed piece written in the grid |
| Boards.ClearedOwned | src/approx_image/board.rs:85-92 | after blanking, every non-empty cell belongs to one of the remaining pieces |
| Boards.ClearKeepsConsistent | src/approx_image/board.rs:73-92 | blanking a listed piece and dropping it keeps the grid consistent |
| Boards.WriteTwiceRestores | src/approx_image/board.rs:64-89 | writing over blank cells and then blanking them restores the grid |
| Boards.PlaceThenClear | src/approx_image/board.rs:52-92 | placing a piece and then blanking its cells restores the grid exactly |
| Boards.SameAnchorBlocked | src/approx_image/board.rs:128-143 | after a placement, no piece with the same anchor can be placed |
| Boards.Without | src/approx_image/board.rs:90 | `retain` keeps exactly the entries not equal to the piece, in order and without new duplicates |
| Boards.HorizontalI | src/approx_image/board.rs:117 | an I lying North at (x, 0) occupies x to x + 3 on row 0 |
| Boards.PlaceOnEmptyBoard | src/approx_image/board.rs:114-119 | an I at (1, 0) fits an empty 10 x 20 board |
| Boards.PlaceOutOfBoundsHigh | src/approx_image/board.rs:121-126 | an I at (8, 0) does not fit a board 10 wide |
| Boards.PlaceOverlapTests | src/approx_image/board.rs:128-143 | the same I, or a T at its anchor, cannot be placed twice |
| Boards.Board.constructor | src/approx_image/board.rs:16-23 | an all-empty grid of `w * h` cells, no pieces, consistent |
| Boards.Board.Get | src/approx_image/board.rs:94-99 | an error exactly out of bounds, else the character at the row-major position |
| Boards.Board.GetMut | src/approx_image/board.rs:101-106 | an error exactly out of bounds, else the row-major position written through |
| Boards.Board.CanPlace | src/approx_image/board.rs:34-50 | true exactly when the occupancy succeeds and every cell is in bounds and empty |
| Boards.Board.Place | src/approx_image/board.rs:52-70 | succeeds exactly when the piece is placeable; then the letter is written into its cells and the piece appended; on failure nothing changes; consistency is kept |
| Boards.Board.CheckVacant | src/approx_image/board.rs:55-61 | the checking loop of `place` succeeds exactly when every occupied cell is in bounds and empty; it changes nothing |
| Boards.EmptyBoardVacant | src/approx_image/board.rs:16-22 | on a new board every in-bounds cell is empty, so any in-bounds occupancy is vacant |
| Boards.Board.WriteThrough | src/approx_image/board.rs:64-66 | the write loop yields `WriteCells` and succeeds exactly when every cell is in bounds |
| Boards.Board.UndoLastMove | src/approx_image/board.rs:73-82 | an error and no change with no pieces; otherwise the last piece is popped and its cells blanked; consistency is kept |
| Boards.Board.RemovePiece | src/approx_image/board.rs:85-92 | blanks the piece's cells and drops every equal entry; an occupancy error changes nothing; consistency is kept |
| Skins.ChannelMean | src/approx_image/draw.rs:210-214 | the floor of a channel's mean: m * n <= sum < (m + 1) * n |
| Skins.NewBlockImage | src/approx_image/draw.rs:205-221 | the stored average pixel is, channel by channel, the floor of the sum over the pixel count |
| Skins.MeanPixel | src/approx_image/draw.rs:207-215 | each channel of the mean pixel is that channel's floor mean |
| Skins.MeanOfUniform | src/approx_image/draw.rs:205-221 | the average of identical pixels is that pixel |
| Skins.MeanBetween | src/approx_image/draw.rs:205-221 | the average lies between the darkest and the brightest pixel in every channel |
| Skins.Images | src/approx_image/draw.rs:154-156 | the nine tiles: black, gray, I, O, T, L, J, S, Z |
| Skins.TileOfCharMatchesPiece | src/approx_image/draw.rs:162-189 | the tile chosen for a board character is the tile of the piece that wrote it |
| Skins.ResizeImage | src/approx_image/draw.rs:223-227 | the new size is taken, the average kept, and an image already of that size is unchanged |
| Skins.ResizeSkin | src/approx_image/draw.rs:145-151 | the skin and all nine tiles take the new size; the averages and the id are kept |
| Skins.SkinDimensionsCharacterised | src/approx_image/draw.rs:100-105 | the tile size exists exactly when the board size fits in a u32 and the image has at least one pixel per cell each way; the tiles then fill the image as far as whole tiles go |
| Skins.ResizeSkins | src/approx_image/draw.rs:100-110 | on error no skin changes; otherwise every skin is resized to the computed tile size |
| Skins.PlaceKeepsSkinsAgree | src/approx_image/draw.rs:83-93 | painting a placed piece's cells with a valid skin id keeps the skin ids in agreement with the grid |
| Skins.OwnedCellIsLetter | src/approx_image/draw.rs:258-268 | a cell owned by a placed piece holds that piece's letter, one the drawing accepts |
| Skins.FullBoardDrawable | src/approx_image/draw.rs:248-274 | a consistent full board with agreeing skin ids never reaches the drawing's panic |
| Skins.PaintedReadsBack | src/approx_image/draw.rs:88-90 | a painted cell reads back the id; other cells keep theirs |
| Skins.SkinnedBoard.constructor | src/approx_image/draw.rs:42-49 | an empty board and every cell's skin id `usize::MAX` |
| Skins.SkinnedBoard.EmptyAt | src/approx_image/draw.rs:79-81 | true exactly for an in-bounds empty cell |
| Skins.SkinnedBoard.GetCellsSkin | src/approx_image/draw.rs:95-97 | the skin id at the cell's row-major position |
| Skins.SkinnedBoard.Place | src/approx_image/draw.rs:83-93 | succeeds exactly when the piece is placeable, then paints its cells; on failure nothing changes; consistency and skin agreement are kept |
| Skins.SkinnedBoard.Paint | src/approx_image/draw.rs:88-90 | the painting loop writes the id into each occupied cell |
| CellHeaps.HeadIsMaximum | src/approx_image.rs:58-65 | the front of the non-increasing sequence is the heap's maximum |
| CellHeaps.InsertKeepsOrder | src/approx_image.rs:63 | inserting a cell where the scan for its place stopped keeps the sequence non-increasing |
| CellHeaps.CellHeap.constructor | src/approx_image.rs:60 | an empty heap |
| CellHeaps.CellHeap.Push | src/approx_image.rs:63 | the cell joins the heap's multiset and the order is kept |
| CellHeaps.CellHeap.Pop | src/approx_image.rs:106 | `None` exactly on an empty heap; otherwise a maximal cell, which leaves the multiset |
| CellHeaps.PopKeepsOrder | src/approx_image.rs:106 | popping the maximum of what is left onto a log that is at least everything left keeps the log non-increasing and still at least everything left |
| CellHeaps.NonIncreasingUnique | src/approx_image.rs:106 | two non-increasing sequences with the same cells are equal, so the order in which a heap hands out its cells is determined by its contents |
| CellHeaps.SameHead | src/approx_image.rs:106 | two non-increasing arrangements of the same cells start with the same cell |
| CellHeaps.SameTail | src/approx_image.rs:106 | after a common head, two arrangements of the same cells still hold the same cells |
| CellHeaps.TailNonIncreasing | src/approx_image.rs:106 | dropping the head keeps a sequence non-increasing |
| Scoring.AddPixel | src/approx_image.rs:175-178 | each running sum gains the pixel's channel |
| Scoring.RowSums | src/approx_image.rs:173-179 | the inner pixel loop accumulates the sums of one row of the block |
| Scoring.BlockSums | src/approx_image.rs:169-180 | the two pixel loops accumulate the channel sums of the whole block |
| Scoring.ChannelMeanIsQuotient | src/approx_image.rs:183-188 | a channel mean is the floor of its sum over the pixel count |
| Scoring.BlockMean | src/approx_image.rs:182-188 | the divided sums are the block's mean pixel |
| Scoring.GridLength | src/approx_image.rs:164-192 | m block rows of `cols` blocks give m * cols averages |
| Scoring.GridAt | src/approx_image.rs:164-192 | entry row * cols + col is the mean of the block whose top-left pixel is (col * w, row * h) |
| Scoring.AverageRow | src/approx_image.rs:168-191 | one pass of the x loop appends one row of block means |
| Scoring.AveragePixelGrid | src/approx_image.rs:156-195 | the result is the row-major grid of block means |
| Scoring.ContextRow | src/approx_image.rs:287-303 | at most n context cells per row |
| Scoring.ContextRows | src/approx_image.rs:278-306 | at most 8 context cells per row |
| Scoring.ContextCells | src/approx_image.rs:270-309 | at most 64 context cells |
| Scoring.ContextCellsCharacterised | src/approx_image.rs:270-309 | fails exactly when the centre does not fit in an i32; otherwise lists exactly the in-bounds, non-empty cells outside the piece with offsets in [0, 8) whose coordinates fit in an i32 |
| Scoring.ScanContextRow | src/approx_image.rs:287-303 | the dx loop appends `ContextRow`, or fails on a centre too large for an i32 |
| Scoring.FindContextCells | src/approx_image.rs:270-309 | the two loops compute `ContextCells` |
| Scoring.OccupiedPixels | src/approx_image.rs:314-315 | the block average under each cell of the piece |
| Scoring.FindAverageSourceCellPixel | src/approx_image.rs:311-323 | the mean pixel of the block averages under the piece |
| Scoring.SubtractPixels | src/approx_image.rs:325-331 | three channel differences |
| Scoring.SubtractPixelsProperties | src/approx_image.rs:325-331 | differences lie in [-255, 255], change sign when the arguments swap, equal the channel differences, and are all zero exactly when the colours agree |
| Approx.OrientationCandidates | src/approx_image.rs:134-135 | seven tetrominoes at the cell with the skin |
| Approx.SkinCandidates | src/approx_image.rs:117-145 | 30 candidates with garbage (Gray first) and 28 without; garbage only when allowed |
| Approx.Candidates | src/approx_image.rs:117-146 | every candidate has a listed skin and is anchored at the cell; garbage only when allowed |
| Approx.GrayIsCandidate | src/approx_image.rs:118-128 | with garbage allowed, Gray in the first skin is tried |
| Approx.Scan | src/approx_image.rs:113-146 | a failing score is the only error; a chosen candidate is eligible and scored below `f64::MAX` |
| Approx.ScanChoosesFirstMinimum | src/approx_image.rs:123-142 | the choice is the first eligible candidate of least score, and nothing when no score is below `f64::MAX` |
| Approx.ScanFailsIff | src/approx_image.rs:122-137 | the scan fails exactly when some eligible candidate cannot be scored |
| Approx.ScanChoosesWhenFinite | src/approx_image.rs:113-150 | a scan with an eligible candidate scored below `f64::MAX` chooses one |
| Approx.PlacedFills | src/approx_image.rs:148-150 | a placement only fills empty cells, and a tetromino adds no garbage |
| Approx.PlacedCellFilled | src/approx_image.rs:148-150 | after a placement each of the piece's cells is filled |
| Approx.GarbagePlaceable | src/approx_image.rs:118-128 | garbage fits on any empty in-bounds cell |
| Approx.ScanErrPersists | src/approx_image.rs:122-137 | once a score has failed, later candidates do not recover |
| Approx.IsEligible | src/approx_image.rs:136 | garbage is always tried; a tetromino only when `can_place` accepts it |
| Approx.ScanOne | src/approx_image.rs:134-144 | one candidate step extends the scan |
| Approx.ScanSkin | src/approx_image.rs:117-146 | one skin's loops extend the scan |
| Approx.ChooseBest | src/approx_image.rs:112-146 | the loops over all skins compute the scan of all candidates |
| Approx.Turn | src/approx_image.rs:106-151 | one turn on a board snapshot: a filled or off-board cell is skipped; otherwise a failed score is the only error, and the chosen candidate is placed with its skin; the grid only fills and, without garbage, gets no new gray or black cell |
| Approx.TurnFills | src/approx_image.rs:113-150 | with garbage allowed and always scorable, a turn at a cell on the board leaves that cell filled |
| Approx.Run | src/approx_image.rs:106-151 | the turns at a sequence of cells, stopping at the first failed score; the grid only fills |
| Approx.RunStep | src/approx_image.rs:106-151 | a run one cell longer is the run followed by one more turn |
| Approx.RunFills | src/approx_image.rs:106-151 | with garbage allowed and always scorable, a run fills every on-board cell it visits |
| Approx.ProcessedDetermined | src/approx_image.rs:104-154 | a successful pass over given queued cells has one order of turns and one resulting board |
| Approx.PoppingStep | src/approx_image.rs:106-151 | popping the largest cell left and taking a turn that does not fail keeps the loop state: popped cells largest first, each at least every cell left, board equal to the run over them |
| Approx.PoppingStops | src/approx_image.rs:122-149 | a turn whose score fails ends the pass with that error, the board as the earlier turns left it, and the unpopped cells still in the heap |
| Approx.PoppingDone | src/approx_image.rs:106-153 | once the heap is empty the pass has taken a turn at every queued cell, largest first; with garbage always scorable every queued cell is filled |
| Approx.PopTurn | src/approx_image.rs:106-151 | one round of the loop: no pop on an empty heap and nothing changes; otherwise the popped cell's turn either keeps the loop state or ends the pass with a failed score |
| Approx.ProcessCell | src/approx_image.rs:106-151 | the board becomes exactly what `Turn` makes of it: on an empty cell the chosen candidate's piece is appended, its cells written and painted with its skin id; the call fails exactly when `Turn` does, and then nothing changes |
| Approx.PlaceChosen | src/approx_image.rs:148-150 | placing a chosen candidate that is placeable cannot fail: the grid gets the piece, its cells get the skin id, the piece is appended, and consistency and skin agreement are kept |
| Approx.ProcessHeap | src/approx_image.rs:104-154 | pops the cells largest first, each at least every cell left; on success the heap is empty and the board is the run of turns over the popped cells; on a failed score the unpopped cells stay and the board is as the turns before the failing one left it; cells only fill; with garbage and finite scores every queued cell ends up filled |
| Approx.FullFromQueue | src/approx_image.rs:82-90 | queuing every empty cell and filling each queued one leaves the board full |
| Approx.ProcessHeapPrioritize | src/approx_image.rs:77-92 | a pass without garbage over the heap; if it succeeds, the cells then still empty, and only those, are queued and a pass with garbage runs over them; a failure of the first pass is the result and skips the rest; with finite garbage scores the board ends full |
| Approx.QueueEmpty | src/approx_image.rs:82-89 | the empty heap receives exactly the empty cells of the board |
| Approx.EmptyRows | src/approx_image.rs:82-89 | a cell is listed exactly when it lies on the board in row `y` or a later one and is empty |
| Approx.QueueRow | src/approx_image.rs:82-87 | the heap keeps its order and its contents grow by exactly the empty cells of the row |
| Approx.EmptyRowCells | src/approx_image.rs:82-87 | a cell is listed exactly when it lies in the row within the board and is empty |
| Approx.Approx | src/approx_image.rs:48-75 | the board has the requested size and skins; `DimensionOverflow` exactly when a side exceeds `u32`; otherwise every cell is queued and the passes run from the blank board, as `Processed` (one pass with garbage) or `Prioritized` state, so the only other error is a failed score; with finite garbage scores the finished board is drawable (full, every cell with a skin) |
| Approx.QueueAll | src/approx_image.rs:59-65 | a new heap holding every cell of the board |
| Approx.GridRows | src/approx_image.rs:61-65 | a cell is listed exactly when it lies on the board in row `y` or a later one |
| Approx.RunPasses | src/approx_image.rs:68-71 | from the blank board with every cell queued, the chosen passes end as `Processed` or `Prioritized` state; a failed score is the only error; with finite garbage scores the board is drawable |
| Approx.PushRow | src/approx_image.rs:61-65 | the heap keeps its order and its contents grow by exactly the cells of the row |
| Approx.RowCells | src/approx_image.rs:62-64 | a cell is listed exactly when it lies in the row, left of the board width |
| LegacyPieces.ShapesWellFormed | src/piece.rs:34-85 | seven tables of four rows, each four distinct offsets in [-2, 2] including (0, 0) |
| LegacyPieces.ShapeIndex | src/piece.rs:133-141 | the kind's position in `SHAPES`, below 7 |
| LegacyPieces.AccessorsRoundTrip | src/piece.rs:108-130 | `get_cell` and `get_orientation` return what the piece was built from |
| LegacyPieces.ShapeTable | src/piece.rs:133-141 | the kind's entry of `SHAPES`, well formed |
| LegacyPieces.Dirs | src/piece.rs:143-149 | the orientation's row is well formed and fits the drawing canvas |
| LegacyPieces.ShapeLetter | src/board.rs:43 | a non-blank letter, the kind's letter in IOTLJSZ |
| LegacyPieces.TruncI32 | src/piece.rs:154-155 | `as i32` lands in the i32 range and is the identity on values that fit |
| LegacyPieces.OccupancyAsWritten | src/piece.rs:132-163 | a successful occupancy, as written, has four cells |
| LegacyPieces.RowOccupancyAsWritten | src/piece.rs:152-162 | the loop as written, for one row, yields four cells when it succeeds |
| LegacyPieces.OccupancyCharacterised | src/piece.rs:132-163 | corrected: fails exactly when the anchor is too large or an offset leaves [0, i32::MAX]; otherwise four distinct cells, anchor + offset k, including the anchor |
| LegacyPieces.WrappedAgrees | src/piece.rs:154-158 | for an anchor that fits in an i32, the wrapped sum is negative exactly when the exact sum leaves the range, and otherwise equals it |
| LegacyPieces.RowAsWrittenAgrees | src/piece.rs:152-162 | for anchors that fit in an i32, the program as written and the corrected occupancy agree on a row |
| LegacyPieces.AsWrittenAgreesInRange | src/piece.rs:132-163 | for anchors that fit in an i32, as written and corrected agree |
| LegacyPieces.TruncationMovesPiece | src/piece.rs:154-160 | an I at x = 2^32 + 2 succeeds as written with four cells that miss its anchor; the corrected occupancy rejects it |
| LegacyPieces.OccupancyTests | src/piece.rs:183-194 | an I NORTH at (0, 0) fails; at (2, 2) it occupies (1, 2) to (4, 2) |
| LegacyPieces.GetOccupancy | src/piece.rs:132-163 | the corrected loop computes the corrected occupancy |
| LegacyPieces.WrappedOffsetCell | src/piece.rs:154-160 | one loop step as written: fails exactly on a negative wrapped coordinate, else the wrapped cell |
| LegacyPieces.GetOccupancyAsWritten | src/piece.rs:132-163 | the loop as written computes `OccupancyAsWritten` |
| LegacyBoards.PlacedCells | src/board.rs:42-44 | placing keeps the grid size |
| LegacyBoards.ClearedCells | src/board.rs:55-57 | blanking keeps the grid size |
| LegacyBoards.PlacedContents | src/board.rs:30-48 | a placement writes the letter into exactly the piece's cells and leaves every other position |
| LegacyBoards.PlaceThenClear | src/board.rs:30-68 | placing and then blanking the piece's cells restores the grid |
| LegacyBoards.SameAnchorBlocked | src/board.rs:30-48 | after a placement, no piece with the same anchor can be placed |
| LegacyBoards.HorizontalI | src/board.rs:85 | an I NORTH at (x, 0) occupies x - 1 to x + 2 |
| LegacyBoards.PlaceOnEmptyBoard | src/board.rs:82-87 | an I at (1, 0) fits an empty 10 x 20 board |
| LegacyBoards.PlaceOutOfBoundsLow | src/board.rs:89-94 | an I at (0, 0) does not fit |
| LegacyBoards.PlaceOutOfBoundsHigh | src/board.rs:96-101 | an I at (8, 0) does not fit |
| LegacyBoards.PlaceOverlapTests | src/board.rs:103-118 | the same I, or a T at its anchor, cannot be placed twice |
| LegacyBoards.Board.constructor | src/board.rs:13-20 | `w * h` blank cells and no pieces |
| LegacyBoards.Board.Get | src/board.rs:70-75 | an error exactly out of bounds, else the row-major position |
| LegacyBoards.Board.Place | src/board.rs:30-48 | succeeds exactly when placeable; writes the letter and appends the piece; a failure changes nothing |
| LegacyBoards.Board.CheckVacant | src/board.rs:33-39 | the checking loop of `place` succeeds exactly when every occupied cell is in bounds and empty; it changes nothing |
| LegacyBoards.Board.WriteThrough | src/board.rs:42-44 | the write loop yields `WriteCells` and succeeds exactly when every cell is in bounds |
| LegacyBoards.Board.UndoLastMove | src/board.rs:50-59 | an error and no change with no pieces; otherwise pops the last piece and blanks its cells |
| LegacyBoards.Board.RemovePiece | src/board.rs:61-68 | blanks the piece's cells and drops every equal entry; an occupancy error changes nothing |
| AudioClips.MaxSample | src/approx_audio/audio_clip.rs:190 | the larger of the two values |
| AudioClips.Resize | src/approx_audio/audio_clip.rs:212 | n samples: the old ones, then zeros |
| AudioClips.NewMonoamplitude | src/approx_audio/audio_clip.rs:66-79 | a well-shaped clip of the given size, every sample the amplitude, the amplitude as maximum, an empty file name |
| AudioClips.MonoamplitudeTest | src/approx_audio/audio_clip.rs:265-277 | one channel of 44100 samples, all 0.5 |
| AudioClips.ScaleChannel | src/approx_audio/audio_clip.rs:196-200 | every sample multiplied |
| AudioClips.ScaleAmplitude | src/approx_audio/audio_clip.rs:194-203 | samples and maximum amplitude multiplied; shape and metadata kept |
| AudioClips.ScaleRoundTrip | src/approx_audio/audio_clip.rs:194-203 | scaling by m then by 1/m gives the clip back |
| AudioClips.ScaleMonoamplitude | src/approx_audio/audio_clip.rs:328-343 | scaling a constant clip scales the constant |
| AudioClips.ZeroPad | src/approx_audio/audio_clip.rs:207-216 | m samples per channel, old samples kept, zeros after, metadata kept |
| AudioClips.AddedChannels | src/approx_audio/audio_clip.rs:173-178 | the channel count is kept |
| AudioClips.AddedChannelsSamples | src/approx_audio/audio_clip.rs:169-179 | only samples below the limit of the first channels change, each by the other's sample (zero past its end) times m |
| AudioClips.AddThenSubtract | src/approx_audio/audio_clip.rs:169-179 | adding times m and then times -m restores the channels |
| AudioClips.AddMutTest | src/approx_audio/audio_clip.rs:345-357 | 0.25 plus 0.5 gives 0.75 everywhere |
| AudioClips.AppendedChannels | src/approx_audio/audio_clip.rs:186-188 | each of the first channels followed by the other's |
| AudioClips.WithNewChannels | src/approx_audio/audio_clip.rs:143-163 | as written: the old channels, then silent ones up to the target |
| AudioClips.AverageChannel | src/approx_audio/audio_clip.rs:152-160 | each sample times the channel count is the sum of the old channels' samples |
| AudioClips.WithAveragedChannels | src/approx_audio/audio_clip.rs:134-160 | corrected: the old channels, then copies of their mean |
| AudioClips.AveragedChannelsCopy | src/approx_audio/audio_clip.rs:134-160 | corrected: channels that agree gain copies of that channel |
| AudioClips.NewChannelsSilent | src/approx_audio/audio_clip.rs:137-165 | as written, the new channel of a clip of 1.0 is silent, not the mean 1.0 |
| AudioClips.AudioClip.AddMut | src/approx_audio/audio_clip.rs:169-179 | the channels become `AddedChannels` below the smaller sample count; nothing else changes |
| AudioClips.AudioClip.AppendMut | src/approx_audio/audio_clip.rs:182-192 | channels extended, sample counts added, the larger amplitude kept |
| AudioClips.AudioClip.AddNewChannelsMut | src/approx_audio/audio_clip.rs:137-165 | the channels become `WithNewChannels` and the count the target; the clip stays well shaped |
| AudioClips.AddIntoChannel | src/approx_audio/audio_clip.rs:174-178 | the inner sample loop computes `AddedChannel` |
| Windowing.CeilDivIndex | src/approx_audio/audio_clip.rs:121 | a start k * b lies below n exactly when k is below the number of `step_by` starts |
| Windowing.CeilDivQuotient | src/approx_audio/fft.rs:396 | the number of starts is n / b, plus one when b does not divide n |
| Windowing.DecimalString | src/approx_audio/windowing.rs:15 | nonempty decimal digits |
| Windowing.DecimalRoundTrip | src/approx_audio/windowing.rs:15 | the digits in a window's file name determine the number |
| Windowing.WindowChannel | src/approx_audio/windowing.rs:9-14 | end - start samples, the channel's own while inside it, zeros past its end |
| Windowing.Window | src/approx_audio/windowing.rs:7-25 | every channel windowed, end - start samples, the bounds in the file name, the rest copied |
| Windowing.WindowOfWindow | src/approx_audio/windowing.rs:7-25 | a window of a window is a window of the clip with shifted bounds |
| Windowing.WindowWhole | src/approx_audio/windowing.rs:7-25 | windowing over the whole length keeps every sample |
| Windowing.ZeroPadIsWindow | src/approx_audio/audio_clip.rs:207-216 | zero padding to m samples is the window from 0 to m |
| Windowing.ZeroPadThenWindow | src/approx_audio/audio_clip.rs:207-216 | padding and then windowing back gives the old samples |
| Windowing.AppendThenWindow | src/approx_audio/audio_clip.rs:182-192 | the two windows of an appended clip are its parts |
| Windowing.WindowOfConstant | src/approx_audio/windowing.rs:32-74 | on a constant clip the window holds the amplitude inside the clip and zeros past its end |
| Windowing.Chunks | src/approx_audio/audio_clip.rs:117-127 | one chunk per start below the sample count |
| Windowing.ChunkSamples | src/approx_audio/audio_clip.rs:121-123 | chunk k starts inside the clip and runs to the next start or the end |
| Windowing.ChunksPrefixSamples | src/approx_audio/audio_clip.rs:117-127 | the first K chunks hold min(K * chunk, n) samples |
| Windowing.ChunksFacts | src/approx_audio/audio_clip.rs:117-127 | CeilDiv(n, chunk) chunks; chunk k is the window from k * chunk; all but the last exactly `chunk` long; the lengths sum to n |
| Windowing.ChunksAreWindows | src/approx_audio/audio_clip.rs:117-127 | chunk k starts at k * chunk, inside the clip, and is the window up to the next start or the end |
| Windowing.ChunksFull | src/approx_audio/audio_clip.rs:117-127 | every chunk but the last holds exactly `chunk` samples |
| Windowing.ChunksTotal | src/approx_audio/audio_clip.rs:117-127 | the chunk lengths add up to the clip's sample count |
| Windowing.SplitByDuration | src/approx_audio/audio_clip.rs:117-127 | the loop computes `Chunks` |
| Fft.MakeOdd | src/approx_audio/fft.rs:145-151 | an odd number, n or n + 1, equal to n exactly when n is odd |
| Fft.StftFrames | src/approx_audio/fft.rs:41-51 | one frame per start below the sample count |
| Fft.StftFramesFacts | src/approx_audio/fft.rs:41-51 | frame k exists exactly when k * hop lies inside the clip, and is the transform of the window from k * hop |
| Fft.StftCountTests | src/approx_audio/fft.rs:385-411 | for 1000 samples, hops 256 and 512 give `num_samples / hop + 1` frames |
| Fft.Stft | src/approx_audio/fft.rs:41-51 | the loop computes `StftFrames` |
| Fft.Masks | src/approx_audio/fft.rs:181-206 | both masks have the harmonic input's dimensions; the harmonic entry is 1 and the other 0 exactly when the harmonic input is at least the percussive one, and the reverse exactly when it is smaller |
| Fft.MasksComplementary | src/approx_audio/fft.rs:196-201 | mask entries are 0 or 1 and add up to 1 |
| Fft.MaskBins | src/approx_audio/fft.rs:196-201 | the bin loop writes one channel of both masks |
| Fft.MaskChannels | src/approx_audio/fft.rs:195-202 | the channel loop writes one timestamp of both masks |
| Fft.BinaryMask | src/approx_audio/fft.rs:181-206 | the loops compute `Masks` |
| Fft.Masked | src/approx_audio/fft.rs:128-139 | every bin within the mask's dimensions multiplied by its entry; everything else unchanged |
| Fft.MasksReassemble | src/approx_audio/fft.rs:122-139 | within the masks' dimensions the harmonic and percussive parts add up to the original STFT, each bin going wholly to one side |
| Fft.MaskRowInPlace | src/approx_audio/fft.rs:133-137 | the bin loop masks one channel in place |
| Fft.MaskFrameInPlace | src/approx_audio/fft.rs:132-138 | the channel loop masks one frame |
| Fft.ApplyMask | src/approx_audio/fft.rs:125-139 | the masking loops, bounded by the mask's dimensions, compute `Masked` |
| Fft.SplitStft | src/approx_audio/fft.rs:122-139 | the two masked STFTs are `Masked` with the two masks of the filtered norms |
| Fft.OverlapAdd | src/approx_audio/fft.rs:155-179 | hop * frames samples in the first frame's channel count and rate, starting from a silent clip |
| Fft.AddFrameChannel | src/approx_audio/fft.rs:172-174 | one frame channel added into its samples, cut at the output's end |
| Fft.AddFrame | src/approx_audio/fft.rs:171-175 | one frame added into every channel |
| Fft.FrameFits | src/approx_audio/fft.rs:170-172 | frame k's start lies inside the output and the frame covers up to the next window end |
| Fft.OverlapStep | src/approx_audio/fft.rs:170-176 | adding frame k to the sums of the first k frames gives those of the first k + 1 |
| Fft.InverseStft | src/approx_audio/fft.rs:155-179 | the overlap-add loop computes `OverlapAdd` |
| Fft.NoOverlapSum | src/approx_audio/fft.rs:166-176 | with hop-long frames, sample q * hop + rem is frame q's sample rem |
| Fft.WindowsOverlapAdd | src/approx_audio/fft.rs:155-179 | frames that are the clip's windows give back the clip's sample |
| Fft.WindowsRoundTrip | src/approx_audio/fft.rs:155-179 | consecutive hop-long windows overlap-add back to the clip |
| Fft.StftInverseRoundTrip | src/approx_audio/fft.rs:102-142 | with window size equal to the hop and an exact transform pair, the inverse of the STFT is the clip zero-padded to the next multiple of the hop |
| Fft.InverseFramesAreWindows | src/approx_audio/fft.rs:41-51 | with an exact inverse transform, inverting every frame of a hop-long STFT gives the clip's consecutive windows, starting at k * hop and each inside the clip |
| Fft.InverseFrameIsWindow | src/approx_audio/fft.rs:45-47 | inverting frame k with an exact inverse gives the window at k * hop, and k * hop lies inside the clip |
| Fft.WindowsOverlap | src/approx_audio/fft.rs:166-176 | consecutive hop-long windows of a clip satisfy what the overlap-add reads: enough channels, and every channel long enough for its part of the output |
| Fft.Columns | src/approx_audio/fft.rs:242-257 | the time series of every channel and bin |
| Fft.Reassembled | src/approx_audio/fft.rs:261-268 | the norms' shape, entry (t, c, b) taken from filtered[c][b][t] within the first timestamp's dimensions, the norms elsewhere |
| Fft.ReassembleColumns | src/approx_audio/fft.rs:242-268 | reassembling the unfiltered time series gives the norms back |
| Fft.WriteColumn | src/approx_audio/fft.rs:264-266 | the timestamp loop writes one channel and bin |
| Fft.ReassembleH | src/approx_audio/fft.rs:261-268 | the reassembly loops compute `Reassembled` |
| OnsetDetect.ZeroPlane | src/approx_audio/onset_detect.rs:178-180 | c channels of b zeros |
| OnsetDetect.DeltaPlane | src/approx_audio/onset_detect.rs:157-169 | the bin-by-bin difference next - curr |
| OnsetDetect.FindDiffs | src/approx_audio/onset_detect.rs:156-183 | the same frame count and shape; frame 0 is zero and frame t is frame t minus frame t - 1 |
| OnsetDetect.DiffsTelescope | src/approx_audio/onset_detect.rs:156-183 | the differences of frames 0..t sum to the change of the bin from frame 0 to frame t |
| OnsetDetect.FilterNonNegs | src/approx_audio/onset_detect.rs:185-196 | the same shape; entries non-negative; non-negative entries kept and negative ones zeroed |
| OnsetDetect.FilterNonNegsIdempotent | src/approx_audio/onset_detect.rs:185-196 | filtering twice equals filtering once |
| OnsetDetect.CollapseDiffs | src/approx_audio/onset_detect.rs:199-207 | one value per frame, the sum of all its entries |
| OnsetDetect.CollapseRectified | src/approx_audio/onset_detect.rs:185-207 | a collapsed rectified frame is non-negative, and 0 exactly when no bin grew |
| OnsetDetect.FirstFrameSilent | src/approx_audio/onset_detect.rs:177-180 | the first collapsed difference is 0 |
| OnsetDetect.MaxOf | src/approx_audio/onset_detect.rs:227-230 | an element of the differences, at least every one of them |
| OnsetDetect.NormalizeDiffs | src/approx_audio/onset_detect.rs:226-238 | same length; each result times the largest difference gives the difference back; every result at most 1; exactly the largest differences become 1 |
| OnsetDetect.NormalizeReachesOne | src/approx_audio/onset_detect.rs:226-238 | some normalised difference is exactly 1 |
| OnsetDetect.NormalizeKeepsOrder | src/approx_audio/onset_detect.rs:234-237 | normalising keeps the order of any two differences, both ways |
| OnsetDetect.RemEuclid1 | src/approx_audio/onset_detect.rs:247 | a value in [0, 1) differing from x by a whole number |
| OnsetDetect.PrincipalValue | src/approx_audio/onset_detect.rs:240-247 | a value in [-0.5, 0.5) differing from v by a whole number |
| OnsetDetect.PrincipalValueFixed | src/approx_audio/onset_detect.rs:240-247 | exactly the values in [-0.5, 0.5) are left unchanged |
| OnsetDetect.PrincipalValuePeriodic | src/approx_audio/onset_detect.rs:240-247 | adding a whole number does not change the principal value |
| OnsetDetect.PrincipalArgument | src/approx_audio/onset_detect.rs:241-251 | the same shape, every entry its principal value, in [-0.5, 0.5) |
| OnsetDetect.PrincipalArgumentIdempotent | src/approx_audio/onset_detect.rs:241-251 | applying it twice changes nothing |
| OnsetDetect.LocalAvgs | src/approx_audio/onset_detect.rs:254-275 | one average per sample |
| OnsetDetect.LocalAvgOfConstant | src/approx_audio/onset_detect.rs:254-275 | on constant samples the average is the constant over a full window, scaled by the remaining fraction near the end |
| OnsetDetect.FindLocalAvgs | src/approx_audio/onset_detect.rs:254-275 | the two-pointer loop computes `LocalAvgs` |
| OnsetDetect.DebounceFacts | src/approx_audio/onset_detect.rs:72-84 | every onset is a frame start below k * hop whose difference is above the threshold; consecutive onsets are more than the gap apart; the active onset is the last one |
| OnsetDetect.DebounceOnsets | src/approx_audio/onset_detect.rs:72-84 | the loop computes the debounce fold; onsets are frame starts with a difference above the threshold, below the sample count, strictly increasing by more than the gap |
| OnsetDetect.DebounceExample | src/approx_audio/onset_detect.rs:72-84 | differences 0, .5, .5, 0, .5 with hop 512 and gap 600 give onsets 512 and 2048 |
| OnsetDetect.Boundaries | src/approx_audio/onset_detect.rs:17-26 | starts at 0; ends at the sample count unless the last onset is beyond it; holds the onsets in order; one element more for each insertion; nondecreasing and bounded for nondecreasing onsets |
| OnsetDetect.Pieces | src/approx_audio/onset_detect.rs:28-35 | one piece per neighbouring pair, the window between them |
| OnsetDetect.PieceSamples | src/approx_audio/onset_detect.rs:28-35 | piece k has b[k + 1] - b[k] samples, the clip's samples between its boundaries |
| OnsetDetect.PiecesCoverClip | src/approx_audio/onset_detect.rs:14-36 | the pieces' lengths add up to the sample count and their channels laid end to end are the clip's |
| OnsetDetect.PiecesTotal | src/approx_audio/onset_detect.rs:331 | the pieces' lengths add up to the sample count |
| OnsetDetect.PiecesConcat | src/approx_audio/onset_detect.rs:14-36 | a channel of the pieces laid end to end is the clip's channel |
| OnsetDetect.SplitByOnsets | src/approx_audio/onset_detect.rs:14-36 | fails exactly when the last onset is beyond the sample count (the program's assertion); otherwise the pieces between the boundaries |
| OnsetDetect.InsertBounds | src/approx_audio/onset_detect.rs:17-26 | inserting 0 in front when the first onset is positive, and the sample count at the back when the last is below it, computes the boundaries |
| OnsetDetect.BoundariesSplittable | src/approx_audio/onset_detect.rs:17-35 | the boundaries of nondecreasing onsets none past the end give windows that are all defined |

## Left out

Convention: a Rust panic becomes a precondition. This covers `assert!`, `assert_eq!`, `unwrap`, `expect`, division by zero, an index out of range and `step_by(0)`. Where `?` returns an error, the model returns an error too.

- Skins.NewBlockImage: requires the pixel count and the `u32` channel sums (src/approx_image/draw.rs:206-212) to stay within `u32`. A release build would wrap them silently and store a wrong average; the model does not describe that wrapped average.
- Scoring.AveragePixelGrid: requires a block's `u32` channel sums (src/approx_image.rs:172-179) to stay within `u32`, which `255 * block size <= u32::MAX` ensures. Larger blocks would wrap silently in a release build; the model does not describe that.
- LegacyBoards.Board.Place: is built on the corrected occupancy `LegacyPieces.Occupancy`, as the first row of "## Findings" says. For an anchor above i32::MAX, src/board.rs:31 uses the truncated cells of `OccupancyAsWritten`, and the model returns `OccupancyFailed` instead. For anchors that fit in an i32 the two agree (`LegacyPieces.AsWrittenAgreesInRange`).
- LegacyBoards.Board.UndoLastMove: blanks the corrected occupancy. For an anchor above i32::MAX, src/board.rs:55 blanks the truncated cells instead. For anchors that fit in an i32 the two agree.
- LegacyBoards.Board.RemovePiece: uses the corrected occupancy. For an anchor above i32::MAX, src/board.rs:61 blanks the truncated cells, and the model fails with `OccupancyFailed` instead. For anchors that fit in an i32 the two agree.
- Image and audio I/O are not modelled: loading images, skins and wave files, `write`, `dump`, drawing pixels, `create_skins`, `run`.
- Resampling is not modelled: Lanczos resizing in `resize_image` and `BlockImage::resize`.
- Approx.Approx: the score `avg_piece_pixel_diff` (src/approx_image.rs:197-268) is a parameter of the model. Its square roots and powers are floating point. What is proved holds for every score function.
- Approx.Approx: the drawing of the finished board is reduced to the proof that it is drawable.
- Floating point is modelled as exact reals throughout. Float rounding, NaN and infinity are not modelled. Neither are the `duration` and `frequency_resolution` fields (f64 quotients).
- Fft.Stft: the forward FFT is a parameter, and the windowing function is taken as the rectangular one.
- Fft.InverseStft: takes the frames after the inverse FFT and the windowing, because the inverse FFT is not modelled.
- The median filter `medfilt_slice` is not modelled, and neither is `medfilt_v`. `medfilt_h` is modelled as its collection and reassembly around the filter, which is a parameter.
- `get_norms`, `find_phase_stft` and `apply_gamma_log` are not modelled: they are transcendental functions (norm, atan2, log).
- rayon parallel iterators and progress bars are not modelled; the model runs sequentially.
- OnsetDetect.DebounceOnsets: the threshold and gap are parameters. The program's constants are 0.2 and 0.2 s, or 0.175 and 0.1 s for the phase variant, and both pass through float-to-integer casts.
- The local-average subtraction at src/approx_audio/onset_detect.rs:63-65 is not modelled, and neither is the window-size arithmetic before it.
- OnsetDetect.SplitByOnsets: takes the onsets as input instead of running detection.
- Fft.MasksReassemble: the masking loops cover the mask's dimensions, so the sum property is stated there only. The entries outside are unchanged by `Masked`.
- Fft.OverlapAdd: the maximum amplitude of the result stays 0, as written.
- LegacyPieces.ShapeLetter: `src/board.rs` calls `get_char`, which `src/piece.rs` does not define; the model uses the kind's letter.
- AudioClips.AudioClip.AddNewChannelsMut: the loop meant to fill the new channels iterates over `self.channels`, which has no new channels, so it never writes. The model computes its sum only in `AverageChannel`.
- The `print` methods and `print_all_shapes` are not modelled (console output).

## Findings

| source | as written | input that shows it | evidently intended | confidence | as-written member | corrected member |
|---|---|---|---|---|---|---|
| src/piece.rs:154-160 | the anchor is cast with `as i32`, which silently truncates coordinates above i32::MAX | an I NORTH at (2^32 + 2, 2) succeeds with cells (1, 2) to (4, 2), which do not include its anchor | reject anchors that do not fit in an i32, as the newer `src/approx_image/piece.rs:183` does with `try_from` | high, not executed | LegacyPieces.TruncationMovesPiece | LegacyPieces.OccupancyCharacterised |
| src/approx_audio/audio_clip.rs:158-163 | the averaging loop walks `self.channels`, which holds only the old channels, and the zero-filled copy then replaces them | a one-channel clip of 1.0 extended to two channels gets a silent second channel | new channels hold the mean of the old ones, as the doc comment at lines 134-135 says | high, not executed | AudioClips.NewChannelsSilent | AudioClips.AveragedChannelsCopy |

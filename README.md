# Match3 grid, pieces, levels and HUD in Dafny

This project models the game core of a Unity match-three sample: the grid controller,
the pieces on it, the three level types and the heads-up display.

**The grid.** GridController owns an `xDim` by `yDim` array of pieces. It:
- fills the grid at start-up;
- lets pieces fall one row per step (straight down, or diagonally past an immovable
  obstacle), with new Normal pieces dropped into the top row;
- finds lines, L-shapes and T-shapes of one colour and clears them;
- promotes a match of four into a row or column clearer and a match of five into a
  Rainbow;
- swaps two adjacent pieces that the player pressed and entered, and takes the swap back
  when it makes no match.

**Clearing and the levels.** Clearing a piece reports it to the level, and it can set off
more clearing:
- a Bubble next to a cleared cell is cleared too;
- a row or column clearer clears its line;
- a Rainbow clears a colour.

The level adds each cleared piece's score. Depending on its type it counts moves,
obstacles or seconds, and ends the game. Once the grid stops filling, the display shows
the outcome with up to three stars.

**How the model is built.**
- **Pieces are values.** A piece is a `Pieces.Piece` record: coordinates, type, score,
  which optional components are attached, colour, clear behaviour and clearing flag. The
  grid keeps every piece ever spawned in an arena `pieces: seq<Piece>`, and a piece's
  index there is its identity.
- **The cell array.** `Match3.GridController.cells: array2<PieceId>` is `_pieces`. Its
  contents are mirrored by the ghost value `board`.
- **State-changing parts are classes.** The grid controller, the level and the display
  controller are classes whose methods update their fields in place.
- **Pure rules are functions of a snapshot.** Match finding, gravity, the swap rules,
  GetPiecesOfType and the clock text are functions of a grid snapshot (`Board.Snap`).
  The gravity methods are proved equal to their functions (`Gravity.FillStep` and the
  functions below it). The properties are then proved about those functions.
- **Randomness.** Random.Range reads the next value of a fixed stream `rng`, and `draws`
  counts the values used.
- **Coroutines become ticks.** Fill and WaitForGridFill are coroutines. They are
  modelled as resumable steps: `ResumeFill` runs one FillStep, or the match clearing that
  follows the last step, and `ResumeReport` runs WaitForGridFill's resumption.
- **Clearing carries a termination measure.** ClearPiece, RemovablePiece.Clear and
  ClearRow/ClearColumn/ClearColor call each other. They are proved to terminate: each
  clear lowers the number of cells that hold a clearable piece not yet being cleared.

## Model

| member | source | states |
|---|---|---|
| Pieces.ColorAt | Assets/Scripts/GridController.cs:190 | casting an ordinal below six to ColorType gives a named colour, never the Any wildcard |
| Pieces.Instantiate | Assets/Scripts/GridController.cs:209 | a fresh piece has exactly its prefab's components, clear behaviour and score, is not being cleared, and has the default colour |
| Pieces.Init | Assets/Scripts/GamePiece.cs:55-61 | Init sets the coordinates and type directly, past the movable guard, and changes nothing else |
| Pieces.SetX | Assets/Scripts/GamePiece.cs:18-28 | the X setter changes a movable piece's column only; an immovable piece is left exactly as it was |
| Pieces.SetY | Assets/Scripts/GamePiece.cs:30-40 | the Y setter changes a movable piece's row only; an immovable piece is left exactly as it was |
| Pieces.Move | Assets/Scripts/MovablePiece.cs:17-30 | a move goes through both guarded setters: a movable piece ends at the target, an immovable one is unchanged, nothing else changes |
| Pieces.SetColor | Assets/Scripts/ColorPiece.cs:52-64 | SetColor sets the colour and nothing else |
| Pieces.SetClearColor | Assets/Scripts/GridController.cs:272-276 | only a ClearColorPiece takes the other piece's colour as its target; any other piece is unchanged |
| Pieces.MarkBeingCleared | Assets/Scripts/RemovablePiece.cs:30-33 | Clear raises IsBeingCleared and changes nothing else of the piece |
| Pieces.Spawn | Assets/Scripts/GridController.cs:207-216 | SpawnNewPiece's piece sits at (x, y), has the requested type and its prefab's components, default colour and no clearing flag |
| Board.Put | Assets/Scripts/GridController.cs:212 | writing a cell changes that cell only; the pieces and the draw count stay |
| Board.SpawnAt | Assets/Scripts/GridController.cs:207-216 | SpawnNewPiece appends exactly the spawned piece and points cell (x, y) at it; every other cell keeps its piece |
| Board.Draw | Assets/Scripts/GridController.cs:316 | Random.Range(lo, hi) on integers lies in [lo, hi), and is lo when the range is empty |
| Board.CountColumnMono | Assets/Scripts/RemovablePiece.cs:28-36 | in one column, the number of cells holding a clearable piece not yet being cleared never grows across a clear, and falls when such a cell is settled |
| Board.CountPendingMono | Assets/Scripts/RemovablePiece.cs:28-36 | the same over the whole grid: the measure that makes the clearing recursion terminate |
| Board.ClearStepRefl | Assets/Scripts/GridController.cs:482-486 | a ClearPiece that finds nothing to clear is a clearing step that changes nothing |
| Board.ClearStepTrans | Assets/Scripts/GridController.cs:482-494 | two clearing steps in a row are one clearing step (pieces only gain flags, rewritten cells hold fresh pieces, no pending cell appears) |
| Board.StaysSettled | Assets/Scripts/GridController.cs:485-486 | a cell with nothing left to clear keeps having nothing to clear |
| Board.ChangedSettled | Assets/Scripts/GridController.cs:489 | a cell a clear rewrote holds a piece with nothing left to clear, the Empty placeholder |
| Board.RowStep | Assets/Scripts/GridController.cs:525-529 | after ClearPiece on cell x of the row, cells 0..x of the row have nothing left to clear |
| Board.ColumnStep | Assets/Scripts/GridController.cs:531-535 | after ClearPiece on cell y of the column, cells 0..y of the column have nothing left to clear |
| Matching.ScanMatches | Assets/Scripts/GridController.cs:413-433 | every piece a directional scan collects is coloured with the scanned colour |
| Matching.ScanContiguous | Assets/Scripts/GridController.cs:413-433 | the i-th scanned piece sits i cells further along the direction, inside the grid, with the colour, and from an in-bounds start the cell just past the run is outside the grid or lacks the colour: the scan is the whole contiguous run |
| Matching.LineSpawned | Assets/Scripts/GridController.cs:407-437 | a matching line starts with the start cell's own piece, whatever its colour, and continues with pieces of the colour |
| Matching.BranchIsFirstQualifying | Assets/Scripts/GridController.cs:445-477 | the L/T extension adds the perpendicular run of the first base piece whose run has at least two pieces, or nothing when none does |
| Matching.LShapeKeepsBase | Assets/Scripts/GridController.cs:440-480 | the L/T result begins with the base line, and is the base alone or the base plus the first qualifying perpendicular run |
| Matching.PerpendicularMatches | Assets/Scripts/GridController.cs:448-469 | a perpendicular run collects only pieces of the colour |
| Matching.MatchShape | Assets/Scripts/GridController.cs:372-404 | there is no match exactly when the piece is uncoloured or both its horizontal and vertical lines are shorter than three; a match has at least three pieces, begins with the cell's piece, and the rest have the colour; it begins with the horizontal line when that has three pieces, and with the vertical line when only that one has |
| Matching.LShapeAddsMatches | Assets/Scripts/GridController.cs:440-480 | extending a line keeps it as the prefix and adds only pieces of the colour |
| Swapping.IsAdjacent | Assets/Scripts/GridController.cs:218-223 | two pieces are adjacent exactly when their cells are at Manhattan distance one |
| Swapping.AdjacentSymmetric | Assets/Scripts/GridController.cs:218-223 | adjacency does not depend on the order of the pieces, and adjacent pieces sit in different cells |
| Swapping.RefusedSwapRestores | Assets/Scripts/GridController.cs:260-265 | a swap that is taken back leaves every cell as it was |
| Swapping.Swapped | Assets/Scripts/GridController.cs:230-236 | the exchange writes two cells and changes no piece |
| Swapping.Restored | Assets/Scripts/GridController.cs:263-264 | the take-back writes two cells more and changes no piece |
| Swapping.RestoredPlaced | Assets/Scripts/GridController.cs:260-265 | a grid whose pieces record their own cells stays so after a refused swap |
| Swapping.RefusedSwapOfStalePiece | Assets/Scripts/GridController.cs:260-265 | a refused swap of a piece that has left the grid (cleared and replaced, still recording its last cell) does not give the grid back: a two-cell example |
| Swapping.Exchanged | Assets/Scripts/GridController.cs:240-244 | the coordinate exchange changes no piece but the two swapped ones |
| Swapping.ExchangedPlaced | Assets/Scripts/GridController.cs:230-244 | exchanging the cells and then the coordinates of two movable pieces keeps every cell's piece in the cell it records |
| Swapping.SameRow | Assets/Scripts/GridController.cs:327-333 | the swap direction is known exactly when both the pressed and the entered piece are recorded |
| Swapping.SpecialKind | Assets/Scripts/GridController.cs:315-335 | five or more pieces earn a Rainbow, exactly four a row or column clearer (a row clearer exactly for a swap along a row, or for a roll of RowClear with no swap recorded), fewer nothing |
| Swapping.Painted | Assets/Scripts/GridController.cs:357-365 | only the colour changes: a coloured line clearer takes the first matched piece's colour when that piece is coloured, and a coloured Rainbow takes Any |
| Swapping.Promoted | Assets/Scripts/GridController.cs:354-365 | the special piece is the freshly spawned piece of that type at the chosen cell, coloured as above |
| Gravity.RelocateMoves | Assets/Scripts/GridController.cs:134-142 | a fall moves the piece's identity to the target cell and its record there, puts a new Empty in the vacated cell, and changes nothing else |
| Gravity.HasPieceAboveSpec | Assets/Scripts/GridController.cs:154-165 | hasPieceAbove is false exactly when, scanning up the diagonal column from the current row, an immovable non-Empty piece comes before any movable one |
| Gravity.TryDiagonalMoves | Assets/Scripts/GridController.cs:146-173 | the diagonal attempt either changes nothing or moves the piece one row down into another column |
| Gravity.StepCellMoves | Assets/Scripts/GridController.cs:129-174 | one cell's step changes nothing, or moves its piece one row down, straight or diagonally |
| Gravity.MovedDownInvariant | Assets/Scripts/GridController.cs:134-142 | a fall keeps every immovable obstacle and every clearing flag, and the new Empty placeholder is immovable |
| Gravity.StepCellInvariant | Assets/Scripts/GridController.cs:131-174 | one cell's step keeps immovable non-Empty pieces in place, keeps clearing flags, and reports a move exactly when it spawned |
| Gravity.RowPrefix | Assets/Scripts/GridController.cs:127-175 | the sweep of a row, left to right or mirrored by `_inverse`, keeps the same step invariant |
| Gravity.RowsFrom | Assets/Scripts/GridController.cs:125-176 | the sweep from row yDim-2 up to row 0 keeps the same step invariant |
| Gravity.RefillPiece | Assets/Scripts/GridController.cs:185-190 | a refill piece is a Normal piece, not being cleared, that lands in cell (x, 0) |
| Gravity.RefillCell | Assets/Scripts/GridController.cs:181-194 | after refilling column x its top cell holds a non-Empty piece and no other cell changes |
| Gravity.RefillPrefix | Assets/Scripts/GridController.cs:179-195 | after the refill loop no top-row cell holds an Empty piece |
| Gravity.FillStepProperties | Assets/Scripts/GridController.cs:120-198 | after one FillStep the top row has no Empty piece, immovable obstacles have not moved, clearing flags are kept, and it reports a move exactly when something changed; on a grid whose pieces record their own cells every piece stays or falls exactly one row, into its own or a neighbouring column, and the grid stays so |
| Gravity.MovedDownFalls | Assets/Scripts/GridController.cs:134-142 | a fall keeps every cell's piece in the cell it records, and the moved piece fell one row |
| Gravity.StepCellFalls | Assets/Scripts/GridController.cs:129-174 | a cell step after the earlier cells of its row keeps the grid placed, and no piece of the row falls twice |
| Gravity.RowFalls | Assets/Scripts/GridController.cs:125-176 | a row swept after the rows below it moves no piece a second time |
| Gravity.FallsTrans | Assets/Scripts/GridController.cs:125-176 | a piece that fell lands below every row the next stage moves pieces from, so over both stages it falls at most once |
| Gravity.KeptFalls | Assets/Scripts/GridController.cs:179-195 | the refill spawns new pieces and moves none of the existing ones |
| Gravity.FillStepFalls | Assets/Scripts/GridController.cs:120-198 | on a placed grid FillStep keeps it placed and every piece stays or falls one row |
| Queries.ColumnOfTypeMembers | Assets/Scripts/GridController.cs:560-564 | one column's scan lists exactly the pieces of the type held in that column |
| Queries.ColumnOfTypeCount | Assets/Scripts/GridController.cs:560-564 | one column's scan has exactly one entry per cell of the column holding a piece of the type |
| Queries.PiecesOfTypeMembers | Assets/Scripts/GridController.cs:555-567 | GetPiecesOfType lists exactly the pieces of the type held by some cell |
| Queries.PiecesOfTypeCount | Assets/Scripts/GridController.cs:555-567 | GetPiecesOfType has exactly one entry per cell holding a piece of the type, so no more entries than cells |
| Queries.PiecesOfTypeEmpty | Assets/Scripts/GridController.cs:555-567 | GetPiecesOfType is empty exactly when no cell holds a piece of the type |
| Queries.ObstacleTotalZero | Assets/Scripts/LevelObstacles.cs:19-22 | the obstacle count starts at zero exactly when no cell holds a piece of an obstacle type |
| Clock.ClockParts | Assets/Scripts/LevelTimer.cs:48-49 | C# truncating division: minutes * 60 + seconds gives back the total, the seconds part is below 60 in size, and both parts share the total's sign |
| Clock.NatToString | Assets/Scripts/DisplayController.cs:30 | int.ToString of a natural number is a non-empty string of digits without a leading zero |
| Clock.Pad2 | Assets/Scripts/LevelTimer.cs:50 | the `00` format writes a non-negative seconds value as exactly two digits |
| Clock.FormatClock | Assets/Scripts/LevelTimer.cs:46-51 | for a non-negative time the text is digits, one colon, then exactly two digits |
| Clock.ParseNatToString | Assets/Scripts/DisplayController.cs:30 | reading back the decimal text of a natural number gives the number |
| Clock.ParseIntToString | Assets/Scripts/DisplayController.cs:30 | reading back the decimal text of any integer, sign included, gives the integer |
| Clock.ParsePad2 | Assets/Scripts/LevelTimer.cs:50 | reading back the two-digit seconds text gives the seconds |
| Clock.FormatClockRoundTrip | Assets/Scripts/LevelTimer.cs:46-51 | the timer text determines the time: splitting it at its colon and reading both parts gives back the seconds, for every integer |
| Display.StarIndex | Assets/Scripts/DisplayController.cs:89-98 | the star index is 0 to 3: 3 exactly from the third threshold on, 2 exactly between the second and third, 1 exactly between the first and second |
| Display.StarIndexCountsThresholds | Assets/Scripts/DisplayController.cs:89-98 | with ordered thresholds the star index is the number of thresholds the score reaches |
| Display.StarIndexMonotone | Assets/Scripts/DisplayController.cs:89-98 | with ordered thresholds a higher score never shows fewer stars |
| Display.DisplayController.constructor | Assets/Scripts/DisplayController.cs:21 | the display starts at star index 0 with empty texts, nothing shown, and the stored best star count |
| Display.DisplayController.Start | Assets/Scripts/DisplayController.cs:23-26 | Start enables exactly the star of the current index |
| Display.DisplayController.UpdateStarDisplay | Assets/Scripts/DisplayController.cs:100-106 | exactly the star with the given index is enabled |
| Display.DisplayController.SetScore | Assets/Scripts/DisplayController.cs:28-35 | the score text is the score's decimal text, the index is the score's star index, exactly that star is enabled, and the other texts are unchanged |
| Display.DisplayController.SetTarget | Assets/Scripts/DisplayController.cs:37-40 | the target text is the target's decimal text; nothing else changes |
| Display.DisplayController.SetRemaining | Assets/Scripts/DisplayController.cs:47-50 | the remaining text is the given text; nothing else changes |
| Display.DisplayController.SetLevelType | Assets/Scripts/DisplayController.cs:52-69 | the captions read "moves remaining"/"target score", "moves remaining"/"bubbles remaining" or "time remaining"/"target score" by level type |
| Display.DisplayController.OnGameWin | Assets/Scripts/DisplayController.cs:71-82 | the win is shown with the current star index, and the stored best becomes the larger of it and the old best; the texts and the captions are unchanged |
| Display.DisplayController.OnGameLose | Assets/Scripts/DisplayController.cs:84-87 | the loss is shown; the stars, the stored best, the texts and the captions are unchanged |
| Match3.ObstacleBonus | Assets/Scripts/LevelObstacles.cs:53 | the bonus for moves left is never negative while moves remain, and zero when all moves are used |
| Match3.RemainingTime | Assets/Scripts/LevelTimer.cs:24 | the time left is the larger of zero and the seconds not yet elapsed |
| Match3.VisitedAll | Assets/Scripts/GridController.cs:496-523 | the two neighbour loops of ClearObstacles visit all four side neighbours that are inside the grid |
| Match3.ObstaclesCleared | Assets/Scripts/GridController.cs:504-507 | every clearable Bubble next to the cleared cell ends up replaced by a freshly spawned piece |
| Match3.ObstaclesQuiet | Assets/Scripts/GridController.cs:496-523 | when no neighbour sets off further clears, no cell other than the four neighbours changes |
| Match3.PieceCleared | Assets/Scripts/GridController.cs:482-494 | ClearPiece's two steps together: every clearable Bubble beside the cell is replaced, and when the piece and those Bubbles clear plainly nothing else changes |
| Match3.ShelteredStep | Assets/Scripts/GridController.cs:525-535 | one ClearPiece call inside a Sheltered area still leaves every cell outside the area as it was at the start |
| Match3.TargetedBefore | Assets/Scripts/GridController.cs:537-551 | a cell ClearColor goes for, after clears confined to targeted cells, was targeted at the start |
| Match3.ColorColumnSheltered | Assets/Scripts/GridController.cs:540-550 | column by column, ClearColor changes only cells that were targeted at the start, when those were Sheltered |
| Match3.SpecialCellIsLastEndpoint | Assets/Scripts/GridController.cs:337-349 | the special cell is the drawn one when no cleared piece was the pressed or entered one, and otherwise the recorded cell of the last cleared piece that was |
| Match3.SpecialCellStep | Assets/Scripts/GridController.cs:339-347 | one more piece of the match moves the special cell to its own cell exactly when ClearPiece cleared it and it is the pressed or entered piece |
| Match3.MatchCellsStep | Assets/Scripts/GridController.cs:337-349 | each ClearPiece call of the match loop leaves its cell with nothing pending, and a clear there replaced a pending piece by a fresh one |
| Match3.ColorColumnStep | Assets/Scripts/GridController.cs:540-550 | once one more column holds no piece ClearColor targets, the columns cleared so far all hold none |
| Match3.StartedShaped | Assets/Scripts/GridController.cs:73-91 | at start-up every cell holds a fresh piece of the type of its last in-bounds placement, or an Empty piece |
| Match3.PromotedIgnoresFlag | Assets/Scripts/GridController.cs:357-360 | the special piece's colour does not depend on the first matched piece having been flagged by its own clear |
| Match3.Level.constructor | Assets/Scripts/Level.cs:18-20 | a level starts with score 0, no win, no moves used, no obstacles counted and no pending report |
| Match3.Level.Start | Assets/Scripts/LevelObstacles.cs:15-28 | each level type shows its captions, the score, its target and the moves or time left as LevelMoves and LevelTimer also do; LevelObstacles first adds the count of every obstacle type on the grid |
| Match3.Level.EndGame | Assets/Scripts/Level.cs:39-44 | ending the game stops the grid, records the verdict and starts one more pending report |
| Match3.Level.OnPieceCleared | Assets/Scripts/LevelObstacles.cs:42-57 | every cleared piece adds its score; an obstacle lowers the count, and the last one adds the moves-left bonus and wins; the display shows the new score and its stars |
| Match3.AfterClearedProgress | Assets/Scripts/LevelObstacles.cs:42-57 | a cleared piece never takes points away, never undoes a win or a game over, counts down the obstacles exactly for an obstacle piece, and wins exactly when it clears the last obstacle or the level was already won |
| Match3.Level.OnMove | Assets/Scripts/LevelMoves.cs:20-36 | a move counts against the moves levels and shows the moves left; LevelMoves ends the game when none are left (won exactly with the target reached); LevelObstacles loses when moves run out with obstacles left |
| Match3.Level.Update | Assets/Scripts/LevelTimer.cs:21-39 | the timer shows the time left as m:ss, and once none is left every frame ends the game again, won exactly with the target reached |
| Match3.Level.ResumeReport | Assets/Scripts/Level.cs:62-74 | a pending report waits while the grid fills, then shows the win with score and stars or the loss |
| Match3.GridController.constructor | Assets/Scripts/GridController.cs:47-94 | Awake leaves a valid grid: each cell holds a fresh piece of its last in-bounds placement's type, or Empty; pieces are spawned in placement order; one Fill is running |
| Match3.GridController.ValidAtStart | Assets/Scripts/GridController.cs:82-93 | the fully placed start grid satisfies the grid invariant |
| Match3.GridController.PlaceInitial | Assets/Scripts/GridController.cs:73-79 | the in-bounds placements are spawned in order; a cell is marked filled exactly when some placement names it, and then holds its last placement |
| Match3.GridController.PlaceOne | Assets/Scripts/GridController.cs:75-78 | one placement more keeps the spawned pieces equal to the placements handled so far |
| Match3.GridController.FillEmpties | Assets/Scripts/GridController.cs:82-91 | after the Empty pass every cell holds its start piece |
| Match3.GridController.FillColumn | Assets/Scripts/GridController.cs:84-90 | one column's Empty pass fills every unfilled cell of the column and touches no filled cell |
| Match3.GridController.SetCell | Assets/Scripts/GridController.cs:212 | the array and its mirror change in one cell |
| Match3.GridController.SpawnNewPiece | Assets/Scripts/GridController.cs:207-216 | the new piece is appended and placed in its cell; the snapshot moves by SpawnAt |
| Match3.GridController.BaseClear | Assets/Scripts/RemovablePiece.cs:28-36 | a piece already being cleared is left alone and the level is not told; otherwise it is flagged and logged once, and the level's score, obstacles, win, game over and reports change as OnPieceCleared (AfterCleared) does for that piece |
| Match3.GridController.MarkCleared | Assets/Scripts/RemovablePiece.cs:30-33 | the piece gains its flag and joins the log; nothing else of the grid changes |
| Match3.GridController.ReportCleared | Assets/Scripts/RemovablePiece.cs:34 | the level's score, obstacle count, win, game over and pending reports change exactly as OnPieceCleared (AfterCleared) does for the piece; no grid cell, piece or log changes |
| Match3.GridController.ClearComponent | Assets/Scripts/RemoveColumnPiece.cs:7-24 | Clear as each component does it (RemoveColorPiece likewise for colours): the piece ends flagged, a first clear logs it, and a plain piece's clear moves no cell |
| Match3.GridController.FlagPiece | Assets/Scripts/RemovablePiece.cs:30-34 | a first clear flags and logs the piece and lowers the pending count; a repeated one changes nothing |
| Match3.GridController.ClearAndReplace | Assets/Scripts/GridController.cs:488-489 | the cleared cell ends holding a new Empty piece; a first clear logs the old piece |
| Match3.GridController.SpawnEmpty | Assets/Scripts/GridController.cs:489 | the cell gets a new Empty piece that has nothing left to clear; no other cell changes |
| Match3.GridController.ClearPiece | Assets/Scripts/GridController.cs:482-494 | it reports true exactly when the piece was clearable and not being cleared; then the old piece is logged first, the cell ends with a fresh Empty piece and every clearable Bubble beside the cell is replaced by a fresh piece; when the piece and those Bubbles clear plainly no other cell changes; with nothing to clear nothing changes |
| Match3.GridController.ClearObstacles | Assets/Scripts/GridController.cs:496-523 | every clearable Bubble beside the cell is replaced by a fresh piece; when those Bubbles clear plainly no other cell changes |
| Match3.GridController.ClearAcross | Assets/Scripts/GridController.cs:499-509 | the horizontal pass handles both side neighbours |
| Match3.GridController.ClearAlong | Assets/Scripts/GridController.cs:512-522 | the vertical pass handles the neighbours above and below |
| Match3.GridController.ClearNeighbour | Assets/Scripts/GridController.cs:503-508 | a Bubble neighbour is cleared and replaced; any other neighbour is left |
| Match3.GridController.ClearRow | Assets/Scripts/GridController.cs:525-529 | no cell of the row is left holding a clearable piece not being cleared; when the row's pieces clear plainly and no clearable Bubble is beside it (Sheltered), no cell outside the row changes |
| Match3.GridController.ClearRowCell | Assets/Scripts/GridController.cs:527-528 | one iteration: cells 0..x of the row hold no pending piece, and a Sheltered row still has nothing outside it changed |
| Match3.GridController.ClearColumn | Assets/Scripts/GridController.cs:531-535 | no cell of the column is left holding a clearable piece not being cleared; when the column is Sheltered, no cell outside it changes |
| Match3.GridController.ClearColor | Assets/Scripts/GridController.cs:537-551 | no cell is left holding a clearable piece of the colour (of any colour for Any) that is not being cleared; when the targeted cells are Sheltered, no other cell changes |
| Match3.GridController.ClearColorColumn | Assets/Scripts/GridController.cs:542-549 | the same for one column, and when the targeted cells are Sheltered no untargeted cell changes |
| Match3.GridController.PieceAbove | Assets/Scripts/GridController.cs:154-165 | the upward scan computes hasPieceAbove |
| Match3.GridController.MovePiece | Assets/Scripts/GridController.cs:137-140 | the in-place move yields the Relocate snapshot |
| Match3.GridController.StepPiece | Assets/Scripts/GridController.cs:131-174 | one cell's in-place step yields the StepCell snapshot and its moved flag |
| Match3.GridController.SlideDiagonal | Assets/Scripts/GridController.cs:146-173 | the diagonal loop yields the TryDiagonal snapshot |
| Match3.GridController.TryDiagonalAt | Assets/Scripts/GridController.cs:148-172 | one diagonal either moves the piece as TryDiagonal does, or leaves the grid and passes on to the other diagonal |
| Match3.GridController.StepRow | Assets/Scripts/GridController.cs:127-175 | the in-place row sweep yields RowPrefix over the whole row |
| Match3.GridController.StepRowCell | Assets/Scripts/GridController.cs:129-174 | one loop iteration extends the row prefix by one cell |
| Match3.GridController.RefillAt | Assets/Scripts/GridController.cs:181-194 | the in-place refill of one column yields RefillCell |
| Match3.GridController.RefillTop | Assets/Scripts/GridController.cs:179-195 | the in-place refill loop yields RefillPrefix over the whole top row |
| Match3.GridController.StepRows | Assets/Scripts/GridController.cs:125-176 | the in-place sweep of all rows yields RowsFrom from row 0 |
| Match3.GridController.StepRowsNext | Assets/Scripts/GridController.cs:127-175 | one more row of the sweep extends RowsFrom by that row |
| Match3.GridController.FillStep | Assets/Scripts/GridController.cs:120-198 | FillStep on the array yields exactly the FillStep function's grid and moved flag, and keeps the grid invariant |
| Match3.GridController.FillPhases | Assets/Scripts/GridController.cs:120-198 | the fall phase followed by the refill phase is the FillStep function |
| Match3.GridController.FillKeepsValid | Assets/Scripts/GridController.cs:120-198 | a grid reached by FillStep from a valid grid is valid |
| Match3.GridController.SpawnKeepsValid | Assets/Scripts/GridController.cs:207-216 | spawning into a valid grid keeps it valid and only adds a piece |
| Match3.GridController.GetPiecesOfType | Assets/Scripts/GridController.cs:555-567 | the nested loop returns the column-by-column list the PiecesOfType function describes |
| Match3.GridController.ClearMatchPieces | Assets/Scripts/GridController.cs:337-349 | it reports a clear exactly when some ClearPiece call cleared; every cell the match pieces recorded ends with nothing pending, and a cleared one held a pending piece and now holds a fresh one; the special cell is the drawn one unless a cleared piece was the pressed or entered one, and then the last such (SpecialCell) |
| Match3.GridController.ClearRecorded | Assets/Scripts/GridController.cs:339 | ClearPiece on the cell the match piece records: it clears exactly when that cell's piece is pending, and then the cell holds a fresh piece; otherwise nothing changes |
| Match3.GridController.ClearMatchPiece | Assets/Scripts/GridController.cs:337-348 | one iteration of the match loop extends MatchPassed and SpecialCell by one piece, and reports a clear exactly when some call so far cleared |
| Match3.GridController.PlanSpecial | Assets/Scripts/GridController.cs:315-335 | the special cell is that of the randomly drawn match piece and the type is SpecialKind; one draw, or two for four pieces with no swap recorded |
| Match3.GridController.SpawnSpecial | Assets/Scripts/GridController.cs:354-355 | exactly one piece is appended, the Promoted special piece, and only the chosen cell changes, now naming it |
| Match3.GridController.PaintSpecial | Assets/Scripts/GridController.cs:357-365 | the new piece is painted as Painted describes; nothing else changes |
| Match3.GridController.ClearMatch | Assets/Scripts/GridController.cs:311-365 | MatchCleared: the draws of PlanSpecial; every piece of the match is cleared at the cell it records (MatchPassed, whatever the length); a match of three adds nothing after that; four or more then add exactly the Promoted special piece, written into the SpecialCell cell and nowhere else |
| Match3.GridController.ClearAndPromote | Assets/Scripts/GridController.cs:337-365 | the loop clears every piece of the match (MatchPassed on the state it leaves, in every case); Count then spawns nothing; any other type appends exactly its Promoted special piece and writes it into the SpecialCell cell only |
| Match3.GridController.Promote | Assets/Scripts/GridController.cs:351-365 | Count changes nothing; any other type appends exactly its Promoted special piece and writes it into that one cell |
| Match3.GridController.ClearMatchesAt | Assets/Scripts/GridController.cs:308-365 | a cell whose piece is not clearable or has no match changes nothing; otherwise the match Match finds is cleared exactly as ClearMatch says (MatchCleared), reporting exactly whether something was cleared |
| Match3.GridController.ClearRowMatches | Assets/Scripts/GridController.cs:306-366 | a row's pass reports exactly whether it cleared some piece; pieces only gain clearing flags |
| Match3.GridController.ClearAllValidMatches | Assets/Scripts/GridController.cs:300-370 | the result asks for a refill exactly when some piece was cleared; earlier pieces only gain clearing flags |
| Match3.GridController.HandleRainbowClear | Assets/Scripts/GridController.cs:268-279 | only a clearable Rainbow swapped with a coloured piece acts: it takes that colour as its target and is cleared (a clear is logged exactly when it was pending); otherwise nothing changes |
| Match3.GridController.ClearSpecialPieces | Assets/Scripts/GridController.cs:281-287 | only a row or column clearer is cleared, logged exactly when it was pending; any other piece changes nothing |
| Match3.GridController.SwapPieces | Assets/Scripts/GridController.cs:225-266 | no swap after game over or with an immovable piece; a swap with no match and no Rainbow writes both pieces back into the cells they record (Restored), keeps the selection, the moves and the fills, and leaves every cell as it was when both pieces sat in their cells; otherwise the pieces exchange coordinates, the selection is dropped, a Fill starts and a moves level counts the move |
| Match3.GridController.RestoreCells | Assets/Scripts/GridController.cs:263-264 | the take-back writes yield the Restored grid, and the grid invariant holds again |
| Match3.GridController.ExchangeCells | Assets/Scripts/GridController.cs:230-236 | the two cell writes yield the Swapped grid, and the swap goes through exactly when SwapMatches holds |
| Match3.GridController.CompleteSwap | Assets/Scripts/GridController.cs:240-258 | the accepted swap exchanges the two coordinates, drops the selection, starts a Fill and counts the move |
| Match3.GridController.FinishSwap | Assets/Scripts/GridController.cs:254-258 | the selection is dropped, a Fill starts and a moves level counts the move; the grid is unchanged |
| Match3.GridController.ExchangeCoords | Assets/Scripts/GridController.cs:240-244 | the two movable pieces exchange their recorded coordinates (Exchanged), which puts every cell's piece back in the cell it records |
| Match3.GridController.ExchangeAndClear | Assets/Scripts/GridController.cs:240-252 | the two pieces exchange coordinates, then the clears run; no piece is lost and the log only grows |
| Match3.GridController.ExchangeKeepsValid | Assets/Scripts/GridController.cs:230-244 | the grid after the cell and coordinate exchange satisfies the grid invariant |
| Match3.GridController.ClearSwapped | Assets/Scripts/GridController.cs:246-252 | the clears after a swap keep every existing piece's coordinates and type and only extend the log |
| Match3.GridController.ClearMatchesAndSpecials | Assets/Scripts/GridController.cs:249-252 | the match clearing and the special clears only flag existing pieces and extend the log |
| Match3.GridController.PressPiece | Assets/Scripts/GridController.cs:289 | the pressed piece is recorded |
| Match3.GridController.EnterPiece | Assets/Scripts/GridController.cs:291 | the entered piece is recorded |
| Match3.GridController.ReleasePiece | Assets/Scripts/GridController.cs:293-299 | without both pieces recorded and adjacent nothing changes; otherwise a Fill starts exactly when the swap goes through; a refused swap keeps the selection and gives the grid back when both pieces sat in their cells; an accepted one drops the selection and counts the move |
| Match3.GridController.StartFill | Assets/Scripts/GridController.cs:96-98 | a new Fill runs and the grid is filling |
| Match3.GridController.ResumeFill | Assets/Scripts/GridController.cs:101-111 | one tick: a FillStep that moves gives exactly its grid and flips the sweep direction; one that does not clears matches, and the Fill ends exactly when nothing was cleared |
| Match3.GridController.AfterStep | Assets/Scripts/GridController.cs:104-110 | after a moving step the sweep direction flips; after a still one the matches are cleared |
| Match3.GridController.FlipSweep | Assets/Scripts/GridController.cs:106 | the sweep direction flips |
| Match3.GridController.SettleFill | Assets/Scripts/GridController.cs:110-113 | the Fill ends, and IsFilling drops, exactly when the match clearing cleared nothing |
| Match3.GridController.GameOverController | Assets/Scripts/GridController.cs:553 | the grid is marked game over |

## Left out

- Rendering: GetWorldPosition, background tiles, sprites, and the parent transforms of spawned objects are not modelled.
- The ColorPiece sprite lookup is not modelled.
- Animation timing is not modelled: fillTime, WaitForSeconds, MovablePiece's interpolation and RemovablePiece's clear animation.
- Destroy is not modelled. A replaced piece stays in the arena, unreachable from the cells.
- Unity scheduling is left out. Coroutines become explicit ticks: `ResumeFill` for Fill and `ResumeReport` for WaitForGridFill. Interleaving them with frames and input is up to the caller.
- Match3.GridController.ResumeFill: the outer Fill loop is not proved to terminate. Each tick terminates, but a grid that keeps refilling with matches can keep Fill running.
- Match3.GridController.FillStep: requires at least one row. With yDim = 0 the source's refill loop indexes row 0 and fails.
- Board.Draw: Random.Range's distribution is not modelled. A draw is any value of the range, read from the stream `rng`.
- Match3.Level.Update: elapsed time is counted in whole seconds (`delta: nat`), not as a float of Time.deltaTime.
- Display.DisplayController.OnGameWin: PlayerPrefs and the scene name become the field `bestStars`. GameOverController.ShowWin/ShowLose become the list `shown` of outcomes.
- GameOverController.cs, LevelSelect.cs and scene loading are not part of this model.
- Display.DisplayController.SetRemaining: only the string overload is modelled. The int overload is the same call with the number's decimal text, which is how the levels use it.
- The piece prefab dictionary is the total function `Config.prefab`. Awake's skipping of duplicate prefab entries is not modelled.
- `WellFormed` states what the prefabs are assumed to give: Empty has no component, and Normal is movable and coloured.
- Mouse events on a piece are the direct calls PressPiece, EnterPiece and ReleasePiece. The null checks on the grid reference are left out, because the grid is always linked.
- The level types are one class with a `mode`, not a subclass hierarchy.
- Match3.GridController.ClearAllValidMatches: it states that a refill is reported exactly when something was cleared, and that existing pieces only gain clearing flags. It does not state which matches were found or in which order, because later cells are read after earlier matches have changed the grid. ClearMatchesAt states per cell which match is cleared and what that leaves.
- Match3.GridController.ClearRowMatches: it states the same for one row, not which matches the row's cells found; ClearMatchesAt states that per cell.
- Match3.GridController.ClearMatchesAndSpecials: it states that the match clearing and the special clears only flag existing pieces and extend the log. It does not state which matches or which swapped row and column clearers were cleared; ClearAllValidMatches, ClearMatchesAt and ClearSpecialPieces state what they can of that.
- Unity's destroyed-object equality is not modelled. In Unity a destroyed piece compares equal to null, so a recorded pressed or entered piece that has been destroyed counts as no selection when a match of four picks its special type (GridController.cs:327). The model keeps every piece in the arena, and the selection keeps naming it. A refused swap of a piece that has left the grid writes it back into the cell it records; Swapping.RefusedSwapOfStalePiece shows that this does not give the grid back.
- Match3.GridController.ClearSwapped: it states only that existing pieces keep their places and types and the log grows. It does not state which pieces the Rainbow and special clears removed; HandleRainbowClear and ClearSpecialPieces state that per piece.
- Match3.GridController.SwapPieces: for an accepted swap it states the exchanged coordinates and the Fill/move bookkeeping, not the full grid after the clears.
- RemoveColumnPiece's IsRow is never assigned: RemoveColumnPiece.cs:5 declares it as a plain auto-property, not a serialized field, and no other code sets it, so in the source every RemoveColumnPiece (a RowClear piece too) clears its column. The model reads the direction from the prefab (`LineClear(isRow)`) and no WellFormed clause fixes it, so it also covers a prefab that clears its row.
- Match3.GridController.ClearComponent: for row, column and colour clearers it states the flag and the log, not the line or colour cleared. ClearRow, ClearColumn and ClearColor state that.

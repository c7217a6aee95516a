# Othello board engine, risk regions and board reshapes in Dafny

This project models the Othello engine of a small reinforcement-learning code base.
It covers three parts:

- **The board engine** (`othello/game_logic/board.py`).
  - An N x N board (N even, 4 to 12) whose cells hold -1 (empty), 0 (black) or 1 (white).
  - A snapshot of the grid before the last move.
  - Three disk counters.
  - The scan for legal directions along the eight compass rays.
  - The row-major enumeration of legal actions.
  - The move `take_action`, which places a disk, walks the supplied rays turning opponent disks over, recounts and reports whether the game is over.
  - The deep copy.
  - The "random start" that plays four opening plies chosen by module-level counters, which advance like an odometer.
- **The risk-region weights** (`othello/utils/risk_regions.py`): an N x N integer matrix built from a 3 x 3 corner table and an edge row by stacking and padding.
- **The board reshapes** (`othello/utils/reshapes.py`): the flattened board, the black and white 0/1 planes, and the +1/-1 view from one player's side.

Layout:

| file | module | contents |
|---|---|---|
| `wrappers.dfy` | `Wrappers` | `Option` and `Result` |
| `cells.dfy` | `Cells` | cell codes, grids as values, the eight directions, disk counting |
| `rules.dfy` | `Rules` | the engine's rules as functions on grid values, and what they are proved to mean |
| `opening.dfy` | `Openings` | the shared opening counters (a class) and their odometer behaviour |
| `board.dfy` | `Engine` | the board as a class over `array2<int>` fields; each method is proved against `Rules` |
| `scenarios.dfy` | `Scenarios` | Black's legal actions at the start of an 8 x 8 game |
| `risk_regions.dfy` | `RiskRegions` | the weight matrix and its shape and symmetries |
| `reshapes.dfy` | `Reshapes` | the flattened, split and signed views, and their decoders |

In `Engine`, the board's two grids are `array2<int>` fields that the methods update in place.
Each array is mirrored by a ghost grid value (`cells`, `prevCells`).
Every scan and update method is proved to compute the matching `Rules` function on that value.
The lemmas of `Rules` then state what those functions mean:

- **Soundness and completeness of the scan:** a direction is listed exactly when an opponent run is bracketed by an own disk.
- **The move's effect:** which cells change and how.
- **Counts:** the counters after a move.

Three behaviours of the code that a reader might not expect, all modelled as written:

- The flip walk of `take_action` also stops at an empty cell, not only at an own disk or the edge (board.py:151-157).
- `take_action` does not check that the supplied directions are legal; it only asserts that the location is empty (board.py:137-138). `Rules.FlipRay` therefore turns over an opponent run even when no own disk closes it.
- The end-of-game test is only `free == 0 or black == 0 or white == 0` (board.py:191-196). A position where neither side can move but cells are free is not reported as finished. `Rules.FinishedMeansNoMoves` proves only the direction that holds.

## Model

| member | source | states |
|---|---|---|
| Cells.DirIndex | othello/game_logic/board.py:17-26 | the index of a direction in the engine's scan order (down, down-right, right, up-right, up, up-left, left, down-left); below 8 exactly for those eight |
| Cells.DirectionsAreCompass | othello/game_logic/board.py:17-26 | the scanned directions are exactly the eight unit compass steps, each at its own index |
| Cells.SetCell | othello/game_logic/board.py:144 | writing one cell changes that cell to the new value and no other cell |
| Cells.CountSetCell | othello/game_logic/board.py:176-178 | overwriting one cell changes the count of a value by what leaves and what arrives |
| Cells.CountPlace | othello/game_logic/board.py:144 | placing a disk on a free cell: one free cell fewer, one disk of that colour more, the other colour unchanged |
| Cells.CountTotal | othello/game_logic/board.py:185 | on a grid of cell codes the empty, black and white counts add up to N*N |
| Rules.EmptyGridCounts | othello/game_logic/board.py:39 | an all-empty N x N grid has N*N free cells and no disks |
| Rules.PlaceCounts | othello/game_logic/board.py:40-43 | one placement on a free cell updates the three counts by one |
| Rules.StartCounts | othello/game_logic/board.py:40-48 | the four centre placements give 2 black, 2 white and N*N-4 free cells |
| Rules.StartGridSpec | othello/game_logic/board.py:39-48 | the starting grid is N x N, white on (h-1,h-1) and (h,h), black on (h,h-1) and (h-1,h), every other cell empty, counts 2/2/N*N-4 |
| Rules.RunLength | othello/game_logic/board.py:150-164 | the run of equal cells from a position along a direction: all run cells hold the value and the cell after the run does not (or is off the board) |
| Rules.RunExtends | othello/game_logic/board.py:150-164 | a run after p with p holding the value is one longer from p |
| Rules.RunLengthExact | othello/game_logic/board.py:150-164 | a run of m equal cells followed by a different cell has length exactly m |
| Rules.RunLengthFrame | othello/game_logic/board.py:150-164 | two grids agreeing along a ray have the same run along it |
| Rules.CapturesByRun | othello/game_logic/board.py:222-245 | the one-direction scan succeeds exactly when the opponent run after the start is non-empty and is followed by an own disk |
| Rules.CapturesPastOpponent | othello/game_logic/board.py:240-245 | the scan passing an opponent disk agrees with the run characterisation one step on |
| Rules.CapturesAtRunStart | othello/game_logic/board.py:227-238 | the scan stopping at an empty cell, an own disk or the edge agrees with the run characterisation |
| Rules.CapturesIffBrackets | othello/game_logic/board.py:222-245 | the scan of a direction succeeds exactly when for some k >= 2 the k-th cell is own and cells 1..k-1 are opponent, and that k is one more than the opponent run |
| Rules.RunBrackets | othello/game_logic/board.py:235-238 | a non-empty opponent run followed by an own disk is a bracket |
| Rules.RunBracketsAt | othello/game_logic/board.py:235-238 | m opponent cells followed by an own disk bracket at m + 1 |
| Rules.BracketsMatchRun | othello/game_logic/board.py:222-245 | any bracket length equals the opponent run plus one, so a bracket is unique |
| Rules.CapturingAmongDirections | othello/game_logic/board.py:221-245 | the directions kept from a prefix of the scan order are exactly the capturing ones, in scan order |
| Rules.CapturingStep | othello/game_logic/board.py:221-238 | scanning one more direction appends it exactly when it captures |
| Rules.LegalDirectionsSpec | othello/game_logic/board.py:213-247 | an occupied location gets []; otherwise d is listed iff it is one of the eight directions and brackets opponent disks; the list follows the scan order without repeats |
| Rules.AppendSoundSorted | othello/game_logic/board.py:202-209 | joining two sound, row-major lists whose keys come one before the other keeps them sound and row-major |
| Rules.AppendKeysWithin | othello/game_logic/board.py:202-209 | keys inside a block stay inside it when lists are joined |
| Rules.AppendKeys | othello/game_logic/board.py:209 | a key of a joined list is a key of one of its parts |
| Rules.CellActionSpec | othello/game_logic/board.py:204-209 | a cell contributes an entry exactly when it is a legal move, with its full direction list |
| Rules.RowListingStep | othello/game_logic/board.py:203-209 | extending a row listing by one cell's entry keeps it exact and ordered |
| Rules.RowsListingStep | othello/game_logic/board.py:202-209 | extending a listing of rows by one row keeps it exact and ordered |
| Rules.RowActionsSpec | othello/game_logic/board.py:203-209 | the entries of a row prefix are exactly its legal moves, in column order |
| Rules.RowActionsStep | othello/game_logic/board.py:203-209 | the row listing grows by one cell at a time |
| Rules.ActionsBeforeSpec | othello/game_logic/board.py:202-209 | the entries of the first i rows are exactly their legal moves, in row-major order |
| Rules.ActionsBeforeStep | othello/game_logic/board.py:202-209 | the listing of rows grows by one row at a time |
| Rules.LegalActionsSpec | othello/game_logic/board.py:198-211 | every entry is an empty cell with its non-empty direction list; keys strictly increase in row-major order; p is a key iff p is empty with a capturing direction |
| Rules.FlipRay | othello/game_logic/board.py:148-164 | the flip walk keeps the grid N x N (what it changes is stated by FlipRayEffect) |
| Rules.FlipRayEffect | othello/game_logic/board.py:148-164 | the flip walk turns exactly the opponent run after the start into the mover's colour, whether or not an own disk closes it, and changes nothing else |
| Rules.RunAfterFirstFlip | othello/game_logic/board.py:159-164 | after the first flip the rest of the run is one shorter |
| Rules.RunsAfterFlip | othello/game_logic/board.py:147-164 | after walking one direction, its run is empty and runs along other directions are unchanged |
| Rules.FlippedFirst | othello/game_logic/board.py:147-164 | a cell is flipped by a move exactly when it is on the first direction's run or flipped by the remaining walks |
| Rules.OnSomeRunShift | othello/game_logic/board.py:147 | dropping the first direction shifts the run list without changing membership |
| Rules.RunAvoidsStart | othello/game_logic/board.py:148-149 | a walk never returns to the placed location |
| Rules.FlipAllEffect | othello/game_logic/board.py:147-164 | the walks of all supplied directions turn exactly the opponent runs next to the location into the mover's colour and change nothing else |
| Rules.ApplyActionEffect | othello/game_logic/board.py:144-164 | after a move the location and the flipped runs hold the mover's colour; every other cell is unchanged |
| Rules.ApplyActionOnlyFlipsOpponents | othello/game_logic/board.py:144-164 | a move changes a cell other than its location only from the opponent's colour to the mover's, and only on a supplied ray |
| Rules.BracketedOnRun | othello/game_logic/board.py:231-242 | every cell strictly inside a bracket lies on the opponent run next to the location |
| Rules.OnRunBetween | othello/game_logic/board.py:148-164 | cells 1..k-1 along a ray form the run of length k-1 after the location |
| Rules.ApplyActionFlipsBracketed | othello/game_logic/board.py:144-164 | for a bracketed supplied direction, every cell strictly between the location and the closing own disk holds the mover's colour afterwards |
| Rules.FlipRayKeepsEmpty | othello/game_logic/board.py:151-161 | a flip walk never changes the number of free cells |
| Rules.FlipAllKeepsEmpty | othello/game_logic/board.py:147-164 | nor do all the walks of a move |
| Rules.ApplyActionCounts | othello/game_logic/board.py:144-185 | a move on a free cell leaves cell codes, one free cell fewer, and counts that sum to N*N |
| Rules.CountPositive | othello/game_logic/board.py:176-178 | a value some cell holds has a positive count |
| Rules.FinishedMeansNoMoves | othello/game_logic/board.py:191-196 | when the end-of-game test holds, the side to move has no legal action |
| Rules.LegalActionsApplicable | othello/game_logic/board.py:52-55 | every entry of a legal-action list names an empty cell in range with a non-empty list of scan directions, so take_action accepts it |
| Rules.ApplyPick | othello/game_logic/board.py:54-55 | playing the k-th legal action keeps the grid valid and fills one free cell |
| Rules.PlayOpeningSpec | othello/game_logic/board.py:51-70 | a played opening has one in-range pick per ply, one legal-list size per ply, a valid grid and as many fewer free cells as plies |
| Rules.PrependPicks | othello/game_logic/board.py:52-70 | the opening facts carry over to one more ply in front |
| Openings.Roll | othello/game_logic/board.py:75-93 | moving the picks on leaves the usage count alone |
| Openings.RollIsSuccessor | othello/game_logic/board.py:75-93 | picks in range stay in range; the last combination wraps to all zeros; otherwise the next combination is the lexicographic successor with nothing in between |
| Openings.OpeningServesChangeAfterBoards | othello/game_logic/board.py:72-94 | once an opening is chosen (usage 0) the next change_after-1 boards keep it and count up, and the board after them rolls on with usage reset to 0 |
| Openings.FirstBoardRolls | othello/game_logic/board.py:51-94 | with no usage recorded yet, the first random-start board plays the initial picks and at once moves them on: the counters then hold the lexicographic successor of (0,0,0,0) within the offered counts (the initial picks again only when they are the only opening) with usage 0, so the initial opening serves one board where later ones serve change_after |
| Openings.OpeningCounters.constructor | othello/game_logic/board.py:8-12 | the counters start with no usage and all picks zero |
| Openings.OpeningCounters.Advance | othello/game_logic/board.py:72-94 | the counters after one random-start board are NextState of the counters before |
| Engine.Board.constructor | othello/game_logic/board.py:34-48 | a fresh board in the starting position with the previous grid equal to it, distinct arrays and counts 2/2/N*N-4 |
| Engine.CopyOf | othello/game_logic/board.py:45 | a fresh array with the same cells |
| Engine.CountValue | othello/game_logic/board.py:176-178 | the row-by-row count over the array equals the count of the value in the grid |
| Engine.SetArrayCell | othello/game_logic/board.py:161 | writing one array cell updates the mirrored grid by SetCell |
| Engine.FlipWalk | othello/game_logic/board.py:148-164 | the in-place walk along one direction leaves the array holding FlipRay of the grid before |
| Engine.FlipWalks | othello/game_logic/board.py:147-164 | the walks along all supplied directions leave FlipAll of the grid before |
| Engine.PlaceAndFlip | othello/game_logic/board.py:144-164 | placing and walking leave ApplyAction of the grid before |
| Engine.ScanWalk | othello/game_logic/board.py:222-245 | the while loop's verdict for one direction equals Captures |
| Engine.ScanDirections | othello/game_logic/board.py:213-247 | the direction list built by the loops equals LegalDirections |
| Engine.ScanCell | othello/game_logic/board.py:204-209 | the entry inserted for one cell equals CellAction |
| Engine.ScanRow | othello/game_logic/board.py:203-209 | the entries of one row equal RowActions |
| Engine.ScanActions | othello/game_logic/board.py:198-211 | the whole list equals LegalActions, hence sound, complete and row-major |
| Engine.StartArray | othello/game_logic/board.py:39-43 | a fresh array holding the starting grid |
| Engine.StartArrayMirrors | othello/game_logic/board.py:39-43 | an array equal to StartCell everywhere mirrors StartGrid |
| Engine.Board.GetLegalActions | othello/game_logic/board.py:132-133 | returns LegalActions of the current grid and changes nothing |
| Engine.Board.IsGameFinished | othello/game_logic/board.py:191-196 | the answer is the end-of-game test on the current grid's counts |
| Engine.Board.UpdateScore | othello/game_logic/board.py:174-189 | the counters become the black, white and empty counts of the grid, and the grids are unchanged |
| Engine.Board.TakeAction | othello/game_logic/board.py:135-172 | an occupied location fails and changes nothing; otherwise the previous grid becomes the grid before the call, the grid becomes ApplyAction of it, the counts are recounted and the result is the end-of-game test |
| Engine.Board.Overwrite | othello/game_logic/board.py:122-128 | every field but the size and threshold takes the given value |
| Engine.Board.GetDeepCopy | othello/game_logic/board.py:120-130 | a fresh board with fresh arrays and the same size, settings, grids and counts; built without a random start, so the counters are not touched |
| Engine.Board.PlayPick | othello/game_logic/board.py:52-55 | one opening ply: takes the pick-th legal action if it exists, else reports failure and changes nothing; agrees with PlayOpening |
| Engine.RandomOpening | othello/game_logic/board.py:51-70 | a successful opening reports four legal-list sizes |
| Engine.PlayPicks | othello/game_logic/board.py:51-70 | the plies played on the board agree with PlayOpening: same success, final grid, previous grid and list sizes |
| Engine.RandomStart | othello/game_logic/board.py:51-94 | the four plies black, white, black, white are played from the counters' picks, then the counters take NextState; on failure the counters are unchanged |
| Engine.NewBoard | othello/game_logic/board.py:28-94 | a bad size fails; otherwise a fresh board with fresh grid and previous arrays; without a random start the board is in the starting position; with one it holds the opening the counters pick, and the counters advance |
| Scenarios.StartBrackets | othello/game_logic/board.py:39-43 | from the 8 x 8 start, Black brackets exactly from (2,3) down, (3,2) right, (4,5) left and (5,4) up, each capturing one disk |
| Scenarios.StartDirections | othello/game_logic/board.py:213-247 | from the 8 x 8 start each cell's direction list for Black is its one opening direction or empty |
| Scenarios.StartLegalMoves | othello/game_logic/board.py:198-211 | from the 8 x 8 start Black's legal moves are (2,3), (3,2), (4,5) and (5,4) |
| Scenarios.OpeningDirections | othello/game_logic/board.py:213-247 | each of those four has exactly its one direction |
| Scenarios.SortedOpeningKeys | othello/game_logic/board.py:202-209 | a row-major list keyed by exactly those four cells has them in the order (2,3), (3,2), (4,5), (5,4) |
| Scenarios.StartKeys | othello/game_logic/board.py:198-211 | a list keyed by Black's legal moves at the start has exactly the four opening cells as keys |
| Scenarios.StartListing | othello/game_logic/board.py:198-211 | a sound, row-major, complete listing from the start is BlackOpening |
| Scenarios.StartActions | othello/game_logic/board.py:198-211 | Black's legal-action list at the 8 x 8 start is [(2,3): [down], (3,2): [right], (4,5): [left], (5,4): [up]] |
| Scenarios.StartGridActions | othello/game_logic/board.py:39-48 | the same for the starting grid the constructor builds |
| RiskRegions.ReflectMirror | othello/utils/risk_regions.py:26 | a symmetric pad reads an index inside the line, and positions k and 2*len-1-k read the same index |
| RiskRegions.Quadrant | othello/utils/risk_regions.py:16-24 | the quadrant for half-size h is h x h |
| RiskRegions.Weights | othello/utils/risk_regions.py:10-28 | succeeds exactly for an even size from 4 to 12, giving an N x N matrix; otherwise the size error |
| RiskRegions.StackedCorner | othello/utils/risk_regions.py:21-22 | stacking the edge row and the extended edge column onto the corner table gives the 4 x 4 block |
| RiskRegions.CornerSymmetric | othello/utils/risk_regions.py:4-7 | the corner table and the 4 x 4 block are symmetric about their diagonals |
| RiskRegions.QuadrantValues | othello/utils/risk_regions.py:16-24 | each quadrant cell: the corner table for h <= 3; otherwise the 4 x 4 block with its last row and column repeated outwards, with 2 on the inner corner |
| RiskRegions.QuadrantTranspose | othello/utils/risk_regions.py:16-24 | the quadrant is symmetric about its diagonal |
| RiskRegions.ReflectedIsMirrored | othello/utils/risk_regions.py:26 | a matrix read through the reflection on both axes is mirror-symmetric |
| RiskRegions.WeightsMirror | othello/utils/risk_regions.py:26 | w[i][j] == w[i][N-1-j] == w[N-1-i][j] |
| RiskRegions.WeightsTranspose | othello/utils/risk_regions.py:4-26 | w[i][j] == w[j][i] |
| RiskRegions.SmallBoardWeights | othello/utils/risk_regions.py:18-19 | for N = 4, 6 the top-left quadrant is the corner table cut to size and w[0][0] == 100 |
| RiskRegions.LargeBoardWeights | othello/utils/risk_regions.py:20-24 | for N >= 8 the quadrant is the 4 x 4 block edge-padded, except w[h-1][h-1] == 2 |
| RiskRegions.CornersWeighted | othello/utils/risk_regions.py:4-26 | all four corners weigh 100 |
| Reshapes.Unflatten | othello/utils/reshapes.py:6-8 | cutting a sequence of rows*cols entries gives a rows x cols plane |
| Reshapes.SplitFlat | othello/utils/reshapes.py:11-20 | the split of a flat board: row 0 is 1 exactly on black, row 1 exactly on white, 0 elsewhere |
| Reshapes.Split | othello/utils/reshapes.py:11-15 | two planes of the board's shape: plane 0 is 1 exactly on black, plane 1 exactly on white, 0 elsewhere; never both 1; empty cells 0 in both |
| Reshapes.LaidOutCons | othello/utils/reshapes.py:6-8 | a row in front of a laid-out plane lays out the longer plane |
| Reshapes.FlattenIndex | othello/utils/reshapes.py:6-8 | flattening lays each cell (i, j) out at its row-major position |
| Reshapes.FlattenRowMajor | othello/utils/reshapes.py:6-8 | a rows x cols plane flattens to rows*cols entries with out[i*cols+j] == b[i][j] |
| Reshapes.UnflattenFlatten | othello/utils/reshapes.py:6-8 | cutting the flattened plane back into rows gives the plane |
| Reshapes.FlattenUnflatten | othello/utils/reshapes.py:6-8 | flattening the cut rows gives the sequence back |
| Reshapes.MapFlatten | othello/utils/reshapes.py:18-25 | mapping entries commutes with flattening |
| Reshapes.FlattenSplitCommutes | othello/utils/reshapes.py:18-20 | flatten_split row c is plane c of split flattened, so flatten_split[c][i*N+j] == split[c][i][j] |
| Reshapes.SplitFlattenLayout | othello/utils/reshapes.py:23-25 | split_flatten has 2*N*N entries: the flattened black plane, then the flattened white plane |
| Reshapes.NegativeIsMap | othello/utils/reshapes.py:28-33 | flatten_negative maps every entry of the flattened board on its own |
| Reshapes.SignedValues | othello/utils/reshapes.py:30-32 | a cell maps to 1 iff own, -1 iff opponent, 0 otherwise, and the decoder recovers cell codes |
| Reshapes.FlattenNegativeValues | othello/utils/reshapes.py:28-33 | every entry of flatten_negative is 1 exactly where the flattened board holds own, -1 exactly where it holds the opponent, 0 elsewhere |
| Reshapes.FlattenNegativeIsDifference | othello/utils/reshapes.py:28-33 | flatten_negative is own's row of flatten_split minus the opponent's |
| Reshapes.SplitMerge | othello/utils/reshapes.py:11-15 | on cell codes the two planes of split determine the board |
| Reshapes.FlattenCellCodes | othello/utils/reshapes.py:6-8 | flattening a board of cell codes gives cell codes |
| Reshapes.FlattenNegativeDecodes | othello/utils/reshapes.py:28-33 | on cell codes, decoding flatten_negative gives the flattened board, and cutting it into rows gives the board back |

## Left out

- The minimax agent, the training and evaluation loops, plotting and the text rendering `__str__` (board.py:96-118) are not part of this model. The agent's search is not what its code runs. The others are I/O or drawing.
- `utils/color.py` is not part of this model. Its `BLACK`/`WHITE`/`EMPTY` values are taken as 0, 1 and -1, as board.py uses them; `LEGAL` is never used by the modelled code.
- numpy is modelled on sequences and arrays, not as library calls:
  - `flatten` of the 3-D stack in `split_flatten` is `Reshapes.FlattenStack`;
  - `split` applied to the 1-D result of `flatten` (in `flatten_split`) is `Reshapes.SplitFlat`;
  - `split` of a 2-D board is `Reshapes.Split`.
- Engine.Board.TakeAction: requires a player colour (0 or 1), an in-range location and compass-step directions; the source accepts any integers there. A negative location would wrap through numpy's negative indexing. A step such as (2, 0) would skip cells, and (0, 0) would stop at once on the disk just placed and flip nothing; neither is modelled. The location and directions of every legal-action entry meet the requires (`Rules.LegalActionsApplicable`), and the colour passed by the random start is `Color.BLACK.value` or `Color.WHITE.value` (board.py:55-70).
- Reshapes.FlattenNegative: requires a player colour, where the source takes a `Color` enumeration value.
- Engine.Board.constructor: requires a valid size and never plays the random start. The size check, the random start and the counter update of `__init__` are in `Engine.NewBoard`, which reports a bad size as `InvalidBoardSize`.
- The two size assertions of `__init__` (board.py:31-32) and of `risk_regions` (risk_regions.py:12-13) are merged into one `InvalidBoardSize` error. The assertion messages are not modelled.
- A pick outside the legal-action list raises IndexError in the source (board.py:54); here it is the error `NoSuchOpening`. The board is left after the plies already played, and the counters are unchanged.
- The four copied opening blocks (board.py:51-70) are modelled as the recursion `Engine.PlayPicks` over the list of four picks.
- The module globals `chosen_play1..4` and `board_usage` are an `Openings.OpeningCounters` object passed to `Engine.NewBoard`.
- The sanity assertions of `_update_score` (board.py:182-185) are not run-time checks here. `Engine.Board.UpdateScore` proves that they always hold.
- The `_is_game_finished` gap (a position where neither side can move but cells are free) is modelled as written, not fixed.
- Engine.NewBoard and RiskRegions.Weights: the default arguments of the source (`board_size=8`, `random_start=False`, `change_board_after_n_plays=4` at board.py:28; `board_size=8` at risk_regions.py:10) are not modelled; callers pass every argument.

# Hash Code 2015 solutions, modelled in Dafny

This project models three greedy solvers written in Ruby, and proves properties of each.

- **Server placement** (`data_center.rb`). Servers are sorted by value per slot. Each is placed first-fit into the rows of a data center, trying the rows with the fewest free slots first. The placed servers are then spread over groups: each server joins the group whose capacity would suffer least. A group's capacity is the value it keeps when its worst row fails. The score is the smallest such value over all groups and rows.
- **Pizza slicer** (`test/pizza.rb`). The pizza is cut into horizontal bands. Within a band, `cut` scans left to right for rectangles of `k` rows by `max / k` columns that hold enough ham. `best_cut` keeps, per band, the height that gives the most slices.
- **Balloon router** (`final/loon.rb`). Each probe is a clone of the launch balloon that flies with one of three altitude strategies, drawing on a random source. The router flies 201 probes at each of three latitudes and keeps the best-scoring journey of each latitude. Balloon `j` replays the kept journey of latitude `j % 3`, held on the ground for its first `j + j % 2` turns. The answer is a matrix of altitude changes, one row per turn and one column per balloon.

Modules:

- `Optional` and `Sorting` are small shared pieces: Ruby's `nil` as `Option`, and `sort_by` as a sort whose result is a sorted permutation.
- `DataCenter` holds the server placement.
- `PizzaSlicer` holds the pizza slicer.
- `LoonArea`, `LoonBall`, `LoonJourney` and `LoonSolver` hold the balloon router's grid, balloon, journey and solver.

Each program is modelled in the same two layers:

- **Objects the Ruby code mutates** are classes, and their loops are methods with loop invariants: `DataCenter.DataCenter`, `PizzaSlicer.Pizza`, `LoonBall.Ball`, `LoonJourney.Journey` and `LoonSolver.Solver`. The data center's grid is an `array2` and its free counters an `array`.
- **Pure functions** specify what each loop computes, and lemmas state the properties of those functions. Every method's postcondition ties its result or new state to these functions.

Ruby's `rand` is an oracle `draws: nat -> nat` read at a cursor `pos`. Every operation that draws returns the cursor's new position, so the order of draws across the 603 probes is modelled exactly.

## Model

| member | source | states |
|---|---|---|
| Sorting.SortBy | data_center.rb:45 | `sort_by` returns a permutation of its input (same multiset, same length) whose consecutive elements are in key order |
| Sorting.SortedPairwise | data_center.rb:45 | with an order that is transitive on the list's elements, a list sorted pair by consecutive pair has every earlier element ordered before every later one |
| DataCenter.CountEmptyClaimed | data_center.rb:61-66 | claiming `n` free slots of a row removes exactly `n` free slots, so `row.free -= server.size` keeps the counter exact |
| DataCenter.CountedAfterClaim | data_center.rb:61-66 | if every row's `free` equals its number of free slots, this still holds after a server claims free slots of one row and that row's counter drops by the server's size |
| DataCenter.FirstOffset | data_center.rb:55-60 | the offset found is the smallest offset in its range where `size` consecutive slots are all free; no offset is found exactly when no such run exists |
| DataCenter.FirstFit | data_center.rb:53-71 | the slot found lies in the first row of the order that has a free run, at that row's smallest such offset; nothing is found exactly when no row in the order has a free run of that size |
| DataCenter.RowOrder | data_center.rb:54 | `grid.sort_by(&:free)` is a permutation of the row indices with non-decreasing free counts |
| DataCenter.DensityTransitive | data_center.rb:45 | with positive sizes, the key "value per slot descending, then size ascending" is transitive |
| DataCenter.SortServers | data_center.rb:45 | `sort_by!` yields a permutation of the servers in which each server's value per slot is at least the next one's, with ties broken by size ascending |
| DataCenter.SortServersPairwise | data_center.rb:45 | with positive sizes, every server of the sorted list comes before every later one in the density key, not only before its neighbour |
| DataCenter.PlacedPositions | data_center.rb:73-75 | `placed_servers` selects exactly the servers whose row and column were set, keeping their list order |
| DataCenter.DistributionOrder | data_center.rb:78 | distribution visits only placed servers, in non-increasing value order with ties broken by size ascending |
| DataCenter.DistributionOrderPairwise | data_center.rb:78 | distribution visits every placed server before every later one in the key "value descending, then size ascending", not only before its neighbour |
| DataCenter.DistributionOrderPermutes | data_center.rb:73-78 | distribution visits every placed server exactly once, and no other server |
| DataCenter.RowOrderListsRows | data_center.rb:54 | `grid.sort_by(&:free)`, for any free counters, lists every row and nothing but rows |
| DataCenter.PlaceOneRoom | data_center.rb:53-71 | place_server places the server exactly when some row has a free run of its size; when no row has one, nothing changes |
| DataCenter.PlaceOneFrame | data_center.rb:53-71 | place_server fills free slots only, leaves every other server alone and changes only the row and column of its own |
| DataCenter.PlaceOneCounted | data_center.rb:60-66 | place_server keeps every row's counter equal to its number of free slots |
| DataCenter.PlaceOneHolds | data_center.rb:60-65 | after place_server every placed server, the new one included, still lies on slots that carry its index |
| DataCenter.FillsKeepsNoRoom | data_center.rb:55-59 | filling free slots never creates a free run: a grid without room for a size keeps none |
| DataCenter.PlaceOneKeepsNoRoom | data_center.rb:53-71 | after place_server, its server if left unplaced has no room anywhere, and so has every unplaced server that had none before |
| DataCenter.PlaceFoldFills | data_center.rb:46-48 | the placement loop fills free slots only |
| DataCenter.PlaceFoldServers | data_center.rb:46-48 | the placement loop leaves the servers it has not reached alone and changes only the row and column of the others |
| DataCenter.PlaceFoldCounted | data_center.rb:46-48 | the placement loop keeps every row's counter exact |
| DataCenter.PlaceFoldHolds | data_center.rb:46-48 | the placement loop keeps every placed server on slots carrying its index |
| DataCenter.PlaceFoldUnplaced | data_center.rb:46-48 | every server the placement loop leaves unplaced finds no free run of its size anywhere in the final grid |
| DataCenter.RegroupKeeps | data_center.rb:77-87 | a change of groups only keeps every placed server on its slots, keeps the unplaced ones without room and keeps the density order between any two servers |
| DataCenter.OutsideValueBounds | data_center.rb:91-92 | with non-negative values, what a group keeps when row `i` fails lies between 0 and the group's total value |
| DataCenter.OutsidePlusSameRow | data_center.rb:80-81 | what a group keeps when row `i` fails, plus its value in row `i`, is the group's total value (this links the `min_by` key to the capacity) |
| DataCenter.MaxOutsideIsMax | data_center.rb:90-93 | the capacity fold returns one of the per-row values and none exceeds it |
| DataCenter.CapacityBounds | data_center.rb:89-94 | with non-negative values, a group's capacity lies between 0 and its total value |
| DataCenter.MinOutside | data_center.rb:98-100 | the per-group minimum of `output` is one of the per-row values and is at most each of them |
| DataCenter.Score | data_center.rb:96-101 | the score is the value some group keeps when some row fails, and at most what any group keeps when any row fails |
| DataCenter.ScoreBelowCapacity | data_center.rb:89-101 | the score never exceeds a group's up-to-date capacity |
| DataCenter.ChooseGroupLeast | data_center.rb:79-82 | `groups.min_by` chooses a group of least load (capacity plus its value in the server's row), and no earlier group has that least load |
| DataCenter.AssignAllGrowsGroups | data_center.rb:84 | each visit appends the server to exactly one group: the group lists together grow by one per visited server |
| DataCenter.AssignAllVisited | data_center.rb:83 | every visited server has its group set |
| DataCenter.AssignAllUnvisited | data_center.rb:77-87 | every server not visited is left unchanged |
| DataCenter.AssignAllOnlyGroups | data_center.rb:83 | distribution changes no field of a server other than its group |
| DataCenter.AssignAllIndices | data_center.rb:79-84 | distribution never changes a group's index |
| DataCenter.AssignAllCapacities | data_center.rb:85 | if every group's stored capacity is what compute_capacity gives for its list, this still holds after each visit |
| DataCenter.DataCenter.constructor | data_center.rb:14-42 | place_server's row order is `RowOrder`. The grid is `rows` by `cols` with exactly the listed slots unavailable. Each row's free counter is `cols` minus the number of times that row is listed, and equals its count of free slots when no slot is listed twice. Groups are `0..group_count-1`, empty with capacity 0. Servers carry their list index, size and value, and are unplaced. |
| DataCenter.DataCenter.ParseOccupied | data_center.rb:30-36 | the listed slots become unavailable and nothing else does. Each row's counter drops once per listing of that row, and without duplicate listings the counters stay exact. |
| DataCenter.DataCenter.MarkUnavailable | data_center.rb:33-34 | one slot becomes unavailable and its row's counter drops by one; every other cell and counter is unchanged |
| DataCenter.DataCenter.ClaimSlots | data_center.rb:61-63 | slots `c..c+n-1` of row `r` receive the server index and the rest of the grid is unchanged |
| DataCenter.DataCenter.PlaceServer | data_center.rb:53-71 | the returned row is the one `FirstFit` over the row order finds, if any. The grid, counters and servers become `PlaceOne` of the old ones: the server takes the slot found, with the `PlaceOne*` lemmas' properties, and nothing changes when no slot is found. Exact counters stay exact. |
| DataCenter.DataCenter.TryRows | data_center.rb:54-70 | the row loop of place_server, over any order of the rows, has exactly the effect `FirstFit` over that order describes |
| DataCenter.DataCenter.Install | data_center.rb:60-67 | the success branch claims the slots, records the server's row and column and lowers the row's counter by its size; exact counters stay exact when the claimed slots were free |
| DataCenter.DataCenter.FirstFreeRun | data_center.rb:55-59 | the offset loop over one row returns `FirstOffset` of that row |
| DataCenter.DataCenter.ComputeCapacity | data_center.rb:89-94 | the group's capacity becomes the largest value it keeps when one row fails; nothing else changes |
| DataCenter.DataCenter.DistributeServers | data_center.rb:77-87 | the new servers and groups are the fold of one-server assignment over `DistributionOrder`. Every placed server gets a group. Unplaced servers are unchanged. Only `group` fields change. Up-to-date capacities stay up to date. |
| DataCenter.DataCenter.AssignInOrder | data_center.rb:78-86 | the distribution loop over a given order gives the fold of one-server assignment over that order |
| DataCenter.DataCenter.Visit | data_center.rb:79-85 | one more visit extends the fold by one server |
| DataCenter.DataCenter.AssignServer | data_center.rb:79-85 | the server joins the least-loaded group, which appends it and recomputes its capacity |
| DataCenter.DataCenter.PlaceAll | data_center.rb:46-48 | the grid, counters and servers become `PlaceFold` of the old ones over the whole list, with the `PlaceFold*` lemmas' properties; only servers' rows and columns change; exact counters stay exact |
| DataCenter.DataCenter.PlaceNext | data_center.rb:46-48 | one more turn of the placement loop extends `PlaceFold` by one server |
| DataCenter.DataCenter.SortAndPlace | data_center.rb:45-48 | the state becomes `PlaceFold` over `SortServers` of the old servers; each server is its sorted counterpart with only row and column changed, so the list stays sorted by density |
| DataCenter.DataCenter.Magic | data_center.rb:44-51 | the grid and counters are `PlaceFold` over the density-sorted servers, and the servers and groups are `AssignAll` over that result's `DistributionOrder`. The servers end up sorted by density and each placed server has a group. Unplaced servers keep the group they had. Every capacity is up to date. The returned score is `Score` of the groups and at most every group's capacity. Exact free counters stay exact. |
| PizzaSlicer.HamsBounds | test/pizza.rb:16-24 | a slice holds at most as many ham cells as it has cells, and none when it has no rows or no columns |
| PizzaSlicer.NoColumnsNoHams | test/pizza.rb:31-34 | a candidate of zero width (when `max / k` is 0) holds no ham |
| PizzaSlicer.NextColumnProgress | test/pizza.rb:32-39 | the column loop moves past `j` exactly when the slices are at least one column wide or the ham threshold is positive; with zero-width slices and a threshold of 0 the next column is `j` itself, so `cut` loops forever there |
| PizzaSlicer.CutRowFacts | test/pizza.rb:30-40 | every slice one band of `cut` records is `k` by `max / k`, lies in that band, holds at least `hams` ham cells, and the slices run left to right |
| PizzaSlicer.CutRowsFacts | test/pizza.rb:29-42 | every slice recorded over the bands lies between `start_row` and `max_rows`, has the cut's shape and enough ham, and the slices come in row-major order |
| PizzaSlicer.CutSlices | test/pizza.rb:26-43 | every slice `cut` records lies inside the pizza in the scanned rows, has `k` rows, `max / k` columns, area at most `max` and at least `hams` ham cells; the slices are in row-major order and pairwise disjoint |
| PizzaSlicer.BandStep | test/pizza.rb:48-49 | band `l` as written (`l * max / 2`) ends no later than band `l + 1` starts |
| PizzaSlicer.BandsDisjoint | test/pizza.rb:47-50 | any band ends no later than any later band starts, and band ends never decrease |
| PizzaSlicer.EvenBandsTile | test/pizza.rb:47-50 | with an even `max`, band `l` is exactly rows `l*(max/2)..(l+1)*(max/2)-1`, so the bands tile the rows without gaps |
| PizzaSlicer.OddMaxEmptyBand | test/pizza.rb:47-50 | with an odd `max` a band can be empty: 4 rows and `max = 3` give a fourth band from row 4 to row 4, in which `cut` finds nothing |
| PizzaSlicer.BandBestIsFirstMaximum | test/pizza.rb:51-60 | the height loop keeps the first height whose cut has the most slices, and the count is that number of slices. It keeps nothing (count 0) exactly when every height yields no slice. |
| PizzaSlicer.BandsSucceed | test/pizza.rb:47-63 | `best_cut` gets through its bands exactly when every band has a winning height |
| PizzaSlicer.WinnerSlices | test/pizza.rb:54-61 | a band's winning slices lie inside that band, hold enough ham, have area at most `max` and come in row-major order |
| PizzaSlicer.BandsSlices | test/pizza.rb:45-64 | every slice `best_cut` keeps lies inside the pizza, holds at least `hams` ham cells and has area at most `max`; the slices come in row-major order and no two share a cell |
| PizzaSlicer.Pizza.constructor | test/pizza.rb:6-14 | the parsed dimensions, threshold, maximum and ham matrix, with no slices |
| PizzaSlicer.Pizza.NbHams | test/pizza.rb:16-24 | the nested loops count exactly the ham cells of the slice (`Hams`) |
| PizzaSlicer.Pizza.Cut | test/pizza.rb:26-43 | `slices` becomes exactly `CutResult`, the list whose shape, ham and order `CutSlices` states |
| PizzaSlicer.Pizza.CutBands | test/pizza.rb:29-42 | the band loop appends exactly the slices of the bands from `start_row` up to `max_rows` |
| PizzaSlicer.Pizza.CutBand | test/pizza.rb:30-40 | the column loop of one band appends exactly that band's slices |
| PizzaSlicer.Pizza.BestCut | test/pizza.rb:45-64 | it succeeds exactly when every band has a winner, and then `slices` is the concatenation of the winners. Otherwise some band has no winner (where Ruby's `concat nil` raises), and `slices` is what that band's last `cut` left. |
| PizzaSlicer.Pizza.BandRows | test/pizza.rb:48-50 | `start_row` and `stop_row` of band `l`, capped at `rows` |
| PizzaSlicer.Pizza.TryHeights | test/pizza.rb:51-60 | the height loop yields `BandBest` (the first maximum) and leaves the last cut's slices |
| LoonArea.ComputeMask | final/loon.rb:13-22 | compute_mask builds `Mask(radius)`, the list that `MaskIsCoverage` characterises |
| LoonArea.AppendReflections | final/loon.rb:18-20 | the inner loop appends the four reflections of every `(x, y)` with `y` in `1..radius` strictly inside the circle |
| LoonArea.MaskIsCoverage | final/loon.rb:13-22 | the mask starts at the origin. It holds exactly the origin and the offsets with both coordinates non-zero strictly inside the circle of the radius, each once. It is closed under negating either coordinate. |
| LoonArea.Scores | final/loon.rb:24-30 | compute_scores has one score per cell of the grid |
| LoonArea.ScoresBounds | final/loon.rb:32-39 | with between 0 and `t` targets per cell, each score lies between 0 and `t` times the mask's size |
| LoonArea.ScoreAtWraps | final/loon.rb:32-39 | columns wrap around: a cell's score equals the score one full turn of columns away |
| LoonArea.RowMaxBounds | final/loon.rb:86 | `x.max` is an entry of the row and no entry exceeds it |
| LoonArea.MeanScoreBounds | final/loon.rb:84-87 | the mean of the row maxima lies within any bounds of the scores |
| LoonBall.StrategyRoundRobin | final/loon.rb:49-57 | `update_strategy(i)` repeats every three indices, and any three consecutive indices get all three strategies |
| LoonBall.DecideRange | final/loon.rb:59-82 | every strategy answers -1, 0 or 1 and uses at most one draw; an answer given without drawing is a descent |
| LoonBall.Step | final/loon.rb:95-107 | after a turn and the alive check the ball is dead or on the grid at an altitude with winds |
| LoonBall.StepFacts | final/loon.rb:95-107 | change_altitude returns -1, 0 or 1, which is the altitude's change. The altitude stays in `0..alts-1` and never returns to 0 once above it. The column stays on the grid. A dead ball neither moves nor draws. Turn 0 climbs unless the ball is at the top, without drawing. |
| LoonBall.SurveyFacts | final/loon.rb:109-112 | alive? marks the ball dead exactly when it was dead or is off the rows; only the flag changes, and a second check changes nothing |
| LoonBall.Ball.constructor | final/loon.rb:149 | a live ball at the given row and column on the ground |
| LoonBall.Ball.UpdateStrategy | final/loon.rb:55-57 | the strategy becomes `Strats[i % 3]` |
| LoonBall.Ball.ChangeAltitude | final/loon.rb:95-107 | the ball's new position and the returned change are those of `Step`, whose properties `StepFacts` states |
| LoonBall.Ball.Alive | final/loon.rb:109-112 | the ball's state becomes `Survey` of the old one and the answer is its negated dead flag |
| LoonBall.Ball.Clone | final/loon.rb:179 | a new ball with the same position, altitude, flag and strategy |
| LoonJourney.Run | final/loon.rb:124-134 | a journey records one change per turn and ends with the ball dead or on the grid |
| LoonJourney.RunFacts | final/loon.rb:124-134 | every recorded change is -1, 0 or 1; a dead ball stays dead; with non-negative scores the journey's score is non-negative |
| LoonJourney.RunDead | final/loon.rb:96-133 | a dead ball records only zeros, scores nothing, stays put and draws nothing |
| LoonJourney.AfterDeathNoChange | final/loon.rb:96-133 | once the ball has died by turn `m`, every entry the journey records from turn `m` on is 0 |
| LoonJourney.FirstTurnClimbs | final/loon.rb:97-100 | a live ball's first recorded change is the forced climb, 0 at the top altitude and 1 below it |
| LoonJourney.DelayTwice | final/loon.rb:136-138 | delaying by `a` then by `b` is delaying by `a + b` |
| LoonJourney.ProgressStep | final/loon.rb:127-133 | one more turn (record the change, add the gain of a live ball) keeps what was recorded so far plus the rest of the journey equal to the whole journey |
| LoonJourney.Journey.constructor | final/loon.rb:181 | a journey of the given ball, with nothing recorded yet |
| LoonJourney.Journey.Generate | final/loon.rb:124-134 | hist, score, the ball's final state and the next draw are those of `Run` from the ball's state with its strategy, whose properties the lemmas above state |
| LoonJourney.Journey.GenerateTurn | final/loon.rb:128-132 | one turn of generate keeps the loop's progress invariant |
| LoonJourney.Journey.Delay | final/loon.rb:136-138 | `k` zero changes are prepended and the old history follows unchanged |
| LoonJourney.Journey.Clone | final/loon.rb:188 | a new journey with the same ball, score and history |
| LoonSolver.ProbeIs | final/loon.rb:177-184 | probe `p` of a round flies strategy `StrategyFor(p)` from the launch ball, drawing from where probe `p-1` stopped |
| LoonSolver.ProbesChanges | final/loon.rb:177-184 | every change any probe records is -1, 0 or 1 |
| LoonSolver.FirstMax | final/loon.rb:184 | `max_by(&:score)` picks a position among the journeys |
| LoonSolver.FirstMaxIsFirstMaximum | final/loon.rb:184 | the journey `max_by` picks scores at least as much as every journey and more than every earlier one |
| LoonSolver.FirstMaxWitness | final/loon.rb:184 | the journey `max_by` picks is a first maximum of the list |
| LoonSolver.RoundProbes | final/loon.rb:177-183 | a round flies 201 probes, each recording `turns` changes |
| LoonSolver.RoundBest | final/loon.rb:176-185 | a round keeps one of its 201 probes that scores at least as much as every probe and more than every earlier one; the next round draws where its last probe stopped |
| LoonSolver.RoundChanges | final/loon.rb:176-185 | the journey a round keeps records a change in {-1, 0, 1} for every turn |
| LoonSolver.Bests | final/loon.rb:176-185 | `NB_BEST` rounds keep one journey each, of `turns` changes |
| LoonSolver.BestsStep | final/loon.rb:176-185 | one more round keeps the earlier winners, appends its own and moves the draws on |
| LoonSolver.BestIsRound | final/loon.rb:176-185 | each of the three journeys magic keeps is the winner of its own round, which draws from where the previous round stopped: one of that round's 201 probes, scoring at least as much as every probe and more than every earlier one |
| LoonSolver.BestsChanges | final/loon.rb:176-185 | every change a kept journey records is -1, 0 or 1 |
| LoonSolver.LagIsIndex | final/loon.rb:190 | `TURNS_LAG * i / NB_BEST` is `i` |
| LoonSolver.DelayedEntry | final/loon.rb:187-191 | delaying by `i % 2` and then by `i` holds the journey on the ground for `i + i % 2` turns and then replays it from its start |
| LoonSolver.EntryIsChange | final/loon.rb:172-201 | every entry of the answer is -1, 0 or 1 |
| LoonSolver.Solver.constructor | final/loon.rb:144-149 | the solver holds the area, the balloon and turn counts, and a fresh live launch ball on the ground at the given cell |
| LoonSolver.Solver.Probe | final/loon.rb:178-183 | a fresh journey whose history and score are those of `Run` of the launch ball with strategy `StrategyFor(num)`, together with the next draw |
| LoonSolver.Solver.BestJourney | final/loon.rb:177-184 | the kept journey's history and score and the next draw are those of `Round`, whose properties `RoundBest` and `RoundChanges` state |
| LoonSolver.Solver.FlyProbes | final/loon.rb:177-183 | the 201 journeys have the histories and scores of the round's probes, flown in order on one stream of draws |
| LoonSolver.Solver.MaxByScore | final/loon.rb:184 | the loop over the scores returns the journey at `FirstMax` |
| LoonSolver.Solver.NextBest | final/loon.rb:176-185 | round `i`, drawing from where rounds `0..i-1` stopped, yields the winner and draw position of `Bests` after `i + 1` rounds |
| LoonSolver.Solver.ChooseBests | final/loon.rb:176-185 | the three kept journeys have the histories of `Bests`, and the next draw is where the third round stopped |
| LoonSolver.Solver.Stagger | final/loon.rb:187-192 | balloon `i`'s history is kept journey `i % 3` delayed by `i % 2` and then by `TURNS_LAG * i / NB_BEST` |
| LoonSolver.Solver.Matrix | final/loon.rb:194-198 | the answer has `turns` rows, one entry per journey, and entry `[t][j]` is change `t` of journey `j` |
| LoonSolver.Solver.Magic | final/loon.rb:172-201 | the answer has `turns` rows of `nb_balls` entries. Entry `[t][j]` is 0 while balloon `j` is held on the ground for its first `j + j % 2` turns; after that it is change `t - (j + j % 2)` of the journey kept for latitude `j % 3`. |

## Left out

- Input parsing and output are not modelled. This covers reading `ARGF`, splitting lines, the `puts` of all three programs and the `$stderr` score line. The constructors take the parsed values instead, and `DataCenter.Magic` returns the score it would print.
- `Solver.parse` of the balloon router is not modelled. This covers `nb_targets`, the target counting and the wind matrix. The `Area` record holds the grid as parse leaves it. `ComputeMask` and `Scores` model what parse stores in `masks` and `scores`, but `Area.Valid` does not require the stored fields to be those values.
- The dead assignment `solver.balls = nb_balls.times { ... }`, which stores an integer that is never read, is not modelled.
- `Ball#coverage` is not modelled; nothing in the program calls it.
- Ruby's random generator is replaced by a draw oracle. `rand(-1..1)` is `draws(pos) % 3 - 1` and `rand(0..1)` is `draws(pos) % 2`. The properties hold for every sequence of draws, not for the distribution of the real generator.
- LoonBall.Ball.ChangeAltitude: takes the quarter mean score as a `threshold` parameter. `Journey.Generate` computes `Threshold(area)` once and passes it to every turn. This matches the source's per-ball memo `@_avg` because the scores never change.
- LoonBall.Ball.constructor: the launch ball's strategy is `nil` in the source and `Hotspot` here. Only clones, after `update_strategy`, ever fly, so the value is never used. Its `dead` flag is `nil` in the source and `false` here.
- LoonJourney.Journey.constructor: `score` and `hist` are `nil` until `generate` in the source, and 0 and `[]` here.
- The balloon router requires a valid area: at least one row, column and altitude, with winds and scores for every cell. It also requires the launch ball to be on the grid at an altitude with winds. The source fails or indexes `nil` otherwise.
- Ruby arrays are modelled as sequences, and the Ruby objects that several lists share are modelled as copies. In `distribute_servers`, a server appended to a group is the same object as the one in `servers`; the model stores an updated copy in both places. Nothing changes either copy afterwards, so they stay equal.
- The rows of the data center (`Row` structs) are flattened into a grid of cells and an array of free counters. A row's `index` is its position and its `size` is `cols`. The order in which place_server tries the rows is a constant `rowOrder` of the class, which the constructor sets to `RowOrder`.
- DataCenter.SortServers: the Ruby key `-1.0 * value / size` is a float. The model compares the exact ratios by cross-multiplication. This differs only where floats round two different ratios to the same value, or for a zero size.
- Sorting.SortBy: Ruby's `sort_by` does not fix the order of equal keys. The model's insertion sort keeps equal keys in input order, so `RowOrder`, `SortServers` and `DistributionOrder` each break ties one fixed way (`RowOrder([3, 3])` is `[0, 1]`), where Ruby may break them another way. The exact states `PlaceServer`, `PlaceAll` and `Magic` promise are those for the model's tie order. The placement lemmas hold for any row order that lists every row, so they do not depend on it.
- DataCenter.DataCenter.PlaceServer: the source's return value when no row fits is the sorted row array. The model returns `None`; `magic` never reads the value.
- DataCenter.DataCenter.constructor: it requires every listed unavailable slot to lie on the grid. The source crashes on an out-of-range row, and silently grows the row on an out-of-range column.
- DataCenter.DataCenter.Magic: it requires at least one row and one group, because the score is an `int` and cannot be `nil`. With no rows, no server fits and `output` takes the `min` of empty lists, so the source ends normally with a `nil` score. With no groups, the score is `nil` too when no server was placed; when one was, `min_by` over no groups gives `nil` and `server.group = group.index` raises (data_center.rb:79-83).
- PizzaSlicer.Pizza.Cut: it requires `k <= max` or a positive ham threshold. Otherwise the slices are zero columns wide and the source loops forever, as `NextColumnProgress` shows. `best_cut` calls `cut` only with `k <= max / 2`.
- PizzaSlicer.Pizza.BestCut: it requires `max >= 2`; the source divides by `max / 2`. Where the source raises on `best.concat nil`, the model returns `false`.

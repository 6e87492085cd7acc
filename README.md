# Area Split, modelled in Dafny

Area Split is a needy module for a bomb-defusal game. When it activates it
shows an 8x5 grid of coloured cubes: red, yellow, green and blue. The
defuser must press a cube of the colour that covers the most cells before
the needy timer runs out. No selection, or a wrong one, gives a strike.
Either way the module then deactivates.

The grid is made by a random generator:

- Four distinct border cells are seeded with the four colours.
- The colours grow into unassigned neighbours until the board is full.
- The grid is kept only if every colour covers 7 to 14 cells, no two
  colours cover the same number of cells, and the board splits into
  exactly four clumps. A clump is a maximal single-colour region joined by
  edge adjacency. Otherwise generation starts over.

The model has five modules:

- `Grid` (`grid.dfy`): the board, row-major cell indices, the
  four-neighbour relation and the neighbour list `GetAdjacents`.
- `Clumps` (`clumps.dfy`): paths and connectivity, the component partition
  that specifies a clump count, and `FindClumps`. `FindClumps` is the
  source's incremental merge over a list of clumps. It is proved to return
  the number of monochromatic connected components of any grid.
- `Generator` (`generator.dfy`): the generator.
  - Seeding and growth work in place on an array of nullable cells.
  - Growth is proved to keep every colour's cells connected. It is also
    proved never to get stuck while a cell is unassigned.
  - The acceptance test is proved equivalent to a reference predicate.
  - Every returned grid is proved to satisfy `ValidGrid`.
- `Majority` (`majority.dfy`): `GetMostCommonOccurrence`, written as the
  source's counting loop over an array of four counters followed by
  `IndexOf(Max)`.
- `Needy` (`area_split.dfy`): the module's state as a class. Its fields are
  the grid, the answer, the current selection, the strikes and passes
  reported, and whether the grid is shown. The callbacks are methods.

Randomness (the shuffle, `PickRandom`) is modelled as nondeterministic
choice (`:|`): every proved property holds for every outcome of the random
choices. Strikes and passes handed to the game are counters.

An observation proved along the way: growth keeps each colour in one
connected region. So every grown grid has exactly four clumps, and the
clump test of `GenerateGrid` never rejects a grid
(`Generator.GrownHasFourClumps`). Only the count tests ever cause a retry.

## Model

| member | source | states |
|---|---|---|
| Grid.Adjacents | Assets/AreaSplitScript.cs:151-161 | the cells listed are exactly the cells adjacent to `n` on the board, all in range, each one step left, right, up or down |
| Grid.AdjacentsShape | Assets/AreaSplitScript.cs:153-160 | each direction is listed exactly when its guard holds; the order is left, right, up, down, with no repeats |
| Grid.AdjacentsSymmetric | Assets/AreaSplitScript.cs:151-161 | `j` is a neighbour of `i` exactly when `i` is a neighbour of `j` |
| Grid.AdjacentsExamples | Assets/AreaSplitScript.cs:151-161 | corner 0 has neighbours [1, 8], corner 39 has [38, 31], interior cell 12 has [11, 13, 4, 20] |
| Grid.Count | Assets/AreaSplitScript.cs:117 | `Where(x => x == i).Count()`: at most the length, and zero exactly when the value is absent |
| Clumps.BoardConnected | Assets/AreaSplitScript.cs:151-161 | every two cells of the board are joined by a walk of neighbour steps |
| Clumps.Route | Assets/AreaSplitScript.cs:151-161 | a walk of neighbour steps exists from any cell to any other |
| Clumps.ConnectedUnion | Assets/AreaSplitScript.cs:143-145 | two connected regions joined by one adjacent pair form a connected region |
| Clumps.Find | Assets/AreaSplitScript.cs:137 | `FirstOrDefault(clump.Contains(adj))`: the first clump holding the cell, or -1 exactly when none does |
| Clumps.MergeNeighbours | Assets/AreaSplitScript.cs:135-144 | after absorbing the clumps of same-colour neighbours, every same-colour earlier neighbour of `i` is in the merged set; the merged set plus `i` is single-colour and connected; the remaining clumps stay disjoint clumps |
| Clumps.NotFoundIsMerged | Assets/AreaSplitScript.cs:137-138 | a processed neighbour in no remaining clump has already been merged, so skipping it loses nothing |
| Clumps.CloseStep | Assets/AreaSplitScript.cs:145-146 | appending the merged clump with `i` makes the list a partition of cells `0..i` into their clumps |
| Clumps.FindClumps | Assets/AreaSplitScript.cs:130-149 | the count returned is the size of a partition of the whole grid into its monochromatic connected components, between 1 and 40 |
| Clumps.ComponentCountUnique | Assets/AreaSplitScript.cs:130-149 | two component partitions of one grid have the same number of parts, so the clump count is well defined |
| Clumps.ComponentsCountedOnce | Assets/AreaSplitScript.cs:130-149 | a grid cannot have two different clump counts |
| Clumps.UniformGridOneComponent | Assets/AreaSplitScript.cs:130-149 | a grid of one colour has exactly one clump |
| Generator.WhereUnassigned | Assets/AreaSplitScript.cs:112 | keeps exactly the listed cells that are unassigned, and is no longer than the list |
| Generator.Unwrap | Assets/AreaSplitScript.cs:119 | the `int` grid has the same length and the value of every cell |
| Generator.CountUnwrap | Assets/AreaSplitScript.cs:117-119 | a colour's count is the same on the nullable grid and on the returned grid |
| Generator.Border | Assets/AreaSplitScript.cs:104 | the seed filter: a cell in the first or last column or in the top or bottom row |
| Generator.CountsSum | Assets/AreaSplitScript.cs:117 | on a grid coloured 0..3 the four per-colour counts add up to the number of cells |
| Generator.Counts | Assets/AreaSplitScript.cs:117 | one count per colour, and on a grid coloured 0..3 they add up to the number of cells, so every cell is counted exactly once |
| Generator.CellCounts | Assets/AreaSplitScript.cs:117-119 | the per-colour counts taken on the nullable grid before `Cast<int>()` are, once no cell is unassigned, the counts of the returned `int` grid |
| Generator.Rejected | Assets/AreaSplitScript.cs:117 | the rejection test as written: some count below 7, some count above 14, a clump count other than 4, or fewer than 4 distinct counts |
| Generator.DistinctCount | Assets/AreaSplitScript.cs:117 | `Distinct().Count()` equals the length exactly when no two counts are equal |
| Generator.RejectedIff | Assets/AreaSplitScript.cs:117-118 | a grid is not rejected exactly when each count is in 7..14, the counts are pairwise distinct and there are four clumps |
| Generator.Seed | Assets/AreaSplitScript.cs:102-107 | four distinct border cells hold colours 0..3 in order; every other cell is unassigned |
| Generator.SeededGrowing | Assets/AreaSplitScript.cs:102-107 | the seeded grid satisfies the growth invariant: each colour is a single connected cell |
| Generator.GrowStep | Assets/AreaSplitScript.cs:115 | giving an unassigned neighbour its source cell's colour keeps the seeds and keeps each colour connected |
| Generator.FrontierExists | Assets/AreaSplitScript.cs:109-114 | while an unassigned cell remains, some assigned cell has an unassigned neighbour |
| Generator.Grow | Assets/AreaSplitScript.cs:109-116 | the loop ends with every cell coloured 0..3, each colour present and forming one connected region; every cell assigned on entry, the seeds among them, keeps its colour |
| Generator.GrownHasFourClumps | Assets/AreaSplitScript.cs:109-117 | a fully grown grid, nullable or unwrapped, has exactly four clumps |
| Generator.ClassesPartition | Assets/AreaSplitScript.cs:117 | when each present label's cells are connected, the grid has exactly one clump per label |
| Generator.GenerateAttempt | Assets/AreaSplitScript.cs:101-119 | one pass yields a grown grid; it is returned exactly when its counts are balanced, and then it is a valid grid |
| Generator.GenerateGrid | Assets/AreaSplitScript.cs:99-120 | any grid returned has 40 cells in colours 0..3, counts in 7..14 and pairwise distinct, and exactly four clumps; it returns nothing only after `attempts` passes each grew a full grid that was rejected for its counts |
| Majority.GetMostCommonOccurrence | Assets/AreaSplitScript.cs:122-128 | the result is a colour whose count is at least every other colour's, and strictly greater than that of every lower colour |
| Majority.MostCommonUnique | Assets/AreaSplitScript.cs:127 | at most one colour meets that description, so the answer is determined by the grid |
| Majority.MostCommonPresent | Assets/AreaSplitScript.cs:122-128 | on a non-empty grid the most common colour occurs in it |
| Majority.ValidMostCommonStrict | Assets/AreaSplitScript.cs:122-128 | on a generated grid the answer's count is strictly greater than every other colour's |
| Needy.IndexOf | Assets/AreaSplitScript.cs:196 | `Array.IndexOf`: the first position holding the value, or -1 exactly when it is absent |
| Needy.AnswerCubeExists | Assets/AreaSplitScript.cs:196 | the automatic solver's lookup always finds a cube of the answer's colour |
| Needy.AreaSplit.constructor | Assets/AreaSplitScript.cs:26-28 | an all-zero grid with answer 0 and no selection |
| Needy.AreaSplit.CubePress | Assets/AreaSplitScript.cs:41-52 | the selection becomes the pressed cube's colour; nothing else changes |
| Needy.AreaSplit.NeedyActivate | Assets/AreaSplitScript.cs:77-91 | the selection is cleared; a newly generated valid grid is shown and its strictly most common colour becomes the answer; without a grid, `attempts` grown grids were all rejected for their counts and the rest of the state is unchanged |
| Needy.AreaSplit.ShowGrid | Assets/AreaSplitScript.cs:81-90 | the generated grid is shown and its most common colour, strictly more common than every other, becomes the answer |
| Needy.AreaSplit.NeedyDeactivate | Assets/AreaSplitScript.cs:93-97 | one more pass is reported and the grid is hidden |
| Needy.AreaSplit.TimerExpire | Assets/AreaSplitScript.cs:60-75 | a strike exactly when nothing or a wrong colour is selected; then one pass and the grid hidden; the selection is kept |
| Needy.AreaSplit.AutosolveStep | Assets/AreaSplitScript.cs:194-196 | while the grid is shown and nothing is selected, the solver's press selects the answer |

## Left out

- Rendering, materials, audio, interaction punch, logging and the module id
  are not modelled. They do not affect the grid, the answer or the
  outcome.
- The game's strike and pass handlers are counters. The reset delay
  (`SetResetDelayTime`) is not modelled.
- The chat command parser (`ProcessTwitchCommand`) and the coroutine loop
  of `Autosolve` are not modelled. Only one solver step is kept, to show
  that its `IndexOf` lookup selects the answer.
- Generator.GenerateGrid: the source retries without limit (`goto
  tryAgain`). The model retries at most `attempts` times and returns
  `None` when the budget is spent. Whether the source's retry loop
  terminates is a matter of probability and is not modelled.
- Needy.AreaSplit.NeedyActivate: when the retry budget is spent, only the
  selection is cleared; the source never reaches that case. The grids
  turned down on the way are returned as a ghost record.
- Generator.Grow: the source picks any assigned cell and skips the pass
  (`continue`) when that cell has no unassigned neighbour. The model picks
  only among cells that have one. Skipped passes change nothing. So the
  sequence of grids is the same, and the loop provably ends.
- Generator.Seed: `Shuffle().Take(4)` over the border cells is modelled as
  four successive choices of distinct border cells. The uniform
  distribution is not modelled.
- Clumps.FindClumps: the `List<List<int>>` of clumps is a sequence of sets.
  Only membership and `AddRange` are used on a clump, so the order of cells
  inside a clump is not modelled.
- The dead variable `a` (`randomStarts.Contains(1)`) is not modelled.

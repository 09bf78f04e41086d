# Wave Function Collapse step engine

This project models the solver of a tile-based Wave Function Collapse generator. The grid is a
matrix of cells. Each cell holds a set of still-possible tiles (its options), a `collapsed`
flag and a per-pass `checked` flag. One call to `step()` does the following:

1. Set up the grid if no solve is running: every cell gets the full tile catalog and is
   marked uncollapsed.
2. Clear every cell's `checked` flag.
3. Collect the uncollapsed cells of minimum entropy and choose one with a random draw.
4. Throw if the chosen cell has no options left.
5. Otherwise reduce the chosen cell's options to one tile. The tile is a uniform pick or a
   frequency-weighted pick. The cell keeps `collapsed = false` at this point: only the final
   loop of step 7 marks it collapsed, so in strict mode the propagation of step 6 can still
   empty it.
6. Propagate the change through the neighbours by a depth-bounded recursion.
7. Mark every cell that is left with a single option as collapsed and propagate from it.

The model is split into modules that follow the program:

- `Directions` (direction.dfy): the four-valued direction enum and its `opposite()` lookup.
- `Cells` (cells.dfy): cells and entropy, plus the solver's collaborators bundled as one `Config`:
  - the tile catalog;
  - the iteration order of the matrix's cells;
  - each position's neighbours;
  - each tile's rules per direction and its frequency;
  - the iteration order of an option set;
  - the `allowImperfect` flag.
- `Selection` (selection.dfy): the minimum-entropy scan.
- `Weighted` (weighted.dfy): the prefix-sum sampler.
- `Propagation` (propagation.dfy): neighbour narrowing (`checkNeighbourOptions`) and the
  recursion (`reduceEntropy`). Both are ghost functions. A propagation also returns the
  sequence of cells it expanded, so the "each cell is expanded at most once" property can be
  stated.
- `Steps` (steps.dfy): one whole step as a function of the grid before it, the `running`
  flag and the draws, together with the lemmas about whole steps.
- `WfcSolver` (solver.dfy): class `Solver`, which works in place.
  - State: the cells are an `array<Cell>`; `running` and `cells` are fields.
  - Each Java loop is a `while` loop with invariants.
  - Each method is proved equal to the matching function of the modules above.

The random draws of one step form a value `Draws` that the caller supplies:

- `cell`: an index into the candidate list;
- `pureRandom`: stands for `nextFloat() < randomRatio`;
- `option`: an index into the option list;
- `fraction`: in [0, 1), stands for `nextDouble()`.

The model reduces each index modulo the size of the list it picks from.

With all frequencies zero, the comment at `src/Matrix/Solver.java:183` implies that the
fallback to the last option decides the weighted pick. The code at lines 175-180 returns the
*first* option instead, because its first comparison is `0 <= 0`. The model follows the code
(`Weighted.AllZeroSelectsFirst`). Under exact arithmetic with non-negative frequencies, the
fallback at line 184 decides nothing (`Weighted.WeightedIsFirstReaching`).

Some lemmas are generic set, sequence or arithmetic facts, or unfold a definition once for the
in-place methods. They have no row below: `Cells.RefinesTransitive`, `Weighted.ScaledAtMost`,
`Propagation.AllowedStep`, `Propagation.SubsetCardinality`, `Propagation.DistinctAppend`,
`Steps.SubsetOfSingleton`, `Selection.ScanStep`, `Propagation.NarrowUnfold`,
`Propagation.PropagateUnfold`, `Propagation.VisitUnfold` and `Propagation.VisitEnd`.

## Model

| member | source | states |
|---|---|---|
| Directions.Opposite | src/Tiles/Direction.java:10-19 | `opposite` is total and never returns its argument |
| Directions.OppositeTable | src/Tiles/Direction.java:11-14 | the four assignments NORTH↔SOUTH, EAST↔WEST |
| Directions.OppositeInvolutive | src/Tiles/Direction.java:10-19 | `opposite(opposite(d)) == d` for every direction |
| Directions.OppositeBijective | src/Tiles/Direction.java:3-19 | `opposite` is injective and onto the four constants |
| Cells.Entropy | src/Matrix/Solver.java:55-59 | a cell's entropy is its number of options, zero exactly when it has none |
| Cells.Initialised | src/Matrix/Solver.java:159-162 | setup keeps the grid's size; its effect on each cell is stated by `Steps.InitialisedCells` |
| Cells.Cleared | src/Matrix/Solver.java:46-48 | clearing keeps the grid's size; `Solver.ClearChecked` and `Steps.ClearedRefines` state what changes |
| Selection.MinEntropy | src/Matrix/Solver.java:51-63 | the running minimum is absent exactly when every listed cell is collapsed; otherwise it is the entropy of some uncollapsed listed cell and a lower bound for all of them |
| Selection.CellsAt | src/Matrix/Solver.java:53-62 | the tie list is no longer than the scanned list; its members are characterised by `CellsAtMembers` |
| Selection.CellsAtMembers | src/Matrix/Solver.java:53-62 | a cell is in the ordered tie list for entropy e iff it is listed, uncollapsed and of entropy e |
| Selection.CellsAtListed | src/Matrix/Solver.java:53-62 | every cell in a tie list is listed, uncollapsed and a valid position |
| Selection.CellsAtEmpty | src/Matrix/Solver.java:55-58 | a new strict minimum starts from an empty tie list (the `clear()`) |
| Selection.LowestEntropyCells | src/Matrix/Solver.java:51-63 | the candidates are listed, uncollapsed, valid positions |
| Selection.LowestEntropyCellsMembers | src/Matrix/Solver.java:51-63 | a cell is a candidate iff it is listed, uncollapsed, and no listed uncollapsed cell has lower entropy; collapsed cells never are |
| Selection.LowestEntropyCellsEmpty | src/Matrix/Solver.java:65 | there are no candidates iff every listed cell is collapsed |
| Weighted.Sum | src/Matrix/Solver.java:167-170 | the total frequency accumulated from the front; its properties are `SumNonNegative` and `SumZero` |
| Weighted.Through | src/Matrix/Solver.java:175-177 | the running total up to and including an option; the running total at the last option is the whole total |
| Weighted.SelectedIndex | src/Matrix/Solver.java:175-184 | the walk returns an index in range; every earlier prefix sum is below the value; and either the prefix sum at that index reaches the value or it is the last index |
| Weighted.SelectedFrom | src/Matrix/Solver.java:176-184 | the same walk continued from position i, given that earlier prefix sums were below the value |
| Weighted.WeightedIndex | src/Matrix/Solver.java:172-184 | the weighted draw selects an index in range |
| Weighted.SumNonNegative | src/Matrix/Solver.java:167-170 | non-negative frequencies give a non-negative total |
| Weighted.SumZero | src/Matrix/Solver.java:167-170 | all-zero frequencies give a zero total |
| Weighted.WithinTotalReaches | src/Matrix/Solver.java:175-184 | a value within the total is reached by a prefix sum, so the fallback never decides the pick |
| Weighted.AllZeroSelectsFirst | src/Matrix/Solver.java:175-180 | with all frequencies zero the first option is selected |
| Weighted.SelectedIsFirstReaching | src/Matrix/Solver.java:175-184 | for a value within the total, the selected index is exactly the first whose prefix sum reaches the value (iff) |
| Weighted.WeightedIsFirstReaching | src/Matrix/Solver.java:165-185 | non-negative frequencies with `value = fraction * total`: the pick is exactly the first option whose prefix sum is ≥ value (iff) |
| Weighted.DrawValueWithinTotal | src/Matrix/Solver.java:172 | with non-negative frequencies, `0 <= value <= total` |
| Propagation.Allowed | src/Matrix/Solver.java:124-128 | the valid tiles include every option's rule set in the direction, and each valid tile comes from some option's rule set |
| Propagation.Narrow | src/Matrix/Solver.java:122-154 | narrowing keeps the grid's size |
| Propagation.NarrowSpec | src/Matrix/Solver.java:122-154 | a collapsed neighbour gives false and is unchanged; in imperfect mode an empty intersection gives false and changes nothing; in every other case, in either mode, the neighbour's options become the intersection with what the cell's options allow and the result is true iff they strictly shrank; no other cell or flag changes |
| Propagation.StrictNarrowingCanEmpty | src/Matrix/Solver.java:139-150 | a concrete grid on which strict mode empties a neighbour and reports true, while imperfect mode leaves it alone and reports false |
| Propagation.Propagate | src/Matrix/Solver.java:104-119 | a propagation at depth ≤ MAX+1 keeps the grid's size and terminates (the lexicographic measure on depth and neighbour index) |
| Propagation.Visit | src/Matrix/Solver.java:112-117 | the neighbour loop keeps the grid's size; recursive calls are made only at depth ≤ MAX+1 |
| Propagation.NarrowKeepsNonEmpty | src/Matrix/Solver.java:138-139 | with `allowImperfect` a neighbour check never empties a cell |
| Propagation.PropagateKeepsNonEmpty | src/Matrix/Solver.java:104-118 | with `allowImperfect` a propagation never empties a cell that had options |
| Propagation.VisitKeepsNonEmpty | src/Matrix/Solver.java:113-117 | the same for the neighbour loop from the k-th neighbour on |
| Propagation.PropagateOk | src/Matrix/Solver.java:104-118 | a propagation only shrinks options, never changes collapsed flags or collapsed cells' options, marks checked exactly the cells it expands, and expands only cells that were unchecked, each at most once |
| Propagation.VisitOk | src/Matrix/Solver.java:112-117 | the same guarantees for the neighbour loop from the k-th neighbour on |
| Propagation.NarrowOk | src/Matrix/Solver.java:122-154 | one neighbour check only shrinks an uncollapsed cell's options and touches no flag |
| Propagation.PassOkCompose | src/Matrix/Solver.java:113-117 | two propagations in sequence are one whose expanded cells are those of both, still each at most once |
| Steps.Start | src/Matrix/Solver.java:42-44 | the grid a step works on keeps the grid's size: the old grid while running, else the set-up grid |
| Steps.Prepared | src/Matrix/Solver.java:42-48 | the grid at selection time keeps the grid's size: the starting grid with checked flags cleared |
| Steps.Pick | src/Matrix/Solver.java:76-84 | the picked tile is one of the chosen cell's options |
| Steps.CollapseSingletons | src/Matrix/Solver.java:94-99 | the final loop keeps the grid's size |
| Steps.StepSpec | src/Matrix/Solver.java:41-101 | a step keeps the grid's size, and a solve stays running iff the step did not return true |
| Steps.InitialisedCells | src/Matrix/Solver.java:159-162 | setup gives each cell the full tile set, uncollapsed |
| Steps.StepRestart | src/Matrix/Solver.java:41-44 | the next step sets up again exactly when this one returned true, because line 66 cleared `running` |
| Steps.PropagateRefines | src/Matrix/Solver.java:104-118 | a propagation only narrows and keeps collapsed cells fixed |
| Steps.MarkRefines | src/Matrix/Solver.java:96 | marking a cell collapsed narrows nothing |
| Steps.CollapseSingletonsMonotone | src/Matrix/Solver.java:94-99 | later points of the final loop refine earlier ones |
| Steps.CollapseSingletonsRefines | src/Matrix/Solver.java:94-99 | the final loop never changes a collapsed cell's options and only shrinks the others |
| Steps.SingletonReachedIsCollapsed | src/Matrix/Solver.java:94-98 | a cell with exactly one option when the loop reaches it ends collapsed, with that option |
| Steps.StepCompleteIff | src/Matrix/Solver.java:65-68 | a step returns true iff every cell of its starting grid is collapsed, whatever the draws |
| Steps.StartKeepsCollapsed | src/Matrix/Solver.java:156-163 | a cell that is collapsed after the optional setup is the cell as it was before the step |
| Steps.StepCompleteUnchanged | src/Matrix/Solver.java:65-68 | a step that returns true stops the solve and changes no cell's options or collapsed flag |
| Steps.StepContradictionIff | src/Matrix/Solver.java:70-74 | a step throws iff its starting grid holds an uncollapsed cell with no options, whatever the draws |
| Steps.ContradictionIndependentOfImperfect | src/Matrix/Solver.java:70-74 | whether a step throws does not depend on `allowImperfect` |
| Steps.ClearedRefines | src/Matrix/Solver.java:46-48 | clearing the checked flags changes no options or collapsed flags |
| Steps.CollapseRefines | src/Matrix/Solver.java:86-88 | collapsing an uncollapsed cell to one of its own options only narrows |
| Steps.StepRefines | src/Matrix/Solver.java:41-101 | within a solve a step only shrinks options, and collapsed cells keep their flag and options |
| Steps.CollapseSingletonsKeepsNonEmpty | src/Matrix/Solver.java:94-99 | with `allowImperfect` the final loop never empties a cell that had options |
| Steps.StepIncompleteCollapses | src/Matrix/Solver.java:70-99 | a step that returns false chose the drawn cell among the uncollapsed cells of minimum entropy, which has options, and the drawn tile `Pick`, which is one of them; that cell ends with at most that tile, collapsed unless emptied later, and with `allowImperfect` it ends exactly as that tile, collapsed |
| WfcSolver.Solver.constructor | src/Matrix/Solver.java:17-19 | a new solver is not running and has captured no cells |
| WfcSolver.Solver.SetupSolver | src/Matrix/Solver.java:156-163 | captures the matrix's cells, sets `running`, and gives every cell the full tile set, uncollapsed |
| WfcSolver.Solver.ClearChecked | src/Matrix/Solver.java:46-48 | clears every cell's checked flag and changes nothing else |
| WfcSolver.Solver.LowestEntropy | src/Matrix/Solver.java:51-63 | the scan loop computes exactly the candidate list of `Selection.LowestEntropyCells` |
| WfcSolver.Solver.ValidOptions | src/Matrix/Solver.java:124-128 | the collected tiles are the union of the rule sets of the cell's options in that direction |
| WfcSolver.Solver.RemainingOptions | src/Matrix/Solver.java:131-136 | the filtered options are the neighbour's options that are valid |
| WfcSolver.Solver.CheckNeighbourOptions | src/Matrix/Solver.java:122-154 | the new grid and the result are those of `Propagation.Narrow` |
| WfcSolver.Solver.ReduceEntropy | src/Matrix/Solver.java:104-119 | the new grid is that of `Propagation.Propagate`; called only at depth ≤ MAX+1 |
| WfcSolver.Solver.TotalFrequency | src/Matrix/Solver.java:166-170 | the accumulated total is the sum of the options' frequencies |
| WfcSolver.Solver.WeightedRandomSelection | src/Matrix/Solver.java:165-185 | returns the option at `Weighted.WeightedIndex`, the fallback included |
| WfcSolver.Solver.ChooseTile | src/Matrix/Solver.java:76-84 | returns `Steps.Pick`: the uniform pick when the coin says so, else the weighted pick |
| WfcSolver.Solver.CollapseSingletonCells | src/Matrix/Solver.java:94-99 | the new grid is that of `Steps.CollapseSingletons` over all captured cells |
| WfcSolver.Solver.Step | src/Matrix/Solver.java:41-101 | the outcome, the new grid and `running` are those of `Steps.StepSpec`; the captured cells are the matrix's cells in order, and the solver stays consistent |

## Left out

- Randomness: `java.util.Random` and its seeding are not modelled (`src/Matrix/Solver.java:34, 38`). Their draws are the caller-supplied `Draws`. No claim is made about seed reproducibility.
- Floating point: entropy is the number of options, and `Float.POSITIVE_INFINITY` is `None`. Frequencies, the draw value and the running totals are exact `real`s, so rounding in the `double` accumulation is not modelled.
- The split between pure and weighted picks is not modelled statistically. `nextFloat() < randomRatio` is the boolean `pureRandom`.
- Console output: the `System.out.println` before the throw is not modelled. The `SolveException` is the outcome `Contradiction`, and the grid and `running` are left as they were at the throw.
- Collaborators: `Matrix`, `Cell`, `Tile`, `TileSet` and `Tuple` are not part of this model. They appear only as the fields of `Config`. `Cell.calculateEntropy` has nothing to recompute, because entropy is a function of the options.
- Iteration order of hash sets: for the matrix's cells it is the given sequence `Config.order`, which lists every position once. For an option set it is the given function `Config.optionOrder`.
- `validOptions` is an `ArrayList` that may hold duplicates, and `newOptions` is an `ArrayList`. The model treats both as sets. Only membership and the size of the filtered list are used, so nothing is lost.
- Whole solves are not modelled as sequences of steps: termination of a solve over repeated steps, and the statistical behaviour of the generator.
- The fallback at `src/Matrix/Solver.java:184` is kept in `WfcSolver.Solver.WeightedRandomSelection`, because that method does not require non-negative frequencies. That it is unreachable is stated only under that assumption, by `Weighted.WeightedIsFirstReaching`.

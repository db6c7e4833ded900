# 3D Game of Life core, modelled in Dafny

This project models the simulation core of a three-dimensional Game of Life. The lattice is a cube of edge `size` whose faces wrap around, so it is a torus. Each cell has the 26 neighbours of the Moore neighbourhood.

The model has four parts:

- **The lattice** (`Grid3D`) holds a sparse set of live cells. The source keys them by the text `"x,y,z"`.
- **The rule** (`Rules`) holds a set of birth counts and a set of survival counts. It also has a name from a fixed catalogue and a `B…/S…` label.
- **The engine** (`Simulation`) advances one generation at a time and keeps a generation counter. It can be playing or paused.
- **Two data tables**:
  - the neighbour offsets and the rule catalogue (`Constants`);
  - the catalogue of starting shapes (`Patterns`).

Four modules model the JavaScript behaviour the core relies on:

- `JsText`:
  - writing an integer into a template literal;
  - `Number(text)`;
  - `split`, `join('')` and the default string-order `sort`.
- `JsObject`: reading a property of an object literal, and `Object.keys`.
- `Seqs`: sequences without repeats, which is what an enumerated `Set` is.
- `Wrappers`: `Option`.

## How the model is organised

- **Live cells.** Each live cell is stored as a `Cell(x, y, z)` in a `set<Cell>`.
  - Live cells are always canonical: every write goes through `wrap`, so each coordinate lies in `[0, size)`.
  - The key text is modelled too. `ParseKey` gives back the cell of any key, so a set of cells holds the same information as the source's `Map` of keys. `IsAlive` and `GetPopulation` state the lookup and the size in terms of the keys.
- **Remainders.** JavaScript's `%` truncates toward zero, while Dafny's is Euclidean.
  - `JsRem` is the truncating remainder, and `JsWrap` is the source's `((c % s) + s) % s` written with it.
  - `JsWrapIsWrap` proves that `JsWrap` equals the Euclidean `c % s`. The rest of the model then uses that form (`Wrap`).
- **Counting sets.** A JavaScript `Set` built from an array keeps the first occurrence of each value, in order. The model writes it as a sequence without repeats (`Dedup`).
- **Rule label.** The label sorts the counts' decimal texts in string order, as JavaScript's default sort does (`src/core/Rules.js:57-58`). So counts 4 and 10 read `104`, not `410` (`RuleStringTextOrder`).
- **Mutable state.** The three classes keep the source's mutable fields and update them in place:
  - `Grid3D.cells`;
  - `Rules.birth`, `survival` and `currentPreset`;
  - `Simulation.grid`, `generation`, `isRunning`, `speed` and `intervalId`.
- **Loops.** The loops of the source are `while` loops with invariants: `getNeighborCount`, `getLiveCells`, `clone`, `randomFill`, `loadPattern`, `getCellsToCheck`, the loop of `step`, and the loop that builds `NEIGHBOR_OFFSETS`. Each is proved against a function:
  - `NeighborCount` for `getNeighborCount`;
  - `RandomCells` for `randomFill`;
  - `Centred` for `loadPattern`;
  - `KeysOf(ActiveRegion(...))` for `getCellsToCheck`;
  - `NextGeneration` for the loop of `step`;
  - the table itself for the loop that builds `NEIGHBOR_OFFSETS`.
- **The step.** `NextGeneration` is what a step computes. It is compared with `FullStep`, which applies the rule to every cell of the lattice:
  - they agree whenever 0 is not a birth count, which holds for every catalogue rule;
  - with 0 among the birth counts they can differ, and `BirthOnZeroOutsideRegion` exhibits this.

### Where the code and its comments disagree

- The comment at `src/core/Grid3D.js:47` says the count uses six neighbours. The code counts all 26 offsets of `src/utils/constants.js:7-16`, and the model follows the code.

## Model

| member | source | states |
|---|---|---|
| Grid3D.JsRem | src/core/Grid3D.js:22 | JavaScript's `%` for a positive divisor: the result lies in (-n, n), has the sign of the dividend and differs from it by a multiple of n |
| Grid3D.JsWrapIsWrap | src/core/Grid3D.js:21-23 | `((c % s) + s) % s` with truncating `%` equals the Euclidean remainder of c by s |
| Grid3D.JsWrap | src/core/Grid3D.js:21-23 | the source's wrap, written with truncating `%`, lies in [0, size) for every coordinate, negative ones included |
| Grid3D.Wrap | src/core/Grid3D.js:21-23 | the wrapped coordinate lies in [0, size) |
| Grid3D.WrapPeriodic | src/core/Grid3D.js:21-23 | wrapping is unchanged by adding any multiple of size, so wrap(c + size) == wrap(c) == wrap(c - size) |
| Grid3D.WrapFixesCanonical | src/core/Grid3D.js:21-23 | a coordinate already in [0, size) wraps to itself |
| Grid3D.WrapStepBack | src/core/Grid3D.js:21-23 | stepping from a canonical coordinate by d and back by -d, wrapping each time, returns to it |
| Grid3D.WrapUnitStepsDiffer | src/core/Grid3D.js:21-23 | on an edge of 3 or more, different steps of -1, 0, 1 from a coordinate wrap to different places |
| Grid3D.WrapCell | src/core/Grid3D.js:27 | wrapping a cell puts it on the lattice and leaves a lattice cell as it is |
| Grid3D.WrapCellStepBack | src/core/Grid3D.js:27 | moving a lattice cell by an offset and back by the opposite offset returns to it |
| Grid3D.Key | src/core/Grid3D.js:10-12 | the key splits at its commas into exactly three pieces, the decimal texts of x, y and z |
| Grid3D.ParseKey | src/core/Grid3D.js:15-18 | parsing the key of any cell (negative coordinates included) gives back exactly that cell |
| Grid3D.KeyInjective | src/core/Grid3D.js:10-12 | two cells with the same key are the same cell |
| Grid3D.KeyInKeysOf | src/core/Grid3D.js:10-12 | a cell's key is among the keys of a set of cells exactly when the cell is in the set |
| Grid3D.KeysOfSize | src/core/Grid3D.js:10-12 | a set of cells has as many keys as cells |
| Grid3D.AlivePeriodic | src/core/Grid3D.js:26-28 | liveness repeats with period size along every axis |
| Grid3D.SetCellEffect | src/core/Grid3D.js:31-38 | after writing `alive` at p, p reads as `alive` and every cell not wrapping onto p reads as before |
| Grid3D.AssignIdempotent | src/core/Grid3D.js:31-38 | writing the same value twice equals writing it once |
| Grid3D.ToggleTwiceRestores | src/core/Grid3D.js:41-45 | two toggles of one cell restore the exact original cell set |
| Grid3D.LiveAmongFirst | src/core/Grid3D.js:49-55 | the count over the first n offsets is at most n |
| Grid3D.NeighborCount | src/core/Grid3D.js:48-56 | the neighbour count is at most 26 |
| Grid3D.LiveAmongFirstCountsCells | src/core/Grid3D.js:48-56 | on an edge of 3 or more, the count over the first n offsets equals the number of live cells among the n distinct cells they reach |
| Grid3D.NeighborCountDistinctCells | src/core/Grid3D.js:48-56 | on an edge of 3 or more, the 26 offsets reach 26 distinct cells and the count is the number of live ones among them |
| Grid3D.ReachedByFirstBound | src/core/Grid3D.js:50-54 | n offsets reach at most n cells |
| Grid3D.NeighborCountAliasesOnTinyLattice | src/core/Grid3D.js:48-56 | on an edge of 1 every offset wraps onto the cell itself, so one live cell counts itself 26 times |
| Grid3D.RandomCellsExtremes | src/core/Grid3D.js:87-98 | the random fill stays on the lattice; density 0 or below fills nothing; density 1 or above fills every cell |
| Grid3D.CentredSnoc | src/core/Grid3D.js:104-106 | loading one more entry adds exactly its centred, wrapped cell |
| Grid3D.CentreOfInjective | src/core/Grid3D.js:103-105 | when the lattice has room on both sides of the centre, distinct entries land on distinct cells |
| Grid3D.CentredCardinality | src/core/Grid3D.js:101-107 | a pattern of distinct entries that fits around the centre lights one cell per entry |
| Grid3D.CentredExamples | src/core/Grid3D.js:101-107 | loading [(0,0,0)] lights only the centre cell (floor(size/2) on each axis); loading [] leaves the lattice empty |
| Grid3D.Grid3D.constructor | src/core/Grid3D.js:4-7 | a new lattice has the given edge and no live cells |
| Grid3D.Grid3D.IsAlive | src/core/Grid3D.js:26-28 | looks up the key of the wrapped cell among the stored keys: true exactly when that key is stored |
| Grid3D.Grid3D.SetCell | src/core/Grid3D.js:31-38 | adds or removes exactly the wrapped cell and keeps the cells canonical |
| Grid3D.Grid3D.ToggleCell | src/core/Grid3D.js:41-45 | returns the negation of the old state and writes exactly that value at the wrapped cell |
| Grid3D.Grid3D.GetNeighborCount | src/core/Grid3D.js:48-56 | the counting loop returns NeighborCount |
| Grid3D.Grid3D.GetLiveCells | src/core/Grid3D.js:59-70 | lists every live cell exactly once, so its length is the population |
| Grid3D.Grid3D.GetPopulation | src/core/Grid3D.js:68-70 | the number of stored keys |
| Grid3D.Grid3D.Clear | src/core/Grid3D.js:73-75 | leaves no live cell |
| Grid3D.Grid3D.Clone | src/core/Grid3D.js:78-84 | returns a new lattice of the same edge with the same cells |
| Grid3D.ToggleInClone | src/core/Grid3D.js:78-84 | an edit to a clone leaves the original unchanged |
| Grid3D.ToggleAfterClone | src/core/Grid3D.js:78-84 | an edit to the original leaves the clone unchanged |
| Grid3D.Grid3D.RandomFill | src/core/Grid3D.js:87-98 | the triple loop discards prior contents and lights exactly the lattice cells whose draw is below the density |
| Grid3D.Grid3D.LoadPattern | src/core/Grid3D.js:101-107 | discards prior contents and lights exactly the pattern entries shifted by floor(size/2) and wrapped |
| JsText.NatToString | src/core/Grid3D.js:11 | the decimal text of a natural number is non-empty, all digits, and starts with 0 only for 0 |
| JsText.IntToString | src/core/Grid3D.js:11 | the text of an integer is made of digits and the minus sign only, and `Number` of it gives the integer back |
| JsText.Split | src/core/Grid3D.js:16 | splitting gives at least one piece, none containing the separator, and joining the pieces with it gives back the text |
| JsText.SplitAtSeparator | src/core/Grid3D.js:16 | splitting `a + sep + b` gives a followed by the pieces of b |
| JsText.SplitPair | src/core/Grid3D.js:16 | two pieces free of the separator, joined by it, split back into exactly those two pieces |
| JsText.ConcatNumerals | src/core/Rules.js:57-58 | joining number texts with `join('')` brings in no other character |
| JsText.Sort | src/core/Rules.js:57-58 | the result is a permutation of the input in string order |
| JsText.SortedUnique | src/core/Rules.js:57-58 | two sorted sequences with the same elements are equal, so the sort has one outcome |
| JsObject.Get | src/core/Rules.js:11 | an own property is found exactly when its name is among the keys, and the value found belongs to that name |
| JsObject.GetOwnProperty | src/core/Rules.js:11 | with distinct names, every entry is found under its own name |
| JsObject.GetProperty | src/core/Rules.js:11 | `table[name]` gives an own property exactly for the keys, and nothing exactly for names neither own nor inherited from `Object.prototype` |
| Constants.BuildNeighborOffsets | src/utils/constants.js:7-16 | the triple loop builds exactly the 26-entry table |
| Constants.NeighborOffsetsShape | src/utils/constants.js:8-14 | the table has 26 entries, each with components in {-1, 0, 1} and none zero |
| Constants.NeighborOffsetsDistinct | src/utils/constants.js:7-16 | the 26 entries are pairwise distinct |
| Constants.NeighborOffsetsComplete | src/utils/constants.js:8-14 | every non-zero triple in {-1, 0, 1}^3 occurs |
| Constants.NeighborOffsetsSymmetric | src/utils/constants.js:8-14 | the opposite of every entry is an entry |
| Constants.DefaultRuleIsPreset | src/utils/constants.js:20-31 | the default rule name is a catalogue key, with birth [5, 6] and survival [4, 5, 6, 7] |
| Constants.RulePresetNamesDistinct | src/utils/constants.js:20-28 | the catalogue names are distinct |
| Constants.RulePresetCountsInRange | src/utils/constants.js:21-27 | every birth count lies in [1, 26] and every survival count in [0, 26], so no rule gives birth on 0 |
| Constants.SpeedBounds | src/utils/constants.js:34-36 | 0 < minimum speed <= default speed <= maximum speed |
| Seqs.DistinctSameElements | src/core/Rules.js:13-14 | two repeat-free sequences with the same elements are permutations of each other |
| Rules.Dedup | src/core/Rules.js:13-14 | `new Set(values)`: no repeats, and exactly the values of the input |
| Rules.DedupDistinct | src/core/Rules.js:13-14 | values without repeats come through unchanged and in order |
| Rules.DedupExample | src/core/Rules.js:21-22 | `new Set([5, 5, 6])` enumerates as [5, 6] |
| Rules.NextStateOfArrays | src/core/Rules.js:20-33 | for a rule installed from arrays through `new Set`, a live cell survives exactly when its count is among the survival array's values, and a dead one is born exactly when its count is among the birth array's values |
| Rules.NextStateAmoeba | src/core/Rules.js:27-33 | under the default rule a dead cell is born with 5 neighbours and not with 4, and a live cell survives with 4 and not with 8 |
| Rules.ActiveRegionMembers | src/core/Rules.js:39-49 | every live cell, and every wrapped offset from one, is in the region |
| Rules.LiveInRegion | src/core/Rules.js:41 | every live cell is in the region |
| Rules.ActiveRegionCanonical | src/core/Rules.js:44-49 | every cell of the region lies on the lattice |
| Rules.ActiveRegionBound | src/core/Rules.js:36-53 | the region has at most 27 times as many cells as are live |
| Rules.OutsideRegionQuiet | src/core/Rules.js:36-53 | a lattice cell outside the region is dead and has neighbour count 0 |
| Rules.RegionOfListing | src/core/Rules.js:39 | going through the live cells in any listing yields the same region |
| Rules.CountsLabel | src/core/Rules.js:57-58 | the label of a set of counts holds only digits and minus signs |
| Rules.RuleString | src/core/Rules.js:56-60 | the label has exactly one slash, and splitting at it gives "B" followed by the birth label and "S" followed by the survival label |
| Rules.RuleStringOrderFree | src/core/Rules.js:56-60 | the label depends only on which counts the sets hold, not on their insertion order |
| Rules.RuleStringDefault | src/core/Rules.js:56-60 | with birth [5, 6] and survival [4, 5, 6, 7], the default rule, the label is `B56/S4567` |
| Rules.RuleStringTextOrder | src/core/Rules.js:57 | counts sort by their text, so birth [10, 4] with no survival counts reads `B104/S` |
| Rules.DigitsLabel | src/core/Rules.js:57-58 | counts that are single digits in increasing order are labelled by exactly those digits, in that order |
| Rules.Chosen | src/core/Rules.js:10-17 | choosing a name installs something exactly when it is a catalogue key; what it installs is repeat-free and named after it |
| Rules.ChosenPreset | src/core/Rules.js:10-17 | choosing a catalogue entry installs exactly its listed counts |
| Rules.ChosenAgrees | src/core/Rules.js:11-12 | apart from names inherited from `Object.prototype`, the source's lookup and `Chosen` agree |
| Rules.ChosenAsWrittenInherited | src/core/Rules.js:11-16 | as written, choosing "toString" installs empty birth and survival sets under that name, labelled `B/S` |
| Rules.Rules.constructor | src/core/Rules.js:4-7 | a new rule is birth [5, 6], survival [4, 5, 6, 7], named "5-6/4-7 Amoeba" |
| Rules.Rules.SetRule | src/core/Rules.js:10-17 | a catalogue name installs its counts and name; any other name leaves birth, survival and name unchanged |
| Rules.Rules.SetCustomRule | src/core/Rules.js:20-24 | installs the given counts without repeats and names the rule "Custom" |
| Rules.Rules.GetCellsToCheck | src/core/Rules.js:36-53 | the loop returns exactly the keys of the live cells and of their 26 wrapped neighbours |
| Rules.Rules.GetPresetNames | src/core/Rules.js:63-65 | the catalogue names in declaration order, and a name is listed exactly when choosing it installs a rule |
| Patterns.GetPatternNames | src/patterns/presets.js:105-107 | the ten shape names in declaration order, and a name is listed exactly when it is a key of the table |
| Patterns.GetPattern | src/patterns/presets.js:110-112 | a listed name gives its own cells, and any other name gives the empty pattern |
| Patterns.GetPatternPreset | src/patterns/presets.js:110-112 | every entry of the table is returned under its own name |
| Patterns.GetPatternAgrees | src/patterns/presets.js:111 | apart from names inherited from `Object.prototype`, the source's lookup and `GetPattern` agree |
| Patterns.GetPatternAsWrittenInherited | src/patterns/presets.js:111 | as written, "constructor" yields a value that is not a list of cells, while `GetPattern` gives [] |
| Patterns.PatternShape | src/patterns/presets.js:6-101 | every shape is non-empty, has no repeated cell, and stays within [-2, 2] on each axis |
| Patterns.PatternPopulation | src/patterns/presets.js:6-101 | loading any shape onto a lattice of edge 5 or more gives a population equal to its length |
| Patterns.PatternSizes | src/patterns/presets.js:6-101 | looked up by name, the shapes have 8, 7, 3, 5, 5, 5, 6, 8, 7 and 20 cells in catalogue order ('Cube 2x2x2' 8, 'Hollow Cube' 20) |
| Simulation.NextGeneration | src/core/Simulation.js:18-30 | from live cells on the lattice, the next generation lies on the lattice too |
| Simulation.NextGenerationBounds | src/core/Simulation.js:18-30 | the next generation lies on the lattice and has at most 27 cells per live cell |
| Simulation.ActiveRegionSufficient | src/core/Simulation.js:18-30 | when 0 is not a birth count, judging only the region gives the same next generation as judging every lattice cell |
| Simulation.BirthOnZeroOutsideRegion | src/core/Simulation.js:18-30 | on a lattice of any edge, with 0 among the birth counts, an empty lattice stays empty although the rule makes every lattice cell born |
| Simulation.PresetStepsExact | src/core/Simulation.js:18-30 | under every catalogue rule the step equals judging every lattice cell |
| Simulation.IsolatedCellDies | src/core/Simulation.js:18-30 | on an edge of 3 or more, a lone cell dies out under any rule whose counts are all at least 2 |
| Simulation.IsolatedCellDiesUnderPresets | src/core/Simulation.js:18-30 | every catalogue rule lets a lone cell die |
| Simulation.Judge | src/core/Simulation.js:22-25 | a key of the active region is parsed back into the lattice cell it names, and the verdict is true exactly when that cell belongs to the next generation |
| Simulation.Evolve | src/core/Simulation.js:19-30 | parsing each key back and judging it against the old lattice gives a fresh lattice holding exactly the next generation |
| Simulation.Simulation.constructor | src/core/Simulation.js:6-14 | a new engine has an empty 32-lattice, the default rule, generation 0, is idle at speed 4, and reports those stats |
| Simulation.Simulation.SetUpdateHook | src/main.js:53 | installs or removes the callback and changes nothing else |
| Simulation.Simulation.Step | src/core/Simulation.js:17-38 | replaces the lattice by a fresh one holding the next generation, leaves the old lattice untouched, adds 1 to the generation, keeps rule, speed and timer, and notifies once if a callback is installed |
| Simulation.Simulation.Play | src/core/Simulation.js:41-48 | when running nothing changes; when idle it schedules one new timer at the current speed and runs |
| Simulation.Simulation.Pause | src/core/Simulation.js:51-59 | afterwards the engine is idle with no handle and no live timer; when already idle nothing changes |
| Simulation.Simulation.Toggle | src/core/Simulation.js:62-68 | flips the running state and leaves lattice, rule, generation and speed alone |
| Simulation.Simulation.SetSpeed | src/core/Simulation.js:71-79 | sets the speed and keeps the running state and generation; when running it replaces the timer by one at the new speed and cancels the old one |
| Simulation.Simulation.Reset | src/core/Simulation.js:82-90 | the engine is idle, the lattice empty, the generation 0, and the callback runs once if installed |
| Simulation.Simulation.SetRule | src/core/Simulation.js:93-95 | hands the name to the rule and touches neither generation, running state nor notifications |
| Simulation.Simulation.SetCustomRule | src/core/Simulation.js:98-100 | hands the counts to the rule and touches neither generation, running state nor notifications |
| Simulation.Simulation.LoadPattern | src/core/Simulation.js:103-111 | the engine is idle, the lattice holds the centred pattern, the generation is 0, and the callback runs once if installed |
| Simulation.Simulation.RandomFill | src/core/Simulation.js:114-122 | the engine is idle, the lattice holds the random fill, the generation is 0, and the callback runs once if installed |
| Simulation.Simulation.GetStats | src/core/Simulation.js:125-133 | the generation, running flag and speed as they are, the population as the number of stored keys, and a rule label that splits at its slash into the birth and survival labels |

## Left out

- **Rendering, UI and wiring.** The renderer, the control panel, the cell editor and `src/main.js` are not part of this model.
  - `src/main.js` hands `simulation.grid` to the editor once, while `step` replaces the grid. From then on the editor edits a lattice the engine no longer uses.
- **Timers.** Only their handles are modelled: a timer is a number plus the speed it was scheduled at. The interval `1000 / speed`, wall-clock firing and the browser's treatment of odd delays (zero or negative speed) are not modelled. A timer firing is a call of `Step`.
- **Randomness.** `Math.random` is a parameter of `randomFill`: `chance(c)` is the draw made when the loop reaches cell `c`.
- **The `onUpdate` callback.** It is foreign code. The model records whether one is installed and counts its calls in a ghost field. JavaScript sets it by plain assignment; the model uses `SetUpdateHook` for that.
- **Lattice edge.** `Grid3D` requires an edge of at least 1. The source accepts any value, and an edge of 0 would make every coordinate `NaN`.
- Grid3D.Grid3D.GetLiveCells: returns the live cells in an unspecified order. The source enumerates the `Map` in insertion order. No property of the model depends on the order, because the step's result is a function of the cell set.
- **Other `Number()` inputs.** `Number()` is modelled for decimal integer text only; `ParseKey` gives `None` for anything else. Whitespace, exponents, hexadecimal and fractions are not modelled. Keys are only ever produced by `getKey`, and for those the parse is exact.
- **Numbers.** Counts, coordinates and speeds are unbounded integers. Floating-point coordinates, fractional speeds and `CELL_SIZE`, `CELL_SPACING` and the colours are not modelled.
- Simulation.Simulation.SetSpeed: assigns the new speed between cancelling the old timer and scheduling the new one. The source assigns it first. Cancelling does not read the speed, so the outcome is the same.
- **Default arguments.** `constructor(size = GRID_SIZE)` (`src/core/Grid3D.js:4`) and `randomFill(density = 0.1)` (`src/core/Grid3D.js:87`) have defaults. The model takes both as ordinary parameters. No caller relies on the defaults: `src/core/Simulation.js:7` passes the edge, and `src/main.js:56` passes a density.
- Rules.Rules.SetRule: follows the corrected own-property lookup (`Rules.Chosen`). A name inherited from `Object.prototype`, such as "toString", leaves the rule unchanged. The source installs empty birth and survival sets under that name (see Findings).
- Simulation.Simulation.SetRule: hands the name to `Rules.Rules.SetRule`, so it follows the same corrected lookup. For an inherited name the source would install empty sets.
- Patterns.GetPattern: follows the corrected own-property lookup. A name inherited from `Object.prototype`, such as "constructor", gives the empty pattern. The source returns that inherited property (see Findings).
- **The stats object.** `getStats()` returns a fresh object literal. The model returns a `Stats` value; its contents are fixed for a fresh engine by the constructor.

## Findings

| source | as written | input that shows it | evidently intended | confidence | as-written member | corrected member |
|---|---|---|---|---|---|---|
| src/core/Rules.js:11-16 | `this.presets[presetName]` also finds the properties every object inherits from `Object.prototype`. Those are functions, so they are truthy, and `new Set` of their missing `birth`/`survival` is empty. | `setRule("toString")` installs a rule with no birth and no survival counts under the name "toString", labelled `B/S`. | a name that is not in the catalogue leaves the rule unchanged | not executed | Rules.ChosenAsWrittenInherited | Rules.Chosen |
| src/patterns/presets.js:111 | Looking up `PATTERN_PRESETS[name]` also finds the names inherited from `Object.prototype`, so the fallback to the empty list is skipped. | `getPattern("constructor")` returns the `Object` function, and `loadPattern` of it fails because a function is not iterable. | a name that is not in the table gives the empty pattern | not executed | Patterns.GetPatternAsWrittenInherited | Patterns.GetPattern |

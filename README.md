# A/B split-timing demo: a Dafny model of the dot-state logic

The demo animates a population of simulated users (dots) through six steps in two
panels. In the **early split** panel, users are assigned red (control) or blue
(variant) as soon as they arrive, and later drop-offs are only faded. In the **late
split** panel, users who drop off disappear first, and only the survivors are then
assigned a freshly shuffled, balanced set of groups. A second, smaller animation
(`ScenarioAnimation`) shows 16 users over four steps with hard-coded drop-offs and
colours.

This project models:

- the two Fisher-Yates generators (`randomAssignments`, `randomIndexes`) as methods
  that shuffle an array in place;
- the two per-step renderers as functions from a step and a scenario to a sequence
  of `{color, visible, faded}` records;
- the `countColors` tally as a method with a loop;
- the step and scenario state of both components as classes;
- the fixed-data renderer `getDotScenario`.

`Math.random()` is not modelled. Each swap partner is an arbitrary
`j :| 0 <= j <= i`, and every property below holds for every choice.

Modules:

- `Colors`: the colours, with `Unset` for JavaScript's `undefined`/`null`.
- `Navigation`: the clamped Prev/Next step handlers.
- `Generators`: `randomAssignments` and `randomIndexes`.
- `SplitPanels`: `buildEarlySplitDots`, `buildLateSplitDots` and `countColors`.
- `SideBySideScenarios`: `getRandomScenario` and the side-by-side component's state.
- `ScenarioAnimation`: `getDotScenario` and that component's step state.

The population size `n` and the drop-off count are parameters. The demo's values
`DOTS = 50` and `DROPOFF_COUNT = 20` are kept as constants. `LastStepOfTheDemo`
instantiates them: at the last step the early panel counts 30 users in some
red/blue split, and the late panel counts exactly 15 red and 15 blue.

Facts about the code that the model keeps:

- Red (control) gets the floor half, `floor(n/2)`, and blue the rest.
- The population and drop-off count are the constants `DOTS` and `DROPOFF_COUNT`;
  no input sets or clamps them.
- The late panel's survivors are exactly balanced: 15/15 for 50 users and 20
  drop-offs.

## Model

| member | source | states |
|---|---|---|
| `Colors.ColorAt` | src/components/SideBySideScenarios.js:36-46 | an array read `assignments[i]` (also `survivorAssignments[survivorIndex]` at line 75 and `colors[i]` in ScenarioAnimation.js:32-33) yields the entry when `i` is in range, and otherwise `undefined` (`Unset`); it never yields a colour the array does not hold |
| `Navigation.PrevStep` | src/components/SideBySideScenarios.js:201 | Prev never goes below step 0 and otherwise steps back by exactly one |
| `Navigation.NextStep` | src/components/SideBySideScenarios.js:211 | Next never goes past the last step and otherwise steps forward by exactly one |
| `Navigation.StepStaysInRange` | src/components/SideBySideScenarios.js:94 | from any step in `[0, maxStep]`, Prev and Next stay in `[0, maxStep]` |
| `Navigation.PrevNextRoundTrip` | src/components/ScenarioAnimation.js:62-64 | Next undoes Prev away from step 0; Prev undoes Next away from the last step |
| `Generators.Repeat` | src/components/SideBySideScenarios.js:11 | `Array(count).fill(c)` has length `count` and holds `count` copies of `c` and nothing else |
| `Generators.Unshuffled` | src/components/SideBySideScenarios.js:10-11 | the starting array has `count` entries: red exactly at the first `floor(count/2)` positions, blue exactly at the rest |
| `Generators.BalancedCounts` | src/components/SideBySideScenarios.js:10-11 | any rearrangement of the starting array holds exactly `floor(count/2)` red and `count - floor(count/2)` blue, and only red and blue |
| `Generators.SwapPermutes` | src/components/SideBySideScenarios.js:14 | the destructuring swap only rearranges the array (same multiset), also when `i == j` |
| `Generators.RandomAssignments` | src/components/SideBySideScenarios.js:8-17 | for every choice of swap partners, the result has `count` entries and is a permutation of `floor(count/2)` reds followed by the remaining blues |
| `Generators.Range` | src/components/SideBySideScenarios.js:20 | definition of `[...Array(total).keys()]`, the identity sequence `0, 1, ..., total-1`; the reference the permutation in `RandomIndexes` is stated against |
| `Generators.SwapKeepsDistinct` | src/components/SideBySideScenarios.js:23 | swapping two entries keeps the indexes in range and pairwise distinct |
| `Generators.RandomIndexes` | src/components/SideBySideScenarios.js:19-26 | for every choice of swap partners, the result has `min(count, total)` pairwise distinct indexes in `[0, total)` and is a prefix of a permutation of `0..total-1` |
| `SplitPanels.CountedColors` | src/components/SideBySideScenarios.js:83-84 | the colours of the visible, non-faded dots, in order; never more of them than dots |
| `SplitPanels.RedBlueTally` | src/components/SideBySideScenarios.js:84-87 | red plus blue never exceeds the number of counted dots, and equals it when every counted dot is red or blue |
| `SplitPanels.CountedColorsStep` | src/components/SideBySideScenarios.js:83-88 | one more dot adds its colour to the tally exactly when it is visible and not faded |
| `SplitPanels.CountColors` | src/components/SideBySideScenarios.js:81-90 | the loop returns the number of red and of blue dots among the visible, non-faded ones; grey and faded dots are never counted; `red + blue` is at most the number of visible non-faded dots |
| `SplitPanels.Survivors` | src/components/SideBySideScenarios.js:69 | the filtered key list holds only indexes in `[0, n)` that are not dropped, in strictly increasing order |
| `SplitPanels.SurvivorsComplete` | src/components/SideBySideScenarios.js:69 | every index in `[0, n)` that is not dropped is among the survivors |
| `SplitPanels.IndexOf` | src/components/SideBySideScenarios.js:73 | `indexOf` returns -1 exactly when the value is absent, and otherwise the position of its first occurrence |
| `SplitPanels.IndexOfIncreasing` | src/components/SideBySideScenarios.js:73-75 | in the increasing survivor list, a survivor's `indexOf` is its own rank |
| `SplitPanels.CountedColorsOfSurvivors` | src/components/SideBySideScenarios.js:69-75 | when exactly the non-dropped dots are counted, the counted colours are the survivors' colours, survivor by survivor |
| `SplitPanels.SurvivorsPlusDropped` | src/components/SideBySideScenarios.js:69 | every index below `m` either survives the filter or is in the drop list |
| `SplitPanels.DistinctElements` | src/components/SideBySideScenarios.js:25 | a drop-off list of distinct indexes has as many distinct elements as entries |
| `SplitPanels.SurvivorCount` | src/components/SideBySideScenarios.js:69-70 | with a drop-off list as `randomIndexes` draws it, exactly `n - |drop|` users survive, and that is the length passed to `randomAssignments` |
| `SplitPanels.AllCounted` | src/components/SideBySideScenarios.js:83-84 | when every dot is visible and not faded, the counted colours are all the dots' colours |
| `SplitPanels.EarlySplitDots` | src/components/SideBySideScenarios.js:28-51 | always `n` dots; visible iff step ≥ 1; faded iff step ≥ 3 and the index is dropped; colour `assignments[i]` from step 2, grey before |
| `SplitPanels.EarlyRevealIsMonotonic` | src/components/SideBySideScenarios.js:31-50 | a dot visible at one step is visible at every later step; from step 2 its colour never changes; steps 4 and 5 equal step 3 |
| `SplitPanels.EarlyCountedColors` | src/components/SideBySideScenarios.js:41-48 | from step 3 the counted early dots are exactly the survivors, each with the colour assigned at arrival |
| `SplitPanels.EarlyTalliesBeforeColouring` | src/components/SideBySideScenarios.js:29-33 | before step 2 the early panel counts no red and no blue |
| `SplitPanels.EarlyTalliesAtColouring` | src/components/SideBySideScenarios.js:34-40 | at step 2 the early panel counts the full balanced split, `floor(n/2)` red and the rest blue |
| `SplitPanels.EarlyTalliesAfterDropOff` | src/components/SideBySideScenarios.js:41-48 | from step 3 the early panel counts `n - |drop|` users in red plus blue, however they split |
| `SplitPanels.LateSplitDots` | src/components/SideBySideScenarios.js:53-79 | the late renderer always yields `n` dots, given the survivors' colours |
| `SplitPanels.LateDotState` | src/components/SideBySideScenarios.js:53-79 | a late dot is never faded; it is visible iff step ≥ 1 and it is not dropped at step ≥ 3; it is grey before step 4 and whenever dropped; from step 4 a survivor takes the colour at its rank among survivors |
| `SplitPanels.LateCountedColors` | src/components/SideBySideScenarios.js:67-77 | from step 4 the counted late dots carry exactly the survivor assignment, in order |
| `SplitPanels.LateGreyBeforeAssignment` | src/components/SideBySideScenarios.js:56-66 | before step 4 the late panel counts no red and no blue |
| `SplitPanels.AllGreyCounted` | src/components/SideBySideScenarios.js:84-87 | when every dot is grey, nothing red or blue is counted |
| `SplitPanels.BuildLateSplitDots` | src/components/SideBySideScenarios.js:53-79 | for every shuffle: `n` dots, none faded, dropped dots hidden and grey from step 3; from step 4 every survivor is red or blue and the counted colours are a balanced mix over the survivors |
| `SideBySideScenarios.EarlyPanelTallies` | src/components/SideBySideScenarios.js:110-113 | for a valid scenario, early stats are 0/0 before step 2, `floor(n/2)`/rest at step 2, and sum to `n - min(dropCount, n)` from step 3 |
| `SideBySideScenarios.LatePanelTallies` | src/components/SideBySideScenarios.js:111-114 | for a valid late drop list and a balanced survivor assignment, the late stats are `floor(s/2)` red and `s - floor(s/2)` blue, `s = n - min(dropCount, n)` |
| `SideBySideScenarios.RenderEarlyPanel` | src/components/SideBySideScenarios.js:110-113 | the early dots of the current step, with `countColors` giving 0/0 before step 2, `floor(n/2)`/rest at step 2, and `n - min(dropCount, n)` in all from step 3 |
| `SideBySideScenarios.RenderLatePanel` | src/components/SideBySideScenarios.js:111-114 | `n` late dots with the visibility rule, with `countColors` giving 0/0 before step 4 and `floor(s/2)` red, `s - floor(s/2)` blue from step 4 |
| `SideBySideScenarios.RandomScenario` | src/components/SideBySideScenarios.js:95-100 | two independent drop-off lists of `min(dropCount, n)` distinct in-range indexes, and a balanced assignment of all `n` users |
| `SideBySideScenarios.SideBySide.constructor` | src/components/SideBySideScenarios.js:102-103 | the component starts at step 0 with a freshly drawn valid scenario |
| `SideBySideScenarios.SideBySide.Prev` | src/components/SideBySideScenarios.js:201 | Prev sets `step` to `max(0, step - 1)`, keeps it in `[0, 5]` and leaves the scenario alone |
| `SideBySideScenarios.SideBySide.Next` | src/components/SideBySideScenarios.js:211 | Next sets `step` to `min(5, step + 1)`, keeps it in `[0, 5]` and leaves the scenario alone |
| `SideBySideScenarios.SideBySide.Reset` | src/components/SideBySideScenarios.js:105-108 | Reset replaces the whole scenario with a new valid draw and sets `step` to 0 |
| `SideBySideScenarios.SideBySide.Render` | src/components/SideBySideScenarios.js:110-114 | one render: the early dots, `n` late dots with the stated visibility, and both panels' red/blue tallies by step (late: balanced over the survivors from step 4) |
| `ScenarioAnimation.DropOffIndexes` | src/components/ScenarioAnimation.js:18-20 | the drop list has 3 entries for "early" and 2 for any other scenario, all distinct indexes among the 16 dots |
| `ScenarioAnimation.ColorTable` | src/components/ScenarioAnimation.js:28-30 | each table has 16 entries, and every user who does not drop off has a red or blue entry (the `null`s fall only on drop-offs) |
| `ScenarioAnimation.GetDotScenario` | src/components/ScenarioAnimation.js:7-38 | always 16 dots; visible iff step ≥ 1 and not in the drop list from step 2; grey unless shown at step ≥ 3; every dot shown at step ≥ 3 is red or blue |
| `ScenarioAnimation.SettledFromStep3` | src/components/ScenarioAnimation.js:27-37 | steps beyond 3 yield exactly the dots of step 3 |
| `ScenarioAnimation.EarlyFinalDots` | src/components/ScenarioAnimation.js:17-36 | the "early" scenario at step 3, dot by dot: 2, 6 and 13 hidden grey, the rest coloured from the table |
| `ScenarioAnimation.EarlyFinalSplit` | src/components/ScenarioAnimation.js:27-35 | the "early" scenario at step 3 shows 6 red and 7 blue |
| `ScenarioAnimation.LateFinalDots` | src/components/ScenarioAnimation.js:17-36 | any other scenario at step 3, dot by dot: 4 and 11 hidden grey, the rest coloured from the table |
| `ScenarioAnimation.LateFinalSplit` | src/components/ScenarioAnimation.js:27-35 | any other scenario at step 3 shows 7 red and 7 blue |
| `ScenarioAnimation.Animation.Dots` | src/components/ScenarioAnimation.js:44 | the current step's 16 dots; at the last step 13 are shown in red or blue for "early" and 14 otherwise |
| `ScenarioAnimation.Animation.constructor` | src/components/ScenarioAnimation.js:41 | the animation starts at step 0 |
| `ScenarioAnimation.Animation.Prev` | src/components/ScenarioAnimation.js:62 | Prev sets `step` to `max(0, step - 1)` and keeps it in `[0, 3]` |
| `ScenarioAnimation.Animation.Next` | src/components/ScenarioAnimation.js:64 | Next sets `step` to `min(3, step + 1)` and keeps it in `[0, 3]` |

## Left out

- Uniformity of the shuffles. `Math.random()` is a floating-point foreign source, so the swap partner is an arbitrary choice and no probability is stated.
- Determinism of the late panel from step 4. The source re-shuffles on every render, so only counts and balance are stated there. `LateSplitDots` takes the survivors' colours as a parameter, and `BuildLateSplitDots` draws them.
- Rendering: `Dot.js` (animation, opacity, blur, the CSS colour map), `App.js`, the JSX layout, the step labels, `AnimatePresence`, and showing the stats only at the last step.
- React `useState`. The model keeps only the resulting step and scenario transitions. The disabled state of the Prev/Next buttons is UI only; the handlers clamp anyway.
- `Array(n).fill(obj)` shares one object between all entries. Every later `map` builds new objects, so the model uses values.
- Step values below 0. The model's step is a natural number, and no handler produces a negative step.
- `SplitPanels.LateSplitDots`: its own contract states only the length. The per-dot behaviour is proved separately, in `SplitPanels.LateDotState`.

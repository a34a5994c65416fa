/** The state of the side-by-side demo: the current step and the random scenario it
    renders, with the Prev / Next / Reset handlers and the per-render tallies. */
module SideBySideScenarios {
  import opened Colors
  import opened Navigation
  import opened Generators
  import opened SplitPanels

  /** The last of the six steps. */
  const MAX_STEP: nat := 5

  /** One random draw: who drops off in each panel, and the early panel's groups. */
  datatype Scenario = Scenario(earlyDrop: seq<int>, lateDrop: seq<int>, earlyAssignments: seq<Color>)

  /** A drop-off list as `randomIndexes(n, dropCount)` draws it. */
  ghost predicate ValidDrop(drop: seq<int>, n: nat, dropCount: nat)
  {
    |drop| == Min(dropCount, n) && DistinctIndexes(drop, n)
  }

  /** A scenario as `getRandomScenario` draws it for `n` users and `dropCount` drop-offs. */
  ghost predicate ValidScenario(scenario: Scenario, n: nat, dropCount: nat)
  {
    ValidDrop(scenario.earlyDrop, n, dropCount) &&
    ValidDrop(scenario.lateDrop, n, dropCount) &&
    IsBalanced(scenario.earlyAssignments, n)
  }

  /** `getRandomScenario`: two independent drop-off draws and one balanced assignment. */
  method RandomScenario(n: nat, dropCount: nat) returns (scenario: Scenario)
    ensures ValidScenario(scenario, n, dropCount)
  {
    var earlyDrop, _ := RandomIndexes(n, dropCount);
    var lateDrop, _ := RandomIndexes(n, dropCount);
    var earlyAssignments := RandomAssignments(n);
    scenario := Scenario(earlyDrop, lateDrop, earlyAssignments);
  }

  /** The early panel's tallies for a valid scenario, with `s = n - min(dropCount, n)`
      survivors: none before step 2, the balanced split at step 2, `s` in all from step 3. */
  lemma EarlyPanelTallies(n: nat, dropCount: nat, step: nat, scenario: Scenario)
    requires ValidScenario(scenario, n, dropCount)
    ensures var c := multiset(CountedColors(EarlySplitDots(n, step, scenario.earlyDrop, scenario.earlyAssignments)));
      (step < 2 ==> c[Red] == 0 && c[Blue] == 0) &&
      (step == 2 ==> c[Red] == n / 2 && c[Blue] == n - n / 2) &&
      (step >= 3 ==> c[Red] + c[Blue] == n - Min(dropCount, n))
  {
    if step < 2 {
      EarlyTalliesBeforeColouring(n, step, scenario.earlyDrop, scenario.earlyAssignments);
    } else if step == 2 {
      EarlyTalliesAtColouring(n, scenario.earlyDrop, scenario.earlyAssignments);
    } else {
      EarlyTalliesAfterDropOff(n, step, scenario.earlyDrop, scenario.earlyAssignments);
    }
  }

  /** A late panel whose counted colours are a balanced mix over the survivors of a valid
      drop-off list counts `s / 2` red and `s - s / 2` blue, `s = n - min(dropCount, n)`. */
  lemma LatePanelTallies(n: nat, dropCount: nat, drop: seq<int>, dots: seq<Dot>)
    requires ValidDrop(drop, n, dropCount)
    requires IsBalanced(CountedColors(dots), |Survivors(n, drop)|)
    ensures multiset(CountedColors(dots))[Red] == (n - Min(dropCount, n)) / 2
    ensures multiset(CountedColors(dots))[Blue] == (n - Min(dropCount, n)) - (n - Min(dropCount, n)) / 2
  {
    SurvivorCount(n, drop);
    BalancedCounts(CountedColors(dots), |Survivors(n, drop)|);
  }

  /** The early half of a render: `buildEarlySplitDots` and its `countColors` tally. */
  method RenderEarlyPanel(n: nat, dropCount: nat, step: nat, scenario: Scenario)
    returns (dots: seq<Dot>, red: nat, blue: nat)
    requires ValidScenario(scenario, n, dropCount)
    ensures dots == EarlySplitDots(n, step, scenario.earlyDrop, scenario.earlyAssignments)
    ensures step < 2 ==> red == 0 && blue == 0
    ensures step == 2 ==> red == n / 2 && blue == n - n / 2
    ensures step >= 3 ==> red + blue == n - Min(dropCount, n)
  {
    dots := EarlySplitDots(n, step, scenario.earlyDrop, scenario.earlyAssignments);
    red, blue := CountColors(dots);
    EarlyPanelTallies(n, dropCount, step, scenario);
  }

  /** The late half of a render: `buildLateSplitDots` and its `countColors` tally. */
  method RenderLatePanel(n: nat, dropCount: nat, step: nat, drop: seq<int>)
    returns (dots: seq<Dot>, red: nat, blue: nat)
    requires ValidDrop(drop, n, dropCount)
    ensures |dots| == n
    ensures forall i :: 0 <= i < n ==> (dots[i].visible <==> step >= 1 && !(step >= 3 && i in drop))
    ensures step < 4 ==> red == 0 && blue == 0
    ensures step >= 4 ==> red == (n - Min(dropCount, n)) / 2
    ensures step >= 4 ==> blue == (n - Min(dropCount, n)) - (n - Min(dropCount, n)) / 2
  {
    dots := BuildLateSplitDots(n, step, drop);
    red, blue := CountColors(dots);
    if step >= 4 {
      LatePanelTallies(n, dropCount, drop, dots);
    }
  }

  class SideBySide {
    /** Population size and drop-off count (`DOTS` and `DROPOFF_COUNT` in the demo). */
    const n: nat
    const dropCount: nat
    var step: nat
    var scenario: Scenario

    ghost predicate Valid()
      reads this
    {
      step <= MAX_STEP && ValidScenario(scenario, n, dropCount)
    }

    /** Mounting the component: step 0 and a freshly drawn scenario. */
    constructor (n: nat, dropCount: nat)
      ensures Valid()
      ensures this.n == n && this.dropCount == dropCount && step == 0
    {
      var drawn := RandomScenario(n, dropCount);
      this.n := n;
      this.dropCount := dropCount;
      step := 0;
      scenario := drawn;
    }

    /** The Prev button: one step back, not below 0; the scenario is kept. */
    method Prev()
      requires Valid()
      modifies this`step
      ensures Valid()
      ensures step == PrevStep(old(step))
    {
      step := PrevStep(step);
    }

    /** The Next button: one step forward, not past the last step; the scenario is kept. */
    method Next()
      requires Valid()
      modifies this`step
      ensures Valid()
      ensures step == NextStep(old(step), MAX_STEP)
    {
      step := NextStep(step, MAX_STEP);
    }

    /** `handleReset`: the whole scenario is replaced by a new draw and the step goes
        back to 0. */
    method Reset()
      requires Valid()
      modifies this`step, this`scenario
      ensures Valid()
      ensures step == 0
    {
      scenario := RandomScenario(n, dropCount);
      step := 0;
    }

    /** One render: both panels' dots and their tallies. With `s` the number of
        survivors (`n - min(dropCount, n)`), the early panel shows `s` coloured users
        from step 3 on, however they split; the late panel shows a balanced
        `s / 2` red and `s - s / 2` blue from step 4 on. */
    method Render() returns (earlyDots: seq<Dot>, lateDots: seq<Dot>,
                             earlyRed: nat, earlyBlue: nat, lateRed: nat, lateBlue: nat)
      requires Valid()
      ensures earlyDots == EarlySplitDots(n, step, scenario.earlyDrop, scenario.earlyAssignments)
      ensures |lateDots| == n
      ensures forall i :: 0 <= i < n ==>
                (lateDots[i].visible <==> step >= 1 && !(step >= 3 && i in scenario.lateDrop))
      ensures step < 2 ==> earlyRed == 0 && earlyBlue == 0
      ensures step == 2 ==> earlyRed == n / 2 && earlyBlue == n - n / 2
      ensures step >= 3 ==> earlyRed + earlyBlue == n - Min(dropCount, n)
      ensures step < 4 ==> lateRed == 0 && lateBlue == 0
      ensures step >= 4 ==> lateRed == (n - Min(dropCount, n)) / 2
      ensures step >= 4 ==> lateBlue == (n - Min(dropCount, n)) - (n - Min(dropCount, n)) / 2
    {
      earlyDots, earlyRed, earlyBlue := RenderEarlyPanel(n, dropCount, step, scenario);
      lateDots, lateRed, lateBlue := RenderLatePanel(n, dropCount, step, scenario.lateDrop);
    }
  }

  /** The demo as shipped (50 users, 20 drop-offs), stepped to its last step: the early
      panel counts 30 users in some split, the late panel exactly 15 red and 15 blue. */
  method LastStepOfTheDemo()
  {
    var demo := new SideBySide(DOTS, DROPOFF_COUNT);
    var k := 0;
    while k < MAX_STEP
      invariant 0 <= k <= MAX_STEP
      invariant demo.Valid() && demo.step == k
      invariant demo.n == DOTS && demo.dropCount == DROPOFF_COUNT
    {
      demo.Next();
      k := k + 1;
    }
    var _, _, earlyRed, earlyBlue, lateRed, lateBlue := demo.Render();
    assert earlyRed + earlyBlue == 30;
    assert lateRed == 15 && lateBlue == 15;
  }
}

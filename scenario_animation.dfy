/** The single-scenario animation: 16 users over four steps, with a hard-coded
    drop-off list and colour table per scenario, and a clamped step counter. */
module ScenarioAnimation {
  import opened Colors
  import opened Navigation

  const DOTS: nat := 16
  const MAX_STEP: nat := 3

  /** A dot of this animation: a colour and whether it is shown. */
  datatype Dot = Dot(color: Color, visible: bool)

  /** The users who drop off at step 2: `[2, 6, 13]` for "early", `[4, 11]` for any
      other scenario name. */
  function DropOffIndexes(scenario: string): (drop: seq<int>)
    ensures |drop| == if scenario == "early" then 3 else 2
    ensures forall k :: 0 <= k < |drop| ==> 0 <= drop[k] < DOTS
    ensures forall k, l :: 0 <= k < l < |drop| ==> drop[k] != drop[l]
  {
    if scenario == "early" then [2, 6, 13] else [4, 11]
  }

  /** The colours handed out at step 3; `Unset` marks the table's `null` entries,
      which fall only on users who drop off. */
  function ColorTable(scenario: string): (colors: seq<Color>)
    ensures |colors| == DOTS
    ensures forall i :: 0 <= i < DOTS && i !in DropOffIndexes(scenario) ==>
              colors[i] == Red || colors[i] == Blue
  {
    if scenario == "early" then
      [Red, Blue, Red, Red, Blue, Red, Unset, Blue, Blue, Red, Blue, Red, Blue, Unset, Red, Blue]
    else
      [Red, Blue, Red, Blue, Unset, Red, Blue, Red, Blue, Red, Blue, Unset, Red, Blue, Red, Blue]
  }

  /** `getDotScenario(scenario, step)`: all hidden at step 0, all shown grey at step 1,
      the drop-offs hidden from step 2, and the shown users coloured from the table at
      step 3 (a `null` entry keeps the dot as it was). */
  function GetDotScenario(scenario: string, step: int): (dots: seq<Dot>)
    ensures |dots| == DOTS
    ensures forall i :: 0 <= i < DOTS ==>
              (dots[i].visible <==> step >= 1 && !(step >= 2 && i in DropOffIndexes(scenario)))
    ensures forall i :: 0 <= i < DOTS && !(step >= 3 && dots[i].visible) ==> dots[i].color == Grey
    ensures forall i :: 0 <= i < DOTS && step >= 3 && dots[i].visible ==>
              dots[i].color == Red || dots[i].color == Blue
  {
    var initial := seq(DOTS, i => Dot(Grey, false));
    var arrived := if step >= 1 then seq(|initial|, i => Dot(Grey, true)) else initial;
    var thinned :=
      if step >= 2 then
        var dropOffIndexes := DropOffIndexes(scenario);
        seq(|arrived|, i => if i in dropOffIndexes then Dot(Grey, false) else Dot(Grey, true))
      else arrived;
    if step >= 3 then
      var colors := ColorTable(scenario);
      seq(|thinned|, i requires 0 <= i < |thinned| =>
        if thinned[i].visible && colors[i] != Unset then Dot(colors[i], true) else thinned[i])
    else thinned
  }

  /** How many shown dots have colour `c`. */
  function VisibleCount(dots: seq<Dot>, c: Color): (count: nat)
    ensures count <= |dots|
  {
    if dots == [] then 0
    else VisibleCount(dots[1..], c) + (if dots[0].visible && dots[0].color == c then 1 else 0)
  }

  /** The count over a concatenation is the sum of the counts. */
  lemma {:induction false} VisibleCountAppend(a: seq<Dot>, b: seq<Dot>, c: Color)
    ensures VisibleCount(a + b, c) == VisibleCount(a, c) + VisibleCount(b, c)
  {
    if a != [] {
      assert (a + b)[0] == a[0] && (a + b)[1..] == a[1..] + b;
      VisibleCountAppend(a[1..], b, c);
    } else {
      assert a + b == b;
    }
  }

  /** The count over four consecutive blocks is the sum of their counts. */
  lemma VisibleCountOfBlocks(a: seq<Dot>, b: seq<Dot>, d: seq<Dot>, e: seq<Dot>, c: Color)
    ensures VisibleCount(a + b + d + e, c)
              == VisibleCount(a, c) + VisibleCount(b, c) + VisibleCount(d, c) + VisibleCount(e, c)
  {
    VisibleCountAppend(a, b, c);
    VisibleCountAppend(a + b, d, c);
    VisibleCountAppend(a + b + d, e, c);
  }

  /** Steps past 3 show exactly what step 3 shows. */
  lemma SettledFromStep3(scenario: string, step: int)
    requires step >= 3
    ensures GetDotScenario(scenario, step) == GetDotScenario(scenario, 3)
  {
  }

  /** The "early" scenario at step 3, dot by dot. */
  lemma EarlyFinalDots(scenario: string)
    requires scenario == "early"
    ensures GetDotScenario(scenario, 3)
              == [Dot(Red, true), Dot(Blue, true), Dot(Grey, false), Dot(Red, true)]
               + [Dot(Blue, true), Dot(Red, true), Dot(Grey, false), Dot(Blue, true)]
               + [Dot(Blue, true), Dot(Red, true), Dot(Blue, true), Dot(Red, true)]
               + [Dot(Blue, true), Dot(Grey, false), Dot(Red, true), Dot(Blue, true)]
  {
  }

  /** At step 3 the "early" scenario shows 13 users, 6 red and 7 blue. */
  lemma EarlyFinalSplit(scenario: string)
    requires scenario == "early"
    ensures VisibleCount(GetDotScenario(scenario, 3), Red) == 6
    ensures VisibleCount(GetDotScenario(scenario, 3), Blue) == 7
  {
    EarlyFinalDots(scenario);
    var b0 := [Dot(Red, true), Dot(Blue, true), Dot(Grey, false), Dot(Red, true)];
    var b1 := [Dot(Blue, true), Dot(Red, true), Dot(Grey, false), Dot(Blue, true)];
    var b2 := [Dot(Blue, true), Dot(Red, true), Dot(Blue, true), Dot(Red, true)];
    var b3 := [Dot(Blue, true), Dot(Grey, false), Dot(Red, true), Dot(Blue, true)];
    VisibleCountOfBlocks(b0, b1, b2, b3, Red);
    VisibleCountOfBlocks(b0, b1, b2, b3, Blue);
  }

  /** Any other scenario at step 3, dot by dot. */
  lemma LateFinalDots(scenario: string)
    requires scenario != "early"
    ensures GetDotScenario(scenario, 3)
              == [Dot(Red, true), Dot(Blue, true), Dot(Red, true), Dot(Blue, true)]
               + [Dot(Grey, false), Dot(Red, true), Dot(Blue, true), Dot(Red, true)]
               + [Dot(Blue, true), Dot(Red, true), Dot(Blue, true), Dot(Grey, false)]
               + [Dot(Red, true), Dot(Blue, true), Dot(Red, true), Dot(Blue, true)]
  {
  }

  /** At step 3 any other scenario shows 14 users, 7 red and 7 blue. */
  lemma LateFinalSplit(scenario: string)
    requires scenario != "early"
    ensures VisibleCount(GetDotScenario(scenario, 3), Red) == 7
    ensures VisibleCount(GetDotScenario(scenario, 3), Blue) == 7
  {
    LateFinalDots(scenario);
    var b0 := [Dot(Red, true), Dot(Blue, true), Dot(Red, true), Dot(Blue, true)];
    var b1 := [Dot(Grey, false), Dot(Red, true), Dot(Blue, true), Dot(Red, true)];
    var b2 := [Dot(Blue, true), Dot(Red, true), Dot(Blue, true), Dot(Grey, false)];
    var b3 := [Dot(Red, true), Dot(Blue, true), Dot(Red, true), Dot(Blue, true)];
    VisibleCountOfBlocks(b0, b1, b2, b3, Red);
    VisibleCountOfBlocks(b0, b1, b2, b3, Blue);
  }

  /** The component's state: the scenario it was given and the current step. */
  class Animation {
    const scenario: string
    var step: int

    ghost predicate Valid()
      reads this
    {
      0 <= step <= MAX_STEP
    }

    constructor (scenario: string)
      ensures Valid() && this.scenario == scenario && step == 0
    {
      this.scenario := scenario;
      step := 0;
    }

    method Prev()
      requires Valid()
      modifies this`step
      ensures Valid() && step == PrevStep(old(step))
    {
      step := PrevStep(step);
    }

    method Next()
      requires Valid()
      modifies this`step
      ensures Valid() && step == NextStep(old(step), MAX_STEP)
    {
      step := NextStep(step, MAX_STEP);
    }

    /** The dots drawn for the current step; at the last step 13 of them are shown
        in red or blue for "early", 14 for any other scenario. */
    function Dots(): (dots: seq<Dot>)
      reads this
      ensures |dots| == DOTS
      ensures step == MAX_STEP ==>
                VisibleCount(dots, Red) + VisibleCount(dots, Blue) == if scenario == "early" then 13 else 14
    {
      if step == MAX_STEP && scenario == "early" then
        EarlyFinalSplit(scenario);
        GetDotScenario(scenario, step)
      else if step == MAX_STEP then
        LateFinalSplit(scenario);
        GetDotScenario(scenario, step)
      else
        GetDotScenario(scenario, step)
    }
  }
}

/** The two panels of the split-timing demo: the step-indexed renderers
    `buildEarlySplitDots` and `buildLateSplitDots`, and the tally `countColors`.
    The population size `n` is a parameter (the demo uses `DOTS`). */
module SplitPanels {
  import opened Colors
  import opened Generators

  /** The population size and the drop-off count the demo is built with. */
  const DOTS: nat := 50
  const DROPOFF_COUNT: nat := 20

  /** What the renderer decides about one simulated user at one step. */
  datatype Dot = Dot(color: Color, visible: bool, faded: bool)

  /** A dot `countColors` looks at: visible and not faded. */
  predicate Counted(d: Dot)
  {
    d.visible && !d.faded
  }

  /** The colours of the counted dots, in order. */
  function CountedColors(dots: seq<Dot>): (s: seq<Color>)
    ensures |s| <= |dots|
  {
    if dots == [] then []
    else
      var last := dots[|dots| - 1];
      CountedColors(dots[..|dots| - 1]) + (if Counted(last) then [last.color] else [])
  }

  /** Tallies of red and blue in a colour sequence never exceed its length, and reach it
      exactly when every entry is red or blue. */
  lemma {:induction false} RedBlueTally(s: seq<Color>)
    ensures multiset(s)[Red] + multiset(s)[Blue] <= |s|
    ensures (forall k :: 0 <= k < |s| ==> s[k] == Red || s[k] == Blue) ==>
              multiset(s)[Red] + multiset(s)[Blue] == |s|
  {
    if s != [] {
      var p := s[..|s| - 1];
      assert s == p + [s[|s| - 1]];
      RedBlueTally(p);
    }
  }

  /** Taking one more dot adds its colour to the counted colours exactly when it is
      counted. */
  lemma CountedColorsStep(dots: seq<Dot>, k: nat)
    requires k < |dots|
    ensures multiset(CountedColors(dots[..k + 1]))
              == multiset(CountedColors(dots[..k])) + (if Counted(dots[k]) then multiset{dots[k].color} else multiset{})
  {
    assert dots[..k + 1][..k] == dots[..k];
  }

  /** `countColors(dots)`: the number of red and of blue dots among the counted ones. */
  method CountColors(dots: seq<Dot>) returns (red: nat, blue: nat)
    ensures red == multiset(CountedColors(dots))[Red]
    ensures blue == multiset(CountedColors(dots))[Blue]
    ensures red + blue <= |CountedColors(dots)|
  {
    red, blue := 0, 0;
    ghost var seen: multiset<Color> := multiset{};
    for k := 0 to |dots|
      invariant seen == multiset(CountedColors(dots[..k]))
      invariant red == seen[Red] && blue == seen[Blue]
    {
      CountedColorsStep(dots, k);
      var d := dots[k];
      if d.visible && !d.faded {
        seen := seen + multiset{d.color};
        if d.color == Red {
          red := red + 1;
        }
        if d.color == Blue {
          blue := blue + 1;
        }
      }
    }
    assert dots[..|dots|] == dots;
    RedBlueTally(CountedColors(dots));
  }

  /** `[...Array(n).keys()].filter(i => !drop.includes(i))`: the indexes in `[0, n)`
      that do not drop off, in increasing order. */
  function Survivors(n: nat, drop: seq<int>): (s: seq<int>)
    ensures |s| <= n
    ensures forall k :: 0 <= k < |s| ==> 0 <= s[k] < n && s[k] !in drop
    ensures forall k, l :: 0 <= k < l < |s| ==> s[k] < s[l]
  {
    if n == 0 then [] else Survivors(n - 1, drop) + (if n - 1 in drop then [] else [n - 1])
  }

  /** Every index in `[0, n)` outside `drop` is a survivor. */
  lemma {:induction false} SurvivorsComplete(n: nat, drop: seq<int>)
    ensures forall i :: 0 <= i < n && i !in drop ==> i in Survivors(n, drop)
  {
    if n > 0 {
      SurvivorsComplete(n - 1, drop);
    }
  }

  /** `s.indexOf(x)`: the first position of `x` in `s`, or -1 when it is absent. */
  function IndexOf(s: seq<int>, x: int): (k: int)
    ensures -1 <= k < |s|
    ensures k == -1 <==> x !in s
    ensures k >= 0 ==> s[k] == x && x !in s[..k]
  {
    if s == [] then -1
    else if s[0] == x then 0
    else
      var k := IndexOf(s[1..], x);
      if k == -1 then -1
      else
        assert s[..k + 1] == [s[0]] + s[1..][..k];
        k + 1
  }

  /** In a strictly increasing sequence an entry is found at its own position. */
  lemma IndexOfIncreasing(s: seq<int>, k: nat)
    requires k < |s|
    requires forall a, b :: 0 <= a < b < |s| ==> s[a] < s[b]
    ensures IndexOf(s, s[k]) == k
  {
  }

  /** When exactly the indexes outside `drop` are counted, the counted colours are the
      survivors' colours, survivor by survivor. */
  lemma {:induction false} CountedColorsOfSurvivors(dots: seq<Dot>, drop: seq<int>)
    requires forall i :: 0 <= i < |dots| ==> (Counted(dots[i]) <==> i !in drop)
    ensures |CountedColors(dots)| == |Survivors(|dots|, drop)|
    ensures forall k :: 0 <= k < |CountedColors(dots)| ==>
              CountedColors(dots)[k] == dots[Survivors(|dots|, drop)[k]].color
  {
    if dots != [] {
      var m := |dots|;
      var p := dots[..m - 1];
      CountedColorsOfSurvivors(p, drop);
      var s := Survivors(m, drop);
      var sp := Survivors(m - 1, drop);
      var c := CountedColors(dots);
      var cp := CountedColors(p);
      assert c == cp + (if Counted(dots[m - 1]) then [dots[m - 1].color] else []);
      assert s == sp + (if m - 1 in drop then [] else [m - 1]);
      assert Counted(dots[m - 1]) <==> m - 1 !in drop;
      forall k | 0 <= k < |c|
        ensures c[k] == dots[s[k]].color
      {
        if k < |cp| {
          assert s[k] == sp[k] && sp[k] < m - 1;
          assert c[k] == cp[k] == p[sp[k]].color;
        } else {
          assert c[k] == dots[m - 1].color && s[k] == m - 1;
        }
      }
    }
  }

  /** The indexes below `m` that are in `drop`. */
  function DroppedBelow(m: nat, drop: seq<int>): set<int>
  {
    set i | 0 <= i < m && i in drop
  }

  /** Every index below `m` either survives or is dropped. */
  lemma {:induction false} SurvivorsPlusDropped(m: nat, drop: seq<int>)
    ensures |Survivors(m, drop)| + |DroppedBelow(m, drop)| == m
  {
    if m > 0 {
      SurvivorsPlusDropped(m - 1, drop);
      if m - 1 in drop {
        assert DroppedBelow(m, drop) == DroppedBelow(m - 1, drop) + {m - 1};
      } else {
        assert DroppedBelow(m, drop) == DroppedBelow(m - 1, drop);
      }
    }
  }

  /** A list of distinct indexes has as many elements as entries. */
  lemma {:induction false} DistinctElements(drop: seq<int>, total: nat)
    requires DistinctIndexes(drop, total)
    ensures |set x | x in drop| == |drop|
  {
    if drop != [] {
      var p := drop[..|drop| - 1];
      var last := drop[|drop| - 1];
      assert drop == p + [last];
      DistinctElements(p, total);
      assert last !in p by {
        forall k | 0 <= k < |p|
          ensures p[k] != last
        {
          assert p[k] == drop[k];
        }
      }
      var sp := set x | x in p;
      assert (set x | x in drop) == sp + {last};
      assert last !in sp;
    }
  }

  /** With a drop-off list as `randomIndexes` draws it, `n - |drop|` users survive. */
  lemma SurvivorCount(n: nat, drop: seq<int>)
    requires DistinctIndexes(drop, n)
    ensures |Survivors(n, drop)| == n - |drop|
  {
    SurvivorsPlusDropped(n, drop);
    DistinctElements(drop, n);
    assert DroppedBelow(n, drop) == set x | x in drop;
  }

  /** When every dot is counted, the counted colours are the dots' colours. */
  lemma {:induction false} AllCounted(dots: seq<Dot>)
    requires forall i :: 0 <= i < |dots| ==> Counted(dots[i])
    ensures CountedColors(dots) == seq(|dots|, i requires 0 <= i < |dots| => dots[i].color)
  {
    if dots != [] {
      AllCounted(dots[..|dots| - 1]);
    }
  }

  /** `buildEarlySplitDots(step, drop, assignments)` over `n` users: everyone arrives at
      step 1, everyone is coloured from `assignments` at step 2, and from step 3 on the
      dropped users are faded but keep their colour. */
  function EarlySplitDots(n: nat, step: nat, drop: seq<int>, assignments: seq<Color>): (dots: seq<Dot>)
    ensures |dots| == n
    ensures forall i :: 0 <= i < n ==> (dots[i].visible <==> step >= 1)
    ensures forall i :: 0 <= i < n ==> (dots[i].faded <==> step >= 3 && i in drop)
    ensures forall i :: 0 <= i < n ==>
              dots[i].color == if step >= 2 then ColorAt(assignments, i) else Grey
  {
    var initial := seq(n, i => Dot(Grey, false, false));
    var arrived := if step >= 1 then seq(|initial|, i => Dot(Grey, true, false)) else initial;
    var coloured :=
      if step >= 2 then seq(|arrived|, i => Dot(ColorAt(assignments, i), true, false)) else arrived;
    if step >= 3 then
      seq(|coloured|, i =>
        if i in drop then Dot(ColorAt(assignments, i), true, true)
        else Dot(ColorAt(assignments, i), true, false))
    else coloured
  }

  /** Early panel: once shown a user is never hidden again, and once coloured keeps
      the colour; steps 4 and 5 show exactly what step 3 shows. */
  lemma EarlyRevealIsMonotonic(n: nat, s1: nat, s2: nat, drop: seq<int>, assignments: seq<Color>)
    requires s1 <= s2
    ensures forall i :: 0 <= i < n && EarlySplitDots(n, s1, drop, assignments)[i].visible ==>
              EarlySplitDots(n, s2, drop, assignments)[i].visible
    ensures s1 >= 2 ==> forall i :: 0 <= i < n ==>
              EarlySplitDots(n, s1, drop, assignments)[i].color == EarlySplitDots(n, s2, drop, assignments)[i].color
    ensures s1 >= 3 ==> EarlySplitDots(n, s1, drop, assignments) == EarlySplitDots(n, s2, drop, assignments)
  {
  }

  /** Early panel from step 3 on: the counted users are exactly the survivors, and
      they are counted with the colour coloured to them at arrival. */
  lemma EarlyCountedColors(n: nat, step: nat, drop: seq<int>, assignments: seq<Color>)
    requires step >= 3
    ensures |CountedColors(EarlySplitDots(n, step, drop, assignments))| == |Survivors(n, drop)|
    ensures forall k :: 0 <= k < |Survivors(n, drop)| ==>
              CountedColors(EarlySplitDots(n, step, drop, assignments))[k]
                == ColorAt(assignments, Survivors(n, drop)[k])
  {
    CountedColorsOfSurvivors(EarlySplitDots(n, step, drop, assignments), drop);
  }

  /** Early panel before step 2: nothing red or blue is counted. */
  lemma EarlyTalliesBeforeColouring(n: nat, step: nat, drop: seq<int>, assignments: seq<Color>)
    requires step < 2
    ensures multiset(CountedColors(EarlySplitDots(n, step, drop, assignments)))[Red] == 0
    ensures multiset(CountedColors(EarlySplitDots(n, step, drop, assignments)))[Blue] == 0
  {
    AllGreyCounted(EarlySplitDots(n, step, drop, assignments));
  }

  /** Early panel at step 2, with a balanced assignment of all `n` users: everyone is
      counted, `n / 2` red and `n - n / 2` blue. */
  lemma EarlyTalliesAtColouring(n: nat, drop: seq<int>, assignments: seq<Color>)
    requires IsBalanced(assignments, n)
    ensures multiset(CountedColors(EarlySplitDots(n, 2, drop, assignments)))[Red] == n / 2
    ensures multiset(CountedColors(EarlySplitDots(n, 2, drop, assignments)))[Blue] == n - n / 2
  {
    var dots := EarlySplitDots(n, 2, drop, assignments);
    BalancedCounts(assignments, n);
    AllCounted(dots);
    assert CountedColors(dots) == assignments;
  }

  /** Early panel from step 3 on, with a balanced assignment and a drop-off list as
      `randomIndexes` draws it: one red or blue per survivor, `n - |drop|` in all,
      whatever the split between the two. */
  lemma EarlyTalliesAfterDropOff(n: nat, step: nat, drop: seq<int>, assignments: seq<Color>)
    requires step >= 3
    requires IsBalanced(assignments, n)
    requires DistinctIndexes(drop, n)
    ensures multiset(CountedColors(EarlySplitDots(n, step, drop, assignments)))[Red] +
            multiset(CountedColors(EarlySplitDots(n, step, drop, assignments)))[Blue] == n - |drop|
  {
    var c := CountedColors(EarlySplitDots(n, step, drop, assignments));
    BalancedCounts(assignments, n);
    EarlyCountedColors(n, step, drop, assignments);
    SurvivorCount(n, drop);
    assert forall k :: 0 <= k < |c| ==> c[k] == Red || c[k] == Blue;
    RedBlueTally(c);
  }

  /** `buildLateSplitDots(step, drop)` over `n` users, with the colours that the
      step-4 call to `randomAssignments` hands to the survivors passed in as
      `survivorColors`. What each dot looks like is stated by `LateDotState`. */
  function LateSplitDots(n: nat, step: nat, drop: seq<int>, survivorColors: seq<Color>): (dots: seq<Dot>)
    ensures |dots| == n
  {
    var initial := seq(n, i => Dot(Grey, false, false));
    var arrived := if step >= 1 then seq(|initial|, i => Dot(Grey, true, false)) else initial;
    var thinned :=
      if step >= 3 then
        seq(|arrived|, i requires 0 <= i < |arrived| =>
          if i in drop then Dot(Grey, false, false) else arrived[i])
      else arrived;
    if step >= 4 then
      var survivors := Survivors(n, drop);
      seq(|thinned|, i requires 0 <= i < |thinned| =>
        var d := thinned[i];
        if !d.visible then d
        else
          var k := IndexOf(survivors, i);
          if k == -1 then d else Dot(ColorAt(survivorColors, k), true, false))
    else thinned
  }

  /** Late panel, user `i`: it arrives grey at step 1 and is never faded; a dropped user
      vanishes at step 3; a survivor is grey until step 4 and from then on carries the
      survivor colour at its rank among the survivors. */
  lemma LateDotState(n: nat, step: nat, drop: seq<int>, survivorColors: seq<Color>, i: nat)
    requires i < n
    ensures !LateSplitDots(n, step, drop, survivorColors)[i].faded
    ensures LateSplitDots(n, step, drop, survivorColors)[i].visible <==> step >= 1 && !(step >= 3 && i in drop)
    ensures step < 4 || i in drop ==> LateSplitDots(n, step, drop, survivorColors)[i].color == Grey
    ensures step >= 4 && i !in drop ==>
              LateSplitDots(n, step, drop, survivorColors)[i].color
                == ColorAt(survivorColors, IndexOf(Survivors(n, drop), i))
  {
    if step >= 4 && i !in drop {
      SurvivorsComplete(n, drop);
    }
  }

  /** Late panel from step 4 on: the counted users are exactly the survivors, and
      they carry the survivor colours in order. */
  lemma LateCountedColors(n: nat, step: nat, drop: seq<int>, survivorColors: seq<Color>)
    requires step >= 4
    requires |survivorColors| == |Survivors(n, drop)|
    ensures CountedColors(LateSplitDots(n, step, drop, survivorColors)) == survivorColors
  {
    var dots := LateSplitDots(n, step, drop, survivorColors);
    var s := Survivors(n, drop);
    forall i | 0 <= i < n
      ensures Counted(dots[i]) <==> i !in drop
    {
      LateDotState(n, step, drop, survivorColors, i);
    }
    CountedColorsOfSurvivors(dots, drop);
    forall k | 0 <= k < |s|
      ensures CountedColors(dots)[k] == survivorColors[k]
    {
      LateDotState(n, step, drop, survivorColors, s[k]);
      IndexOfIncreasing(s, k);
    }
  }

  /** Late panel before step 4: nobody counted has a colour other than grey. */
  lemma LateGreyBeforeAssignment(n: nat, step: nat, drop: seq<int>, survivorColors: seq<Color>)
    requires step < 4
    ensures multiset(CountedColors(LateSplitDots(n, step, drop, survivorColors)))[Red] == 0
    ensures multiset(CountedColors(LateSplitDots(n, step, drop, survivorColors)))[Blue] == 0
  {
    var dots := LateSplitDots(n, step, drop, survivorColors);
    forall i | 0 <= i < n
      ensures dots[i].color == Grey
    {
      LateDotState(n, step, drop, survivorColors, i);
    }
    AllGreyCounted(dots);
  }

  /** If every dot is grey, every counted colour is grey. */
  lemma {:induction false} AllGreyCounted(dots: seq<Dot>)
    requires forall i :: 0 <= i < |dots| ==> dots[i].color == Grey
    ensures forall k :: 0 <= k < |CountedColors(dots)| ==> CountedColors(dots)[k] == Grey
    ensures multiset(CountedColors(dots))[Red] == 0 && multiset(CountedColors(dots))[Blue] == 0
  {
    if dots != [] {
      AllGreyCounted(dots[..|dots| - 1]);
    }
    var c := CountedColors(dots);
    assert Red !in c && Blue !in c;
  }

  /** The late renderer as the demo runs it: at step 4 and after it draws a fresh
      balanced assignment for the survivors and colours them with it. Every survivor is
      then red or blue, dropped users stay hidden and grey, and the counted colours are
      a balanced mix over the survivors. */
  method BuildLateSplitDots(n: nat, step: nat, drop: seq<int>) returns (dots: seq<Dot>)
    ensures |dots| == n
    ensures forall i :: 0 <= i < n ==> !dots[i].faded
    ensures forall i :: 0 <= i < n ==> (dots[i].visible <==> step >= 1 && !(step >= 3 && i in drop))
    ensures forall i :: 0 <= i < n && (step < 4 || i in drop) ==> dots[i].color == Grey
    ensures step >= 4 ==> forall i :: 0 <= i < n && i !in drop ==>
              dots[i].color == Red || dots[i].color == Blue
    ensures step >= 4 ==> IsBalanced(CountedColors(dots), |Survivors(n, drop)|)
    ensures step < 4 ==> multiset(CountedColors(dots))[Red] == 0 && multiset(CountedColors(dots))[Blue] == 0
  {
    var survivorColors: seq<Color> := [];
    if step >= 4 {
      var survivors := Survivors(n, drop);
      survivorColors := RandomAssignments(|survivors|);
      BalancedCounts(survivorColors, |survivors|);
    }
    dots := LateSplitDots(n, step, drop, survivorColors);
    forall i | 0 <= i < n
      ensures !dots[i].faded
      ensures dots[i].visible <==> step >= 1 && !(step >= 3 && i in drop)
      ensures step < 4 || i in drop ==> dots[i].color == Grey
      ensures step >= 4 && i !in drop ==> dots[i].color == Red || dots[i].color == Blue
    {
      LateDotState(n, step, drop, survivorColors, i);
    }
    if step >= 4 {
      LateCountedColors(n, step, drop, survivorColors);
    } else {
      LateGreyBeforeAssignment(n, step, drop, survivorColors);
    }
  }
}

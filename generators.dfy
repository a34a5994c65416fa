/** The two Fisher-Yates generators behind a scenario: `randomAssignments` and
    `randomIndexes`. `Math.random()` is not modelled: each swap partner `j` is any
    index in `[0, i]`, and every property below holds whatever `j` is chosen. */
module Generators {
  import opened Colors

  function Min(a: int, b: int): int
  {
    if a <= b then a else b
  }

  /** `count` copies of `c`, as `Array(count).fill(c)` builds them. */
  function Repeat(c: Color, count: nat): (s: seq<Color>)
    ensures |s| == count
    ensures multiset(s) == multiset{}[c := count]
    ensures forall k :: 0 <= k < count ==> s[k] == c
  {
    if count == 0 then [] else Repeat(c, count - 1) + [c]
  }

  /** The array `randomAssignments(count)` starts from: `floor(count/2)` reds
      followed by the remaining blues. */
  function Unshuffled(count: nat): (s: seq<Color>)
    ensures |s| == count
    ensures forall k :: 0 <= k < count ==> (s[k] == Red <==> k < count / 2)
    ensures forall k :: 0 <= k < count ==> (s[k] == Blue <==> k >= count / 2)
  {
    Repeat(Red, count / 2) + Repeat(Blue, count - count / 2)
  }

  /** `s` is a rearrangement of the unshuffled array for `count` users. */
  ghost predicate IsBalanced(s: seq<Color>, count: nat)
  {
    |s| == count && multiset(s) == multiset(Unshuffled(count))
  }

  /** A balanced arrangement holds exactly `count / 2` red and `count - count / 2` blue
      entries, and nothing but red and blue. */
  lemma BalancedCounts(s: seq<Color>, count: nat)
    requires IsBalanced(s, count)
    ensures multiset(s)[Red] == count / 2
    ensures multiset(s)[Blue] == count - count / 2
    ensures forall k :: 0 <= k < |s| ==> s[k] == Red || s[k] == Blue
  {
    var m := multiset(Unshuffled(count));
    assert m == multiset(Repeat(Red, count / 2)) + multiset(Repeat(Blue, count - count / 2));
    forall k | 0 <= k < |s|
      ensures s[k] == Red || s[k] == Blue
    {
      assert s[k] in multiset(s);
    }
  }

  /** Exchanging two entries of a sequence only rearranges it. */
  lemma SwapPermutes<T>(s: seq<T>, i: nat, j: nat)
    requires i < |s| && j < |s|
    ensures multiset(s[i := s[j]][j := s[i]]) == multiset(s)
  {
  }

  /** `randomAssignments(count)`: shuffles the unshuffled array in place. */
  method RandomAssignments(count: nat) returns (assignments: seq<Color>)
    ensures IsBalanced(assignments, count)
  {
    var initial := Unshuffled(count);
    var a := new Color[count](k requires 0 <= k < count => initial[k]);
    assert a[..] == initial;
    var i := a.Length - 1;
    while i > 0
      invariant i < a.Length
      invariant multiset(a[..]) == multiset(initial)
    {
      var j :| 0 <= j <= i;
      ghost var before := a[..];
      a[i], a[j] := a[j], a[i];
      assert a[..] == before[i := before[j]][j := before[i]];
      SwapPermutes(before, i, j);
      i := i - 1;
    }
    assignments := a[..];
  }

  /** `[0, 1, ..., total - 1]`, as `[...Array(total).keys()]` builds it. */
  function Range(total: nat): (s: seq<int>)
    ensures |s| == total
    ensures forall k :: 0 <= k < total ==> s[k] == k
  {
    seq(total, k => k)
  }

  /** Every entry of `s` is an index in `[0, total)` and no index occurs twice. */
  ghost predicate DistinctIndexes(s: seq<int>, total: nat)
  {
    (forall k :: 0 <= k < |s| ==> 0 <= s[k] < total) &&
    (forall k, l :: 0 <= k < l < |s| ==> s[k] != s[l])
  }

  /** Exchanging two entries keeps the indexes in range and distinct. */
  lemma SwapKeepsDistinct(s: seq<int>, total: nat, i: nat, j: nat)
    requires i < |s| && j < |s| && DistinctIndexes(s, total)
    ensures DistinctIndexes(s[i := s[j]][j := s[i]], total)
  {
  }

  /** `randomIndexes(total, count)`: shuffle `0..total-1` in place and keep the first
      `count` entries (`slice` keeps all of them when `count > total`). `shuffled` is
      the whole shuffled array, of which the result is a prefix. */
  method RandomIndexes(total: nat, count: nat) returns (indexes: seq<int>, ghost shuffled: seq<int>)
    ensures |indexes| == Min(count, total)
    ensures DistinctIndexes(indexes, total)
    ensures |shuffled| == total && multiset(shuffled) == multiset(Range(total))
    ensures indexes == shuffled[..|indexes|]
  {
    var a := new int[total](k requires 0 <= k < total => k);
    assert a[..] == Range(total);
    var i := a.Length - 1;
    while i > 0
      invariant i < a.Length
      invariant multiset(a[..]) == multiset(Range(total))
      invariant DistinctIndexes(a[..], total)
    {
      var j :| 0 <= j <= i;
      ghost var before := a[..];
      a[i], a[j] := a[j], a[i];
      assert a[..] == before[i := before[j]][j := before[i]];
      SwapPermutes(before, i, j);
      SwapKeepsDistinct(before, total, i, j);
      i := i - 1;
    }
    shuffled := a[..];
    indexes := a[..Min(count, total)];
  }
}

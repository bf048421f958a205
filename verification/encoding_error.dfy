/**
 * Encoding Error: in a list of numbers, each number after a preamble should
 * be the sum of two different numbers among the `windowSize` before it. The
 * first number that is not is the invalid value; the weakness is found from
 * a run of consecutive numbers summing to it.
 */
module EncodingError {
  import opened Basics

  // ---------------------------------------------------------------------------
  // The first invalid value.

  /** Two different values of the window add up to `current`. */
  predicate IsPairSum(window: set<int>, current: int)
  {
    exists v :: v in window && PairsWith(window, current, v)
  }

  /** `v` has a different partner in the window with which it adds up to `current`. */
  predicate PairsWith(window: set<int>, current: int, v: int)
  {
    current - v != v && current - v in window
  }

  /** `Set(_)` of a list of numbers. */
  function SetOf(s: seq<int>): (r: set<int>)
    ensures forall v :: v in r <==> v in s
  {
    set v | v in s
  }

  /** The values of the `windowSize` numbers before position `i`, as a set. */
  function Window(data: seq<int>, windowSize: nat, i: nat): set<int>
    requires windowSize <= i <= |data|
  {
    SetOf(data[i - windowSize..i])
  }

  /** The number at position `i` is the sum of two different values in the window before it. */
  predicate Follows(data: seq<int>, windowSize: nat, i: nat)
    requires windowSize <= i < |data|
  {
    IsPairSum(Window(data, windowSize, i), data[i])
  }

  /**
   * `findInvalidValue`: scans from position `windowSize` on and returns the
   * first number that does not follow from its window, or nothing if all do.
   * The Swift range `windowSize ..< data.count` traps when the window is
   * larger than the data, hence the precondition.
   */
  method FindInvalidValue(data: seq<int>, windowSize: nat) returns (r: Option<int>)
    requires windowSize <= |data|
    ensures r.None? <==> forall i :: windowSize <= i < |data| ==> Follows(data, windowSize, i)
    ensures r.Some? ==> exists i :: (windowSize <= i < |data| && r.value == data[i] && !Follows(data, windowSize, i) &&
      forall j :: windowSize <= j < i ==> Follows(data, windowSize, j))
  {
    for index := windowSize to |data|
      invariant forall j :: windowSize <= j < index ==> Follows(data, windowSize, j)
    {
      var current := data[index];
      var window := SetOf(data[index - windowSize..index]);
      var matches := set value1 | value1 in window && PairsWith(window, current, value1);
      if matches == {} {
        forall v | v in window ensures !PairsWith(window, current, v) {
          assert v !in matches;
        }
        assert !Follows(data, windowSize, index);
        return Some(current);
      }
      assert Follows(data, windowSize, index) by {
        var v :| v in matches;
      }
    }
    return None;
  }

  // ---------------------------------------------------------------------------
  // The weakness range.

  function Sum(s: seq<int>): int
  {
    if s == [] then 0 else s[0] + Sum(s[1..])
  }

  lemma {:induction false} SumAppend(a: seq<int>, b: seq<int>)
    ensures Sum(a + b) == Sum(a) + Sum(b)
  {
    if a != [] {
      assert (a + b)[1..] == a[1..] + b;
      SumAppend(a[1..], b);
    } else {
      assert a + b == b;
    }
  }

  /** The sum of the numbers at positions `lower` to `upper`, both included. */
  function RangeSum(data: seq<int>, lower: nat, upper: nat): int
    requires lower <= upper < |data|
  {
    Sum(data[lower..upper + 1])
  }

  /** `data.firstIndex(of:)`. */
  function FirstIndex(data: seq<int>, target: int): (r: Option<nat>)
    ensures r.Some? ==> (r.value < |data| && data[r.value] == target &&
      forall k :: 0 <= k < r.value ==> data[k] != target)
    ensures r.None? ==> target !in data
  {
    if data == [] then None
    else if data[0] == target then Some(0)
    else match FirstIndex(data[1..], target)
      case None => None
      case Some(i) => Some(i + 1)
  }

  /**
   * Where the inner loop for `upper` stops when it has reached `lower`: it
   * moves the lower end down while the sum is below the target and the lower
   * end is above position 0.
   */
  function Descent(data: seq<int>, target: int, upper: nat, lower: nat): (l: nat)
    requires lower <= upper < |data|
    ensures l <= lower
    decreases lower
  {
    if RangeSum(data, lower, upper) < target && lower > 0 then Descent(data, target, upper, lower - 1) else lower
  }

  /** The range tried for `upper`: the inner loop started at `upper` itself. */
  function LowerFor(data: seq<int>, target: int, upper: nat): nat
    requires upper < |data|
  {
    Descent(data, target, upper, upper)
  }

  /** The first hit of the outer loop, trying upper ends from `upper` down to 0. */
  function WeaknessFrom(data: seq<int>, target: int, upper: int): Option<(nat, nat)>
    requires upper < |data|
    decreases upper + 1
  {
    if upper < 0 then None
    else
      var lower := LowerFor(data, target, upper);
      if RangeSum(data, lower, upper) == target then Some((lower, upper))
      else WeaknessFrom(data, target, upper - 1)
  }

  /** What `findWeaknessRange` returns: nothing if the target is absent, else the search below its first position. */
  function WeaknessRange(data: seq<int>, target: int): Option<(nat, nat)>
  {
    match FirstIndex(data, target)
    case None => None
    case Some(targetIndex) => WeaknessFrom(data, target, targetIndex - 1)
  }

  /**
   * `findWeaknessRange`: for each upper end from just below the target's
   * first position downwards, extends the range downwards while its sum is
   * below the target, and returns the first range whose sum is the target.
   */
  method FindWeaknessRange(data: seq<int>, target: int) returns (r: Option<(nat, nat)>)
    ensures r == WeaknessRange(data, target)
  {
    var first := FirstIndex(data, target);
    if first.None? {
      return None;
    }
    var targetIndex: int := first.value;
    var upperIndex: int := targetIndex - 1;
    while upperIndex >= 0
      invariant -1 <= upperIndex < targetIndex
      invariant WeaknessRange(data, target) == WeaknessFrom(data, target, upperIndex)
      decreases upperIndex + 1
    {
      var sum := data[upperIndex];
      var lowerIndex := upperIndex;
      SingleSum(data, upperIndex);
      while sum < target && lowerIndex > 0
        invariant 0 <= lowerIndex <= upperIndex
        invariant sum == RangeSum(data, lowerIndex, upperIndex)
        invariant Descent(data, target, upperIndex, lowerIndex) == LowerFor(data, target, upperIndex)
        decreases lowerIndex
      {
        lowerIndex := lowerIndex - 1;
        assert data[lowerIndex..upperIndex + 1][1..] == data[lowerIndex + 1..upperIndex + 1];
        sum := sum + data[lowerIndex];
      }
      if sum == target {
        return Some((lowerIndex, upperIndex));
      }
      upperIndex := upperIndex - 1;
    }
    return None;
  }

  lemma {:induction false} SingleSum(data: seq<int>, i: nat)
    requires i < |data|
    ensures RangeSum(data, i, i) == data[i]
  {
    var single := data[i..i + 1];
    assert single[0] == data[i] && single[1..] == [];
    assert Sum(single) == single[0] + Sum(single[1..]);
  }

  /** A range the search returns from `upper` down lies at or below `upper` and sums to the target. */
  lemma {:induction false} WeaknessFromSums(data: seq<int>, target: int, upper: int)
    requires upper < |data|
    ensures WeaknessFrom(data, target, upper).Some? ==>
      var (l, u) := WeaknessFrom(data, target, upper).value;
      l <= u <= upper && RangeSum(data, l, u) == target &&
      forall u' :: u < u' <= upper ==> RangeSum(data, LowerFor(data, target, u'), u') != target
    decreases upper + 1
  {
    if upper >= 0 {
      WeaknessFromSums(data, target, upper - 1);
    }
  }

  /**
   * A returned range lies wholly before the target's first position, sums
   * to the target, has at least two numbers (a single earlier number is
   * never the target), and no upper end tried before it gave a hit.
   */
  lemma {:induction false} WeaknessRangeSums(data: seq<int>, target: int)
    ensures WeaknessRange(data, target).Some? ==>
      var (l, u) := WeaknessRange(data, target).value;
      FirstIndex(data, target).Some? && l < u < FirstIndex(data, target).value &&
      RangeSum(data, l, u) == target &&
      forall u' :: u < u' < FirstIndex(data, target).value ==> RangeSum(data, LowerFor(data, target, u'), u') != target
  {
    if FirstIndex(data, target).Some? {
      var targetIndex: int := FirstIndex(data, target).value;
      WeaknessFromSums(data, target, targetIndex - 1);
      if WeaknessRange(data, target).Some? {
        var (l, u) := WeaknessRange(data, target).value;
        SingleSum(data, u);
      }
    }
  }

  lemma {:induction false} WeaknessRangeBounds(data: seq<int>, target: int)
    ensures WeaknessRange(data, target).Some? ==>
      WeaknessRange(data, target).value.0 <= WeaknessRange(data, target).value.1 < |data|
  {
    if FirstIndex(data, target).Some? {
      WeaknessFromSums(data, target, FirstIndex(data, target).value as int - 1);
    }
  }

  /** With positive numbers, a range that sums more stretches further down. */
  lemma {:induction false} SumPositive(s: seq<int>)
    requires forall k :: 0 <= k < |s| ==> s[k] > 0
    ensures s != [] ==> Sum(s) > 0
    ensures Sum(s) >= 0
  {
    if s != [] {
      SumPositive(s[1..]);
    }
  }

  /** With positive numbers, the inner loop stops exactly at the lower end of a range summing to the target. */
  lemma {:induction false} DescentFindsRange(data: seq<int>, target: int, upper: nat, lower: nat, hit: nat)
    requires hit <= lower <= upper < |data|
    requires forall k :: 0 <= k < |data| ==> data[k] > 0
    requires RangeSum(data, hit, upper) == target
    ensures Descent(data, target, upper, lower) == hit
    decreases lower
  {
    if lower > hit {
      assert data[hit..upper + 1] == data[hit..lower] + data[lower..upper + 1];
      SumAppend(data[hit..lower], data[lower..upper + 1]);
      SumPositive(data[hit..lower]);
      DescentFindsRange(data, target, upper, lower - 1, hit);
    }
  }

  lemma {:induction false} WeaknessFromFinds(data: seq<int>, target: int, upper: int, hitLower: nat, hitUpper: nat)
    requires upper < |data| && hitLower <= hitUpper <= upper
    requires forall k :: 0 <= k < |data| ==> data[k] > 0
    requires RangeSum(data, hitLower, hitUpper) == target
    ensures WeaknessFrom(data, target, upper).Some?
    ensures WeaknessFrom(data, target, upper).value.1 >= hitUpper
    decreases upper + 1
  {
    if upper == hitUpper {
      DescentFindsRange(data, target, upper, upper, hitLower);
    } else if RangeSum(data, LowerFor(data, target, upper), upper) != target {
      WeaknessFromFinds(data, target, upper - 1, hitLower, hitUpper);
    }
  }

  /**
   * When every number is positive, the search misses no range: if some run
   * of numbers before the target's first position sums to the target, a
   * range is returned, and its upper end is at least as high.
   */
  lemma {:induction false} WeaknessRangeComplete(data: seq<int>, target: int, lower: nat, upper: nat)
    requires forall k :: 0 <= k < |data| ==> data[k] > 0
    requires FirstIndex(data, target).Some? && lower <= upper < FirstIndex(data, target).value
    requires RangeSum(data, lower, upper) == target
    ensures WeaknessRange(data, target).Some? && WeaknessRange(data, target).value.1 >= upper
  {
    WeaknessFromFinds(data, target, FirstIndex(data, target).value - 1, lower, upper);
  }

  // ---------------------------------------------------------------------------
  // The weakness.

  function Min(s: seq<int>): (m: int)
    requires s != []
    ensures m in s && forall x :: x in s ==> m <= x
  {
    if |s| == 1 then s[0]
    else
      var rest := Min(s[1..]);
      assert forall x :: x in s ==> x == s[0] || x in s[1..];
      if s[0] <= rest then s[0] else rest
  }

  function Max(s: seq<int>): (m: int)
    requires s != []
    ensures m in s && forall x :: x in s ==> x <= m
  {
    if |s| == 1 then s[0]
    else
      var rest := Max(s[1..]);
      assert forall x :: x in s ==> x == s[0] || x in s[1..];
      if s[0] >= rest then s[0] else rest
  }

  /**
   * `findWeakness`: the smallest plus the largest number of the weakness
   * range, or nothing when there is no range.
   */
  function FindWeakness(data: seq<int>, target: int): (r: Option<int>)
    ensures r.Some? <==> WeaknessRange(data, target).Some?
  {
    WeaknessRangeBounds(data, target);
    var found := WeaknessRange(data, target);
    if found.None? then None
    else
      var sumData := data[found.value.0..found.value.1 + 1];
      Some(Min(sumData) + Max(sumData))
  }

  /** `w` adds a number of `range` no larger than any other to one no smaller than any other. */
  ghost predicate IsExtremeSum(range: seq<int>, w: int)
  {
    exists lo, hi :: lo in range && hi in range && w == lo + hi && forall x :: x in range ==> lo <= x <= hi
  }

  /** The weakness is the sum of the smallest and the largest number of the range. */
  lemma {:induction false} WeaknessIsExtremes(data: seq<int>, target: int, l: nat, u: nat)
    requires WeaknessRange(data, target) == Some((l, u))
    ensures l <= u < |data| && FindWeakness(data, target).Some?
    ensures IsExtremeSum(data[l..u + 1], FindWeakness(data, target).value)
  {
    WeaknessRangeBounds(data, target);
    var range := data[l..u + 1];
    assert FindWeakness(data, target) == Some(Min(range) + Max(range));
  }
}

// The Python fixture: `calculate_sum` adds the items of a list one by one
// and stops right after the item that pushes the running total above 100;
// `main` calls it on two literal lists.
module Sample {
  import opened Accumulate

  /** The bound the running total must exceed (strictly) for the scan to stop. */
  const Threshold: int := 100

  /**
   * `k` is where the scan stops: every strictly shorter prefix sums to at
   * most Threshold, and either the prefix of length `k` sums above it (the
   * item at `k - 1` crossed it) or the whole list was consumed.
   */
  ghost predicate IsStop(items: seq<int>, k: nat)
  {
    && k <= |items|
    && (forall j :: 0 <= j < k ==> Sum(items[..j]) <= Threshold)
    && (k == |items| || Sum(items[..k]) > Threshold)
  }

  /** The stopping point, searched from prefix length `i` on. */
  function StopFrom(items: seq<int>, i: nat): (k: nat)
    requires i <= |items|
    requires forall j :: 0 <= j <= i ==> Sum(items[..j]) <= Threshold
    ensures i <= k && IsStop(items, k)
    decreases |items| - i
  {
    if i == |items| then i
    else if Sum(items[..i + 1]) > Threshold then i + 1
    else StopFrom(items, i + 1)
  }

  /** The length of the prefix `calculate_sum` consumes. */
  function StopIndex(items: seq<int>): (k: nat)
    ensures IsStop(items, k)
  {
    assert items[..0] == [];
    StopFrom(items, 0)
  }

  /** There is only one stopping point, so IsStop characterises StopIndex. */
  lemma StopUnique(items: seq<int>, k: nat)
    requires IsStop(items, k)
    ensures k == StopIndex(items)
  {
  }

  /** The value `calculate_sum` returns, as a function of the list. */
  function CutoffSum(items: seq<int>): int
  {
    Sum(items[..StopIndex(items)])
  }

  /** `calculate_sum(items)`: the loop with its early `break`. */
  method CalculateSum(items: seq<int>) returns (total: int)
    ensures total == CutoffSum(items)
  {
    total := 0;
    var i := 0;
    while i < |items|
      invariant 0 <= i <= |items|
      invariant total == Sum(items[..i])
      invariant forall j :: 0 <= j <= i ==> Sum(items[..j]) <= Threshold
    {
      SumStep(items, i);
      total := total + items[i];
      i := i + 1;
      if total > Threshold {
        break;
      }
    }
    StopUnique(items, i);
  }

  /** The empty list yields 0. */
  lemma CutoffEmpty()
    ensures CutoffSum([]) == 0
  {
  }

  /**
   * The result is the sum of a stopping prefix of the list. This restates
   * the definition of CutoffSum with StopIndex as the witness; what it buys
   * the caller is CalculateSum's postcondition together with StopUnique.
   */
  lemma CutoffIsPrefixSum(items: seq<int>)
    ensures exists k :: 0 <= k <= |items| && IsStop(items, k) && CutoffSum(items) == Sum(items[..k])
  {
    var k := StopIndex(items);
    assert IsStop(items, k) && CutoffSum(items) == Sum(items[..k]);
  }

  /**
   * A result above Threshold is the first prefix sum above it, and the item
   * that crossed the threshold is part of it: the prefix before that item
   * summed to at most Threshold.
   */
  lemma CutoffIncludesCrossingItem(items: seq<int>)
    requires CutoffSum(items) > Threshold
    ensures var k := StopIndex(items);
      && 0 < k <= |items|
      && CutoffSum(items) == Sum(items[..k - 1]) + items[k - 1]
      && Sum(items[..k - 1]) <= Threshold
      && forall j :: 0 <= j < k ==> Sum(items[..j]) <= Threshold
  {
    var k := StopIndex(items);
    assert items[..0] == [];
    assert k != 0;
    SumStep(items, k - 1);
  }

  /** Conversely, as soon as some prefix sums above Threshold the scan stops there or earlier, above Threshold. */
  lemma CutoffAbove(items: seq<int>, k: nat)
    requires k <= |items| && Sum(items[..k]) > Threshold
    ensures StopIndex(items) <= k
    ensures CutoffSum(items) > Threshold
  {
    var s := StopIndex(items);
    if s == |items| {
      assert k == |items|;
      assert Sum(items[..s]) > Threshold;
    }
  }

  /** If no prefix sums above Threshold, the result is the sum of the whole list. */
  lemma CutoffWhole(items: seq<int>)
    requires forall k :: 0 <= k <= |items| ==> Sum(items[..k]) <= Threshold
    ensures StopIndex(items) == |items|
    ensures CutoffSum(items) == Sum(items)
  {
    SumWhole(items);
  }

  /** A result of at most Threshold means the whole list was summed and no prefix crossed. */
  lemma CutoffNotAbove(items: seq<int>)
    requires CutoffSum(items) <= Threshold
    ensures CutoffSum(items) == Sum(items)
    ensures forall k :: 0 <= k <= |items| ==> Sum(items[..k]) <= Threshold
  {
    forall k | 0 <= k <= |items| ensures Sum(items[..k]) <= Threshold {
      if Sum(items[..k]) > Threshold {
        CutoffAbove(items, k);
      }
    }
    CutoffWhole(items);
  }

  /**
   * The comparison is strict: a running total of exactly Threshold does not
   * stop the scan, which goes on to the next item.
   */
  lemma ExactThresholdContinues(items: seq<int>, k: nat)
    requires k < |items|
    requires forall j :: 0 <= j <= k ==> Sum(items[..j]) <= Threshold
    requires Sum(items[..k]) == Threshold
    ensures StopIndex(items) > k
  {
  }

  /** The two lists of `main`, a list whose total never exceeds 100, and one where a negative item delays the crossing. */
  lemma CutoffExamples()
    ensures CutoffSum([10, 20, 30, 40, 50]) == 150
    ensures CutoffSum([25, 50, 75, 100]) == 150
    ensures CutoffSum([1, 2, 3]) == 6
    ensures CutoffSum([90, -50, 70]) == 110
  {
    CutoffAt([10, 20, 30, 40, 50], [10, 30, 60, 100, 150], 5);
    CutoffAt([25, 50, 75, 100], [25, 75, 150, 250], 3);
    CutoffAt([1, 2, 3], [1, 3, 6], 3);
    CutoffAt([90, -50, 70], [90, 40, 110], 3);
  }

  /**
   * Given the running totals `totals` of a list (each one the previous plus
   * the next item), the result is the first of them above Threshold, or the
   * last one when none is.
   */
  lemma {:induction false} CutoffAt(items: seq<int>, totals: seq<int>, k: nat)
    requires |totals| == |items| && 0 < k <= |items|
    requires totals[0] == items[0]
    requires forall i :: 0 < i < |items| ==> totals[i] == totals[i - 1] + items[i]
    requires forall i :: 0 <= i < k - 1 ==> totals[i] <= Threshold
    requires k == |items| || totals[k - 1] > Threshold
    ensures CutoffSum(items) == totals[k - 1]
  {
    assert items[..0] == [];
    forall j | 0 < j <= |items| ensures totals[j - 1] == Sum(items[..j]) {
      RunningTotalIsSum(items, totals, j);
    }
    StopUnique(items, k);
  }

  /** `main`: the two literal calls and the values they print. */
  method RunMain() returns (result: int, result2: int)
    ensures result == 150
    ensures result2 == 150
  {
    var numbers := [10, 20, 30, 40, 50];
    result := CalculateSum(numbers);
    var largeNumbers := [25, 50, 75, 100];
    result2 := CalculateSum(largeNumbers);
    CutoffExamples();
  }
}

// Definitions shared by the three fixtures: the sum of a sequence of
// integers (and so of each of its prefixes) and the record of what
// `calculate` reports and returns in the Go and Rust fixtures.
module Accumulate {

  /** The sum of `s`, peeled from the right so that extending a prefix by one item is one step. */
  function Sum(s: seq<int>): int
  {
    if s == [] then 0 else Sum(s[..|s| - 1]) + s[|s| - 1]
  }

  /** Extending the prefix of length `k` by the item at `k` adds that item to its sum. */
  lemma SumStep(s: seq<int>, k: nat)
    requires k < |s|
    ensures Sum(s[..k + 1]) == Sum(s[..k]) + s[k]
  {
    assert s[..k + 1][..k] == s[..k];
  }

  /** The whole sequence is its own longest prefix. */
  lemma SumWhole(s: seq<int>)
    ensures Sum(s[..|s|]) == Sum(s)
  {
    assert s[..|s|] == s;
  }

  /** Running totals built item by item are the prefix sums. */
  lemma {:induction false} RunningTotalIsSum(items: seq<int>, totals: seq<int>, j: nat)
    requires |totals| == |items| && 0 < j <= |items|
    requires totals[0] == items[0]
    requires forall i :: 0 < i < |items| ==> totals[i] == totals[i - 1] + items[i]
    ensures totals[j - 1] == Sum(items[..j])
    decreases j
  {
    SumStep(items, j - 1);
    if j == 1 {
      assert items[..0] == [];
    } else {
      RunningTotalIsSum(items, totals, j - 1);
    }
  }

  /**
   * What one call of `calculate(x, y)` does: the pair it reports
   * (`Sum: .., Product: ..`) and the value it returns.
   */
  datatype Calculation = Calculation(sum: int, product: int, result: int)
}

// The Go fixture: `calculate(x, y)` reports the sum and the product of its
// arguments and returns their total; `main` calls it once and then reports
// a running total over a fixed slice. Go's `int` is modelled as unbounded.
module GoFixture {
  import opened Accumulate

  /**
   * `calculate(x, y)`: the reported pair is exactly `(x + y, x * y)` and the
   * result is their total, which is one less than `(x + 1) * (y + 1)`.
   */
  function Calculate(x: int, y: int): (c: Calculation)
    ensures c.sum == x + y && c.product == x * y
    ensures c.result == c.sum + c.product
    ensures c.result + 1 == (x + 1) * (y + 1)
  {
    var sum := x + y;
    var product := x * y;
    Calculation(sum, product, sum + product)
  }

  /**
   * The loop of `main`: one running total reported per item, in slice
   * order; the k-th report is the sum of the first k items and the final
   * total is the sum of them all.
   */
  method RunningTotals(items: seq<int>) returns (reports: seq<int>, total: int)
    ensures |reports| == |items|
    ensures forall k :: 0 <= k < |items| ==> reports[k] == Sum(items[..k + 1])
    ensures total == Sum(items)
    ensures |items| > 0 ==> reports[|items| - 1] == total
  {
    total := 0;
    reports := [];
    for i := 0 to |items|
      invariant |reports| == i
      invariant total == Sum(items[..i])
      invariant forall k :: 0 <= k < i ==> reports[k] == Sum(items[..k + 1])
    {
      SumStep(items, i);
      total := total + items[i];
      reports := reports + [total];
    }
    SumWhole(items);
  }

  /** `main`: the call `calculate(10, 20)` and the loop over `[1, 2, 3, 4, 5]`. */
  method RunMain() returns (calculated: Calculation, reports: seq<int>, total: int)
    ensures calculated == Calculation(30, 200, 230)
    ensures reports == [1, 3, 6, 10, 15]
    ensures total == 15
  {
    var a := 10;
    var b := 20;
    calculated := Calculate(a, b);
    var items := [1, 2, 3, 4, 5];
    reports, total := RunningTotals(items);
    forall j | 0 < j <= 5 ensures [1, 3, 6, 10, 15][j - 1] == Sum(items[..j]) {
      RunningTotalIsSum(items, [1, 3, 6, 10, 15], j);
    }
    SumWhole(items);
  }
}

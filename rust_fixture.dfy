// The Rust fixture: the same program as the Go one, over `i32`. Rust's
// `+` and `*` on `i32` panic on overflow in debug builds, so each
// arithmetic step demands of its caller that the exact result fits.
module RustFixture {
  import opened Accumulate

  const I32Min: int := -0x8000_0000
  const I32Max: int := 0x7FFF_FFFF

  /** `v` is a value of Rust's `i32`. */
  predicate IsI32(v: int)
  {
    I32Min <= v <= I32Max
  }

  /** `a + b` on `i32` in a debug build: defined only when it does not overflow. */
  function AddI32(a: int, b: int): (r: int)
    requires IsI32(a) && IsI32(b) && IsI32(a + b)
    ensures IsI32(r) && r == a + b
  {
    a + b
  }

  /** `a * b` on `i32` in a debug build: defined only when it does not overflow. */
  function MulI32(a: int, b: int): (r: int)
    requires IsI32(a) && IsI32(b) && IsI32(a * b)
    ensures IsI32(r) && r == a * b
  {
    a * b
  }

  /**
   * `calculate(x, y)`: it does not panic exactly when `x + y`, `x * y` and
   * their total all fit in `i32`; then it reports `(x + y, x * y)` and
   * returns their total, one less than `(x + 1) * (y + 1)`.
   */
  function Calculate(x: int, y: int): (c: Calculation)
    requires IsI32(x) && IsI32(y)
    requires IsI32(x + y) && IsI32(x * y) && IsI32(x + y + x * y)
    ensures c.sum == x + y && c.product == x * y
    ensures c.result == c.sum + c.product && IsI32(c.result)
    ensures c.result + 1 == (x + 1) * (y + 1)
  {
    var sum := AddI32(x, y);
    var product := MulI32(x, y);
    Calculation(sum, product, AddI32(sum, product))
  }

  /**
   * The loop of `main` over a `Vec<i32>`: it does not panic when every
   * running total fits in `i32`, and then reports one running total per
   * item, in order; the k-th report is the sum of the first k items and the
   * final total is the sum of them all.
   */
  method RunningTotals(items: seq<int>) returns (reports: seq<int>, total: int)
    requires forall k :: 0 <= k < |items| ==> IsI32(items[k])
    requires forall k :: 0 <= k <= |items| ==> IsI32(Sum(items[..k]))
    ensures |reports| == |items|
    ensures forall k :: 0 <= k < |items| ==> reports[k] == Sum(items[..k + 1]) && IsI32(reports[k])
    ensures total == Sum(items) && IsI32(total)
    ensures |items| > 0 ==> reports[|items| - 1] == total
  {
    total := 0;
    reports := [];
    for i := 0 to |items|
      invariant |reports| == i
      invariant total == Sum(items[..i])
      invariant forall k :: 0 <= k < i ==> reports[k] == Sum(items[..k + 1])
    {
      SumStep(items, i);
      total := AddI32(total, items[i]);
      reports := reports + [total];
    }
    SumWhole(items);
  }

  /** `main`: the call `calculate(10, 20)` and the loop over `vec![1, 2, 3, 4, 5]`, none of which overflows. */
  method RunMain() returns (calculated: Calculation, reports: seq<int>, total: int)
    ensures calculated == Calculation(30, 200, 230)
    ensures reports == [1, 3, 6, 10, 15]
    ensures total == 15
  {
    var a := 10;
    var b := 20;
    calculated := Calculate(a, b);
    var items := [1, 2, 3, 4, 5];
    forall j | 0 < j <= 5 ensures [1, 3, 6, 10, 15][j - 1] == Sum(items[..j]) {
      RunningTotalIsSum(items, [1, 3, 6, 10, 15], j);
    }
    assert items[..0] == [];
    reports, total := RunningTotals(items);
    SumWhole(items);
  }
}

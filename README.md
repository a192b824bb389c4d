# Debugger test fixtures: bounded and running sums

The repository ships three small programs that a debugger is exercised on.
This project models the logic they contain:

- `tests/fixtures/python/sample.py`: `calculate_sum` adds the items of a list
  to a running `total`, and breaks out of the loop right after the item that
  takes `total` strictly above 100 (that item is included). `main` calls it
  on `[10, 20, 30, 40, 50]` and `[25, 50, 75, 100]`.
- `tests/fixtures/go_test/main.go` and `tests/fixtures/rust_test/src/main.rs`:
  `calculate(x, y)` reports the pair `(x + y, x * y)` and returns
  `(x + y) + (x * y)`; `main` calls `calculate(10, 20)` and then reports a
  running total over `[1, 2, 3, 4, 5]`, followed by the final total.

Files, one module each:

- `accumulate.dfy` (`Accumulate`): the sum of a sequence, the step and
  whole-sequence facts about prefix sums, the lemma that running totals
  built item by item are prefix sums, and the `Calculation` record of what
  one call of `calculate` reports and returns.
- `sample.dfy` (`Sample`): the Python fixture. `CalculateSum` is the loop with
  its `break`, proved equal to the specification function `CutoffSum`, the
  sum of the prefix of length `StopIndex`. `IsStop` characterises that
  stopping point (every strictly shorter prefix sums to at most 100, and the
  prefix itself sums above 100 unless it is the whole list) and `StopUnique`
  shows it is the only such point. The lemmas state the behaviour the
  fixture relies on.
- `go_fixture.dfy` (`GoFixture`): the Go fixture, on unbounded integers.
- `rust_fixture.dfy` (`RustFixture`): the Rust fixture, on `i32`. A debug
  build panics on overflow, so every `+` and `*` (`AddI32`, `MulI32`) demands
  that its exact result fits in `i32`, and so do `Calculate` and
  `RunningTotals`.

Everything a fixture prints is returned instead: `calculate`'s report line
is the `sum` and `product` fields of `Calculation`, the running totals are a
returned `seq<int>` in the order they are printed, and the results of the
`main` functions are out-parameters of each `RunMain`.

## Model

| member | source | states |
|---|---|---|
| `Sample.StopFrom` | tests/fixtures/python/sample.py:8-11 | scanning on from a prefix length at which no prefix has yet exceeded 100, the scan stops at a point at or after it that satisfies `IsStop` |
| `Sample.StopIndex` | tests/fixtures/python/sample.py:8-11 | the prefix length the loop consumes satisfies `IsStop`: all strictly shorter prefixes sum to at most 100, and it sums above 100 or is the whole list |
| `Sample.StopUnique` | tests/fixtures/python/sample.py:8-11 | any prefix length satisfying `IsStop` is `StopIndex`, so the stopping point is fully determined |
| `Sample.CalculateSum` | tests/fixtures/python/sample.py:5-12 | the loop with its early `break` returns `CutoffSum(items)`, the sum of the prefix up to the stopping point |
| `Sample.CutoffEmpty` | tests/fixtures/python/sample.py:7-12 | the empty list yields 0 |
| `Sample.CutoffIsPrefixSum` | tests/fixtures/python/sample.py:7-11 | the result is the sum of some prefix of the list, namely of a stopping prefix |
| `Sample.CutoffIncludesCrossingItem` | tests/fixtures/python/sample.py:9-11 | a result above 100 includes the item that crossed: it is the sum of the prefix before that item (at most 100) plus the item, and every strictly shorter prefix summed to at most 100 |
| `Sample.CutoffAbove` | tests/fixtures/python/sample.py:8-11 | if some prefix sums above 100, the scan stops at or before its end and the result is above 100 |
| `Sample.CutoffWhole` | tests/fixtures/python/sample.py:8-12 | if no prefix sums above 100, the whole list is consumed and the result is the sum of all items |
| `Sample.CutoffNotAbove` | tests/fixtures/python/sample.py:8-12 | conversely, a result of at most 100 is the sum of the whole list and no prefix exceeded 100 |
| `Sample.ExactThresholdContinues` | tests/fixtures/python/sample.py:10 | a running total of exactly 100 does not stop the loop, because the comparison is strict |
| `Sample.CutoffAt` | tests/fixtures/python/sample.py:8-12 | given the running totals of a list, the result is the first of them above 100, or the last when none is |
| `Sample.CutoffExamples` | tests/fixtures/python/sample.py:17-23 | the list `[10, 20, 30, 40, 50]` (line 17) and the list `[25, 50, 75, 100]` (line 22) both yield 150; as extra cases not in the fixture, `[1, 2, 3]` (never above 100) yields 6 and `[90, -50, 70]` (a negative item delays the crossing) yields 110 |
| `Sample.RunMain` | tests/fixtures/python/sample.py:15-24 | the two values `main` prints are both 150 |
| `Accumulate.RunningTotalIsSum` | tests/fixtures/go_test/main.go:24-27 | a running total built by adding each item to the previous total is the sum of the prefix consumed so far |
| `GoFixture.Calculate` | tests/fixtures/go_test/main.go:5-10 | reports exactly the pair `(x + y, x * y)` and returns their total, which equals `(x + 1) * (y + 1) - 1` |
| `GoFixture.RunningTotals` | tests/fixtures/go_test/main.go:21-29 | one report per item, in order; the k-th report is the sum of the first k items; the final total is the sum of all items and equals the last report |
| `GoFixture.RunMain` | tests/fixtures/go_test/main.go:12-30 | `calculate(10, 20)` reports `(30, 200)` and returns 230; the running totals are 1, 3, 6, 10, 15 and the final total is 15 |
| `RustFixture.AddI32` | tests/fixtures/rust_test/src/main.rs:2-5 | `i32` addition in a debug build: defined only when the exact sum fits in `i32`, and then it is that sum |
| `RustFixture.MulI32` | tests/fixtures/rust_test/src/main.rs:3 | `i32` multiplication in a debug build: defined only when the exact product fits in `i32`, and then it is that product |
| `RustFixture.Calculate` | tests/fixtures/rust_test/src/main.rs:1-5 | when `x + y`, `x * y` and their total fit in `i32` (otherwise the code panics), reports exactly `(x + y, x * y)` and returns their total, an `i32` equal to `(x + 1) * (y + 1) - 1` |
| `RustFixture.RunningTotals` | tests/fixtures/rust_test/src/main.rs:17-25 | when every running total fits in `i32`, one report per item, in order; the k-th report is the sum of the first k items; the final total is the sum of all items and equals the last report |
| `RustFixture.RunMain` | tests/fixtures/rust_test/src/main.rs:8-26 | `calculate(10, 20)` does not overflow, reports `(30, 200)` and returns 230; the running totals are 1, 3, 6, 10, 15 and the final total is 15 |

## Left out

- Printing: the format strings and the lines `Starting Go debug test`,
  `Starting Rust debug test` carry no logic; every printed value is returned.
- The `if __name__ == "__main__"` guard and the program entry points, apart
  from the calls `main` makes.
- Sample.CalculateSum: the Python list is taken as a `seq<int>`, an immutable
  value, so "the list is only read" holds by construction rather than being
  stated of a mutable list.
- Sample.CalculateSum: Python's `+` on arbitrary numbers is modelled on
  integers only; non-numeric items are not modelled.
- GoFixture.Calculate: Go's `int` is 32 or 64 bits depending on the platform;
  it is modelled as unbounded, so its wrap-around is not captured.
- RustFixture.Calculate: the release-build behaviour of `i32` (two's
  complement wrap-around instead of a panic) is not modelled; the panic of a
  debug build is a precondition.
- The debugger these fixtures exist to exercise is not part of this model.

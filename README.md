# Euler 67: maximum path through a number triangle

A Dafny model of `euler67.cpp`, a solution to Project Euler Problem 67. The program reads a
triangle of integers, where row `i` holds `i + 1` numbers and each number is adjacent to the two
numbers below it. It reduces the triangle bottom-up to the greatest sum along a path from the
apex to the bottom row. It also computes a variant in which a path may only go left onto an odd
value and right onto an even value.

- `triangle.dfy`, module `Triangles`: the `Triangle` class. Its field `rows` is the C++ `rows_`.
  `Valid()` is the class invariant that row `i` has length `i + 1`. `AppendRow` either appends or
  returns `Fail(InvalidShape)` and leaves the triangle unchanged. `SetAt` is a write through the
  non-const `at` reference. `At`, `Height` and `Width` are the read accessors. The C++ `rows()`
  accessor is a read of the field.
- `fold.dfy`, module `Folds`: `fold_triangle<T>`. `FoldAt` is the recursive definition of the fold.
  It applies `make` on the bottom row. Above the bottom row it applies
  `combine(row[r][i], F(r+1, i), F(r+1, i+1))`. `Fold` is that definition at the apex, or
  `EmptyTriangle` when there are no rows. `FoldTriangle` is the C++ algorithm. It keeps an
  accumulator array and overwrites it in place, row by row upwards, in nested loops. It is proved
  equal to `Fold`. It only reads the triangle, since it has no `modifies` clause. A ghost counter
  shows that `combine` runs once per number above the bottom row.
- `walks.dfy`, module `Walks`: walks down the triangle (`IsWalk`), walks that reach the bottom row
  (`IsDescent`) and their sums (`WalkSum`). The evaluators' meaning is stated with these.
- `max_path.dfy`, module `MaxPaths`: `max_path`, the fold with `Leaf(v) = v` and
  `MaxCombine(v, l, r) = v + max(l, r)`. On every non-empty triangle its result is the greatest
  sum of a descent from the apex. No descent sums to more, and `BestDescent` builds one that sums
  to exactly that value.
- `odd_even.dfy`, module `OddEvenPaths`: `max_odd_even_path`. Its combine counts the left
  accumulated result only when it is odd, and the right one only when it is even. A result that
  fails its test counts as 0. `IsEven` uses C++'s truncating remainder (`TruncRem`), and a lemma
  shows that it agrees with Dafny's Euclidean `%`. The parity test is on the accumulated value below,
  not on the raw number. On triangles of nonnegative numbers, the result is proved to be the
  greatest sum of a walk that obeys the rule. The bound covers every such walk, including walks
  that stop early. The value is attained by a walk that stops only where it cannot continue: on the
  bottom row, or where the left result below is even and the right one odd. The result is also
  proved to be at most the `max_path` result.
- `parse.dfy`, module `Parser`: `parse_triangle`, over lines that are already split into their
  integers. Line `k` is appended as row `k`. The parse fails with `InvalidShape` exactly when some
  line's count of values differs from its 1-based line number.

`std::invalid_argument` becomes a `Result`/`Outcome` value with the error `InvalidShape` or
`EmptyTriangle`. `make_t` and `combine_t` are total Dafny function values of a generic type `T`.
Values are mathematical integers. Both evaluators' contracts tie the result to a function of the
triangle's rows, so running one twice on the same triangle gives the same result.

## Model

| member | source | states |
|---|---|---|
| `Triangles.Triangle.constructor` | euler67.cpp:39-45 | a default-constructed triangle has no rows and satisfies the row-length invariant |
| `Triangles.Triangle.AppendRow` | euler67.cpp:95-108 | appends exactly when the row's length is the height plus one, and the height grows by one with earlier rows unchanged; otherwise it fails with InvalidShape and leaves the rows, and so the height, as they were; the invariant row i has i+1 values is kept either way |
| `Triangles.Triangle.SetAt` | euler67.cpp:65-77 | writing through `at(r, n)` changes only that element; the invariant holds, and no row length, the height or the width changes |
| `Triangles.Triangle.Height` | euler67.cpp:80-85 | the height is the number of rows and, with the invariant, the length of the bottom row |
| `Triangles.Triangle.At` | euler67.cpp:65-76 | the const `at(r, n)` reads rows[r][n] under the exact bound n <= r, not the documented n <= r + 1, so the position always exists |
| `Triangles.Triangle.Width` | euler67.cpp:87-93 | the width is the height, is the length of the bottom row, and no row is longer |
| `Triangles.AtBoundsExact` | euler67.cpp:65-76 | in a well-shaped triangle, `r < height && n <= r` admits exactly the positions that exist |
| `Triangles.DocumentedAtBoundsOverrun` | euler67.cpp:71-74 | in every well-shaped triangle and every row r, the documented precondition `n <= r + 1` admits `at(r, r + 1)`, one past the end of row r |
| `Folds.FoldTriangle` | euler67.cpp:151-220 | returns the recursive fold of the triangle (EmptyTriangle when it has no rows); after each row r, accumulator positions 0..r hold that row's fold values and stale positions are never read; the triangle is not modified; `combine` runs once per number above the bottom row |
| `Folds.FoldFailsOnlyWhenEmpty` | euler67.cpp:156-159 | the fold fails, with EmptyTriangle, exactly when the height is 0 |
| `Folds.FoldSingleRow` | euler67.cpp:176-184 | on a one-row triangle the fold is `make` of its single value, whatever `combine` is |
| `MaxPaths.Leaf` | euler67.cpp:233-234 | a bottom-row number is its own result |
| `MaxPaths.MaxCombine` | euler67.cpp:236-240 | the result is the number plus one of the two results below, and is at least the number plus either of them |
| `MaxPaths.DescentAtMostMaxAt` | euler67.cpp:222-243 | no descent from a position sums to more than the max_path value there |
| `MaxPaths.BestDescent` | euler67.cpp:225-240 | stepping towards the greater result below gives a descent whose sum is exactly the max_path value |
| `MaxPaths.MaxFoldIsMaxDescentSum` | euler67.cpp:231-243 | on a non-empty triangle the fold with Leaf and MaxCombine is the greatest descent sum from the apex: at least every descent's sum and equal to some descent's sum |
| `MaxPaths.MaxPath` | euler67.cpp:231-243 | fails with EmptyTriangle exactly on the empty triangle; otherwise it returns the greatest sum over all apex-to-base paths |
| `MaxPaths.MaxPathSingleRow` | euler67.cpp:234 | the max_path value of a one-row triangle is its single value |
| `MaxPaths.MaxPathExample` | euler67.cpp:25-32 | the example triangle 3 / 7 4 / 2 4 6 / 8 5 9 3 has max_path 23 |
| `OddEvenPaths.IsEvenIffEuclideanEven` | euler67.cpp:260 | the C++ `n % 2 == 0` test agrees with Dafny's `%` for every integer, negative ones included |
| `OddEvenPaths.IsEven` | euler67.cpp:260 | the `is_even` lambda, written with C++'s truncating remainder, holds exactly of the integers with n % 2 == 0 |
| `OddEvenPaths.OddEvenCombine` | euler67.cpp:262-266 | the result is the number alone, the number plus an odd left result, or the number plus an even right result; it is at least each of these that is permitted, and at least the number alone whenever one side is gated out |
| `OddEvenPaths.OddEvenCombineGates` | euler67.cpp:262-266 | the combine adds the left result only when it is odd and the right result only when it is even; a result that fails its test counts as 0 |
| `OddEvenPaths.OddEvenAtLeastCell` | euler67.cpp:262-266 | on nonnegative numbers, a result is at least its own number, so the contribution from below is never negative |
| `OddEvenPaths.GatedWalkAtMostOddEvenAt` | euler67.cpp:245-266 | no walk that goes left only onto odd results and right only onto even results sums to more than the max_odd_even_path value |
| `OddEvenPaths.BestGatedWalk` | euler67.cpp:245-266 | taking the better permitted step gives a rule-obeying walk that stops only on the bottom row or where neither step is permitted, and whose sum is exactly the max_odd_even_path value |
| `OddEvenPaths.OddEvenFoldIsMaxGatedWalkSum` | euler67.cpp:256-269 | on a non-empty nonnegative triangle, the fold with the parity-gated combine is at least the sum of every rule-obeying walk from the apex, and equals the sum of a rule-obeying walk that stops only where it cannot continue |
| `OddEvenPaths.OddEvenAtMostMaxAt` | euler67.cpp:245-269 | on nonnegative numbers, the extra rule never raises a result above the max_path result |
| `OddEvenPaths.MaxOddEvenPath` | euler67.cpp:256-269 | fails with EmptyTriangle exactly on the empty triangle; otherwise it returns the parity-gated fold; on nonnegative numbers that is the greatest rule-obeying walk sum, attained by a walk that stops only where it cannot continue, and it is at most max_path |
| `OddEvenPaths.OddEvenBlockedExample` | euler67.cpp:262-266 | when the left result below is even and the right one odd, the value is the number alone: [[5], [2, 3]] gives 5, whereas max_path gives 8 |
| `Parser.ParseTriangle` | euler67.cpp:274-306 | fails with InvalidShape exactly when some line's value count differs from its 1-based line number; otherwise it returns a new valid triangle of height k whose row j is line j+1 |

## Left out

- Opening the input file, the error message and exit code when that fails, and the console output of `main` (euler67.cpp:309-335) are I/O.
- Splitting a line into integers with `std::istringstream` (euler67.cpp:290-297) is library behaviour. `ParseTriangle` takes each line as its sequence of values. The `expected_row_size` counter of `parse_triangle` only sizes a `reserve` call, so it is not modelled.
- C++ `int` overflow of path sums is not modelled. Values and sums are unbounded integers.
- `std::function`, `std::move`, `reserve`, and the copy and move constructors of `Triangle` manage memory. They are not modelled.
- Exceptions are not modelled as a control mechanism. `std::invalid_argument` becomes a failure value.
- The calls of `make_t` on the bottom row are the array initialiser of the accumulator. Since `make` is a pure function, the model does not count them. Only the `combine` calls are counted.
- MaxOddEvenPath: the walk characterisation, and the bound by `max_path`, are proved only for triangles of nonnegative numbers, like the problem's input. When a result below is negative, the gated contribution of 0 can beat both children. Then no walk reading of the rule applies. For such triangles the method's contract is the fold itself.
- OddEvenFoldIsMaxGatedWalkSum: requires nonnegative numbers, for the same reason.
- The fifteen-row triangle of Project Euler Problem 18, whose answer is 1074, has no lemma. Only the four-row example is proved.

## Findings

| source | as written | input that shows it | evidently intended | confidence | as-written member | corrected member |
|---|---|---|---|---|---|---|
| euler67.cpp:71-74 | the documented precondition of `at(r, n)` is `r < height()` and `n <= r + 1` | any row r, with `at(r, r + 1)`: for example `at(0, 1)` in a one-row triangle meets the documented bounds, but row 0 has one element, so the access is past the end | `n <= r` (that is, `n < r + 1`), the positions of row r | high; not executed | `Triangles.DocumentedAtBoundsOverrun` | `Triangles.AtBoundsExact` |

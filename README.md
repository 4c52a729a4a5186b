# Pascal's triangle, modelled and proved in Dafny

The script `backup/pascals.py` defines `binom(n, k)` as the factorial ratio
`factorial(n) / (factorial(k) * factorial(n - k))`. It then builds `triangle`,
a list of 12 rows: for `n` in `range(12)` it builds a row of `binom(n, k)` for
`k` in `range(row_counter + 1)`, appends that row, and increments
`row_counter`.

This project has two modules:

- `Combinatorics` (`combinatorics.dfy`) holds the mathematics.
  - `Fact` is the factorial. The script takes it from `math.factorial`.
  - `Choose` is the binomial coefficient C(n, k), defined by Pascal's recurrence.
    It is the independent reference for the script's formula.
  - The lemmas prove the factorial formula `C(n, k) * (k! * (n-k)!) == n!`,
    the exactness of the division, and the symmetry of C.
- `Pascals` (`pascals.dfy`) holds the script.
  - `Binom` is `binom`, with the error that `math.factorial` raises for a
    negative argument.
  - `BuildTriangle` is the construction loop, with its separate row counter.
  - `Triangle` is the specification of the loop's result.
  - The remaining lemmas prove the triangle's shape, its ends, its symmetry,
    Pascal's identity, and the exact twelve rows listed in the script's
    trailing comment.

`BuildTriangle` takes the number of rows as a parameter. The script fixes
it at 12, which is `ScriptRows`; `RunScript` is that run. `BuildTriangle`
takes a `nat`, so a negative row count cannot be passed. Python's `range` of
a negative number would be empty, and the script never does either.

## Model

| member | source | states |
|---|---|---|
| Combinatorics.Fact | backup/pascals.py:2 | the factorial that `binom` relies on is at least 1 (so the divisor is never zero) and at least n |
| Combinatorics.Choose | backup/pascals.py:29-40 | the reference coefficient is 0 when k > n and at least 1 when k <= n |
| Combinatorics.ChooseEnds | backup/pascals.py:29-40 | C(n, 0) == C(n, n) == 1 |
| Combinatorics.ChooseTimesFactorials | backup/pascals.py:7 | C(n, k) * (k! * (n-k)!) == n! for every 0 <= k <= n, so the recurrence and the factorial formula agree |
| Combinatorics.FactorialRatio | backup/pascals.py:7 | k! * (n-k)! divides n! with no remainder, and the quotient is C(n, k) |
| Combinatorics.ChooseSymmetric | backup/pascals.py:7 | C(n, k) == C(n, n-k) for 0 <= k <= n |
| Pascals.Binom | backup/pascals.py:4-7 | the model of binom(n, k) fails exactly when one of n, k, n-k is negative (the ValueError of `math.factorial`); otherwise the value times k! * (n-k)! is exactly n! and equals C(n, k) |
| Pascals.BinomEnds | backup/pascals.py:7 | binom(n, 0) and binom(n, n) both succeed with 1 |
| Pascals.BinomSymmetric | backup/pascals.py:7 | binom(n, k) and binom(n, n-k) give the same outcome for all integers n and k, the error included |
| Pascals.BuildTriangle | backup/pascals.py:10-22 | the loop keeps `row_counter == n` at the head of every iteration; row n gets exactly the n + 1 values binom(n, 0..n); rows are appended in increasing n; the result is `Triangle(rows)` |
| Pascals.TriangleShape | backup/pascals.py:15-21 | the triangle has exactly `rows` rows and row i has i + 1 entries |
| Pascals.TrianglePrefix | backup/pascals.py:15-21 | the first `rows` rows of a longer triangle are the triangle of `rows` rows, so row i depends only on i |
| Pascals.TriangleEnds | backup/pascals.py:29-40 | every row starts and ends with 1 |
| Pascals.TriangleSymmetric | backup/pascals.py:29-40 | row i at k equals row i at i - k |
| Pascals.TrianglePascal | backup/pascals.py:15-21 | for 0 < k < i, row i at k is the sum of row i-1 at k-1 and at k |
| Pascals.RowFromPrevious | backup/pascals.py:29-40 | a row built by Pascal's rule from row n (1, adjacent sums, 1) is row n + 1 |
| Pascals.RowIsExpected | backup/pascals.py:29-40 | row n, for n < 12, is the n-th row listed in the script's trailing comment |
| Pascals.RunScript | backup/pascals.py:10-22 | running the construction loop with `range(12)` yields exactly the twelve rows listed at lines 29-40, e.g. row 4 is [1, 4, 6, 4, 1] and row 11 is [1, 11, 55, 165, 330, 462, 462, 330, 165, 55, 11, 1] |
| Pascals.ScriptOutput | backup/pascals.py:29-40 | the triangle of `ScriptRows` (12) rows equals the twelve listed rows, e.g. row 4 is [1, 4, 6, 4, 1] and row 11 is [1, 11, 55, 165, 330, 462, 462, 330, 165, 55, 11, 1] |

## Left out

- Pascals.Binom: returns an exact natural number, where Python's `/` returns a float. The float is exact for every value the script computes. For large arguments Python loses precision once the quotient exceeds 2^53, and raises OverflowError once the quotient exceeds about 1.8e308 (for example binom(3000, 1500)). The model captures neither: it returns `Ok` with the exact C(n, k) there.
- Printing the rows (`backup/pascals.py:25-26`) is console output and is not modelled. `BuildTriangle` returns the rows instead.
- The commented-out `scipy.special.binom` variant (`backup/pascals.py:1, 18`) is foreign floating-point code that is not active, so it is not modelled.
- The initial `n = 0` (`backup/pascals.py:11`) has no effect, because the `for` loop rebinds `n` straight away. It is not modelled.
- The row count is hard-coded in the script. `BuildTriangle` takes it as a `nat` parameter, so a negative row count cannot be expressed.
- `pelicanconf.py` and `publishconf.py` hold static-site configuration constants with no behaviour, so they are not modelled.
- `invalidate_cf.py` makes one cloud-CDN cache-invalidation call through `boto3`, using the wall clock and printing its result. It is a network client, so it is not modelled.

# Bisection search of the Monte Carlo utilities, in Dafny

This project models `binary_search(y, search_list)`, the bisection helper of the
Monte Carlo statistics utilities, and proves what it computes.

The helper keeps a bracket `[index_left, index_right]`. The bracket starts as
`[0, len - 1]`. On each pass of its `while` loop it does four things:

- it moves the left end to the midpoint when `y > search_list[index_mid]`, and the right end otherwise;
- it sets `stop_condition` once the two ends are adjacent;
- it recomputes the midpoint with floor division;
- it counts the pass in `iter`.

It returns the left end.

The model is one module, `Bisection`, in `bisection.dfy`:

- **The search.** `BinarySearch` is a method with a `while` loop. It keeps the
  source's locals (`indexLeft`, `indexRight`, `indexMid`, `stopCondition`) and
  its `iter` counter, which becomes a ghost variable. The list is a `seq<real>`,
  so it cannot be modified. The method is proved against the functional model
  and the reference result below.
- **One pass and k passes, as functions.** `Init` is the state before the
  loop. `Step` is one pass of the loop body. `Passes(a, y, k)` is the state
  after k passes; once the flag is up, the state stays put, as the loop has
  exited. The method's loop is checked, pass by pass, to equal `Step`
  starting from `Init`. The results about termination and divergence are
  proved on `Passes`.
- **The loop invariant.** `Bracketed` is the invariant of the loop. It says
  that each end of the bracket is either the list's own end or a witness for
  its side of `y`: `y > a[left]` on the left, `y <= a[right]` on the right.
  This holds for any list, sorted or not.
- **The reference result.** `Rank(a, y)` is how many of the interior
  elements `a[1] … a[len-2]` lie strictly below `y`. On a non-decreasing list
  it is exactly what the search returns. The properties of the result are
  proved about `Rank`.
- **The scenarios.** Five small inputs are traced on `Passes` as lemmas. The
  method `ScenarioSearches` also runs the same five inputs through
  `BinarySearch`, and the method's contract alone fixes each result.

What the proofs establish:

- **Domain.** The loop terminates exactly when `len >= 3`, or when
  `len == 2 && y > a[0]`. A one-element list starts with both ends at 0. A
  two-element list with `y <= a[0]` takes the else-branch (lines 17-18), which
  moves the right end onto 0. Either way the ends are then equal, the stop
  test can never succeed, and the loop runs forever.
- **Result.** The result `r` satisfies `0 <= r <= len - 2`, and the final
  bracket is `[r, r + 1]`.
- **Non-decreasing list.** On a non-decreasing list, `a[r] < y <= a[r + 1]`,
  clamped at both ends.
- **Monotone.** On a non-decreasing list, a larger query never gives a smaller result.
- **Pass count.** The loop makes at most `ceil(log2(len - 1))` passes when
  `len >= 3`, and exactly one pass when `len == 2`. Both counts are at most
  `ceil(log2(len))`.

Three facts about the code are worth stating on their own:

- **Ties go left.** Line 15 compares strictly (`y > search_list[index_mid]`).
  On a non-decreasing list, a query equal to `a[i]`, with `i > 0` and
  `a[i - 1] < a[i]`, therefore gives `i - 1`. On such a list the result `i`
  covers the queries in `(a[i], a[i+1]]`, clamped at both ends.
- **Short lists do not stop.** Nothing guards the length. A list of one
  element loops forever, and so does a list of two elements when `y <= a[0]`.
  An empty list raises `IndexError` at its first index, `search_list[-1]`.
- **Length 2 makes one pass.** For `len == 2` the loop makes one pass, one more
  than `ceil(log2(len - 1)) = 0`, because that pass starts from a bracket that
  is already adjacent.

## Model

| member | source | states |
|---|---|---|
| `Bisection.BinarySearch` | Utils/.ipynb_checkpoints/utils-checkpoint.py:4-26 | On the terminating domain the loop stops. It returns `r` in `[0, len-2]` with `r == 0 or y > a[r]` and `r+1 == len-1 or y <= a[r+1]` for any list. On a non-decreasing list, `r == Rank(a, y)`. The pass count `iter` is between 1 and `MaxPasses(len)`. |
| `Bisection.Init` | Utils/.ipynb_checkpoints/utils-checkpoint.py:7-11 | The first bracket is the whole list `[0, len-1]`, its midpoint is in the list, and the flag is down. |
| `Bisection.Step` | Utils/.ipynb_checkpoints/utils-checkpoint.py:15-23 | One pass keeps the bracket inside the list. An end either stays or moves to a midpoint that witnesses its side of `y`. The new width is at most half the old one, rounded up. A bracket 2 or more wide never collapses. The flag is up exactly when the ends are adjacent. |
| `Bisection.Passes` | Utils/.ipynb_checkpoints/utils-checkpoint.py:13-24 | Every state reached after any number of passes has ordered ends inside the list, and its midpoint is their floor average. |
| `Bisection.InitBracketed` | Utils/.ipynb_checkpoints/utils-checkpoint.py:7-11 | The loop invariant holds before the first pass on every terminating input. |
| `Bisection.StepBracketed` | Utils/.ipynb_checkpoints/utils-checkpoint.py:15-24 | A pass from a state that has not stopped keeps the invariant. It happens within `MaxPasses(len)` passes. It shrinks the bracket unless it raises the flag. |
| `Bisection.PassesBracketed` | Utils/.ipynb_checkpoints/utils-checkpoint.py:8-24 | After every number of passes the invariant holds. Each end is the list's end or a witness for its side of `y`. The flag means the ends are adjacent. Before stopping, the passes made plus the halvings still needed fit in `MaxPasses(len)`. |
| `Bisection.StopsWithin` | Utils/.ipynb_checkpoints/utils-checkpoint.py:13-24 | On the terminating domain the flag is up after `MaxPasses(len)` passes. |
| `Bisection.DivergesOutsideDomain` | Utils/.ipynb_checkpoints/utils-checkpoint.py:15-21 | For `len == 1`, or `len == 2` with `y <= a[0]`, the state is `[0, 0]` with the flag down after every pass from the first on. The loop never stops. |
| `Bisection.DomainIsExact` | Utils/.ipynb_checkpoints/utils-checkpoint.py:13-21 | For a non-empty list, the loop stops after some number of passes if and only if `len >= 3`, or `len == 2` and `y > a[0]`. |
| `Bisection.MaxPasses` | Utils/.ipynb_checkpoints/utils-checkpoint.py:13-24 | The pass bound, `ceil(log2(len-1))` or 1 for `len == 2`, is at least 1 and at most `ceil(log2(len))`. |
| `Bisection.CeilLog2IsCeiling` | Utils/.ipynb_checkpoints/utils-checkpoint.py:13-24 | The halving count used for the pass bound is the least `c` with `w <= 2^c`, i.e. `ceil(log2(w))`. |
| `Bisection.StoppedResult` | Utils/.ipynb_checkpoints/utils-checkpoint.py:20-26 | Once stopped, the bracket is `[left, left+1]` with `left <= len-2`, witnessed on both sides. On a non-decreasing list `left == Rank(a, y)`. |
| `Bisection.SearchMonotone` | Utils/.ipynb_checkpoints/utils-checkpoint.py:15-26 | On a non-decreasing list, for `y1 <= y2` with both runs stopped, the result for `y1` is at most the result for `y2`. |
| `Bisection.Rank` | Utils/.ipynb_checkpoints/utils-checkpoint.py:15-26 | The reference result is in `[0, len-2]`. |
| `Bisection.RankBracket` | Utils/.ipynb_checkpoints/utils-checkpoint.py:15-26 | On a non-decreasing list, `Rank(a, y) == i` if and only if `a[i] < y` (dropped when `i == 0`) and `y <= a[i+1]` (dropped when `i == len-2`). |
| `Bisection.RankClampLow` | Utils/.ipynb_checkpoints/utils-checkpoint.py:15-18 | On a non-decreasing list, a query at or below `a[1]`, including any query below `a[0]`, gives 0. |
| `Bisection.RankClampHigh` | Utils/.ipynb_checkpoints/utils-checkpoint.py:15-18 | On a non-decreasing list, a query above `a[len-2]` gives `len-2`, never `len-1`. |
| `Bisection.RankExactHit` | Utils/.ipynb_checkpoints/utils-checkpoint.py:15-18 | On a non-decreasing list, a query equal to `a[i]`, with `i > 0` and `a[i-1] < a[i]`, gives `i-1`: ties go left. |
| `Bisection.RankMonotone` | Utils/.ipynb_checkpoints/utils-checkpoint.py:15-26 | For `y1 <= y2`, `Rank(a, y1) <= Rank(a, y2)`. |
| `Bisection.ScenarioInterior` | Utils/.ipynb_checkpoints/utils-checkpoint.py:4-26 | `[0,1,2,3,4,5]` with `y = 2.5` stops after two passes with bracket `[2, 3]`. |
| `Bisection.ScenarioBelowAll` | Utils/.ipynb_checkpoints/utils-checkpoint.py:4-26 | `[0,1,2]` with `y = -5` stops after one pass with result 0. |
| `Bisection.ScenarioAboveAll` | Utils/.ipynb_checkpoints/utils-checkpoint.py:4-26 | `[0,1,2]` with `y = 100` stops after one pass with result 1. |
| `Bisection.ScenarioTwoElements` | Utils/.ipynb_checkpoints/utils-checkpoint.py:4-26 | `[0,10]` with `y = 5` stops after its single pass with result 0. |
| `Bisection.ScenarioTieGoesLeft` | Utils/.ipynb_checkpoints/utils-checkpoint.py:15-18 | `[0,1,2,3]` with `y = 2` stops after two passes with result 1. |

## Left out

- The statistical estimators are not modelled: `SAMPLE_MEAN`, `SAMPLE_VARIANCE`, `STD_ESTIMATED`, `ERROR_SAMPLE_MEAN`, `D4`, the `ERROR_SAMPLE_VARIANCE_*` functions and the `ERROR(E)_STD_ESTIMATED_*` functions (utils-checkpoint.py:29-72). They are floating-point formulas over numpy arrays (sums, square roots, division by `N_prove - 1`) with no control flow, and numpy is not part of this model.
- The `import numpy as np` line is not modelled, because `binary_search` does not use it.
- Float behaviour is not modelled. The elements and the query are mathematical reals. NaN, where every `y > x` is false, and infinities are not represented.
- The empty list is not modelled. In the source it raises `IndexError` at `search_list[-1]`, because the midpoint is `(-1 + 0) // 2 = -1`. `BinarySearch` and `Passes` require a non-empty list.
- BinarySearch: its `ensures` do not say that the final locals equal `Passes(a, y, iterations)`, nor that `iterations` is the first pass at which the flag is up. The loop checks every pass against `Step` instead, and `StoppedResult` and `DomainIsExact` state these facts on `Passes`. Unfolding `Passes` inside the loop proof is too costly for the verifier.
- The Python list is modelled as an immutable `seq<real>`. So "the input is not modified" holds by construction and is not a separate lemma.

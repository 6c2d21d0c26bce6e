# Root separation and refinement, modelled in Dafny

This project models the numerical core of `first-task.py` from the calc-methods repository:

- **Root separator** (`separate_roots`): splits `[A, B]` into `N` equal sub-intervals. It collects every sub-interval with a strict sign change of `f`, plus a degenerate bracket `(p, p)` for every grid point `p = A + k*h` (`k >= 1`) where `f` is exactly zero. For `p = A` it adds `(A, A)` only when `f(A) = 0` and `f(A + h) != 0`: when both vanish, the zero at `A + h` takes the first sub-interval's one slot.
- **Four refiners**, each taking one bracket:
  - bisection (`bisect_method`);
  - Newton (`newton_method`);
  - multiplicity-adjusted Newton (`modified_newton_method`);
  - secant (`secant_method`).

The function `f` and its derivative `df` are arbitrary `real -> real` parameters. Arithmetic is exact real arithmetic.

Each refiner prints a report and then returns. In the model it returns an `Outcome` value instead:

- `Converged(Estimate(x_m, steps, lastStep))`;
- `MaxIterationsReached(Estimate(...))`;
- `EvenMultiplicity`;
- `DerivativeTooSmall(step, |f'(x_0)|)`;
- `DegenerateSecant(|f(x_1) - f(x_0)|)`.

The printed residual `|f(x_m)|` can be computed from the returned `x_m`, so it is not stored.

Layout:

- `outcomes.dfy` (module `Outcomes`): `Abs`, `Estimate` and `Outcome`.
- `separation.dfy` (module `Separation`): the separator as a loop that appends to a sequence, proved equal to the recursive `Scan`. Lemmas give its exact membership, its order and its count.
- `bisection.dfy` (module `Bisection`): the bisection loop. The method is proved to stop on the first bracket of the sequence `Bracket` that it does not narrow, and to report `ReportOn` for that bracket. Lemmas about that sequence give halving, nesting, the step bound, the sign-change invariant and exactly when `EvenMultiplicity` is reported.
- `newton.dfy` (module `Newton`): both Newton loops.
- `secant.dfy` (module `Secant`): the secant loop, in two versions:
  - `SecantMethodAsWritten` reports exactly what the source reports;
  - `SecantMethod` is corrected (see Findings).

How the Newton and secant loops are proved:

- Each method is proved equal to a tail-recursive `Run` function that mirrors its loop.
- `Run` is proved to meet a declarative predicate, `IsNewtonOutcome` or `IsSecantOutcome`. The predicate describes the outcome from the iterate sequence alone, through `Iterate` and `Change` in `Newton`, and `Points`, `Gap` and `Change` in `Secant`.
- Uniqueness lemmas show that the predicate determines the outcome.

Behaviour worth noting:

- **Derivative guard.** The guard is a strict `|f'(x_0)| < df_eps`. A derivative exactly at the floor therefore takes a step; it does not report `DerivativeTooSmall`.
- **Early stop in bisection.** Bisection stops early when no half shows a strict sign change. That happens when `f` vanishes at the midpoint. With `f(x) != 0` it also happens when `f` vanishes at one end and, at the other end, `f` either vanishes too or has the sign of `f(x)`. For example, `x*(x - 1)` on `[0, 1]` stops on step 1 (`BothEndsZeroStops`). A zero at an end does not by itself stop the loop: the loop can narrow away from it (`EndZeroNarrowsAway`).
- **Partition count.** The separator accepts any non-zero `N`. A negative `N` gives an empty scan, as `range(N)` does. The check `N >= 2` is in the input loop in `main`, which is not modelled.

## Model

| member | source | states |
|---|---|---|
| Separation.SeparateRoots | first-task.py:17-34 | The list built by the loop is the recursive scan `Scan` over the grid `A + k*h` with `h = (B-A)/N`. It is empty for negative `N` and has at most `N` entries. When `A <= B`, the brackets are well formed, lie in `[A, B]` and do not overlap, in left-to-right order. |
| Separation.FoundMembers | first-task.py:25-30 | One sub-interval yields exactly one of three brackets: a strict sign change over it, a zero at its right end, or (on the first sub-interval only, when its right end is not a zero) a zero at `A`. |
| Separation.ScanMembers | first-task.py:22-30 | A bracket is in the scan if and only if it is one of three kinds: a grid sub-interval `k < n` with a strict sign change, a degenerate bracket at a grid point `A + k*h` (`1 <= k <= n`) where `f` vanishes, or `(A, A)` when `f(A) = 0` and `f(A + h) != 0`. |
| Separation.ScanOrdered | first-task.py:19-32 | For `h >= 0`, the scan's brackets are well formed and lie within `[A, A + n*h]`. Each one ends no later than the next begins. |
| Separation.ScanCount | first-task.py:22-31 | At most one bracket per sub-interval: the scan of `n` sub-intervals has at most `n` entries. |
| Separation.LastGridPoint | first-task.py:19-23 | The last grid point `A + N*h` is `B`. |
| Bisection.Bisect | first-task.py:36-66 | The outcome is `ReportOn` of some bracket on which the loop stops. The loop stops on the first bracket of the sequence `Bracket` that it does not narrow. It reports what `ReportOn` gives for that bracket: `Converged` at the last midpoint (or at `A`) when the bracket is no wider than `eps`, `EvenMultiplicity` on the even sign pattern, and `Converged` at the midpoint when no half shows a strict sign change. The ghost results are that bracket and its index. |
| Bisection.NarrowStep | first-task.py:55-58 | From a tracked loop state, a narrowing step keeps the left half when `f(start)*f(x) < 0`, otherwise the right half, halves the width, and reaches the next bracket of the sequence. |
| Bisection.StopsOnEven | first-task.py:50-53 | A reached bracket wider than `eps` that shows the even sign pattern is where the loop stops, reporting `EvenMultiplicity`. |
| Bisection.StopsOnNoSide | first-task.py:55-60 | A reached bracket wider than `eps`, without the even pattern and with no half showing a strict sign change, is where the loop stops. It reports the midpoint after one more step, with the unchanged width. |
| Bisection.StopsOnWidth | first-task.py:44-64 | A reached bracket no wider than `eps` is where the loop stops. It reports the last midpoint, the step count and the width. |
| Bisection.StopsOnUnique | first-task.py:44-60 | The loop stops on exactly one bracket, so the bracket sequence determines the outcome. |
| Bisection.EvenMultiplicityExactly | first-task.py:50-53 | `EvenMultiplicity` is reported if and only if some reached bracket is wider than `eps` and shows the even sign pattern, every earlier bracket having been narrowed. |
| Bisection.SquareIsEvenMultiplicity | first-task.py:50-53 | For `f(x) = x*x` on `[-1, 2]` with `eps = 0.1`, the loop stops on the first bracket and reports `EvenMultiplicity`. |
| Bisection.BracketNested | first-task.py:55-58 | For `A <= B`, every bracket lies inside `[A, B]`. |
| Bisection.BracketStepNested | first-task.py:55-58 | For `A <= B`, each bracket lies inside the one before it. |
| Bisection.EndZeroNarrowsAway | first-task.py:55-58 | For `x*(3 - x)` on `[0, 4]`, `f(0) = 0` yet the first step narrows to `[2, 4]`: a zero at an end does not stop the loop. |
| Bisection.BothEndsZeroStops | first-task.py:55-60 | For `x*(x - 1)` on `[0, 1]`, `f(0.5) != 0` yet the loop stops on the first bracket and reports `0.5` after one step, because `f` vanishes at both ends. |
| Bisection.ReachedHalves | first-task.py:44-58 | Each narrowing exactly halves the width: a reached bracket `n` is `(B-A)/2^n` wide. |
| Bisection.SignChangeKept | first-task.py:55-60 | With `f(A)*f(B) < 0`, every bracket keeps a strict sign change at its ends. |
| Bisection.NarrowStart | first-task.py:37-44 | If `B - A <= eps`, the loop takes no step and reports `A` with width `B - A`. |
| Bisection.WidthStop | first-task.py:44-64 | Stopped by width after `n` steps: the width is `(B-A)/2^n`, and the bracket before the last step was wider than `eps`. The reported `x_m` is an end of the final bracket, or `A` when no step was taken. |
| Bisection.EarlyStop | first-task.py:55-64 | Stopped early on a bracket wider than `eps`, after `n + 1` steps: `x_m` is its midpoint, and `f` vanishes at `x_m` or at an end of the bracket. |
| Bisection.SignChangeStop | first-task.py:50-60 | With `f(A)*f(B) < 0`, the loop never reports `EvenMultiplicity`, the final bracket still has a strict sign change, and an early stop means `f(x_m) = 0`. |
| Bisection.ConvergedStepBound | first-task.py:44-46 | A converged report after `s >= 1` steps has `eps * 2^(s-1) < B - A`, that is `s <= ceil(log2((B-A)/eps))`. |
| Bisection.SignChangeSplits | first-task.py:50-60 | Across a strict sign change, the even-multiplicity pattern cannot occur, and a non-zero midpoint value lies on exactly one side of the change. |
| Bisection.HalvingShrinksMeasure | first-task.py:44-58 | Halving a width above `eps` lowers the measure `2*w/eps` by at least one, so the loop terminates. |
| Bisection.HalvedIsDivision | first-task.py:44-58 | `n` halvings divide the width by `2^n`. |
| Bisection.StepBound | first-task.py:44-46 | If step `n` was taken, then `eps * 2^(n-1) < B - A`, so `n <= ceil(log2((B-A)/eps))`. |
| Newton.UpdateWithOne | first-task.py:85 | With `m = 1`, the update `x0 - m*f(x0)/df(x0)` that both refiners share in the model is the plain Newton update of `newton_method`. |
| Newton.RunStep | first-task.py:76-85 | One guarded pass of the loop body leaves the loop's eventual outcome unchanged. |
| Newton.StepExtends | first-task.py:80-85 | A step past the guard produces the next iterate and extends the guarded, moving run by one step. |
| Newton.RunMeetsSpec | first-task.py:76-98 | From any state reached after guarded steps, the loop reports the outcome that `IsNewtonOutcome` describes. `Converged` means `1 <= steps <= maxIter` (zero steps only when `maxIter = 0`) and last change `<= eps`. `MaxIterationsReached` means `steps = maxIter` and last change `> eps`. `DerivativeTooSmall` on step `s` means `|f'(x_(s-1))| < dfEps`. |
| Newton.NewtonMethod | first-task.py:68-99 | The loop computes exactly `Run` from the midpoint with `m = 1`, never divides by zero, and reports the outcome `IsNewtonOutcome` describes. |
| Newton.ModifiedNewtonMethod | first-task.py:101-133 | The same as `NewtonMethod`, with the update multiplied by `m`. |
| Newton.StopsNoLater | first-task.py:76-83 | Of two outcomes fitting `IsNewtonOutcome`, neither stops at an earlier step than the other. |
| Newton.NewtonOutcomeUnique | first-task.py:110-119 | The iterates determine the outcome. In particular, the modified method with `m = 1` reports exactly what `newton_method` reports. |
| Newton.GuardHeldThroughout | first-task.py:76-85 | When the loop does not end at the guard, every step the loop could reach passed the guard. |
| Newton.DerivativeTooSmallExactly | first-task.py:80-83 | `DerivativeTooSmall` is reported if and only if some reachable step has `|f'(x)| < dfEps`, with the strict comparison. |
| Secant.RunStep | first-task.py:143-156 | One guarded pass of the loop body that does not converge leaves the loop's eventual outcome unchanged. |
| Secant.StepExtends | first-task.py:150-156 | A guarded, non-converging step shifts the points to the next pair of the secant sequence and extends the guarded, moving run. |
| Secant.RunMeetsSpec | first-task.py:143-157 | From any iteration reached with earlier steps guarded and moving, the loop reports what `IsSecantOutcome` describes. `Converged` on step `n` means `1 <= n <= maxIter` and change `< eps`. `MaxIterationsReached` means all `maxIter` steps were guarded and moving. `DegenerateSecant` means some reachable step had `|f(x_1) - f(x_0)| < dfEps`. |
| Secant.SecantMethod | first-task.py:135-170 | The loop computes exactly `Run` from `(A, B)`, never divides by zero, and reports the outcome `IsSecantOutcome` describes. An exhausted budget of at least one step reports a last change `>= eps`. |
| Secant.SecantMethodAsWritten | first-task.py:135-170 | The source's loop as written reports the same as `SecantMethod`, except that an exhausted budget of at least one step reports a last change of 0. |
| Secant.LastChangeLost | first-task.py:156-161 | For `f(x) = x + 1` on `[0, 5]` with one step, the step moves by 6 to the root -1, but the source reports a last change of 0. |
| Secant.StopPoint | first-task.py:143-157 | Every outcome fitting `IsSecantOutcome` stops at one step, for the reason its tag names. |
| Secant.NoLaterStop | first-task.py:146-154 | A run that stopped at step `n1` cannot have reached a later step with all earlier steps guarded and moving. |
| Secant.StopsAgree | first-task.py:143-157 | Two outcomes fitting `IsSecantOutcome` stop at the same step. |
| Secant.SameStopSameOutcome | first-task.py:143-168 | Two outcomes fitting `IsSecantOutcome` that stop at the same step are equal. |
| Secant.SecantOutcomeUnique | first-task.py:143-168 | The secant sequence determines the outcome: any two outcomes fitting `IsSecantOutcome` are equal. |
| Secant.DegenerateSecantExactly | first-task.py:146-148 | `DegenerateSecant` is reported if and only if some reachable step has `|f(x_i) - f(x_(i-1))| < dfEps`. |
| Secant.EqualEndsDegenerate | first-task.py:146-148 | A degenerate bracket `A = B` with at least one step allowed reports `DegenerateSecant(0)`. |

## Left out

- `main` and `print_header` (first-task.py:9-15, 172-236) are not modelled: they are console input and output, including the `N < 2` retry and the `ValueError` handling. The refiners' own prints are replaced by the returned `Outcome`.
- The concrete `f` and `df` (`4cos(x) + 0.3x` and its derivative) are replaced by arbitrary functions. They call `math.cos` and `math.sin`.
- IEEE-754 rounding is not modelled; all arithmetic is exact `real`. In particular, the accumulated `start + h` of the separator is the exact grid point `A + k*h`. The model also cannot capture bisection stalling below one ulp.
- Convergence rates, basins of attraction and residual bounds for the concrete function are not modelled: the code neither states nor checks them.
- Bisection.Bisect: requires `eps > 0`. With `eps <= 0`, the loop on exact reals may never end.
- Newton.NewtonMethod: requires `dfEps > 0`, so the model excludes every run with `df_eps <= 0`. In the source such a run completes unless a step it reaches has `df(x0) == 0` exactly; then it raises `ZeroDivisionError`. The same holds for Newton.ModifiedNewtonMethod, and for Secant.SecantMethod and Secant.SecantMethodAsWritten, where the division fails when `f(x1) == f(x0)`.
- Newton.NewtonMethod: `max_iter` is a `nat`, so the model does not take a negative `max_iter`. In the source such a budget runs no step, as 0 does. The same holds for Newton.ModifiedNewtonMethod, Secant.SecantMethod and Secant.SecantMethodAsWritten. The secant's max-iterations report then prints the negative budget itself, which a `nat` step count cannot carry.
- Separation.SeparateRoots: requires `N != 0`. For `N = 0`, the source raises `ZeroDivisionError` computing `h`.
- The specification functions `Newton.Step` and `Secant.SecantStep` return the current point where the derivative or the denominator is zero. The loops never reach such a point, because the guard is checked first.

## Findings

| source | as written | input that shows it | evidently intended | confidence | as-written member | corrected member |
|---|---|---|---|---|---|---|
| first-task.py:156-161 | When the step budget runs out, the loop has already shifted `x0, x1 = x1, x2`. So the reported "last modified" value `abs(x2 - x1)` is always 0. | `f(x) = x + 1` on `[0, 5]` with `max_iter = 1`: the one step moves from 5 to -1, yet the source reports a last change of 0. | Report the change made by the last step, here 6. | not executed | Secant.SecantMethodAsWritten, Secant.LastChangeLost | Secant.SecantMethod |

/** The secant refiner: from x_0 = A and x_1 = B, replace the older point by
    x_2 = x_1 - f(x_1)/(f(x_1) - f(x_0)) * (x_1 - x_0) until a step changes
    the newer point by less than eps, the step budget is spent, or the
    difference of the two values falls below a floor. */
module Secant {
  import opened Outcomes

  /** The secant through (x0, f0) and (x1, f1) meets the axis here. */
  function Update(x0: real, x1: real, f0: real, f1: real): real
    requires f1 - f0 != 0.0
  {
    x1 - f1 / (f1 - f0) * (x1 - x0)
  }

  /** One secant step from (x0, x1). The refiner only takes it after
      checking |f(x1) - f(x0)| >= dfEps > 0; with equal values the result
      is x1. */
  function SecantStep(f: real -> real, x0: real, x1: real): real
  {
    if f(x1) - f(x0) == 0.0 then x1 else Update(x0, x1, f(x0), f(x1))
  }

  /** The pair (x_k, x_(k+1)) of the secant sequence from (A, B). */
  function Points(f: real -> real, A: real, B: real, k: nat): (real, real)
  {
    if k == 0 then (A, B)
    else
      var p := Points(f, A, B, k - 1);
      (p.1, SecantStep(f, p.0, p.1))
  }

  /** |f(x_i) - f(x_(i-1))|, the denominator guarded on step i >= 1. */
  function Gap(f: real -> real, A: real, B: real, i: nat): real
    requires i >= 1
  {
    var p := Points(f, A, B, i - 1);
    Abs(f(p.1) - f(p.0))
  }

  /** |x_(i+1) - x_i|, the change made by step i. */
  function Change(f: real -> real, A: real, B: real, i: nat): real
  {
    var p := Points(f, A, B, i);
    Abs(p.1 - p.0)
  }

  /** Steps 1..n all passed the guard |f(x_1) - f(x_0)| >= dfEps. */
  predicate Guarded(f: real -> real, A: real, B: real, dfEps: real, n: nat)
  {
    n == 0 || (Guarded(f, A, B, dfEps, n - 1) && Gap(f, A, B, n) >= dfEps)
  }

  /** Steps 1..n all changed the newer point by at least eps. */
  predicate Moving(f: real -> real, A: real, B: real, eps: real, n: nat)
  {
    n == 0 || (Moving(f, A, B, eps, n - 1) && Change(f, A, B, n) >= eps)
  }

  lemma {:induction false} GuardedAt(f: real -> real, A: real, B: real, dfEps: real, n: nat, k: nat)
    requires Guarded(f, A, B, dfEps, n) && 1 <= k <= n
    ensures Gap(f, A, B, k) >= dfEps
  {
    if k < n {
      GuardedAt(f, A, B, dfEps, n - 1, k);
    }
  }

  lemma {:induction false} MovingAt(f: real -> real, A: real, B: real, eps: real, n: nat, k: nat)
    requires Moving(f, A, B, eps, n) && 1 <= k <= n
    ensures Change(f, A, B, k) >= eps
  {
    if k < n {
      MovingAt(f, A, B, eps, n - 1, k);
    }
  }

  /** The outcome the secant refiner should report, from the sequence alone:
      - Converged on step n (1 <= n <= maxIter): steps 1..n guarded, steps
        before n moving by at least eps, x_(n+1) reported with its change
        |x_(n+1) - x_n| < eps;
      - MaxIterationsReached: all maxIter steps guarded and moving, with the
        last point and its change; with no step at all the refiner reports
        its initial x_2 = 0 and |0 - B|;
      - DegenerateSecant: some step i, reached with every earlier step
        guarded and moving, found |f(x_i) - f(x_(i-1))| < dfEps. */
  predicate IsSecantOutcome(f: real -> real, A: real, B: real, eps: real, maxIter: nat,
                            dfEps: real, o: Outcome)
  {
    match o
    case Converged(e) =>
      && 1 <= e.steps <= maxIter
      && Guarded(f, A, B, dfEps, e.steps) && Moving(f, A, B, eps, e.steps - 1)
      && e.value == Points(f, A, B, e.steps).1
      && e.lastStep == Change(f, A, B, e.steps) && e.lastStep < eps
    case MaxIterationsReached(e) =>
      && e.steps == maxIter
      && Guarded(f, A, B, dfEps, maxIter) && Moving(f, A, B, eps, maxIter)
      && e.value == (if maxIter == 0 then 0.0 else Points(f, A, B, maxIter).1)
      && e.lastStep == (if maxIter == 0 then Abs(0.0 - B) else Change(f, A, B, maxIter))
    case DegenerateSecant(magnitude) =>
      exists i :: 1 <= i <= maxIter && Guarded(f, A, B, dfEps, i - 1) && Moving(f, A, B, eps, i - 1)
                  && magnitude == Gap(f, A, B, i) && magnitude < dfEps
    case _ => false
  }

  /** The refiner's loop from iteration i with points (x0, x1), current x2 and
      last recorded change, as a recursive function. */
  function Run(f: real -> real, eps: real, maxIter: nat, dfEps: real,
               x0: real, x1: real, x2: real, last: real, i: nat): Outcome
    requires dfEps > 0.0
    decreases maxIter + 1 - i
  {
    if i > maxIter then MaxIterationsReached(Estimate(x2, maxIter, last))
    else
      var f0, f1 := f(x0), f(x1);
      if Abs(f1 - f0) < dfEps then DegenerateSecant(Abs(f1 - f0))
      else
        var next := Update(x0, x1, f0, f1);
        if Abs(next - x1) < eps then Converged(Estimate(next, i, Abs(next - x1)))
        else Run(f, eps, maxIter, dfEps, x1, next, next, Abs(next - x1), i + 1)
  }

  /** One pass of the loop body: a guarded step that moves by at least eps
      leaves the run's outcome unchanged. */
  lemma RunStep(f: real -> real, eps: real, maxIter: nat, dfEps: real,
                x0: real, x1: real, x2: real, last: real, i: nat)
    requires dfEps > 0.0 && i <= maxIter && Abs(f(x1) - f(x0)) >= dfEps
    requires Abs(Update(x0, x1, f(x0), f(x1)) - x1) >= eps
    ensures var next := Update(x0, x1, f(x0), f(x1));
            Run(f, eps, maxIter, dfEps, x0, x1, x2, last, i)
            == Run(f, eps, maxIter, dfEps, x1, next, next, Abs(next - x1), i + 1)
  {
  }

  /** A guarded step i that moves by at least eps extends a guarded,
      moving run of i - 1 steps to one of i steps ending at (x1, next). */
  lemma StepExtends(f: real -> real, A: real, B: real, eps: real, dfEps: real,
                    x0: real, x1: real, i: nat)
    requires i >= 1 && (x0, x1) == Points(f, A, B, i - 1)
    requires Guarded(f, A, B, dfEps, i - 1) && Moving(f, A, B, eps, i - 1)
    requires dfEps > 0.0 && Abs(f(x1) - f(x0)) >= dfEps
    requires Abs(Update(x0, x1, f(x0), f(x1)) - x1) >= eps
    ensures Points(f, A, B, i) == (x1, Update(x0, x1, f(x0), f(x1)))
    ensures Guarded(f, A, B, dfEps, i) && Moving(f, A, B, eps, i)
  {
  }

  /** From iteration i >= 1, reached with steps 1..i-1 guarded and moving,
      the loop reports what IsSecantOutcome describes. */
  lemma {:induction false} RunMeetsSpec(f: real -> real, A: real, B: real, eps: real,
                                        maxIter: nat, dfEps: real,
                                        x0: real, x1: real, x2: real, last: real, i: nat)
    requires dfEps > 0.0 && 1 <= i <= maxIter + 1
    requires (x0, x1) == Points(f, A, B, i - 1)
    requires Guarded(f, A, B, dfEps, i - 1) && Moving(f, A, B, eps, i - 1)
    requires i == 1 ==> x2 == 0.0 && last == Abs(0.0 - B)
    requires i > 1 ==> x2 == x1 && last == Change(f, A, B, i - 1)
    ensures IsSecantOutcome(f, A, B, eps, maxIter, dfEps, Run(f, eps, maxIter, dfEps, x0, x1, x2, last, i))
    decreases maxIter + 1 - i
  {
    if i <= maxIter {
      var f0, f1 := f(x0), f(x1);
      assert Gap(f, A, B, i) == Abs(f1 - f0);
      if Abs(f1 - f0) >= dfEps {
        var next := Update(x0, x1, f0, f1);
        assert Points(f, A, B, i) == (x1, next);
        if Abs(next - x1) >= eps {
          StepExtends(f, A, B, eps, dfEps, x0, x1, i);
          RunMeetsSpec(f, A, B, eps, maxIter, dfEps, x1, next, next, Abs(next - x1), i + 1);
        }
      }
    }
  }

  /** secant_method on [A, B], reporting on budget exhaustion the change made
      by the last step (see SecantMethodAsWritten for what the source reports
      there). No division by zero, and the outcome is the one
      IsSecantOutcome describes. */
  method SecantMethod(f: real -> real, A: real, B: real, eps: real, maxIter: nat, dfEps: real)
    returns (outcome: Outcome)
    requires dfEps > 0.0
    ensures outcome == Run(f, eps, maxIter, dfEps, A, B, 0.0, Abs(0.0 - B), 1)
    ensures IsSecantOutcome(f, A, B, eps, maxIter, dfEps, outcome)
    // an exhausted budget reports a last change that kept the loop going
    ensures outcome.MaxIterationsReached? && maxIter >= 1 ==> outcome.est.lastStep >= eps
  {
    var x0, x1 := A, B;
    var x2 := 0.0;
    var last := Abs(x2 - x1);
    var count := 0;
    for i := 1 to maxIter + 1
      invariant count == 0
      invariant Run(f, eps, maxIter, dfEps, x0, x1, x2, last, i)
                == Run(f, eps, maxIter, dfEps, A, B, 0.0, Abs(0.0 - B), 1)
    {
      ghost var old_x2, old_last := x2, last;
      var f0, f1 := f(x0), f(x1);
      if Abs(f1 - f0) < dfEps {
        outcome := DegenerateSecant(Abs(f1 - f0));
        assert outcome == Run(f, eps, maxIter, dfEps, A, B, 0.0, Abs(0.0 - B), 1);
        RunMeetsSpec(f, A, B, eps, maxIter, dfEps, A, B, 0.0, Abs(0.0 - B), 1);
        return;
      }
      x2 := Update(x0, x1, f0, f1);
      if Abs(x2 - x1) < eps {
        count := i;
        break;
      }
      assert Run(f, eps, maxIter, dfEps, x0, x1, old_x2, old_last, i)
             == Run(f, eps, maxIter, dfEps, x1, x2, x2, Abs(x2 - x1), i + 1) by {
        RunStep(f, eps, maxIter, dfEps, x0, x1, old_x2, old_last, i);
      }
      last := Abs(x2 - x1);
      x0, x1 := x1, x2;
    }
    if count == 0 {
      outcome := MaxIterationsReached(Estimate(x2, maxIter, last));
    } else {
      outcome := Converged(Estimate(x2, count, Abs(x2 - x1)));
    }
    assert outcome == Run(f, eps, maxIter, dfEps, A, B, 0.0, Abs(0.0 - B), 1);
    RunMeetsSpec(f, A, B, eps, maxIter, dfEps, A, B, 0.0, Abs(0.0 - B), 1);
  }

  /** What the source reports instead of o: once a step has been taken, the
      points have been shifted (x_0, x_1 := x_1, x_2) before the report, so
      an exhausted budget prints |x_2 - x_1| = 0 as the last change. */
  function ReportedAsWritten(o: Outcome, maxIter: nat): Outcome
  {
    match o
    case MaxIterationsReached(e) =>
      if maxIter == 0 then o else MaxIterationsReached(e.(lastStep := 0.0))
    case _ => o
  }

  /** secant_method exactly as written: on an exhausted budget it reports
      |x_2 - x_1| after the shift. */
  method SecantMethodAsWritten(f: real -> real, A: real, B: real, eps: real, maxIter: nat,
                               dfEps: real) returns (outcome: Outcome)
    requires dfEps > 0.0
    ensures outcome == ReportedAsWritten(Run(f, eps, maxIter, dfEps, A, B, 0.0, Abs(0.0 - B), 1), maxIter)
    ensures outcome.MaxIterationsReached? && maxIter >= 1 ==> outcome.est.lastStep == 0.0
  {
    var x0, x1 := A, B;
    var x2 := 0.0;
    ghost var last := Abs(x2 - x1);
    var count := 0;
    for i := 1 to maxIter + 1
      invariant count == 0
      invariant i == 1 ==> x2 == 0.0 && x1 == B && last == Abs(0.0 - B)
      invariant i > 1 ==> x2 == x1
      invariant Run(f, eps, maxIter, dfEps, x0, x1, x2, last, i)
                == Run(f, eps, maxIter, dfEps, A, B, 0.0, Abs(0.0 - B), 1)
    {
      ghost var old_x2, old_last := x2, last;
      var f0, f1 := f(x0), f(x1);
      if Abs(f1 - f0) < dfEps {
        outcome := DegenerateSecant(Abs(f1 - f0));
        return;
      }
      x2 := Update(x0, x1, f0, f1);
      if Abs(x2 - x1) < eps {
        count := i;
        break;
      }
      assert Run(f, eps, maxIter, dfEps, x0, x1, old_x2, old_last, i)
             == Run(f, eps, maxIter, dfEps, x1, x2, x2, Abs(x2 - x1), i + 1) by {
        RunStep(f, eps, maxIter, dfEps, x0, x1, old_x2, old_last, i);
      }
      last := Abs(x2 - x1);
      x0, x1 := x1, x2;
    }
    if count == 0 {
      outcome := MaxIterationsReached(Estimate(x2, maxIter, Abs(x2 - x1)));
    } else {
      outcome := Converged(Estimate(x2, count, Abs(x2 - x1)));
    }
  }

  /** The discrepancy on one input: for f(x) = x + 1 on [0, 5] with one
      step allowed, the step lands on the root -1 after moving by 6, yet the
      source reports a last change of 0. */
  lemma LastChangeLost()
    ensures var f := (x: real) => x + 1.0;
            var o := Run(f, 0.00001, 1, 0.000000000000001, 0.0, 5.0, 0.0, Abs(0.0 - 5.0), 1);
            && o == MaxIterationsReached(Estimate(-1.0, 1, 6.0))
            && ReportedAsWritten(o, 1) == MaxIterationsReached(Estimate(-1.0, 1, 0.0))
  {
    var f := (x: real) => x + 1.0;
    assert Update(0.0, 5.0, f(0.0), f(5.0)) == -1.0;
  }

  /** Outcome o stopped the loop at step n (maxIter + 1 for an exhausted
      budget), reached with steps 1..n-1 guarded and moving, for the reason
      its tag names. */
  predicate StopsAt(f: real -> real, A: real, B: real, eps: real, maxIter: nat, dfEps: real,
                    o: Outcome, n: nat)
  {
    && (o.Converged? || o.MaxIterationsReached? || o.DegenerateSecant?)
    && 1 <= n <= maxIter + 1
    && Guarded(f, A, B, dfEps, n - 1) && Moving(f, A, B, eps, n - 1)
    && (o.MaxIterationsReached? <==> n == maxIter + 1)
    && (o.Converged? ==> n == o.est.steps && Gap(f, A, B, n) >= dfEps && Change(f, A, B, n) < eps)
    && (o.DegenerateSecant? ==> o.magnitude == Gap(f, A, B, n) && o.magnitude < dfEps)
  }

  /** Every outcome fitting IsSecantOutcome stops at some step. */
  lemma StopPoint(f: real -> real, A: real, B: real, eps: real, maxIter: nat, dfEps: real,
                  o: Outcome) returns (n: nat)
    requires IsSecantOutcome(f, A, B, eps, maxIter, dfEps, o)
    ensures StopsAt(f, A, B, eps, maxIter, dfEps, o, n)
  {
    match o
    case Converged(e) =>
      n := e.steps;
    case MaxIterationsReached(_) =>
      n := maxIter + 1;
    case DegenerateSecant(magnitude) =>
      n :| 1 <= n <= maxIter && Guarded(f, A, B, dfEps, n - 1) && Moving(f, A, B, eps, n - 1)
           && magnitude == Gap(f, A, B, n) && magnitude < dfEps;
  }

  /** An outcome that stops at step n1 rules out any run reaching a later
      step n2 with its earlier steps guarded and moving. */
  lemma NoLaterStop(f: real -> real, A: real, B: real, eps: real, maxIter: nat, dfEps: real,
                    o: Outcome, n1: nat, n2: nat)
    requires StopsAt(f, A, B, eps, maxIter, dfEps, o, n1) && n1 < n2 <= maxIter + 1
    ensures !(Guarded(f, A, B, dfEps, n2 - 1) && Moving(f, A, B, eps, n2 - 1))
  {
    if Guarded(f, A, B, dfEps, n2 - 1) && Moving(f, A, B, eps, n2 - 1) {
      if o.Converged? {
        MovingAt(f, A, B, eps, n2 - 1, n1);
      } else {
        GuardedAt(f, A, B, dfEps, n2 - 1, n1);
      }
    }
  }

  /** Two outcomes fitting IsSecantOutcome that stop at the same step are
      the same. */
  lemma SameStopSameOutcome(f: real -> real, A: real, B: real, eps: real, maxIter: nat,
                            dfEps: real, o1: Outcome, o2: Outcome, n: nat)
    requires IsSecantOutcome(f, A, B, eps, maxIter, dfEps, o1)
    requires IsSecantOutcome(f, A, B, eps, maxIter, dfEps, o2)
    requires StopsAt(f, A, B, eps, maxIter, dfEps, o1, n)
    requires StopsAt(f, A, B, eps, maxIter, dfEps, o2, n)
    ensures o1 == o2
  {
  }

  /** The secant sequence determines the outcome: two outcomes that both fit
      IsSecantOutcome are the same. */
  lemma SecantOutcomeUnique(f: real -> real, A: real, B: real, eps: real, maxIter: nat,
                            dfEps: real, o1: Outcome, o2: Outcome)
    requires IsSecantOutcome(f, A, B, eps, maxIter, dfEps, o1)
    requires IsSecantOutcome(f, A, B, eps, maxIter, dfEps, o2)
    ensures o1 == o2
  {
    var n1 := StopPoint(f, A, B, eps, maxIter, dfEps, o1);
    var n2 := StopPoint(f, A, B, eps, maxIter, dfEps, o2);
    StopsAgree(f, A, B, eps, maxIter, dfEps, o1, o2, n1, n2);
    SameStopSameOutcome(f, A, B, eps, maxIter, dfEps, o1, o2, n1);
  }

  /** Two runs of the loop stop at the same step. */
  lemma StopsAgree(f: real -> real, A: real, B: real, eps: real, maxIter: nat, dfEps: real,
                   o1: Outcome, o2: Outcome, n1: nat, n2: nat)
    requires StopsAt(f, A, B, eps, maxIter, dfEps, o1, n1)
    requires StopsAt(f, A, B, eps, maxIter, dfEps, o2, n2)
    ensures n1 == n2
  {
    if n1 < n2 {
      NoLaterStop(f, A, B, eps, maxIter, dfEps, o1, n1, n2);
    } else if n2 < n1 {
      NoLaterStop(f, A, B, eps, maxIter, dfEps, o2, n2, n1);
    }
  }

  /** DegenerateSecant is reported exactly when some step the loop can
      reach (every earlier step moving by at least eps) finds
      |f(x_i) - f(x_(i-1))| < dfEps. */
  lemma DegenerateSecantExactly(f: real -> real, A: real, B: real, eps: real, maxIter: nat,
                                dfEps: real, o: Outcome)
    requires IsSecantOutcome(f, A, B, eps, maxIter, dfEps, o)
    ensures o.DegenerateSecant? <==>
              exists i :: 1 <= i <= maxIter && Moving(f, A, B, eps, i - 1) && Gap(f, A, B, i) < dfEps
  {
    var n := StopPoint(f, A, B, eps, maxIter, dfEps, o);
    if o.DegenerateSecant? {
      assert 1 <= n <= maxIter && Moving(f, A, B, eps, n - 1) && Gap(f, A, B, n) < dfEps;
    } else {
      forall i | 1 <= i <= maxIter && Moving(f, A, B, eps, i - 1)
        ensures Gap(f, A, B, i) >= dfEps
      {
        if n < i {
          MovingAt(f, A, B, eps, i - 1, n);
        } else if i < n {
          GuardedAt(f, A, B, dfEps, n - 1, i);
        }
      }
    }
  }

  /** A bracket with equal ends gives f(x_1) - f(x_0) = 0 on the first
      step, so the refiner reports a degenerate secant with magnitude 0. */
  lemma EqualEndsDegenerate(f: real -> real, A: real, eps: real, maxIter: nat, dfEps: real,
                            o: Outcome)
    requires dfEps > 0.0 && maxIter >= 1
    requires IsSecantOutcome(f, A, A, eps, maxIter, dfEps, o)
    ensures o == DegenerateSecant(0.0)
  {
    var n := StopPoint(f, A, A, eps, maxIter, dfEps, o);
    assert Gap(f, A, A, 1) == 0.0;
    if n > 1 {
      GuardedAt(f, A, A, dfEps, n - 1, 1);
    }
  }
}

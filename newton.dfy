/** The Newton refiner and its multiplicity-adjusted variant. Both start at
    the midpoint of the bracket and iterate x := x - m*f(x)/f'(x) (m = 1 for
    plain Newton), stopping when a step changes x by at most eps, when the
    step budget is spent, or when |f'(x)| falls below a floor. */
module Newton {
  import opened Outcomes

  /** The starting point x_0 = (A + B) / 2 of both refiners. */
  function Midpoint(A: real, B: real): real
  {
    (A + B) / 2.0
  }

  /** The update x - m*fx/dfx. */
  function Update(m: int, x: real, fx: real, dfx: real): real
    requires dfx != 0.0
  {
    x - (m as real) * fx / dfx
  }

  /** With m = 1 the update is the plain Newton update x - f(x)/f'(x). */
  lemma UpdateWithOne(x: real, fx: real, dfx: real)
    requires dfx != 0.0
    ensures Update(1, x, fx, dfx) == x - fx / dfx
  {
  }

  /** One step from x. The refiners take it only after checking
      |f'(x)| >= dfEps > 0; where f'(x) = 0 the value is x itself. */
  function Step(f: real -> real, df: real -> real, m: int, x: real): real
  {
    if df(x) == 0.0 then x else Update(m, x, f(x), df(x))
  }

  /** The k-th iterate from x0. */
  function Iterate(f: real -> real, df: real -> real, m: int, x0: real, k: nat): real
  {
    if k == 0 then x0 else Step(f, df, m, Iterate(f, df, m, x0, k - 1))
  }

  /** |x_k - x_(k-1)|, the change after k steps (0 before the first). */
  function Change(f: real -> real, df: real -> real, m: int, x0: real, k: nat): real
  {
    if k == 0 then 0.0 else Abs(Iterate(f, df, m, x0, k) - Iterate(f, df, m, x0, k - 1))
  }

  /** The derivative guard passed on steps 1..n: |f'(x_k)| >= dfEps for
      every k < n. */
  predicate Guarded(f: real -> real, df: real -> real, m: int, x0: real, dfEps: real, n: nat)
  {
    n == 0 || (Guarded(f, df, m, x0, dfEps, n - 1) && Abs(df(Iterate(f, df, m, x0, n - 1))) >= dfEps)
  }

  /** Steps 1..n-1 each changed x by more than eps, so the loop went on. */
  predicate Moving(f: real -> real, df: real -> real, m: int, x0: real, eps: real, n: nat)
  {
    n <= 1 || (Moving(f, df, m, x0, eps, n - 1) && Change(f, df, m, x0, n - 1) > eps)
  }

  /** A guarded run passed the guard on each of its steps. */
  lemma {:induction false} GuardedAt(f: real -> real, df: real -> real, m: int, x0: real,
                                     dfEps: real, n: nat, k: nat)
    requires Guarded(f, df, m, x0, dfEps, n) && k < n
    ensures Abs(df(Iterate(f, df, m, x0, k))) >= dfEps
  {
    if k < n - 1 {
      GuardedAt(f, df, m, x0, dfEps, n - 1, k);
    }
  }

  /** A moving run changed x by more than eps on each step before its last. */
  lemma {:induction false} MovingAt(f: real -> real, df: real -> real, m: int, x0: real,
                                    eps: real, n: nat, k: nat)
    requires Moving(f, df, m, x0, eps, n) && 1 <= k < n
    ensures Change(f, df, m, x0, k) > eps
  {
    if k < n - 1 {
      MovingAt(f, df, m, x0, eps, n - 1, k);
    }
  }

  /** The outcome a Newton refiner reports, stated from the iterates alone:
      - Converged after n steps: at least one step when the budget allows
        one, no more than the budget, every step guarded, every step before
        the last still moving x by more than eps, and the last change at
        most eps;
      - MaxIterationsReached: all maxIter steps taken and guarded, and the
        last change still above eps;
      - DerivativeTooSmall on step s: the loop reached step s and its guard
        found |f'(x_(s-1))| < dfEps, all earlier guards having passed. */
  predicate IsNewtonOutcome(f: real -> real, df: real -> real, m: int, x0: real,
                            eps: real, maxIter: nat, dfEps: real, o: Outcome)
  {
    match o
    case Converged(e) =>
      && e.steps <= maxIter && (maxIter >= 1 ==> e.steps >= 1)
      && Guarded(f, df, m, x0, dfEps, e.steps) && Moving(f, df, m, x0, eps, e.steps)
      && e.value == Iterate(f, df, m, x0, e.steps)
      && e.lastStep == Change(f, df, m, x0, e.steps) && e.lastStep <= eps
    case MaxIterationsReached(e) =>
      && e.steps == maxIter
      && Guarded(f, df, m, x0, dfEps, maxIter) && Moving(f, df, m, x0, eps, maxIter)
      && e.value == Iterate(f, df, m, x0, maxIter)
      && e.lastStep == Change(f, df, m, x0, maxIter) && e.lastStep > eps
    case DerivativeTooSmall(s, magnitude) =>
      && 1 <= s <= maxIter
      && Guarded(f, df, m, x0, dfEps, s - 1) && Moving(f, df, m, x0, eps, s)
      && magnitude == Abs(df(Iterate(f, df, m, x0, s - 1))) && magnitude < dfEps
    case _ => false
  }

  /** The loop of both refiners from the state (x, x0, count), as a
      recursive function: test the loop condition, then the derivative
      guard, then take one step. */
  function Run(f: real -> real, df: real -> real, m: int, eps: real, maxIter: nat, dfEps: real,
               x: real, x0: real, count: nat): Outcome
    requires dfEps > 0.0
    decreases maxIter - count
  {
    if (Abs(x - x0) > eps || count == 0) && count < maxIter then
      var d := df(x);
      if Abs(d) < dfEps then DerivativeTooSmall(count + 1, Abs(d))
      else Run(f, df, m, eps, maxIter, dfEps, Update(m, x, f(x), d), x, count + 1)
    else if Abs(x - x0) > eps then MaxIterationsReached(Estimate(x, count, Abs(x - x0)))
    else Converged(Estimate(x, count, Abs(x - x0)))
  }

  /** One pass of the loop body: a guarded step leaves the run's outcome
      unchanged. */
  lemma RunStep(f: real -> real, df: real -> real, m: int, eps: real, maxIter: nat, dfEps: real,
                x: real, x0: real, count: nat)
    requires dfEps > 0.0
    requires (Abs(x - x0) > eps || count == 0) && count < maxIter && Abs(df(x)) >= dfEps
    ensures Run(f, df, m, eps, maxIter, dfEps, x, x0, count)
            == Run(f, df, m, eps, maxIter, dfEps, Update(m, x, f(x), df(x)), x, count + 1)
  {
  }

  /** A guarded step extends a guarded run of `count` steps to count + 1. */
  lemma StepExtends(f: real -> real, df: real -> real, m: int, start: real, eps: real, dfEps: real,
                    x: real, x0: real, count: nat)
    requires x == Iterate(f, df, m, start, count)
    requires x0 == Iterate(f, df, m, start, if count == 0 then 0 else count - 1)
    requires Guarded(f, df, m, start, dfEps, count) && Moving(f, df, m, start, eps, count)
    requires dfEps > 0.0 && Abs(df(x)) >= dfEps && (Abs(x - x0) > eps || count == 0)
    ensures Update(m, x, f(x), df(x)) == Iterate(f, df, m, start, count + 1)
    ensures Guarded(f, df, m, start, dfEps, count + 1) && Moving(f, df, m, start, eps, count + 1)
  {
    assert Abs(x - x0) == Change(f, df, m, start, count);
  }

  /** From any state reached after `count` guarded steps, each but the
      last moving x by more than eps, the loop reports what IsNewtonOutcome
      describes. */
  lemma {:induction false} RunMeetsSpec(f: real -> real, df: real -> real, m: int, start: real,
                                        eps: real, maxIter: nat, dfEps: real,
                                        x: real, x0: real, count: nat)
    requires dfEps > 0.0 && count <= maxIter
    requires x == Iterate(f, df, m, start, count)
    requires x0 == Iterate(f, df, m, start, if count == 0 then 0 else count - 1)
    requires Guarded(f, df, m, start, dfEps, count) && Moving(f, df, m, start, eps, count)
    ensures IsNewtonOutcome(f, df, m, start, eps, maxIter, dfEps,
                            Run(f, df, m, eps, maxIter, dfEps, x, x0, count))
    decreases maxIter - count
  {
    assert Abs(x - x0) == Change(f, df, m, start, count);
    if (Abs(x - x0) > eps || count == 0) && count < maxIter {
      var d := df(x);
      if Abs(d) >= dfEps {
        var x' := Update(m, x, f(x), d);
        StepExtends(f, df, m, start, eps, dfEps, x, x0, count);
        RunMeetsSpec(f, df, m, start, eps, maxIter, dfEps, x', x, count + 1);
      }
    }
  }

  /** newton_method on [A, B]: no division by zero, and the outcome is the
      one IsNewtonOutcome describes for m = 1. */
  method NewtonMethod(f: real -> real, df: real -> real, A: real, B: real,
                      eps: real, maxIter: nat, dfEps: real) returns (outcome: Outcome)
    requires dfEps > 0.0
    ensures outcome == Run(f, df, 1, eps, maxIter, dfEps, Midpoint(A, B), Midpoint(A, B), 0)
    ensures IsNewtonOutcome(f, df, 1, Midpoint(A, B), eps, maxIter, dfEps, outcome)
  {
    ghost var start := Midpoint(A, B);
    var x := Midpoint(A, B);
    var x0 := x;
    var count: nat := 0;
    while (Abs(x - x0) > eps || count == 0) && count < maxIter
      invariant count <= maxIter
      invariant Run(f, df, 1, eps, maxIter, dfEps, x, x0, count)
                == Run(f, df, 1, eps, maxIter, dfEps, start, start, 0)
    {
      ghost var old_x0 := x0;
      count := count + 1;
      x0 := x;
      var dfX0 := df(x0);
      if Abs(dfX0) < dfEps {
        outcome := DerivativeTooSmall(count, Abs(dfX0));
        assert outcome == Run(f, df, 1, eps, maxIter, dfEps, start, start, 0);
        RunMeetsSpec(f, df, 1, Midpoint(A, B), eps, maxIter, dfEps, Midpoint(A, B), Midpoint(A, B), 0);
        return;
      }
      RunStep(f, df, 1, eps, maxIter, dfEps, x0, old_x0, count - 1);
      UpdateWithOne(x0, f(x0), dfX0);
      x := x0 - f(x0) / dfX0;
    }
    if Abs(x - x0) > eps {
      outcome := MaxIterationsReached(Estimate(x, count, Abs(x - x0)));
    } else {
      outcome := Converged(Estimate(x, count, Abs(x - x0)));
    }
    assert outcome == Run(f, df, 1, eps, maxIter, dfEps, start, start, 0);
    RunMeetsSpec(f, df, 1, Midpoint(A, B), eps, maxIter, dfEps, Midpoint(A, B), Midpoint(A, B), 0);
  }

  /** modified_newton_method on [A, B] with multiplicity m: no division by
      zero, and the outcome is the one IsNewtonOutcome describes for m. */
  method ModifiedNewtonMethod(f: real -> real, df: real -> real, A: real, B: real,
                              eps: real, maxIter: nat, dfEps: real, m: int)
    returns (outcome: Outcome)
    requires dfEps > 0.0
    ensures outcome == Run(f, df, m, eps, maxIter, dfEps, Midpoint(A, B), Midpoint(A, B), 0)
    ensures IsNewtonOutcome(f, df, m, Midpoint(A, B), eps, maxIter, dfEps, outcome)
  {
    ghost var start := Midpoint(A, B);
    var x := Midpoint(A, B);
    var x0 := x;
    var count: nat := 0;
    while (Abs(x - x0) > eps || count == 0) && count < maxIter
      invariant count <= maxIter
      invariant Run(f, df, m, eps, maxIter, dfEps, x, x0, count)
                == Run(f, df, m, eps, maxIter, dfEps, start, start, 0)
    {
      ghost var old_x0 := x0;
      count := count + 1;
      x0 := x;
      var dfX0 := df(x0);
      if Abs(dfX0) < dfEps {
        outcome := DerivativeTooSmall(count, Abs(dfX0));
        assert outcome == Run(f, df, m, eps, maxIter, dfEps, start, start, 0);
        RunMeetsSpec(f, df, m, Midpoint(A, B), eps, maxIter, dfEps, Midpoint(A, B), Midpoint(A, B), 0);
        return;
      }
      RunStep(f, df, m, eps, maxIter, dfEps, x0, old_x0, count - 1);
      x := x0 - (m as real) * f(x0) / dfX0;
    }
    if Abs(x - x0) > eps {
      outcome := MaxIterationsReached(Estimate(x, count, Abs(x - x0)));
    } else {
      outcome := Converged(Estimate(x, count, Abs(x - x0)));
    }
    assert outcome == Run(f, df, m, eps, maxIter, dfEps, start, start, 0);
    RunMeetsSpec(f, df, m, Midpoint(A, B), eps, maxIter, dfEps, Midpoint(A, B), Midpoint(A, B), 0);
  }

  /** The step on which a reported outcome stopped the loop. */
  function StopStep(o: Outcome): nat
  {
    match o
    case Converged(e) => e.steps
    case MaxIterationsReached(e) => e.steps
    case DerivativeTooSmall(s, _) => s
    case _ => 0
  }

  /** No outcome fitting IsNewtonOutcome stops later than another that
      fits it: the earlier one's last step either failed the guard or moved
      x by at most eps, where the later one needs a guard that held and a
      change above eps. */
  lemma StopsNoLater(f: real -> real, df: real -> real, m: int, x0: real,
                     eps: real, maxIter: nat, dfEps: real, o1: Outcome, o2: Outcome)
    requires IsNewtonOutcome(f, df, m, x0, eps, maxIter, dfEps, o1)
    requires IsNewtonOutcome(f, df, m, x0, eps, maxIter, dfEps, o2)
    ensures StopStep(o1) <= StopStep(o2)
  {
    var n1, n2 := StopStep(o1), StopStep(o2);
    if n2 < n1 {
      if o2.DerivativeTooSmall? {
        GuardedAt(f, df, m, x0, dfEps, if o1.DerivativeTooSmall? then n1 - 1 else n1, n2 - 1);
      } else {
        MovingAt(f, df, m, x0, eps, n1, n2);
      }
    }
  }

  /** The iterates determine the outcome: two outcomes that both fit
      IsNewtonOutcome are the same. In particular modified_newton_method with
      m = 1 reports exactly what newton_method reports. */
  lemma NewtonOutcomeUnique(f: real -> real, df: real -> real, m: int, x0: real,
                            eps: real, maxIter: nat, dfEps: real, o1: Outcome, o2: Outcome)
    requires IsNewtonOutcome(f, df, m, x0, eps, maxIter, dfEps, o1)
    requires IsNewtonOutcome(f, df, m, x0, eps, maxIter, dfEps, o2)
    ensures o1 == o2
  {
    StopsNoLater(f, df, m, x0, eps, maxIter, dfEps, o1, o2);
    StopsNoLater(f, df, m, x0, eps, maxIter, dfEps, o2, o1);
    var n := StopStep(o1);
    if o1.DerivativeTooSmall? != o2.DerivativeTooSmall? {
      GuardedAt(f, df, m, x0, dfEps, n, n - 1);
    }
  }

  /** When the loop ends other than by the guard, every step it could have
      reached passed the guard: such a step s (every step before it moving x
      by more than eps) lies within the run that was reported. */
  lemma GuardHeldThroughout(f: real -> real, df: real -> real, m: int, x0: real,
                            eps: real, maxIter: nat, dfEps: real, o: Outcome, s: nat)
    requires IsNewtonOutcome(f, df, m, x0, eps, maxIter, dfEps, o) && !o.DerivativeTooSmall?
    requires 1 <= s <= maxIter && Moving(f, df, m, x0, eps, s)
    ensures Abs(df(Iterate(f, df, m, x0, s - 1))) >= dfEps
  {
    var n := o.est.steps;
    if n < s {
      MovingAt(f, df, m, x0, eps, s, n);
    } else {
      GuardedAt(f, df, m, x0, dfEps, n, s - 1);
    }
  }

  /** DerivativeTooSmall is reported exactly when some step the loop reaches
      (every earlier step having moved x by more than eps) finds
      |f'(x)| < dfEps. */
  lemma DerivativeTooSmallExactly(f: real -> real, df: real -> real, m: int, x0: real,
                                  eps: real, maxIter: nat, dfEps: real, o: Outcome)
    requires IsNewtonOutcome(f, df, m, x0, eps, maxIter, dfEps, o)
    ensures o.DerivativeTooSmall? <==>
              exists s :: 1 <= s <= maxIter && Moving(f, df, m, x0, eps, s)
                          && Abs(df(Iterate(f, df, m, x0, s - 1))) < dfEps
  {
    if o.DerivativeTooSmall? {
      var s := o.step;
      assert 1 <= s <= maxIter && Moving(f, df, m, x0, eps, s)
             && Abs(df(Iterate(f, df, m, x0, s - 1))) < dfEps;
      assert exists s :: 1 <= s <= maxIter && Moving(f, df, m, x0, eps, s)
                         && Abs(df(Iterate(f, df, m, x0, s - 1))) < dfEps;
    } else {
      forall s | 1 <= s <= maxIter && Moving(f, df, m, x0, eps, s)
        ensures Abs(df(Iterate(f, df, m, x0, s - 1))) >= dfEps
      {
        GuardHeldThroughout(f, df, m, x0, eps, maxIter, dfEps, o, s);
      }
    }
  }
}

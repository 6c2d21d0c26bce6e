/** The bisection refiner: halve a bracket [A, B] until it is no wider than
    eps, keeping the half over which f changes sign. */
module Bisection {
  import opened Outcomes

  /** 2^n as a real. */
  function Pow2(n: nat): (r: real)
    ensures r >= 1.0
  {
    if n == 0 then 1.0 else 2.0 * Pow2(n - 1)
  }

  /** The sign pattern at start, midpoint and end that the refiner rejects
      as a root of even multiplicity: f(start)*f(x) and f(x)*f(end) are both
      negative or both positive. */
  predicate EvenPattern(fStart: real, fX: real, fEnd: real)
  {
    || (fStart * fX < 0.0 && fX * fEnd < 0.0)
    || (fStart * fX > 0.0 && fX * fEnd > 0.0)
  }

  /** Across a strict sign change (f(start)*f(end) < 0) the even-multiplicity
      pattern never occurs, and a midpoint value that is not zero lies on
      exactly one side of the change. */
  lemma SignChangeSplits(fStart: real, fX: real, fEnd: real)
    requires fStart * fEnd < 0.0
    ensures !EvenPattern(fStart, fX, fEnd)
    ensures fX != 0.0 ==> (fStart * fX < 0.0 <==> !(fEnd * fX < 0.0))
  {
  }

  /** The loop's termination measure: twice the width in units of eps. */
  function Measure(w: real, eps: real): real
    requires eps > 0.0
  {
    2.0 * w / eps
  }

  /** A width above eps halves to a width whose measure is at least one
      smaller and still non-negative: the loop's termination argument. */
  lemma HalvingShrinksMeasure(w: real, eps: real)
    requires eps > 0.0 && w > eps
    ensures 0.0 <= Measure(w / 2.0, eps) <= Measure(w, eps) - 1.0
  {
    assert Measure(w / 2.0, eps) == w / eps;
    assert Measure(w, eps) == w / eps + w / eps;
    assert w / eps > 1.0;
  }

  /** How many halvings take a width w to eps or below. */
  function Halvings(w: real, eps: real): nat
    requires eps > 0.0
    decreases Measure(w, eps)
  {
    if w <= eps then 0
    else
      HalvingShrinksMeasure(w, eps);
      1 + Halvings(w / 2.0, eps)
  }

  /** The width w halved n times, w / 2^n. */
  function Halved(w: real, n: nat): real
  {
    if n == 0 then w else Halved(w, n - 1) / 2.0
  }

  /** Halving n times is dividing by 2^n. */
  lemma {:induction false} HalvedIsDivision(w: real, n: nat)
    ensures Halved(w, n) * Pow2(n) == w
  {
    if n > 0 {
      HalvedIsDivision(w, n - 1);
      assert Halved(w, n) * Pow2(n) == (Halved(w, n - 1) / 2.0) * (2.0 * Pow2(n - 1));
    }
  }

  /** The step bound in closed form: when the bracket was still wider than
      eps before step n, 2^(n-1) * eps < B - A, that is
      n <= ceil(log2((B - A) / eps)). */
  lemma StepBound(width: real, eps: real, n: nat)
    requires n >= 1 && Halved(width, n - 1) > eps
    ensures eps * Pow2(n - 1) < width
  {
    HalvedIsDivision(width, n - 1);
    var p := Pow2(n - 1);
    assert (Halved(width, n - 1) - eps) * p > 0.0;
  }

  /** The midpoint of a bracket (start, end). */
  function Mid(p: (real, real)): real
  {
    (p.0 + p.1) / 2.0
  }

  /** The k-th bracket from [A, B] under the refiner's rule: keep the left
      half when f(start)*f(x) < 0, else the right half when f(end)*f(x) < 0,
      else (the refiner stops there) the bracket itself. */
  function Bracket(f: real -> real, A: real, B: real, k: nat): (real, real)
  {
    if k == 0 then (A, B)
    else
      var p := Bracket(f, A, B, k - 1);
      var x := Mid(p);
      if f(p.0) * f(x) < 0.0 then (p.0, x)
      else if f(p.1) * f(x) < 0.0 then (x, p.1)
      else p
  }

  /** The refiner narrows bracket k: it is wider than eps, its midpoint
      shows no even-multiplicity pattern, and one half has a strict sign
      change. */
  predicate Narrows(f: real -> real, A: real, B: real, eps: real, k: nat)
  {
    var p := Bracket(f, A, B, k);
    var x := Mid(p);
    && p.1 - p.0 > eps
    && !EvenPattern(f(p.0), f(x), f(p.1))
    && (f(p.0) * f(x) < 0.0 || f(p.1) * f(x) < 0.0)
  }

  /** Brackets 0..n-1 were all narrowed, so the loop reaches bracket n. */
  predicate Reached(f: real -> real, A: real, B: real, eps: real, n: nat)
  {
    n == 0 || (Reached(f, A, B, eps, n - 1) && Narrows(f, A, B, eps, n - 1))
  }

  /** The refiner stops on bracket n: the first bracket it does not narrow. */
  predicate StopsOn(f: real -> real, A: real, B: real, eps: real, n: nat)
  {
    Reached(f, A, B, eps, n) && !Narrows(f, A, B, eps, n)
  }

  /** Bracket k is wider than eps and shows the even-multiplicity pattern. */
  predicate ShowsEvenPattern(f: real -> real, A: real, B: real, eps: real, k: nat)
  {
    var p := Bracket(f, A, B, k);
    p.1 - p.0 > eps && EvenPattern(f(p.0), f(Mid(p)), f(p.1))
  }

  /** What the refiner reports when it stops on bracket n:
      - a bracket no wider than eps: Converged after n steps, at the last
        midpoint (A when no step was taken), with the bracket's width;
      - the even-multiplicity pattern: EvenMultiplicity;
      - otherwise no half has a strict sign change: Converged after step
        n + 1 at the midpoint, with the width of the bracket kept. */
  function ReportOn(f: real -> real, A: real, B: real, eps: real, n: nat): Outcome
  {
    var p := Bracket(f, A, B, n);
    if p.1 - p.0 <= eps then
      Converged(Estimate(if n == 0 then A else Mid(Bracket(f, A, B, n - 1)), n, p.1 - p.0))
    else if EvenPattern(f(p.0), f(Mid(p)), f(p.1)) then EvenMultiplicity
    else Converged(Estimate(Mid(p), n + 1, p.1 - p.0))
  }

  /** A reached bracket follows only narrowed ones. */
  lemma {:induction false} ReachedNarrowed(f: real -> real, A: real, B: real, eps: real, n: nat, k: nat)
    requires Reached(f, A, B, eps, n) && k < n
    ensures Narrows(f, A, B, eps, k)
  {
    if k < n - 1 {
      ReachedNarrowed(f, A, B, eps, n - 1, k);
    }
  }

  /** The refiner stops on one bracket only, so the bracket sequence
      determines the outcome. */
  lemma StopsOnUnique(f: real -> real, A: real, B: real, eps: real, n1: nat, n2: nat)
    requires StopsOn(f, A, B, eps, n1) && StopsOn(f, A, B, eps, n2)
    ensures n1 == n2
  {
    if n1 < n2 {
      ReachedNarrowed(f, A, B, eps, n2, n1);
    } else if n2 < n1 {
      ReachedNarrowed(f, A, B, eps, n1, n2);
    }
  }

  /** EvenMultiplicity is reported exactly when some bracket the loop
      reaches, every earlier one having been narrowed, is wider than eps
      and shows the even-multiplicity pattern. */
  lemma EvenMultiplicityExactly(f: real -> real, A: real, B: real, eps: real, n: nat)
    requires StopsOn(f, A, B, eps, n)
    ensures ReportOn(f, A, B, eps, n) == EvenMultiplicity <==>
              exists k :: Reached(f, A, B, eps, k) && ShowsEvenPattern(f, A, B, eps, k)
  {
    if ReportOn(f, A, B, eps, n) == EvenMultiplicity {
      assert Reached(f, A, B, eps, n) && ShowsEvenPattern(f, A, B, eps, n);
    } else {
      forall k | Reached(f, A, B, eps, k) && ShowsEvenPattern(f, A, B, eps, k)
        ensures false
      {
        StopsOnUnique(f, A, B, eps, n, k);
      }
    }
  }

  /** Every narrowing halves the bracket: a reached bracket n is the
      initial width divided by 2^n. */
  lemma {:induction false} ReachedHalves(f: real -> real, A: real, B: real, eps: real, n: nat)
    requires Reached(f, A, B, eps, n)
    ensures Bracket(f, A, B, n).1 - Bracket(f, A, B, n).0 == Halved(B - A, n)
  {
    if n > 0 {
      ReachedHalves(f, A, B, eps, n - 1);
    }
  }

  /** The refiner's state (start, end, x) after `count` steps: the bracket
      is the count-th of the sequence, every earlier bracket was narrowed,
      and x is the last midpoint taken (A before the first step). */
  predicate Tracks(f: real -> real, A: real, B: real, eps: real,
                   start: real, end: real, x: real, count: nat)
  {
    && (start, end) == Bracket(f, A, B, count)
    && Reached(f, A, B, eps, count)
    && x == (if count == 0 then A else Mid(Bracket(f, A, B, count - 1)))
  }

  /** The refiner stopped on bracket n = [lo, hi], reporting o. */
  predicate StoppedWith(f: real -> real, A: real, B: real, eps: real,
                        o: Outcome, lo: real, hi: real, n: nat)
  {
    StopsOn(f, A, B, eps, n) && o == ReportOn(f, A, B, eps, n) && (lo, hi) == Bracket(f, A, B, n)
  }

  /** One narrowing step from a tracked state: keep the half with the strict
      sign change, halving the width, and move on to the next bracket. */
  lemma NarrowStep(f: real -> real, A: real, B: real, eps: real,
                   start: real, end: real, x: real, k: nat)
    requires Tracks(f, A, B, eps, start, end, x, k) && end - start > eps
    requires var m := Mid((start, end));
             && !EvenPattern(f(start), f(m), f(end))
             && (f(start) * f(m) < 0.0 || f(end) * f(m) < 0.0)
    ensures var m := Mid((start, end));
            var q := if f(start) * f(m) < 0.0 then (start, m) else (m, end);
            && Tracks(f, A, B, eps, q.0, q.1, m, k + 1)
            && q.1 - q.0 == (end - start) / 2.0
  {
  }

  /** A tracked bracket wider than eps showing the even-multiplicity pattern
      is where the refiner stops, reporting EvenMultiplicity. */
  lemma StopsOnEven(f: real -> real, A: real, B: real, eps: real,
                    start: real, end: real, x: real, k: nat)
    requires Tracks(f, A, B, eps, start, end, x, k) && end - start > eps
    requires EvenPattern(f(start), f(Mid((start, end))), f(end))
    ensures StoppedWith(f, A, B, eps, EvenMultiplicity, start, end, k)
  {
  }

  /** A tracked bracket no wider than eps is where the refiner stops,
      reporting the last midpoint after `count` steps. */
  lemma StopsOnWidth(f: real -> real, A: real, B: real, eps: real,
                     start: real, end: real, x: real, count: nat)
    requires Tracks(f, A, B, eps, start, end, x, count) && end - start <= eps
    ensures StoppedWith(f, A, B, eps, Converged(Estimate(x, count, end - start)), start, end, count)
  {
  }

  /** A tracked bracket wider than eps, without the even-multiplicity
      pattern and with no half showing a strict sign change, is where the
      refiner stops, reporting its midpoint after step k + 1. */
  lemma StopsOnNoSide(f: real -> real, A: real, B: real, eps: real,
                      start: real, end: real, x: real, k: nat)
    requires Tracks(f, A, B, eps, start, end, x, k) && end - start > eps
    requires var m := Mid((start, end));
             && !EvenPattern(f(start), f(m), f(end))
             && !(f(start) * f(m) < 0.0) && !(f(end) * f(m) < 0.0)
    ensures StoppedWith(f, A, B, eps, Converged(Estimate(Mid((start, end)), k + 1, end - start)),
                        start, end, k)
  {
  }

  /** f(x) = x*x on [-1, 2] with eps = 0.1: the first midpoint 0.5 gives
      f(-1)*f(0.5) > 0 and f(0.5)*f(2) > 0, so the refiner reports
      EvenMultiplicity on its first step. */
  lemma SquareIsEvenMultiplicity()
    ensures var f := (x: real) => x * x;
            StopsOn(f, -1.0, 2.0, 0.1, 0) && ReportOn(f, -1.0, 2.0, 0.1, 0) == EvenMultiplicity
  {
  }

  /** The brackets never leave [A, B]. */
  lemma {:induction false} BracketNested(f: real -> real, A: real, B: real, n: nat)
    requires A <= B
    ensures A <= Bracket(f, A, B, n).0 <= Bracket(f, A, B, n).1 <= B
  {
    if n > 0 {
      BracketNested(f, A, B, n - 1);
    }
  }

  /** Each bracket lies inside the one before it. */
  lemma BracketStepNested(f: real -> real, A: real, B: real, n: nat)
    requires A <= B
    ensures Bracket(f, A, B, n).0 <= Bracket(f, A, B, n + 1).0
    ensures Bracket(f, A, B, n + 1).1 <= Bracket(f, A, B, n).1
  {
    BracketNested(f, A, B, n);
  }

  /** A zero at an end does not by itself stop the loop: for x*(3 - x) on
      [0, 4] the right half shows a strict sign change, so the refiner
      narrows to [2, 4] and drops the root at 0. */
  lemma EndZeroNarrowsAway()
    ensures var f := (x: real) => x * (3.0 - x);
            f(0.0) == 0.0 && Narrows(f, 0.0, 4.0, 0.1, 0) && Bracket(f, 0.0, 4.0, 1) == (2.0, 4.0)
  {
  }

  /** Zeros at both ends do stop the loop, even with f(x) != 0: for
      x*(x - 1) on [0, 1] neither half shows a strict sign change, so the
      refiner stops on the first bracket and reports the midpoint 0.5. */
  lemma BothEndsZeroStops()
    ensures var f := (x: real) => x * (x - 1.0);
            f(0.5) != 0.0 && StopsOn(f, 0.0, 1.0, 0.1, 0)
            && ReportOn(f, 0.0, 1.0, 0.1, 0) == Converged(Estimate(0.5, 1, 1.0))
  {
  }

  /** A strict sign change at the ends is kept by every bracket. */
  lemma {:induction false} SignChangeKept(f: real -> real, A: real, B: real, n: nat)
    requires f(A) * f(B) < 0.0
    ensures f(Bracket(f, A, B, n).0) * f(Bracket(f, A, B, n).1) < 0.0
  {
    if n > 0 {
      SignChangeKept(f, A, B, n - 1);
      var p := Bracket(f, A, B, n - 1);
      var fX := f(Mid(p));
      assert f(p.1) * fX == fX * f(p.1);
    }
  }

  /** A bracket no wider than eps from the start: the refiner takes no step
      and reports A with the initial width. */
  lemma NarrowStart(f: real -> real, A: real, B: real, eps: real, n: nat)
    requires StopsOn(f, A, B, eps, n) && B - A <= eps
    ensures n == 0 && Bracket(f, A, B, n) == (A, B)
    ensures ReportOn(f, A, B, eps, n) == Converged(Estimate(A, 0, B - A))
  {
    StopsOnUnique(f, A, B, eps, n, 0);
  }

  /** Stopped by width: n steps each halved the bracket, the bracket before
      the last step was still wider than eps (so n <= ceil(log2((B - A)/eps)),
      see StepBound), and x_m is an end of the final bracket. */
  lemma WidthStop(f: real -> real, A: real, B: real, eps: real, n: nat)
    requires StopsOn(f, A, B, eps, n)
    requires Bracket(f, A, B, n).1 - Bracket(f, A, B, n).0 <= eps
    ensures var p, o := Bracket(f, A, B, n), ReportOn(f, A, B, eps, n);
            && o.Converged? && o.est.steps == n
            && o.est.lastStep == p.1 - p.0 == Halved(B - A, n)
            && (n >= 1 ==> Halved(B - A, n - 1) > eps && (o.est.value == p.0 || o.est.value == p.1))
            && (n == 0 ==> o.est.value == A == p.0)
  {
    ReachedHalves(f, A, B, eps, n);
    if n >= 1 {
      ReachedHalves(f, A, B, eps, n - 1);
    }
  }

  /** Stopped early on bracket n, wider than eps: step n + 1 found no half
      with a strict sign change, because f vanishes at the midpoint x_m or at
      an end of the bracket, which was still wider than eps after n halvings. */
  lemma EarlyStop(f: real -> real, A: real, B: real, eps: real, n: nat)
    requires eps > 0.0 && StopsOn(f, A, B, eps, n) && !ShowsEvenPattern(f, A, B, eps, n)
    requires Bracket(f, A, B, n).1 - Bracket(f, A, B, n).0 > eps
    ensures var p, o := Bracket(f, A, B, n), ReportOn(f, A, B, eps, n);
            && o.Converged? && o.est.steps == n + 1
            && o.est.lastStep == p.1 - p.0 == Halved(B - A, n) && Halved(B - A, n) > eps
            && o.est.value == Mid(p) && p.0 <= o.est.value <= p.1
            && (f(o.est.value) == 0.0 || f(p.0) == 0.0 || f(p.1) == 0.0)
  {
    ReachedHalves(f, A, B, eps, n);
  }

  /** With a strict sign change at the ends, the refiner never reports
      EvenMultiplicity, the final bracket still has a strict sign change, and
      an early stop means f(x_m) = 0. */
  lemma SignChangeStop(f: real -> real, A: real, B: real, eps: real, n: nat)
    requires StopsOn(f, A, B, eps, n) && f(A) * f(B) < 0.0
    ensures var p, o := Bracket(f, A, B, n), ReportOn(f, A, B, eps, n);
            && o.Converged?
            && f(p.0) * f(p.1) < 0.0
            && (p.1 - p.0 <= eps || f(o.est.value) == 0.0)
  {
    SignChangeKept(f, A, B, n);
    var p := Bracket(f, A, B, n);
    SignChangeSplits(f(p.0), f(Mid(p)), f(p.1));
  }

  /** A converged report after at least one step took no more than
      ceil(log2((B - A)/eps)) steps: eps * 2^(steps - 1) < B - A. */
  lemma ConvergedStepBound(f: real -> real, A: real, B: real, eps: real, n: nat)
    requires eps > 0.0 && StopsOn(f, A, B, eps, n)
    requires ReportOn(f, A, B, eps, n).Converged? && ReportOn(f, A, B, eps, n).est.steps >= 1
    ensures eps * Pow2(ReportOn(f, A, B, eps, n).est.steps - 1) < B - A
  {
    var p := Bracket(f, A, B, n);
    if p.1 - p.0 <= eps {
      WidthStop(f, A, B, eps, n);
    } else {
      EarlyStop(f, A, B, eps, n);
    }
    StepBound(B - A, eps, ReportOn(f, A, B, eps, n).est.steps);
  }

  /** bisect_method on [A, B]: the refiner stops on the first bracket it
      does not narrow and reports what ReportOn says for it. Besides the
      outcome it yields, as ghost results, that bracket [lo, hi] and its
      index `stop` in the bracket sequence. */
  method Bisect(f: real -> real, A: real, B: real, eps: real)
    returns (outcome: Outcome, ghost lo: real, ghost hi: real, ghost stop: nat)
    requires eps > 0.0
    ensures StoppedWith(f, A, B, eps, outcome, lo, hi, stop)
    // the outcome alone: the report on the one bracket where the loop stops
    ensures exists n :: StopsOn(f, A, B, eps, n) && outcome == ReportOn(f, A, B, eps, n)
  {
    var start, end := A, B;
    var x := start;
    var count: nat := 0;
    while end - start > eps
      invariant Tracks(f, A, B, eps, start, end, x, count)
      decreases Halvings(end - start, eps)
    {
      ghost var s0, e0, x0, k := start, end, x, count;
      count := count + 1;
      x := Mid((start, end));
      var fStart, fX, fEnd := f(start), f(x), f(end);
      if EvenPattern(fStart, fX, fEnd) {
        StopsOnEven(f, A, B, eps, start, end, x0, k);
        return EvenMultiplicity, start, end, k;
      }
      if fStart * fX < 0.0 {
        end := x;
      } else if fEnd * fX < 0.0 {
        start := x;
      } else {
        StopsOnNoSide(f, A, B, eps, start, end, x0, k);
        stop := k;
        break;
      }
      NarrowStep(f, A, B, eps, s0, e0, x0, k);
    }
    if end - start <= eps {
      StopsOnWidth(f, A, B, eps, start, end, x, count);
      stop := count;
    }
    outcome := Converged(Estimate(x, count, end - start));
    lo, hi := start, end;
  }
}

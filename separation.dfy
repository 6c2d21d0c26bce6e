/** Root separation: scan a uniform grid of N sub-intervals of [A, B] and
    collect the sub-intervals over which f changes sign, together with the
    grid points where f is exactly zero. */
module Separation {

  /** A candidate root bracket [low, high]; `low == high` marks an exact
      zero of f at a grid point. */
  datatype Interval = Interval(low: real, high: real)

  /** The k-th grid point A + k*h. */
  function GridPoint(A: real, h: real, k: int): real
  {
    A + (k as real) * h
  }

  /** What the scan appends for the k-th sub-interval
      [A + k*h, A + (k+1)*h]: a bracket when f changes sign strictly over
      it, else a degenerate bracket when f vanishes at its right end, else
      (on the first sub-interval only) a degenerate bracket when f vanishes
      at its left end, else nothing. */
  function Found(f: real -> real, A: real, h: real, k: nat): seq<Interval>
  {
    var s := GridPoint(A, h, k);
    var e := GridPoint(A, h, k + 1);
    if f(e) * f(s) < 0.0 then [Interval(s, e)]
    else if f(e) == 0.0 then [Interval(e, e)]
    else if k == 0 && f(s) == 0.0 then [Interval(s, s)]
    else []
  }

  /** The brackets found in the first n sub-intervals, in scan order. */
  function Scan(f: real -> real, A: real, h: real, n: nat): seq<Interval>
  {
    if n == 0 then [] else Scan(f, A, h, n - 1) + Found(f, A, h, n - 1)
  }

  /** Brackets that are well formed and appear left to right without
      overlapping, all inside [lo, hi]. */
  predicate OrderedWithin(s: seq<Interval>, lo: real, hi: real)
  {
    && (forall i :: 0 <= i < |s| ==> lo <= s[i].low <= s[i].high <= hi)
    && (forall i, j :: 0 <= i < j < |s| ==> s[i].high <= s[j].low)
  }

  /** The scan over N equal sub-intervals of [A, B]; a negative N gives an
      empty scan, as `range(N)` does. */
  method SeparateRoots(f: real -> real, A: real, B: real, N: int) returns (intervals: seq<Interval>)
    requires N != 0
    ensures intervals == Scan(f, A, (B - A) / (N as real), if N < 0 then 0 else N)
    ensures N < 0 ==> intervals == []
    ensures |intervals| <= if N < 0 then 0 else N
    ensures A <= B ==> OrderedWithin(intervals, A, B)
  {
    intervals := [];
    var h := (B - A) / (N as real);
    var start := A;
    var i := 0;
    while i < N
      invariant 0 <= i && (N >= 0 ==> i <= N) && (N < 0 ==> i == 0)
      invariant start == GridPoint(A, h, i)
      invariant intervals == Scan(f, A, h, i)
    {
      var end := start + h;
      if f(end) * f(start) < 0.0 {
        intervals := intervals + [Interval(start, end)];
      } else if f(end) == 0.0 {
        intervals := intervals + [Interval(end, end)];
      } else if i == 0 && f(start) == 0.0 {
        intervals := intervals + [Interval(start, start)];
      }
      start := end;
      i := i + 1;
    }
    ScanCount(f, A, h, i);
    if A <= B && N > 0 {
      assert h >= 0.0;
      ScanOrdered(f, A, h, N);
      LastGridPoint(A, B, N);
    }
  }

  /** The grid ends at B. */
  lemma LastGridPoint(A: real, B: real, N: int)
    requires N > 0
    ensures GridPoint(A, (B - A) / (N as real), N) == B
  {
  }

  /** At most one bracket per sub-interval. */
  lemma {:induction false} ScanCount(f: real -> real, A: real, h: real, n: nat)
    ensures |Scan(f, A, h, n)| <= n
  {
    if n > 0 {
      ScanCount(f, A, h, n - 1);
    }
  }

  /** On an increasing grid the brackets come out left to right, each within
      its own sub-interval, none overlapping the next. */
  lemma {:induction false} ScanOrdered(f: real -> real, A: real, h: real, n: nat)
    requires h >= 0.0
    ensures GridPoint(A, h, n) >= A
    ensures OrderedWithin(Scan(f, A, h, n), A, GridPoint(A, h, n))
  {
    if n > 0 {
      ScanOrdered(f, A, h, n - 1);
      var prev := Scan(f, A, h, n - 1);
      var last := Found(f, A, h, n - 1);
      var g, g' := GridPoint(A, h, n - 1), GridPoint(A, h, n);
      assert g' == g + h;
      assert forall x :: x in last ==> g <= x.low <= x.high <= g';
      var s := prev + last;
      assert s == Scan(f, A, h, n);
      forall i, j | 0 <= i < j < |s|
        ensures s[i].high <= s[j].low
      {
        if j >= |prev| {
          assert s[j] in last;
          assert i < |prev| && s[i] == prev[i];
        } else {
          assert s[i] == prev[i] && s[j] == prev[j];
        }
      }
      forall i | 0 <= i < |s|
        ensures A <= s[i].low <= s[i].high <= g'
      {
        if i >= |prev| {
          assert s[i] in last;
        } else {
          assert s[i] == prev[i];
        }
      }
    }
  }

  /** x is the k-th grid sub-interval and f changes sign strictly over it. */
  predicate SignChangeAt(f: real -> real, A: real, h: real, k: int, x: Interval)
  {
    x == Interval(GridPoint(A, h, k), GridPoint(A, h, k + 1))
    && f(GridPoint(A, h, k)) * f(GridPoint(A, h, k + 1)) < 0.0
  }

  /** x is the degenerate bracket at grid point k, where f vanishes. */
  predicate ZeroAt(f: real -> real, A: real, h: real, k: int, x: Interval)
  {
    x == Interval(GridPoint(A, h, k), GridPoint(A, h, k)) && f(GridPoint(A, h, k)) == 0.0
  }

  /** x is the degenerate bracket at A, kept only when f vanishes at A but
      not at A + h. */
  predicate ZeroAtStart(f: real -> real, A: real, h: real, x: Interval)
  {
    x == Interval(A, A) && f(A) == 0.0 && f(GridPoint(A, h, 1)) != 0.0
  }

  /** The brackets of one sub-interval: a strict sign change, a zero at its
      right end, or (first sub-interval only, when its right end is not a
      zero) a zero at A. */
  lemma FoundMembers(f: real -> real, A: real, h: real, k: nat, x: Interval)
    ensures x in Found(f, A, h, k) <==>
      SignChangeAt(f, A, h, k, x) || ZeroAt(f, A, h, k + 1, x) || (k == 0 && ZeroAtStart(f, A, h, x))
  {
  }

  /** Exactly what the scan finds: every grid sub-interval with a strict
      sign change, every grid point A + k*h (1 <= k <= n) where f vanishes,
      and A itself when f vanishes there but not at A + h — nothing else. */
  lemma {:induction false} ScanMembers(f: real -> real, A: real, h: real, n: nat, x: Interval)
    ensures x in Scan(f, A, h, n) <==>
      || (exists k :: 0 <= k < n && SignChangeAt(f, A, h, k, x))
      || (exists k :: 1 <= k <= n && ZeroAt(f, A, h, k, x))
      || (n >= 1 && ZeroAtStart(f, A, h, x))
  {
    if n > 0 {
      ScanMembers(f, A, h, n - 1, x);
      FoundMembers(f, A, h, n - 1, x);
      assert x in Scan(f, A, h, n) <==> x in Scan(f, A, h, n - 1) || x in Found(f, A, h, n - 1);
      if exists k :: 0 <= k < n && SignChangeAt(f, A, h, k, x) {
        var k :| 0 <= k < n && SignChangeAt(f, A, h, k, x);
        if k < n - 1 {
          assert exists k :: 0 <= k < n - 1 && SignChangeAt(f, A, h, k, x);
        }
      }
      if exists k :: 1 <= k <= n && ZeroAt(f, A, h, k, x) {
        var k :| 1 <= k <= n && ZeroAt(f, A, h, k, x);
        if k < n {
          assert exists k :: 1 <= k <= n - 1 && ZeroAt(f, A, h, k, x);
        }
      }
    }
  }
}

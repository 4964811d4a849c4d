/** The three integer searches for `x*a + y*b` near a target `c`. */
module Utils {
  import opened Base

  /** How far `x*a + y*b` misses `c` (signed). */
  function Residual(a: int, b: int, c: int, x: int, y: int): int
  {
    x * a + y * b - c
  }

  // ---------------------------------------------------------------------
  // find_closest: bounded search with x >= 1, y >= 0, keeping every tie
  // ---------------------------------------------------------------------

  datatype Solution = Solution(x: int, y: int, total: int)

  /** The last `x` the search tries. */
  function XMax(a: int, b: int, c: int): int
    requires a > 0
  {
    RustDiv(c + Max(a, b), a) + 2
  }

  /** The `y` values tried for one `x`: zero and the floor, ceiling and
      rounding of the real `y` that would hit `c`, each clamped at zero. */
  function YCandidates(a: int, b: int, c: int, x: int): (ys: seq<int>)
    requires b > 0
    ensures |ys| == 4 && ys[0] == 0 && forall k :: 0 <= k < 4 ==> ys[k] >= 0
  {
    var p := c - x * a;
    [0, Max(FloorDiv(p, b), 0), Max(CeilDiv(p, b), 0), Max(RoundDiv(p, b), 0)]
  }

  /** The search state: the smallest `|total - c|` so far (`None` plays the
      part of the source's infinity), the signed residual recorded with it,
      and every candidate that reached it, in the order tried. */
  datatype Search = Search(minDiff: Option<nat>, finalDiff: Option<int>, solutions: seq<Solution>)

  const NoSearch := Search(None, None, [])

  /** One candidate `(x, y)`: a strictly better one restarts the list, a tie
      is appended, a worse one is ignored. */
  function Consider(st: Search, a: int, b: int, c: int, x: int, y: int): Search
  {
    var total := x * a + y * b;
    var d := Abs(total - c);
    if st.minDiff.None? || d < st.minDiff.value then
      Search(Some(d), Some(total - c), [Solution(x, y, total)])
    else if d == st.minDiff.value then
      st.(solutions := st.solutions + [Solution(x, y, total)])
    else
      st
  }

  function ScanYs(st: Search, a: int, b: int, c: int, x: int, ys: seq<int>): Search
  {
    if ys == [] then st
    else Consider(ScanYs(st, a, b, c, x, ys[..|ys| - 1]), a, b, c, x, ys[|ys| - 1])
  }

  /** The state after trying every `x` in `1..=n`. */
  function ScanXs(a: int, b: int, c: int, n: int): Search
    requires b > 0
    decreases n
  {
    if n < 1 then NoSearch
    else ScanYs(ScanXs(a, b, c, n - 1), a, b, c, n, YCandidates(a, b, c, n))
  }

  /** What `find_closest` returns: the tied solutions and the signed residual. */
  function FindClosestSpec(a: int, b: int, c: int): (seq<Solution>, Option<int>)
    requires a > 0 && b > 0
  {
    var st := ScanXs(a, b, c, XMax(a, b, c));
    (st.solutions, st.finalDiff)
  }

  /** The promise of `find_closest`. */
  ghost predicate IsClosestResult(a: int, b: int, c: int, solutions: seq<Solution>, finalDiff: Option<int>)
    requires a > 0 && b > 0
  {
    var n := XMax(a, b, c);
    // every solution is a decomposition with x in 1..=x_max and y >= 0
    && (forall s :: s in solutions ==> 1 <= s.x <= n && s.y >= 0 && s.total == s.x * a + s.y * b)
    // the search is empty exactly when the range of x is empty
    && (solutions == [] <==> n < 1)
    && (finalDiff.Some? <==> solutions != [])
    // the residual is that of the first solution, and all solutions tie
    && (solutions != [] ==>
          && finalDiff == Some(solutions[0].total - c)
          && forall s :: s in solutions ==> Abs(s.total - c) == Abs(finalDiff.value))
    // no x in range and no y >= 0 does better
    && (finalDiff.Some? ==>
          forall x, y :: 1 <= x <= n && y >= 0 ==> Abs(finalDiff.value) <= Abs(Residual(a, b, c, x, y)))
    // every tried candidate that ties is kept
    && (finalDiff.Some? ==>
          forall x, k :: 1 <= x <= n && 0 <= k < 4 && Abs(Residual(a, b, c, x, YCandidates(a, b, c, x)[k])) == Abs(finalDiff.value)
            ==> Solution(x, YCandidates(a, b, c, x)[k], x * a + YCandidates(a, b, c, x)[k] * b) in solutions)
  }

  /** The invariant of the scan: `seen` is the set of candidates tried. */
  ghost predicate SearchInv(st: Search, a: int, b: int, c: int, xBound: int, seen: set<(int, int)>)
  {
    && (st.minDiff.Some? <==> st.solutions != [])
    && (st.minDiff.Some? <==> st.finalDiff.Some?)
    && (st.minDiff.Some? <==> seen != {})
    && (st.minDiff.Some? ==>
          && st.finalDiff.value == st.solutions[0].total - c
          && Abs(st.finalDiff.value) == st.minDiff.value)
    && (forall s :: s in st.solutions ==>
          && 1 <= s.x <= xBound && s.y >= 0 && s.total == s.x * a + s.y * b
          && st.minDiff.Some? && Abs(s.total - c) == st.minDiff.value)
    && (forall p :: p in seen ==> st.minDiff.Some? && st.minDiff.value <= Abs(Residual(a, b, c, p.0, p.1)))
    && (forall p :: p in seen && st.minDiff.Some? && Abs(Residual(a, b, c, p.0, p.1)) == st.minDiff.value
          ==> Solution(p.0, p.1, p.0 * a + p.1 * b) in st.solutions)
  }

  lemma ConsiderInv(st: Search, a: int, b: int, c: int, x: int, y: int, xBound: int, seen: set<(int, int)>)
    requires SearchInv(st, a, b, c, xBound, seen)
    requires 1 <= x <= xBound && y >= 0
    ensures SearchInv(Consider(st, a, b, c, x, y), a, b, c, xBound, seen + {(x, y)})
  {
    var total := x * a + y * b;
    assert Residual(a, b, c, x, y) == total - c;
    if st.minDiff.None? || Abs(total - c) < st.minDiff.value {
      ConsiderBetterInv(st, a, b, c, x, y, xBound, seen);
    } else if Abs(total - c) == st.minDiff.value {
      ConsiderTieInv(st, a, b, c, x, y, xBound, seen);
    }
  }

  /** A strictly better candidate restarts the list with itself. */
  lemma ConsiderBetterInv(st: Search, a: int, b: int, c: int, x: int, y: int, xBound: int, seen: set<(int, int)>)
    requires SearchInv(st, a, b, c, xBound, seen)
    requires 1 <= x <= xBound && y >= 0
    requires st.minDiff.None? || Abs(Residual(a, b, c, x, y)) < st.minDiff.value
    ensures SearchInv(Search(Some(Abs(Residual(a, b, c, x, y))), Some(Residual(a, b, c, x, y)), [Solution(x, y, x * a + y * b)]),
                      a, b, c, xBound, seen + {(x, y)})
  {
    var st' := Search(Some(Abs(Residual(a, b, c, x, y))), Some(Residual(a, b, c, x, y)), [Solution(x, y, x * a + y * b)]);
    forall p | p in seen + {(x, y)} && Abs(Residual(a, b, c, p.0, p.1)) == st'.minDiff.value
      ensures Solution(p.0, p.1, p.0 * a + p.1 * b) in st'.solutions
    {
      assert p == (x, y);
    }
  }

  /** A tying candidate is appended. */
  lemma ConsiderTieInv(st: Search, a: int, b: int, c: int, x: int, y: int, xBound: int, seen: set<(int, int)>)
    requires SearchInv(st, a, b, c, xBound, seen)
    requires 1 <= x <= xBound && y >= 0
    requires st.minDiff.Some? && Abs(Residual(a, b, c, x, y)) == st.minDiff.value
    ensures SearchInv(st.(solutions := st.solutions + [Solution(x, y, x * a + y * b)]), a, b, c, xBound, seen + {(x, y)})
  {
  }

  /** The candidates `(x, y)` for `y` in `ys`. */
  ghost function Tried(x: int, ys: seq<int>): set<(int, int)>
  {
    set y | y in ys :: (x, y)
  }

  lemma {:induction false} ScanYsInv(st: Search, a: int, b: int, c: int, x: int, ys: seq<int>, xBound: int, seen: set<(int, int)>)
    requires SearchInv(st, a, b, c, xBound, seen)
    requires 1 <= x <= xBound && forall k :: 0 <= k < |ys| ==> ys[k] >= 0
    ensures SearchInv(ScanYs(st, a, b, c, x, ys), a, b, c, xBound, seen + Tried(x, ys))
  {
    if ys == [] {
      assert Tried(x, ys) == {};
      assert seen + Tried(x, ys) == seen;
    } else {
      var init := ys[..|ys| - 1];
      var last := ys[|ys| - 1];
      ScanYsInv(st, a, b, c, x, init, xBound, seen);
      ConsiderInv(ScanYs(st, a, b, c, x, init), a, b, c, x, last, xBound, seen + Tried(x, init));
      TriedSnoc(seen, x, ys);
    }
  }

  lemma TriedSnoc(seen: set<(int, int)>, x: int, ys: seq<int>)
    requires ys != []
    ensures seen + Tried(x, ys[..|ys| - 1]) + {(x, ys[|ys| - 1])} == seen + Tried(x, ys)
  {
    var init, last := ys[..|ys| - 1], ys[|ys| - 1];
    assert ys == init + [last];
    assert Tried(x, ys) == Tried(x, init) + {(x, last)};
  }

  /** The candidates tried for every `x` in `1..=n`. */
  ghost function TriedUpTo(a: int, b: int, c: int, n: int): set<(int, int)>
    requires b > 0
    decreases n
  {
    if n < 1 then {} else TriedUpTo(a, b, c, n - 1) + Tried(n, YCandidates(a, b, c, n))
  }

  lemma {:induction false} TriedUpToHas(a: int, b: int, c: int, n: int, x: int, y: int)
    requires b > 0 && 1 <= x <= n && y in YCandidates(a, b, c, x)
    ensures (x, y) in TriedUpTo(a, b, c, n)
    decreases n
  {
    if x < n {
      TriedUpToHas(a, b, c, n - 1, x, y);
    } else {
      assert (x, y) in Tried(n, YCandidates(a, b, c, n));
    }
  }

  lemma {:induction false} ScanXsInv(a: int, b: int, c: int, n: int, xBound: int)
    requires b > 0 && n <= xBound
    ensures SearchInv(ScanXs(a, b, c, n), a, b, c, xBound, TriedUpTo(a, b, c, n))
    decreases n
  {
    if n >= 1 {
      ScanXsInv(a, b, c, n - 1, xBound);
      ScanYsInv(ScanXs(a, b, c, n - 1), a, b, c, n, YCandidates(a, b, c, n), xBound, TriedUpTo(a, b, c, n - 1));
      var y0 := YCandidates(a, b, c, n)[0];
      assert (n, y0) in Tried(n, YCandidates(a, b, c, n));
    }
  }

  /** Between the floor `f` and the ceiling `g` of `p/q` (with `q > 0`),
      one of them is at least as close to `p` as any multiple `y*q`. */
  lemma Bracket(p: int, q: int, f: int, g: int, y: int) returns (useCeil: bool)
    requires q > 0 && f * q <= p < f * q + q && g * q - q < p <= g * q
    ensures Abs((if useCeil then g else f) * q - p) <= Abs(y * q - p)
  {
    if y <= f {
      useCeil := false;
      MulMono(y, f, q);
    } else {
      useCeil := true;
      assert (g - 1) * q == g * q - q;
      assert (f + 1) * q == f * q + q;
      LessFromProducts(g - 1, f + 1, q);
      MulMono(g, y, q);
    }
  }

  /** For a fixed `x`, the best `y >= 0` is among the candidates. */
  lemma BestYIsCandidate(a: int, b: int, c: int, x: int, y: int) returns (k: int)
    requires b > 0 && y >= 0
    ensures 0 <= k < 4 && Abs(Residual(a, b, c, x, YCandidates(a, b, c, x)[k])) <= Abs(Residual(a, b, c, x, y))
  {
    var p := c - x * a;
    var ys := YCandidates(a, b, c, x);
    var f, g := FloorDiv(p, b), CeilDiv(p, b);
    assert Residual(a, b, c, x, y) == y * b - p;
    if p <= 0 {
      k := 0;
      MulMono(0, y, b);
      assert Residual(a, b, c, x, 0) == 0 * b - p;
    } else {
      FloorCeilNonNegative(p, b, f, g);
      assert ys[1] == f && ys[2] == g;
      var useCeil := Bracket(p, b, f, g, y);
      k := if useCeil then 2 else 1;
      assert Residual(a, b, c, x, ys[k]) == ys[k] * b - p;
    }
  }

  lemma FloorCeilNonNegative(p: int, q: int, f: int, g: int)
    requires p > 0 && q > 0 && f * q <= p < f * q + q && g * q - q < p <= g * q
    ensures f >= 0 && g >= 0
  {
    assert (f + 1) * q == f * q + q;
    LessFromProducts(0, f + 1, q);
    LessFromProducts(0, g, q);
  }

  /** The scan of `1..=x_max` meets the promise of `find_closest`. */
  lemma FindClosestCorrect(a: int, b: int, c: int)
    requires a > 0 && b > 0
    ensures var (solutions, finalDiff) := FindClosestSpec(a, b, c);
            IsClosestResult(a, b, c, solutions, finalDiff)
  {
    var n := XMax(a, b, c);
    var st := ScanXs(a, b, c, n);
    ScanXsInv(a, b, c, n, n);
    if n < 1 {
      assert st == NoSearch;
    } else {
      var y0 := YCandidates(a, b, c, n)[0];
      TriedUpToHas(a, b, c, n, n, y0);
      ScanBeatsAll(a, b, c, n, st);
      ScanKeepsTies(a, b, c, n, st);
    }
  }

  /** No `x` in `1..=n` and no `y >= 0` beats the scan. */
  lemma ScanBeatsAll(a: int, b: int, c: int, n: int, st: Search)
    requires b > 0 && st.finalDiff.Some?
    requires SearchInv(st, a, b, c, n, TriedUpTo(a, b, c, n))
    ensures forall x, y :: 1 <= x <= n && y >= 0 ==> Abs(st.finalDiff.value) <= Abs(Residual(a, b, c, x, y))
  {
    forall x, y | 1 <= x <= n && y >= 0
      ensures Abs(st.finalDiff.value) <= Abs(Residual(a, b, c, x, y))
    {
      var k := BestYIsCandidate(a, b, c, x, y);
      TriedUpToHas(a, b, c, n, x, YCandidates(a, b, c, x)[k]);
    }
  }

  /** Every candidate of the scan that ties its residual is kept. */
  lemma ScanKeepsTies(a: int, b: int, c: int, n: int, st: Search)
    requires b > 0 && st.finalDiff.Some?
    requires SearchInv(st, a, b, c, n, TriedUpTo(a, b, c, n))
    ensures forall x, k :: 1 <= x <= n && 0 <= k < 4 && Abs(Residual(a, b, c, x, YCandidates(a, b, c, x)[k])) == Abs(st.finalDiff.value)
                           ==> Solution(x, YCandidates(a, b, c, x)[k], x * a + YCandidates(a, b, c, x)[k] * b) in st.solutions
  {
    forall x, k | 1 <= x <= n && 0 <= k < 4
      && Abs(Residual(a, b, c, x, YCandidates(a, b, c, x)[k])) == Abs(st.finalDiff.value)
      ensures Solution(x, YCandidates(a, b, c, x)[k], x * a + YCandidates(a, b, c, x)[k] * b) in st.solutions
    {
      TriedUpToHas(a, b, c, n, x, YCandidates(a, b, c, x)[k]);
    }
  }

  /** A non-negative target always has a solution. */
  lemma ClosestNonEmpty(a: int, b: int, c: int)
    requires a > 0 && b > 0 && c >= 0
    ensures FindClosestSpec(a, b, c).0 != []
  {
    FindClosestCorrect(a, b, c);
  }

  /** A target that is exactly `x0*a + y0*b` (x0 >= 1, y0 >= 0) is hit exactly. */
  lemma ClosestExactHit(a: int, b: int, c: int, x0: int, y0: int)
    requires a > 0 && b > 0 && x0 >= 1 && y0 >= 0 && c == x0 * a + y0 * b
    ensures FindClosestSpec(a, b, c).1 == Some(0)
  {
    ExactHitInRange(a, b, c, x0, y0);
    FindClosestCorrect(a, b, c);
    assert Residual(a, b, c, x0, y0) == 0;
  }

  lemma ExactHitInRange(a: int, b: int, c: int, x0: int, y0: int)
    requires a > 0 && b > 0 && x0 >= 1 && y0 >= 0 && c == x0 * a + y0 * b
    ensures x0 <= XMax(a, b, c)
  {
    assert y0 * b >= 0;
    assert x0 * a <= c + Max(a, b);
    DivLowerBound(c + Max(a, b), a, x0);
  }

  /** `find_closest`: for every `x` in `1..=x_max` it tries the candidate
      `y` values and keeps every `(x, y, total)` whose `|total - c|` ties the
      smallest so far. */
  method FindClosest(a: int, b: int, c: int) returns (solutions: seq<Solution>, finalDiff: Option<int>)
    requires a > 0 && b > 0
    ensures (solutions, finalDiff) == FindClosestSpec(a, b, c)
    ensures IsClosestResult(a, b, c, solutions, finalDiff)
  {
    var minDiff: Option<nat> := None;
    finalDiff := None;
    solutions := [];
    var maxAB := Max(a, b);
    var xMax := RustDiv(c + maxAB, a) + 2;
    var x := 1;
    while x <= xMax
      invariant x >= 1 && (x <= xMax + 1 || x == 1)
      invariant Search(minDiff, finalDiff, solutions) == ScanXs(a, b, c, x - 1)
    {
      minDiff, finalDiff, solutions := TryCandidates(a, b, c, x, minDiff, finalDiff, solutions);
      x := x + 1;
    }
    assert xMax == XMax(a, b, c);
    assert Search(minDiff, finalDiff, solutions) == ScanXs(a, b, c, xMax) by {
      if xMax < 1 { assert ScanXs(a, b, c, xMax) == NoSearch; } else { assert x - 1 == xMax; }
    }
    FindClosestCorrect(a, b, c);
  }

  /** The body of `find_closest`'s outer loop: the candidates of one `x`. */
  method TryCandidates(a: int, b: int, c: int, x: int, minDiff0: Option<nat>, finalDiff0: Option<int>, solutions0: seq<Solution>)
    returns (minDiff: Option<nat>, finalDiff: Option<int>, solutions: seq<Solution>)
    requires b > 0
    ensures Search(minDiff, finalDiff, solutions)
      == ScanYs(Search(minDiff0, finalDiff0, solutions0), a, b, c, x, YCandidates(a, b, c, x))
  {
    minDiff, finalDiff, solutions := minDiff0, finalDiff0, solutions0;
    var xa := x * a;
    var p := c - xa;
    var ys := [0, Max(FloorDiv(p, b), 0), Max(CeilDiv(p, b), 0), Max(RoundDiv(p, b), 0)];
    assert ys == YCandidates(a, b, c, x);
    ghost var before := Search(minDiff, finalDiff, solutions);
    for j := 0 to |ys|
      invariant Search(minDiff, finalDiff, solutions) == ScanYs(before, a, b, c, x, ys[..j])
    {
      ghost var prev := Search(minDiff, finalDiff, solutions);
      assert ys[..j + 1][..j] == ys[..j];
      var y := ys[j];
      var total := xa + y * b;
      var currentDiff := Abs(total - c);
      if minDiff.None? || currentDiff < minDiff.value {
        minDiff := Some(currentDiff);
        finalDiff := Some(total - c);
        solutions := [Solution(x, y, total)];
      } else if currentDiff == minDiff.value {
        solutions := solutions + [Solution(x, y, total)];
      }
      assert Search(minDiff, finalDiff, solutions) == Consider(prev, a, b, c, x, y);
    }
    assert ys[..|ys|] == ys;
  }

  // ---------------------------------------------------------------------
  // solve_xy: closed form with halved coefficients
  // ---------------------------------------------------------------------

  /** `solve_xy(s, b, c)`. An odd `c` has no answer. Otherwise, with
      `m = c/2`, `a = s/2`, `h = b/2` (all truncated), `t` ranges over
      `[(m + a)/h, m/a]` and the answer is `(h*t - m, m - a*t)` for the
      smallest `t`. The source divides by `a` and `h`, so both must be
      non-zero when `c` is even. */
  function SolveXY(s: int, b: int, c: int): (r: Option<(int, int)>)
    requires c % 2 != 0 || (RustDiv(s, 2) != 0 && RustDiv(b, 2) != 0)
    ensures c % 2 != 0 ==> r.None?
    ensures r.Some? && s >= 2 && c >= 0 ==> r.value.1 >= 0
  {
    // c % 2 is the parity test of the source: a remainder is non-zero
    // under truncating and Euclidean division alike
    if c % 2 != 0 then None
    else
      var m := c / 2;
      var a := RustDiv(s, 2);
      var h := RustDiv(b, 2);
      var tMin := RustDiv(m + a, h);
      var tMax := RustDiv(m, a);
      if tMin <= tMax then
        SolveXYYNonNegative(a, m, tMin, tMax);
        Some((-m + h * tMin, m - a * tMin))
      else None
  }

  /** An answer solves the halved equation
      `(s/2)*x + (b/2)*y == (c/2)*(b/2 - s/2)`. */
  lemma SolveXYSolves(s: int, b: int, c: int)
    requires c % 2 != 0 || (RustDiv(s, 2) != 0 && RustDiv(b, 2) != 0)
    ensures SolveXY(s, b, c).Some? ==>
      var (x, y) := SolveXY(s, b, c).value;
      RustDiv(s, 2) * x + RustDiv(b, 2) * y == (c / 2) * (RustDiv(b, 2) - RustDiv(s, 2))
  {
    if SolveXY(s, b, c).Some? {
      var m, a, h := c / 2, RustDiv(s, 2), RustDiv(b, 2);
      SolveXYEquation(a, h, m, RustDiv(m + a, h));
    }
  }

  lemma SolveXYEquation(a: int, h: int, m: int, t: int)
    ensures a * (-m + h * t) + h * (m - a * t) == m * (h - a)
  {
    assert a * (-m + h * t) == -(a * m) + a * (h * t);
    assert h * (m - a * t) == h * m - h * (a * t);
    assert a * (h * t) == h * (a * t);
  }

  lemma SolveXYYNonNegative(a: int, m: int, tMin: int, tMax: int)
    requires a != 0 && tMax == RustDiv(m, a) && tMin <= tMax
    ensures a >= 1 && m >= 0 ==> m - a * tMin >= 0
  {
    if a >= 1 && m >= 0 {
      MulMono(tMin, tMax, a);
      assert tMin * a == a * tMin;
    }
  }

  /** The source's own test for an answer, and the answer it then builds. */
  lemma SolveXYDefined(s: int, b: int, c: int)
    requires c % 2 == 0 && RustDiv(s, 2) != 0 && RustDiv(b, 2) != 0
    ensures SolveXY(s, b, c).Some? <==>
      RustDiv(c / 2 + RustDiv(s, 2), RustDiv(b, 2)) <= RustDiv(c / 2, RustDiv(s, 2))
    ensures SolveXY(s, b, c).Some? ==>
      var t := RustDiv(c / 2 + RustDiv(s, 2), RustDiv(b, 2));
      SolveXY(s, b, c).value == (RustDiv(b, 2) * t - c / 2, c / 2 - RustDiv(s, 2) * t)
  {
  }

  /** A product is zero only when a factor is. */
  lemma ZeroProduct(u: int, v: int)
    requires u * v == 0
    ensures u == 0 || v == 0
  {
    if u != 0 && v != 0 { MultipleAtLeastDivisor(u, v); }
  }

  /** With even coefficients the answer solves `s*x + b*y == c*(b/2 - s/2)`,
      so it solves `s*x + b*y == c` exactly when `c == 0` or `b - s == 2`. */
  lemma SolveXYExactIff(s: int, b: int, c: int)
    requires s >= 2 && b >= 2 && s % 2 == 0 && b % 2 == 0 && c % 2 == 0
    requires SolveXY(s, b, c).Some?
    ensures var (x, y) := SolveXY(s, b, c).value;
            s * x + b * y == c * (b / 2 - s / 2)
            && (s * x + b * y == c <==> c == 0 || b - s == 2)
  {
    var (x, y) := SolveXY(s, b, c).value;
    assert RustDiv(s, 2) == s / 2 && RustDiv(b, 2) == b / 2;
    SolveXYSolves(s, b, c);
    HalvedEquation(s / 2, b / 2, c / 2, x, y);
  }

  lemma HalvedEquation(a: int, h: int, m: int, x: int, y: int)
    requires a * x + h * y == m * (h - a)
    ensures (2 * a) * x + (2 * h) * y == (2 * m) * (h - a)
    ensures (2 * a) * x + (2 * h) * y == 2 * m <==> m == 0 || h - a == 1
  {
    assert (2 * a) * x == 2 * (a * x) && (2 * h) * y == 2 * (h * y);
    assert (2 * m) * (h - a) == 2 * (m * (h - a));
    assert m * (h - a) - m == m * (h - a - 1);
    if m * (h - a) == m {
      ZeroProduct(m, h - a - 1);
    }
  }

  /** The plain count of an answer can be negative. */
  lemma SolveXYNegativeX()
    ensures SolveXY(2, 10, 2) == Some((-1, 1))
  {
    assert RustDiv(2, 2) == 1 && RustDiv(10, 2) == 5;
    assert RustDiv(2, 5) == 0 && RustDiv(1, 1) == 1;
  }

  /** Once `c` reaches `2*a*a` (with `a = s/2` and `b/2 > a`), there is an
      answer: this bounds the retries of the exact padding solver. */
  lemma SolveXYLargeTarget(s: int, b: int, c: int)
    requires s >= 2 && b >= 2 && RustDiv(b, 2) > RustDiv(s, 2)
    requires c % 2 == 0 && c >= 2 * (RustDiv(s, 2) * RustDiv(s, 2))
    ensures SolveXY(s, b, c).Some?
  {
    var a, h, m := RustDiv(s, 2), RustDiv(b, 2), c / 2;
    assert a >= 1 && h >= a + 1 && m >= a * a;
    var q := RustDiv(m + a, h);
    assert q == (m + a) / h;
    assert q * h <= m + a;
    assert q >= 0;
    QuotientMultipleFits(a, h, m, q);
    assert RustDiv(m, a) == m / a;
    DivLowerBound(m, a, q);
  }

  lemma QuotientMultipleFits(a: int, h: int, m: int, q: int)
    requires a >= 1 && h >= a + 1 && m >= a * a && q >= 0 && q * h <= m + a
    ensures q * a <= m
  {
    MulMono(a + 1, h, q);
    assert (a + 1) * q == a * q + q;
    if q < a {
      MulMono(q, a - 1, a);
      assert (a - 1) * a == a * a - a;
    }
  }

  // ---------------------------------------------------------------------
  // approximate_sum_optimized: nearest x*a + y*b for integers of any sign
  // ---------------------------------------------------------------------

  /** The half-width of the range of `x` the general search scans. */
  function MaxRange(a: int, b: int, c: int): (r: int)
    requires a != 0 && b != 0
    ensures r >= 100
  {
    Max(Max(Abs(RustDiv(c, a)) + 1, Abs(RustDiv(c, b)) + 1), 100)
  }

  /** The `y` values tried for one `x` in the general search. */
  function ApproxYs(a: int, b: int, c: int, x: int): seq<int>
    requires b != 0
  {
    var p := c - x * a;
    [FloorDiv(p, b), CeilDiv(p, b), RoundDiv(p, b)]
  }

  /** For a fixed `x`, the best integer `y` is the floor or the ceiling. */
  lemma BestYUnbounded(a: int, b: int, c: int, x: int, y: int) returns (k: int)
    requires b != 0
    ensures 0 <= k < 2 && Abs(Residual(a, b, c, x, ApproxYs(a, b, c, x)[k])) <= Abs(Residual(a, b, c, x, y))
  {
    var p := c - x * a;
    var ys := ApproxYs(a, b, c, x);
    var f, g := FloorDiv(p, b), CeilDiv(p, b);
    assert ys[0] == f && ys[1] == g;
    assert Residual(a, b, c, x, y) == y * b - p;
    assert Residual(a, b, c, x, f) == f * b - p;
    assert Residual(a, b, c, x, g) == g * b - p;
    var useCeil;
    if b > 0 {
      useCeil := Bracket(p, b, f, g, y);
    } else {
      useCeil := BracketNegative(p, b, f, g, y);
    }
    k := if useCeil then 1 else 0;
  }

  /** `Bracket` for a negative divisor. */
  lemma BracketNegative(p: int, q: int, f: int, g: int, y: int) returns (useCeil: bool)
    requires q < 0 && f * q >= p > f * q + q && g * q - q > p >= g * q
    ensures Abs((if useCeil then g else f) * q - p) <= Abs(y * q - p)
  {
    NegateProduct(f, q);
    NegateProduct(g, q);
    NegateProduct(y, q);
    useCeil := Bracket(-p, -q, f, g, y);
    var z := if useCeil then g else f;
    NegateProduct(z, q);
    assert z * (-q) - (-p) == -(z * q - p);
    assert y * (-q) - (-p) == -(y * q - p);
  }

  lemma NegateProduct(u: int, q: int)
    ensures u * (-q) == -(u * q)
  {
  }

  /** `approximate_sum_optimized(a, b, c)`: a pair `(x, y)` of integers of
      any sign with `x*a + y*b` as close to `c` as the search can find, and
      the distance. With one coefficient zero it rounds `c` by the other;
      otherwise it scans `x` over `-R..=R` and returns early on an exact hit. */
  method ApproximateSumOptimized(a: int, b: int, c: int) returns (x: int, y: int, diff: int)
    ensures diff == Abs(Residual(a, b, c, x, y))
    ensures diff <= Abs(c)
    ensures a == 0 ==> x == 0
    ensures b == 0 ==> y == 0
    ensures (a == 0 || b == 0) ==> forall x', y' :: diff <= Abs(Residual(a, b, c, x', y'))
    ensures a != 0 && b != 0 ==>
      && -MaxRange(a, b, c) <= x <= MaxRange(a, b, c)
      && forall x', y' :: -MaxRange(a, b, c) <= x' <= MaxRange(a, b, c) ==> diff <= Abs(Residual(a, b, c, x', y'))
  {
    if a == 0 && b == 0 {
      assert forall x', y' :: Residual(a, b, c, x', y') == -c;
      return 0, 0, Abs(c);
    }
    if a == 0 {
      // b != 0 here, the source's inner test always holds
      y := RoundDiv(c, b);
      x := 0;
      diff := Abs(y * b - c);
      forall x', y' ensures diff <= Abs(Residual(a, b, c, x', y')) {
        RoundIsNearest(c, b, y, y');
        RoundIsNearest(c, b, y, 0);
      }
      RoundIsNearest(c, b, y, 0);
      return;
    } else if b == 0 {
      x := RoundDiv(c, a);
      y := 0;
      diff := Abs(x * a - c);
      forall x', y' ensures diff <= Abs(Residual(a, b, c, x', y')) {
        RoundIsNearest(c, a, x, x');
      }
      RoundIsNearest(c, a, x, 0);
      return;
    }
    // both coefficients are non-zero from here on, so the source's branch
    // for b == 0 inside the loop is never taken
    x, y, diff := ScanRange(a, b, c);
  }

  /** The scan of `approximate_sum_optimized` over `x` in `-R..=R`. */
  method ScanRange(a: int, b: int, c: int) returns (x: int, y: int, diff: int)
    requires a != 0 && b != 0
    ensures diff == Abs(Residual(a, b, c, x, y)) && diff <= Abs(c)
    ensures -MaxRange(a, b, c) <= x <= MaxRange(a, b, c)
    ensures forall x', y' :: -MaxRange(a, b, c) <= x' <= MaxRange(a, b, c) ==> diff <= Abs(Residual(a, b, c, x', y'))
  {
    var range := MaxRange(a, b, c);
    x, y, diff := 0, 0, Abs(c);
    assert diff == Abs(Residual(a, b, c, x, y));
    var xi := -range;
    while xi <= range
      invariant -range <= xi <= range + 1
      invariant -range <= x <= range
      invariant diff == Abs(Residual(a, b, c, x, y)) && diff <= Abs(c)
      invariant forall x', k :: -range <= x' < xi && 0 <= k < 3 ==> diff <= Abs(Residual(a, b, c, x', ApproxYs(a, b, c, x')[k]))
    {
      var hit;
      x, y, diff, hit := TryApproxYs(a, b, c, xi, x, y, diff);
      if hit {
        forall x', y' | -range <= x' <= range ensures diff <= Abs(Residual(a, b, c, x', y')) { }
        return;
      }
      xi := xi + 1;
    }
    forall x', y' | -range <= x' <= range ensures diff <= Abs(Residual(a, b, c, x', y')) {
      var k := BestYUnbounded(a, b, c, x', y');
    }
  }

  /** The body of the scan for one `x`: the floor, ceiling and rounding of
      the `y` that would hit `c`; `hit` reports an exact hit, on which the
      source returns at once. */
  method TryApproxYs(a: int, b: int, c: int, xi: int, x0: int, y0: int, diff0: int)
    returns (x: int, y: int, diff: int, hit: bool)
    requires b != 0 && diff0 == Abs(Residual(a, b, c, x0, y0))
    ensures diff == Abs(Residual(a, b, c, x, y)) && diff <= diff0
    ensures (x == x0 && y == y0) || x == xi
    ensures forall k :: 0 <= k < 3 ==> diff <= Abs(Residual(a, b, c, xi, ApproxYs(a, b, c, xi)[k]))
    ensures hit ==> diff == 0
  {
    x, y, diff, hit := x0, y0, diff0, false;
    var p := c - xi * a;
    var ys := [FloorDiv(p, b), CeilDiv(p, b), RoundDiv(p, b)];
    assert ys == ApproxYs(a, b, c, xi);
    for k := 0 to 3
      invariant diff == Abs(Residual(a, b, c, x, y)) && diff <= diff0
      invariant (x == x0 && y == y0) || x == xi
      invariant forall k' :: 0 <= k' < k ==> diff <= Abs(Residual(a, b, c, xi, ys[k']))
    {
      var yk := ys[k];
      var sum := xi * a + yk * b;
      var d := Abs(sum - c);
      assert d == Abs(Residual(a, b, c, xi, yk));
      if d < diff {
        diff, x, y := d, xi, yk;
      }
      if d == 0 {
        assert diff == 0;
        return x, y, diff, true;
      }
    }
  }
}

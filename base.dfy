/** Small shared vocabulary: an Option type and the integer operations of the
    source language that differ from Dafny's own. */
module Base {

  datatype Option<+T> = None | Some(value: T)

  function Abs(x: int): (r: nat)
    ensures r == x || r == -x
  {
    if x < 0 then -x else x
  }

  function Max(x: int, y: int): (r: int)
    ensures r >= x && r >= y && (r == x || r == y)
  {
    if x >= y then x else y
  }

  function Min(x: int, y: int): (r: int)
    ensures r <= x && r <= y && (r == x || r == y)
  {
    if x <= y then x else y
  }

  /** Integer division of the source language: the quotient is truncated
      toward zero (Dafny's `/` is Euclidean), so `r * q` lies between zero
      and `p` and misses `p` by less than one divisor. */
  function RustDiv(p: int, q: int): (r: int)
    requires q != 0
    ensures 0 <= r * q <= p < r * q + Abs(q) || r * q - Abs(q) < p <= r * q <= 0
  {
    var t := Abs(p) / Abs(q);
    var r := if (p >= 0) == (q > 0) then t else -t;
    TruncationBounds(p, q, t, r);
    r
  }

  lemma TruncationBounds(p: int, q: int, t: int, r: int)
    requires q != 0 && t == Abs(p) / Abs(q)
    requires r == if (p >= 0) == (q > 0) then t else -t
    ensures 0 <= r * q <= p < r * q + Abs(q) || r * q - Abs(q) < p <= r * q <= 0
  {
    EuclidBounds(Abs(p), Abs(q), t);
    SignedProduct(p, q, t, r);
  }

  /** The quotient of two non-negative integers, times the divisor, lies
      within one divisor below the dividend. */
  lemma EuclidBounds(P: int, Q: int, t: int)
    requires P >= 0 && Q > 0 && t == P / Q
    ensures 0 <= t * Q <= P < t * Q + Q
  {
    var k := P % Q;
    assert P == t * Q + k && 0 <= k < Q;
    assert t >= 0;
  }

  /** Restoring the signs of the operands restores the sign of the product. */
  lemma SignedProduct(p: int, q: int, t: int, r: int)
    requires q != 0
    requires r == if (p >= 0) == (q > 0) then t else -t
    ensures r * q == if p >= 0 then t * Abs(q) else -(t * Abs(q))
  {
    if q > 0 {
    } else if p >= 0 {
      assert r == -t && q + Abs(q) == 0;
    } else {
      assert r == t && q + Abs(q) == 0;
    }
  }

  /** The floor of p/q, for a divisor of either sign. */
  function FloorDiv(p: int, q: int): (r: int)
    requires q != 0
    ensures q > 0 ==> r * q <= p < r * q + q
    ensures q < 0 ==> r * q >= p > r * q + q
  {
    if q > 0 then p / q else (-p) / (-q)
  }

  /** The ceiling of p/q, for a divisor of either sign. */
  function CeilDiv(p: int, q: int): (r: int)
    requires q != 0
    ensures q > 0 ==> r * q - q < p <= r * q
    ensures q < 0 ==> r * q - q > p >= r * q
  {
    -FloorDiv(-p, q)
  }

  /** p/q rounded to the nearest integer, halves away from zero: what
      `f64::round` gives on the exact quotient of two small integers. */
  function RoundDiv(p: int, q: int): (r: int)
    requires q != 0
    ensures Abs(2 * (r * q - p)) <= Abs(q)
    ensures Abs(2 * (r * q - p)) == Abs(q) ==> Abs(r * q) > Abs(p)
  {
    var t := (2 * Abs(p) + Abs(q)) / (2 * Abs(q));
    var r := if (p >= 0) == (q > 0) then t else -t;
    RoundMagnitude(Abs(p), Abs(q), t);
    RoundSign(p, q, t, r);
    r
  }

  /** The rounded quotient of two non-negative integers is within half a unit. */
  lemma RoundMagnitude(P: int, Q: int, t: int)
    requires P >= 0 && Q > 0 && t == (2 * P + Q) / (2 * Q)
    ensures -Q < 2 * (t * Q - P) <= Q
    ensures t >= 0
  {
    var k := (2 * P + Q) % (2 * Q);
    assert 2 * P + Q == (2 * Q) * t + k && 0 <= k < 2 * Q;
    assert (2 * Q) * t == 2 * (t * Q);
  }

  lemma RoundSign(p: int, q: int, t: int, r: int)
    requires q != 0
    requires var Q: int := Abs(q); -Q < 2 * (t * Q - Abs(p)) <= Q
    requires r == if (p >= 0) == (q > 0) then t else -t
    requires t >= 0
    ensures Abs(2 * (r * q - p)) <= Abs(q)
    ensures Abs(2 * (r * q - p)) == Abs(q) ==> Abs(r * q) > Abs(p)
  {
    var P: int, Q: int := Abs(p), Abs(q);
    if q > 0 && p >= 0 { assert r * q == t * Q; }
    else if q > 0 { assert r * q == -(t * Q); }
    else if p >= 0 { assert r == -t && q == -Q; assert r * q == t * Q; }
    else { assert r == t && q == -Q; assert r * q == -(t * Q); }
  }

  /** A quotient rounded to within half a divisor is a best integer multiple. */
  lemma RoundIsNearest(p: int, q: int, r: int, r': int)
    requires q != 0 && Abs(2 * (r * q - p)) <= Abs(q)
    ensures Abs(r * q - p) <= Abs(r' * q - p)
  {
    if r' != r {
      var d := r' - r;
      var e := r * q - p;
      MultipleAtLeastDivisor(d, q);
      assert r' * q == d * q + r * q;
      assert r' * q - p == d * q + e;
    }
  }

  lemma MultipleAtLeastDivisor(d: int, q: int)
    requires d != 0 && q != 0
    ensures Abs(d * q) >= Abs(q)
  {
    if d > 0 {
      if q > 0 { assert d * q >= q; } else { assert d * q <= q; }
    } else {
      if q > 0 { assert d * q <= -q; } else { assert d * q >= -q; }
    }
  }

  /** Multiplying by a non-negative factor keeps the order. */
  lemma MulMono(u: int, v: int, q: int)
    requires u <= v && q >= 0
    ensures u * q <= v * q
  {
    var d := v - u;
    assert v * q == u * q + d * q;
  }

  /** Products by the same positive factor are ordered like the other factors. */
  lemma LessFromProducts(u: int, v: int, q: int)
    requires q > 0 && u * q < v * q
    ensures u < v
  {
    if u >= v { MulMono(v, u, q); }
  }

  /** A Euclidean quotient is at least any `k` whose multiple fits in `p`. */
  lemma DivLowerBound(p: int, q: int, k: int)
    requires q > 0 && k * q <= p
    ensures p / q >= k
  {
    var r := p / q;
    assert p == r * q + p % q;
    assert p < (r + 1) * q;
    LessFromProducts(k, r + 1, q);
  }
}

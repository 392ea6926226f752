/**
 * Non-negative integers in binary floating point: rounding to nearest, ties to even
 * (section 4.3.1 of IEEE 754-2008).  `limit` is 2 to the precision.
 */
module Floats {

  const SINGLE: nat := 0x100_0000 // 2^24
  const DOUBLE: nat := 0x20_0000_0000_0000 // 2^53

  /** The spacing of the floating-point numbers around `n`: 1 below the limit, then 2, 4, ... */
  function Ulp(n: nat, limit: nat): (u: nat)
    requires limit > 0
    ensures u > 0
  {
    if n < limit then 1 else 2 * Ulp(n / 2, limit)
  }

  /** The multiple of `u` nearest to `n`, an even one if there are two. */
  function Nearest(n: nat, u: nat): nat
    requires u > 0
  {
    var q, r := n / u, n % u;
    if 2 * r < u || (2 * r == u && q % 2 == 0) then q * u else (q + 1) * u
  }

  function Round(n: nat, limit: nat): nat
    requires limit > 0
  {
    Nearest(n, Ulp(n, limit))
  }

  // ---- It is rounding to nearest, ties to even ----

  /** The spacing: between limit / 2 and limit of them make `n`, or it is 1. */
  lemma {:induction false} SpacingBounds(n: nat, limit: nat)
    requires limit > 0 && limit % 2 == 0
    ensures n < limit ==> Ulp(n, limit) == 1
    ensures n < limit * Ulp(n, limit)
    ensures n >= limit ==> Ulp(n, limit) % 2 == 0 && limit / 2 * Ulp(n, limit) <= n
  {
    if n >= limit {
      SpacingBounds(n / 2, limit);
      var h := Ulp(n / 2, limit);
      assert Ulp(n, limit) == 2 * h;
      hide Ulp;
      Doubled(n, limit / 2, h);
      assert n / 2 < limit ==> h == 1;
    }
  }

  lemma Doubled(n: nat, m: nat, h: nat)
    ensures m * (2 * h) == 2 * (m * h) && 2 * m * (2 * h) == 4 * (m * h) && 2 * m * h == 2 * (m * h)
  {
  }

  lemma Neighbours(n: nat, u: nat)
    requires u > 0
    ensures n / u * u <= n < (n / u + 1) * u
    ensures n % u == n - n / u * u
    ensures (n / u + 1) * u == n / u * u + u
  {
  }

  lemma MulMono(a: int, b: int, u: nat)
    ensures a <= b ==> a * u <= b * u
  {
    if a <= b {
      assert (b - a) * u >= 0;
    }
  }

  lemma DivisionIs(n: nat, u: nat, q: nat, r: nat)
    requires n == q * u + r && r < u
    ensures n / u == q && n % u == r
  {
    var p := n / u;
    Neighbours(n, u);
    MulMono(p + 1, q, u);
    MulMono(q + 1, p, u);
  }

  lemma Multiples(q: nat, u: nat)
    requires u > 0
    ensures q * u % u == 0 && q * u / u == q
    ensures (q * u + u) % u == 0 && (q * u + u) / u == q + 1
  {
    DivisionIs(q * u, u, q, 0);
    assert q * u + u == (q + 1) * u;
    DivisionIs(q * u + u, u, q + 1, 0);
  }

  lemma RoundIs(n: nat, limit: nat)
    requires limit > 0
    ensures var u := Ulp(n, limit);
      Round(n, limit) == n / u * u + if 2 * (n % u) < u || (2 * (n % u) == u && n / u % 2 == 0) then 0 else u
  {
    hide Ulp;
    Neighbours(n, Ulp(n, limit));
  }

  /** The result is a multiple of the spacing, at most half a spacing away, and of two
      such multiples the even one. */
  lemma RoundsTo(n: nat, limit: nat)
    requires limit > 0
    ensures var r, u := Round(n, limit), Ulp(n, limit);
      && r % u == 0 && 2 * (r - n) <= u && 2 * (n - r) <= u
      && (2 * (n % u) == u ==> r / u % 2 == 0)
  {
    hide Ulp, Nearest;
    NearestTo(n, Ulp(n, limit));
  }

  lemma NearestTo(n: nat, u: nat)
    requires u > 0
    ensures var r := Nearest(n, u);
      && r % u == 0 && 2 * (r - n) <= u && 2 * (n - r) <= u
      && (2 * (n % u) == u ==> r / u % 2 == 0)
  {
    var q, p := n / u, n / u * u;
    Neighbours(n, u);
    Multiples(q, u);
    assert Nearest(n, u) == if 2 * (n % u) < u || (2 * (n % u) == u && q % 2 == 0) then p else p + u;
    hide Nearest;
  }
}

/**
 * The page count of the preloaded malloc: the request size is first rounded to
 * binary32, to nearest with ties to even (section 4.3.1 of IEEE 754-2008).
 */
module PreloadMalloc {
  import opened Floats

  /** The spacing of binary32 numbers around `n`: 1 below 2^24, then 2, 4, ... */
  function Ulp(n: nat): (u: nat)
    ensures u > 0
    ensures n >= 0x100_0000 ==> u == 2 * Ulp(n / 2)
  {
    Floats.Ulp(n, SINGLE)
  }

  /** Integers that are binary32 numbers. */
  predicate Representable(n: nat) {
    n % Ulp(n) == 0
  }

  /** (float)n */
  function RoundFloat(n: nat): nat {
    Round(n, SINGLE)
  }

  /** Dividing by 4096 only changes the exponent, so the ceiling is of the exact quotient. */
  function PageCount(size: nat): nat {
    (RoundFloat(size) + 4095) / 4096
  }

  function Distance(a: int, b: int): nat {
    if a < b then b - a else a - b
  }

  // ---- RoundFloat is rounding to nearest ----

  /** The spacing of `n`: between 2^23 and 2^24 of them make `n`, or it is 1. */
  lemma UlpBounds(n: nat)
    ensures n < 0x100_0000 ==> Ulp(n) == 1
    ensures n < 0x100_0000 * Ulp(n)
    ensures n >= 0x100_0000 ==> Ulp(n) % 2 == 0 && 0x80_0000 * Ulp(n) <= n
  {
    hide Floats.Ulp;
    SpacingBounds(n, SINGLE);
  }

  /** Numbers of one binade have one spacing. */
  lemma {:induction false} UlpOfBinade(n: nat, m: nat)
    requires n >= 0x100_0000 && 0x80_0000 * Ulp(n) <= m < 0x100_0000 * Ulp(n)
    ensures Ulp(m) == Ulp(n)
  {
    var h := Ulp(n / 2);
    assert Ulp(n) == 2 * h;
    if n / 2 >= 0x100_0000 {
      assert 0x80_0000 * h <= m / 2 < 0x100_0000 * h;
      UlpOfBinade(n / 2, m / 2);
      UlpBounds(n / 2);
    } else {
      assert h == 1;
    }
  }

  /** Above 2^24 a number lies between 2^23 and 2^24 of its spacings. */
  lemma SpacingsOf(n: nat)
    requires n >= 0x100_0000
    ensures 0x80_0000 <= n / Ulp(n) < 0x100_0000
  {
    UlpBounds(n);
    hide Ulp;
    var u, q := Ulp(n), n / Ulp(n);
    Neighbours(n, u);
    MulMono(q + 1, 0x80_0000, u);
    MulMono(0x100_0000, q, u);
  }

  /** Nothing representable lies strictly between the two candidates. */
  lemma NothingBetween(n: nat, m: nat)
    requires n / Ulp(n) * Ulp(n) < m < (n / Ulp(n) + 1) * Ulp(n)
    ensures !Representable(m)
  {
    var u, q := Ulp(n), n / Ulp(n);
    if n >= 0x100_0000 {
      SpacingsOf(n);
      Neighbours(n, u);
      MulMono(0x80_0000, q, u);
      MulMono(q + 1, 0x100_0000, u);
      UlpOfBinade(n, m);
      hide Ulp;
      NotMultiple(m, q, u);
    }
  }

  lemma NotMultiple(m: nat, q: nat, u: nat)
    requires u > 0 && q * u < m < q * u + u
    ensures m % u != 0
  {
    var p := m / u;
    Neighbours(m, u);
    MulMono(p, q, u);
    MulMono(q + 1, p, u);
  }

  /** No binary32 number is closer to `n` than RoundFloat(n). */
  lemma RoundsToNearest(n: nat, m: nat)
    requires Representable(m)
    ensures Distance(n, RoundFloat(n)) <= Distance(n, m)
    ensures 2 * Distance(n, RoundFloat(n)) <= Ulp(n)
  {
    hide Floats.Ulp, Nearest, Ulp;
    RoundFloatIs(n);
    Neighbours(n, Ulp(n));
    if n / Ulp(n) * Ulp(n) < m < (n / Ulp(n) + 1) * Ulp(n) {
      NothingBetween(n, m);
    }
  }

  // ---- What the rounding does to the page count ----

  /** Up to 2^24 bytes the count is the exact ceiling, so the pages cover the request. */
  lemma ExactUpTo16M(size: nat)
    requires size <= 0x100_0000
    ensures PageCount(size) == (size + 4095) / 4096
    ensures size <= 4096 * PageCount(size)
  {
    if size == 0x100_0000 {
      assert Ulp(size) == 2 * Ulp(size / 2) == 2;
    }
  }

  /** The first size whose pages do not cover it. */
  lemma FirstShortfall()
    ensures 4096 * PageCount(0x100_0001) == 0x100_0000
    ensures forall size: nat :: size < 0x100_0001 ==> size <= 4096 * PageCount(size)
  {
    assert Ulp(0x100_0001) == 2 * Ulp(0x80_0000) == 2;
    forall size: nat | size < 0x100_0001 ensures size <= 4096 * PageCount(size) {
      ExactUpTo16M(size);
    }
  }

  /** The uncovered bytes never exceed half a unit in the last place. */
  lemma ShortfallBound(size: nat)
    ensures 2 * (size - 4096 * PageCount(size)) <= Ulp(size)
  {
    Neighbours(size, Ulp(size));
    assert RoundFloat(size) <= 4096 * PageCount(size);
  }

  lemma {:induction false} UlpIsPowerOfTwo(n: nat)
    ensures Ulp(n) in {1, 2, 4, 8, 16, 32, 64, 128, 256, 512, 1024, 2048} || Ulp(n) % 4096 == 0
  {
    if n >= 0x100_0000 {
      UlpIsPowerOfTwo(n / 2);
      var h := Ulp(n / 2);
      assert Ulp(n) == 2 * h;
      hide Ulp;
      assert h % 4096 == 0 ==> 2 * h % 4096 == 0;
    }
  }

  lemma MulAssoc(w: nat, k: nat, a: nat, u: nat)
    requires u * w == 4096
    ensures (w * k + a) * u == 4096 * k + a * u
  {
    assert (w * k + a) * u == (u * w) * k + a * u;
  }

  /** Whole spacings never overrun the page. */
  lemma FitsInPage(w: nat, a: nat, u: nat)
    requires u * w == 4096 && a * u < 4096
    ensures a * u + u <= 4096
  {
    MulMono(w, a, u);
    MulMono(a + 1, w, u);
  }

  /** The size in spacings: k pages, `a` whole spacings and a rest. */
  lemma SizeInSpacings(size: nat, w: nat, u: nat) returns (a: nat, r: nat)
    requires u > 0 && u * w == 4096 && w % 2 == 0
    ensures size % 4096 == a * u + r && r < u && a * u + u <= 4096
    ensures size % u == r && size / u * u == 4096 * (size / 4096) + a * u
    ensures if a == 0 then a * u == 0 && size / u % 2 == 0 else a * u >= u
  {
    var k, s := size / 4096, size % 4096;
    a, r := s / u, s % u;
    Neighbours(s, u);
    MulAssoc(w, k, a, u);
    DivisionIs(size, u, w * k + a, r);
    FitsInPage(w, a, u);
    EvenTimes(w, k);
    MulMono(1, a, u);
  }

  /** With w spacings to a page: the size rounds down to its last page boundary exactly
      when it is at most half a spacing past it, and never leaves its page. */
  lemma RoundsWithinPage(size: nat, w: nat)
    requires Ulp(size) * w == 4096 && w % 2 == 0
    ensures var k, s := size / 4096, size % 4096;
      && (2 * s <= Ulp(size) ==> RoundFloat(size) == 4096 * k)
      && (2 * s > Ulp(size) ==> 4096 * k < RoundFloat(size) <= 4096 * k + 4096)
  {
    RoundFloatIs(size);
    var a, r := SizeInSpacings(size, w, Ulp(size));
    hide Ulp, RoundFloat;
  }

  lemma RoundFloatIs(n: nat)
    ensures var u := Ulp(n);
      RoundFloat(n) == n / u * u + if 2 * (n % u) < u || (2 * (n % u) == u && n / u % 2 == 0) then 0 else u
  {
    hide Floats.Ulp, Round;
    RoundIs(n, SINGLE);
  }

  lemma RoundFloatUnfolds(n: nat)
    ensures RoundFloat(n) == Nearest(n, Ulp(n))
  {
    hide Floats.Ulp, Nearest;
  }

  lemma EvenTimes(w: nat, k: nat)
    requires w % 2 == 0
    ensures w * k % 2 == 0
  {
    assert w * k == 2 * (w / 2 * k);
  }

  /** Exactly when the pages cover the request.  While the spacing divides the page
      size, the last partial page must be used by more than half a spacing; beyond
      that, the size must not be rounded down. */
  lemma CoversExactly(size: nat)
    ensures var u, covered := Ulp(size), size <= 4096 * PageCount(size);
      if u < 4096 then
        covered <==> size % 4096 == 0 || 2 * (size % 4096) > u
      else
        covered <==> size % u == 0 || 2 * (size % u) > u || (2 * (size % u) == u && size / u % 2 == 1)
  {
    UlpIsPowerOfTwo(size);
    if Ulp(size) < 4096 {
      CoversSmall(size);
    } else {
      CoversLarge(size);
    }
  }

  /** How many pages exactly.  While the spacing divides the page size, one more than the
      whole pages if the rest is more than half a spacing; beyond that, the rounded size. */
  lemma PagesExactly(size: nat)
    ensures var u := Ulp(size);
      if u < 4096 then
        PageCount(size) == size / 4096 + if 2 * (size % 4096) > u then 1 else 0
      else
        4096 * PageCount(size) == RoundFloat(size)
  {
    UlpIsPowerOfTwo(size);
    if Ulp(size) < 4096 {
      hide Ulp, RoundFloat;
      var w := Spacings(Ulp(size));
      RoundsWithinPage(size, w);
    } else {
      WholePages(size);
    }
  }

  /** So malloc never asks for much more than it needs: less than a page, or half a unit. */
  lemma ExcessBound(size: nat)
    ensures var u, excess := Ulp(size), 4096 * PageCount(size) - size;
      if u < 4096 then excess < 4096 else 2 * excess <= u
  {
    PagesExactly(size);
    Neighbours(size, Ulp(size));
    RoundFloatIs(size);
    hide Ulp, RoundFloat, PageCount;
  }

  /** The rounded size is a binary32 number, and of two nearest ones it is the even one. */
  lemma RoundsToEven(n: nat)
    ensures RoundFloat(n) % Ulp(n) == 0
    ensures 2 * (n % Ulp(n)) == Ulp(n) ==> RoundFloat(n) / Ulp(n) % 2 == 0
  {
    hide Floats.Ulp, Round;
    RoundsTo(n, SINGLE);
  }

  lemma CoversSmall(size: nat)
    requires Ulp(size) in {1, 2, 4, 8, 16, 32, 64, 128, 256, 512, 1024, 2048}
    ensures size <= 4096 * PageCount(size) <==> size % 4096 == 0 || 2 * (size % 4096) > Ulp(size)
  {
    hide Ulp, RoundFloat;
    var w := Spacings(Ulp(size));
    RoundsWithinPage(size, w);
    PagesFor(size, RoundFloat(size));
  }

  lemma PagesFor(size: nat, rounded: nat)
    ensures var k := size / 4096;
      && (rounded == 4096 * k ==> (size <= 4096 * ((rounded + 4095) / 4096) <==> size % 4096 == 0))
      && (4096 * k < rounded <= 4096 * k + 4096 ==> size <= 4096 * ((rounded + 4095) / 4096))
  {
  }

  lemma CoversLarge(size: nat)
    requires Ulp(size) % 4096 == 0
    ensures var u := Ulp(size);
      size <= 4096 * PageCount(size) <==>
        size % u == 0 || 2 * (size % u) > u || (2 * (size % u) == u && size / u % 2 == 1)
  {
    WholePages(size);
    RoundFloatIs(size);
    Neighbours(size, Ulp(size));
    hide Ulp, RoundFloat, PageCount;
  }

  lemma Spacings(u: nat) returns (w: nat)
    requires u in {1, 2, 4, 8, 16, 32, 64, 128, 256, 512, 1024, 2048}
    ensures u * w == 4096 && w % 2 == 0
  {
    w := if u == 1 then 4096 else if u == 2 then 2048 else if u == 4 then 1024 else if u == 8 then 512
         else if u == 16 then 256 else if u == 32 then 128 else if u == 64 then 64 else if u == 128 then 32
         else if u == 256 then 16 else if u == 512 then 8 else if u == 1024 then 4 else 2;
  }

  lemma WholePages(size: nat)
    requires Ulp(size) % 4096 == 0
    ensures 4096 * PageCount(size) == RoundFloat(size)
  {
    hide Ulp, RoundFloat;
    var p := RoundedIsMultiple(size);
    TimesPages(p, Ulp(size));
    WholeCeiling(RoundFloat(size));
  }

  lemma RoundedIsMultiple(n: nat) returns (p: nat)
    ensures RoundFloat(n) == p * Ulp(n)
  {
    hide Ulp, Floats.Ulp;
    RoundFloatUnfolds(n);
    var u := Ulp(n);
    p := if 2 * (n % u) < u || (2 * (n % u) == u && n / u % 2 == 0) then n / u else n / u + 1;
  }

  lemma WholeCeiling(x: nat)
    ensures x % 4096 == 0 ==> 4096 * ((x + 4095) / 4096) == x
  {
  }

  lemma TimesPages(p: nat, u: nat)
    requires u % 4096 == 0
    ensures p * u % 4096 == 0
  {
    assert u == 4096 * (u / 4096);
    assert p * (4096 * (u / 4096)) == 4096 * (p * (u / 4096));
  }
}

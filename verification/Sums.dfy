/** Sums of consecutive numbers, exact and in double precision. */
module Sums {
  import Floats

  /** 0 + 1 + ... + (n - 1) */
  function SumBelow(n: nat): nat {
    if n == 0 then 0 else SumBelow(n - 1) + (n - 1)
  }

  lemma {:induction false} SumBelowIs(n: nat)
    ensures SumBelow(n) == n * (n - 1) / 2
  {
    if n > 0 {
      SumBelowIs(n - 1);
      assert n * (n - 1) == (n - 1) * (n - 2) + 2 * (n - 1);
    }
  }

  /** One addition in binary64. */
  function AddDouble(a: nat, b: nat): nat {
    Floats.Round(a + b, Floats.DOUBLE)
  }

  /** The same sum in binary64, rounded after every addition. */
  function DoubleSum(n: nat): nat {
    if n == 0 then 0 else AddDouble(DoubleSum(n - 1), n - 1)
  }

  /** However large the numbers: their sum is replaced by a nearest binary64 number, an
      even one if there are two. */
  lemma AddDoubleRounds(a: nat, b: nat)
    ensures var s, r, u := a + b, AddDouble(a, b), Floats.Ulp(a + b, 0x20_0000_0000_0000);
      && r % u == 0 && 2 * (r - s) <= u && 2 * (s - r) <= u
      && (2 * (s % u) == u ==> r / u % 2 == 0)
      && if s < 0x20_0000_0000_0000 then u == 1 else u % 2 == 0 && 0x10_0000_0000_0000 * u <= s < 0x20_0000_0000_0000 * u
  {
    hide Floats.Ulp, Floats.Round;
    Floats.RoundsTo(a + b, Floats.DOUBLE);
    Floats.SpacingBounds(a + b, Floats.DOUBLE);
  }

  lemma RoundExactly(n: nat)
    ensures n < Floats.DOUBLE ==> Floats.Round(n, Floats.DOUBLE) == n
    ensures Floats.DOUBLE <= n < 2 * Floats.DOUBLE ==> (Floats.Round(n, Floats.DOUBLE) == n <==> n % 2 == 0)
  {
    if Floats.DOUBLE <= n < 2 * Floats.DOUBLE {
      assert Floats.Ulp(n, Floats.DOUBLE) == 2 * Floats.Ulp(n / 2, Floats.DOUBLE) == 2;
    }
  }

  lemma ProductGrows(a: nat, b: nat)
    requires a <= b
    ensures 0 <= a * (a - 1) <= b * (b - 1)
  {
    if a > 0 {
      assert a * (a - 1) <= b * (a - 1) <= b * (b - 1);
    }
  }

  lemma SumsUpTo(n: nat)
    ensures n <= 0x800_0000 ==> SumBelow(n) < Floats.DOUBLE
    ensures n == 0x800_0001 ==> SumBelow(n) == Floats.DOUBLE + 0x400_0000
  {
    hide SumBelow;
    SumBelowIs(n);
    if n <= 0x800_0000 {
      ProductGrows(n, 0x800_0000);
    }
  }

  /** The double sum of the numbers below `n` is exact up to n = 2^27 + 1. */
  lemma {:induction false} DoubleSumExact(n: nat)
    requires n <= 0x800_0001
    ensures DoubleSum(n) == SumBelow(n)
  {
    hide Floats.Round;
    if n > 0 {
      DoubleSumExact(n - 1);
      SumsUpTo(n);
      RoundExactly(SumBelow(n));
    }
  }

  lemma RoundsTies(n: nat)
    requires Floats.DOUBLE <= n < 2 * Floats.DOUBLE
    ensures n % 2 == 0 ==> Floats.Round(n, Floats.DOUBLE) == n
    ensures n % 4 == 1 ==> Floats.Round(n, Floats.DOUBLE) == n - 1
  {
    assert Floats.Ulp(n, Floats.DOUBLE) == 2 * Floats.Ulp(n / 2, Floats.DOUBLE) == 2;
  }

  /** Before rounding, an addition beyond 2^27 numbers gives an even number or one above
      a multiple of 4: ties always go down. */
  lemma BeforeRounding(n: nat)
    requires 0x800_0000 < n && SumBelow(n) < 2 * Floats.DOUBLE
    ensures var t := SumBelow(n) - (n - 1 - 0x800_0000) / 2;
      && Floats.DOUBLE <= t < 2 * Floats.DOUBLE
      && if n % 2 == 1 then t % 2 == 0 else t % 4 == 1
  {
    hide SumBelow;
    SumBelowIs(n);
    if n >= 0x1000_0000 {
      ProductGrows(0x1000_0000, n);
    }
    ProductGrows(0x800_0001, n);
    ResidueIs(n);
  }

  lemma ResidueIs(n: nat)
    requires n > 0
    ensures var t := n * (n - 1) / 2 - (n - 1 - 0x800_0000) / 2;
      if n % 2 == 1 then t % 2 == 0 else t % 4 == 1
  {
    var k := (n - 1) / 2;
    var h := Consecutive(k);
    HalfProduct(n, k, h);
    Residue(n * (n - 1), k, h);
  }

  lemma Residue(p: int, k: nat, h: nat)
    ensures p == 2 * (4 * h - k) ==> (p / 2 - (2 * k - 0x800_0000) / 2) % 2 == 0
    ensures p == 2 * (4 * h + k + 1) ==> (p / 2 - (2 * k + 1 - 0x800_0000) / 2) % 4 == 1
  {
    assert (2 * k - 0x800_0000) / 2 == k - 0x400_0000;
    assert (2 * k + 1 - 0x800_0000) / 2 == k - 0x400_0000;
    if p == 2 * (4 * h - k) {
      assert p / 2 - (2 * k - 0x800_0000) / 2 == 2 * (2 * h - k + 0x200_0000);
    } else if p == 2 * (4 * h + k + 1) {
      assert p / 2 - (2 * k + 1 - 0x800_0000) / 2 == 4 * (h + 0x100_0000) + 1;
    }
  }

  lemma HalfProduct(n: nat, k: nat, h: nat)
    requires k * (k + 1) == 2 * h
    ensures n == 2 * k + 1 ==> n * (n - 1) == 2 * (4 * h - k)
    ensures n == 2 * k + 2 ==> n * (n - 1) == 2 * (4 * h + k + 1)
  {
    assert k * (k + 1) == k * k + k;
    assert (2 * k + 1) * (2 * k) == 4 * (k * k) + 2 * k;
    assert (2 * k + 2) * (2 * k + 1) == 4 * (k * k) + 6 * k + 2;
  }

  lemma {:induction false} Consecutive(k: nat) returns (h: nat)
    ensures k * (k + 1) == 2 * h
  {
    h := 0;
    if k > 0 {
      var g := Consecutive(k - 1);
      h := g + k;
      assert k * (k + 1) == (k - 1) * k + 2 * k;
    }
  }

  lemma OneMore(n: nat)
    requires n > 0
    ensures SumBelow(n) == SumBelow(n - 1) + (n - 1)
    ensures DoubleSum(n) == Floats.Round(DoubleSum(n - 1) + (n - 1), Floats.DOUBLE)
  {
    hide Floats.Round;
  }

  /** From 2^27 numbers on, as long as the sum is below 2^54, every second addition loses 1. */
  lemma {:induction false} DoubleSumLoses(n: nat)
    requires 0x800_0000 <= n && SumBelow(n) < 2 * Floats.DOUBLE
    ensures DoubleSum(n) == SumBelow(n) - (n - 0x800_0000) / 2
  {
    hide Floats.Round, SumBelow, DoubleSum;
    if n == 0x800_0000 {
      DoubleSumExact(n);
    } else {
      OneMore(n);
      DoubleSumLoses(n - 1);
      BeforeRounding(n);
      RoundsTies(SumBelow(n) - (n - 1 - 0x800_0000) / 2);
    }
  }

  /** So over that range the double sum is exact exactly up to n = 2^27 + 1. */
  lemma DoubleSumExactly(n: nat)
    requires SumBelow(n) < 2 * Floats.DOUBLE
    ensures DoubleSum(n) == SumBelow(n) <==> n <= 0x800_0001
  {
    if n <= 0x800_0001 { DoubleSumExact(n); } else { DoubleSumLoses(n); }
  }
}

/**
 * The throughput benchmark's random workload on plain memory: every index is drawn
 * exactly once, whatever the random numbers.
 */
module RandomOrder {
  import opened Sums

  class Vector {
    var elems: seq<int>

    constructor (n: nat)
      ensures |elems| == n && forall i :: 0 <= i < n ==> elems[i] == 0
    {
      elems := seq(n, _ => 0);
    }
  }

  /** `v` without its `k`-th element: the last one takes its place. */
  function Removed(v: seq<int>, k: nat): (r: seq<int>)
    requires k < |v|
    ensures |r| == |v| - 1
  {
    v[k := v[|v| - 1]][..|v| - 1]
  }

  /** The index drawn when `n` elements are left. */
  function Draw(rand: nat -> nat, n: nat): (k: nat)
    requires n > 0
    ensures k < n
  {
    rand(n) % n
  }

  /** The order in which a vector is drained; `rand` gives the random number drawn
      when so many elements are left. */
  function Drained(v: seq<int>, rand: nat -> nat): (order: seq<int>)
    ensures |order| == |v|
    decreases |v|
  {
    if v == [] then []
    else
      var k := Draw(rand, |v|);
      [v[k]] + Drained(Removed(v, k), rand)
  }

  function Iota(n: nat): (v: seq<int>)
    ensures |v| == n && forall i :: 0 <= i < n ==> v[i] == i
  {
    seq(n, i => i)
  }

  lemma RemovedLosesOne(v: seq<int>, k: nat)
    requires k < |v|
    ensures multiset(v) == multiset(Removed(v, k)) + multiset{v[k]}
  {
    var n := |v| - 1;
    assert v == v[..n] + [v[n]];
    if k < n {
      assert v[..n] == v[..k] + [v[k]] + v[k + 1..n];
      assert Removed(v, k) == v[..k] + [v[n]] + v[k + 1..n];
    } else {
      assert Removed(v, k) == v[..n];
    }
  }

  /** Draining yields a permutation for any random numbers. */
  lemma {:induction false} DrainedIsPermutation(v: seq<int>, rand: nat -> nat)
    ensures multiset(Drained(v, rand)) == multiset(v)
    decreases |v|
  {
    if v != [] {
      var k := Draw(rand, |v|);
      RemovedLosesOne(v, k);
      DrainedIsPermutation(Removed(v, k), rand);
    }
  }

  /** So every index below n is drawn, and drawn once. */
  lemma EveryIndexOnce(n: nat, rand: nat -> nat)
    ensures forall i :: i in Drained(Iota(n), rand) <==> 0 <= i < n
    ensures forall i :: 0 <= i < n ==> multiset(Drained(Iota(n), rand))[i] == 1
  {
    var order := Drained(Iota(n), rand);
    DrainedIsPermutation(Iota(n), rand);
    IotaCounts(n);
    forall i ensures i in order <==> 0 <= i < n {
      assert i in order <==> i in multiset(order);
      assert i in Iota(n) <==> i in multiset(Iota(n));
    }
  }

  lemma {:induction false} IotaCounts(n: nat)
    ensures forall i :: multiset(Iota(n))[i] == if 0 <= i < n then 1 else 0
  {
    if n > 0 {
      IotaCounts(n - 1);
      assert Iota(n) == Iota(n - 1) + [n - 1];
    }
  }

  /** And any order can come out: draining can yield every permutation. */
  lemma {:induction false} EveryOrderPossible(v: seq<int>, order: seq<int>) returns (rand: nat -> nat)
    requires multiset(order) == multiset(v)
    ensures Drained(v, rand) == order
    decreases |v|
  {
    hide Drained, Removed;
    rand := _ => 0;
    SameLength(v, order);
    if v != [] {
      var k := PickFirst(v, order);
      var rest := EveryOrderPossible(Removed(v, k), order[1..]);
      rand := m => if m == |v| then k else rest(m);
      SameDraws(Removed(v, k), rand, rest);
      DrainedFirst(v, rand, k);
    }
  }

  lemma SameLength(v: seq<int>, order: seq<int>)
    requires multiset(order) == multiset(v)
    ensures |order| == |v| && Drained([], _ => 0) == []
  {
    assert |order| == |multiset(order)| && |v| == |multiset(v)|;
  }

  lemma PickFirst(v: seq<int>, order: seq<int>) returns (k: nat)
    requires multiset(order) == multiset(v) && v != [] && order != []
    ensures k < |v| && v[k] == order[0] && multiset(order[1..]) == multiset(Removed(v, k))
  {
    assert order[0] in multiset(order);
    k :| 0 <= k < |v| && v[k] == order[0];
    RemovedLosesOne(v, k);
    hide Removed;
    assert order == [order[0]] + order[1..];
    Cancel(multiset(order[1..]), multiset(Removed(v, k)), v[k]);
  }

  lemma DrainedFirst(v: seq<int>, rand: nat -> nat, k: nat)
    requires k < |v| && rand(|v|) == k
    ensures Drained(v, rand) == [v[k]] + Drained(Removed(v, k), rand)
  {
    assert Draw(rand, |v|) == k;
    hide Removed;
  }

  lemma Cancel(a: multiset<int>, b: multiset<int>, x: int)
    requires a + multiset{x} == b + multiset{x}
    ensures a == b
  {
    assert a == a + multiset{x} - multiset{x};
  }

  /** Only the numbers drawn matter. */
  lemma {:induction false} SameDraws(v: seq<int>, rand: nat -> nat, rand2: nat -> nat)
    requires forall m: nat :: m <= |v| ==> rand(m) == rand2(m)
    ensures Drained(v, rand) == Drained(v, rand2)
    decreases |v|
  {
    if v != [] { SameDraws(Removed(v, Draw(rand, |v|)), rand, rand2); }
  }

  function Total(v: seq<int>): int {
    if v == [] then 0 else Total(v[..|v| - 1]) + v[|v| - 1]
  }

  lemma {:induction false} TotalPick(v: seq<int>, k: nat)
    requires k < |v|
    ensures Total(v) == Total(v[..k] + v[k + 1..]) + v[k]
  {
    var n := |v| - 1;
    var rest := v[..k] + v[k + 1..];
    if k == n {
      assert rest == v[..n];
    } else {
      TotalPick(v[..n], k);
      assert rest[..n - 1] == v[..n][..k] + v[..n][k + 1..];
    }
  }

  lemma {:induction false} TotalRemoved(v: seq<int>, k: nat)
    requires k < |v|
    ensures Total(v) == Total(Removed(v, k)) + v[k]
  {
    var n := |v| - 1;
    if k < n {
      TotalPick(v[..n], k);
      TotalPick(Removed(v, k), k);
      assert Removed(v, k)[..k] + Removed(v, k)[k + 1..] == v[..n][..k] + v[..n][k + 1..];
    } else {
      assert Removed(v, k) == v[..n];
    }
  }

  lemma {:induction false} TotalIota(n: nat)
    ensures Total(Iota(n)) == SumBelow(n)
  {
    if n > 0 {
      TotalIota(n - 1);
      assert Iota(n)[..n - 1] == Iota(n - 1);
    }
  }

  // ---- The benchmark's functions ----

  method GetNum(v: Vector, rand: nat) returns (num: int)
    requires v.elems != []
    modifies v
    ensures num == old(v.elems)[rand % |old(v.elems)|]
    ensures v.elems == Removed(old(v.elems), rand % |old(v.elems)|)
  {
    var n := |v.elems|;
    var index := rand % n;
    num := v.elems[index];
    v.elems := v.elems[index := v.elems[n - 1]][n - 1 := num];
    v.elems := v.elems[..n - 1];
  }

  method GetIndexArray(n: nat) returns (v: Vector)
    ensures fresh(v) && v.elems == Iota(n)
  {
    v := new Vector(n);
    for i := 0 to n
      invariant fresh(v) && |v.elems| == n && forall j :: 0 <= j < i ==> v.elems[j] == j
    {
      v.elems := v.elems[i := i];
    }
  }

  /** The fill loop: `written` is the order of its stores. */
  method FillRandomly(p: array<int>, num: nat, rand: nat -> nat) returns (ghost written: seq<int>)
    requires p.Length == num
    modifies p
    ensures p[..] == Iota(num) && written == Drained(Iota(num), rand)
  {
    var idx := GetIndexArray(num);
    written := [];
    NothingPlaced(p[..]);
    while |idx.elems| > 0
      invariant fresh(idx)
      invariant written + Drained(idx.elems, rand) == Drained(Iota(num), rand)
      invariant InPlaceBut(p[..], idx.elems)
      decreases |idx.elems|
    {
      hide Drained, Removed, InPlaceBut;
      DrainedUnfolds(written, idx.elems, rand);
      PlaceOne(p[..], idx.elems, Draw(rand, |idx.elems|));
      var i := GetNum(idx, rand(|idx.elems|));
      p[i] := i;
      written := written + [i];
    }
  }

  /** Half way through a loop that has visited `done`; `elems` are still to be drawn. */
  ghost predicate Drawing(num: nat, elems: seq<int>, rand: nat -> nat, done: seq<int>) {
    && done + Drained(elems, rand) == Drained(Iota(num), rand)
    && forall j :: 0 <= j < |elems| ==> 0 <= elems[j] < num
  }

  /** And the sum so far. */
  ghost predicate Summing(num: nat, elems: seq<int>, sum: int, overflow: bool) {
    Total(elems) <= SumBelow(num) && Summed(sum, SumBelow(num) - Total(elems), overflow)
  }

  lemma StartSumming(num: nat, rand: nat -> nat)
    ensures Drawing(num, Iota(num), rand, []) && Summing(num, Iota(num), 0, false)
  {
    TotalIota(num);
  }

  lemma DrawOne(num: nat, elems: seq<int>, rand: nat -> nat, done: seq<int>)
    requires Drawing(num, elems, rand, done) && elems != []
    ensures var k := Draw(rand, |elems|);
      0 <= elems[k] < num && Drawing(num, Removed(elems, k), rand, done + [elems[k]])
  {
    hide Drained, Removed, Draw;
    DrainedUnfolds(done, elems, rand);
    RemovedKeepsRest(elems, Draw(rand, |elems|));
  }

  lemma SumOne(num: nat, elems: seq<int>, k: nat, sum: int, overflow: bool)
    requires Summing(num, elems, sum, overflow) && k < |elems| && 0 <= elems[k] <= 0x7fff_ffff
    ensures Summing(num, Removed(elems, k), AddInt(sum, elems[k]), overflow || !FitsInt(sum + elems[k]))
  {
    hide Removed, Total, SumBelow, WrapInt, FitsInt, AddInt, Summed;
    TotalRemoved(elems, k);
    OneMoreSummed(sum, SumBelow(num) - Total(elems), overflow, elems[k]);
  }

  lemma DoneSumming(num: nat, rand: nat -> nat, read: seq<int>, sum: int, overflow: bool)
    requires Drawing(num, [], rand, read) && Summing(num, [], sum, overflow)
    ensures sum == WrapInt(SumBelow(num)) && read == Drained(Iota(num), rand)
    ensures overflow <==> !FitsInt(SumBelow(num))
  {
    hide WrapInt, FitsInt, SumBelow;
  }

  /** The sum loop in int arithmetic: `read` is the order of its loads, `overflow` says
      whether some addition left the range of int. */
  method SumRandomly(p: array<int>, num: nat, rand: nat -> nat) returns (sum: int, ghost read: seq<int>, ghost overflow: bool)
    requires p.Length == num <= 0x7fff_ffff && p[..] == Iota(num)
    ensures sum == WrapInt(SumBelow(num)) && read == Drained(Iota(num), rand)
    ensures overflow <==> !FitsInt(SumBelow(num))
  {
    sum, read, overflow := 0, [], false;
    var idx := GetIndexArray(num);
    StartSumming(num, rand);
    assert forall i :: 0 <= i < num ==> p[i] == p[..][i];
    while |idx.elems| > 0
      invariant fresh(idx)
      invariant Drawing(num, idx.elems, rand, read) && Summing(num, idx.elems, sum, overflow)
      decreases |idx.elems|
    {
      hide Drawing, Summing, Removed, WrapInt, FitsInt, AddInt;
      DrawOne(num, idx.elems, rand, read);
      SumOne(num, idx.elems, Draw(rand, |idx.elems|), sum, overflow);
      var i := GetNum(idx, rand(|idx.elems|));
      overflow := overflow || !FitsInt(sum + p[i]);
      sum := AddInt(sum, p[i]);
      read := read + [i];
    }
    assert idx.elems == [];
    DoneSumming(num, rand, read, sum, overflow);
  }

  lemma Prepend(before: seq<int>, x: int, rest: seq<int>)
    ensures before + ([x] + rest) == before + [x] + rest
  {
  }

  lemma DrainedUnfolds(before: seq<int>, v: seq<int>, rand: nat -> nat)
    requires v != []
    ensures var k := Draw(rand, |v|);
      before + Drained(v, rand) == before + [v[k]] + Drained(Removed(v, k), rand)
  {
    hide Removed, Draw;
    var k := Draw(rand, |v|);
    Prepend(before, v[k], Drained(Removed(v, k), rand));
  }

  /** All elements of `p` not waiting in `v` are in place; those in `v` are indices. */
  ghost predicate InPlaceBut(p: seq<int>, v: seq<int>) {
    && (forall j :: 0 <= j < |v| ==> 0 <= v[j] < |p|)
    && (forall i :: 0 <= i < |p| && i !in v ==> p[i] == i)
  }

  lemma NothingPlaced(p: seq<int>)
    ensures InPlaceBut(p, Iota(|p|))
  {
    forall i | 0 <= i < |p| ensures i in Iota(|p|) {
      assert Iota(|p|)[i] == i;
    }
  }

  lemma PlaceOne(p: seq<int>, v: seq<int>, k: nat)
    requires InPlaceBut(p, v) && k < |v|
    ensures 0 <= v[k] < |p| && InPlaceBut(p[v[k] := v[k]], Removed(v, k))
  {
    RemovedKeepsRest(v, k);
  }

  /** Fill an array in random order, sum it in another random order and check the sum. */
  method BenchForIntRandom(num: nat, rand1: nat -> nat, rand2: nat -> nat) returns (sum: int, valid: bool)
    requires num <= 0x7fff_ffff
    ensures sum == WrapInt(SumBelow(num))
    ensures valid <==> -0x4000_0000 <= sum < 0x4000_0000
    ensures num <= 46341 ==> valid
    ensures 46341 < num <= 65536 ==> sum == SumBelow(num) && !valid
  {
    var p := new int[num];
    ghost var written := FillRandomly(p, num, rand1);
    ghost var read, overflow;
    sum, read, overflow := SumRandomly(p, num, rand2);
    valid := IntSumValid(num, sum);
    IntSumCheck(num, sum);
    WrappedSumCheck(num);
    SumBelowBetween(num);
  }

  lemma RemovedKeepsRest(v: seq<int>, k: nat)
    requires k < |v|
    ensures forall i :: i in v && i != v[k] ==> i in Removed(v, k)
    ensures forall j :: 0 <= j < |v| - 1 ==> Removed(v, k)[j] in v
  {
    var r := Removed(v, k);
    forall i | i in v && i != v[k] ensures i in r {
      var j :| 0 <= j < |v| && v[j] == i;
      assert r[if j == |v| - 1 then k else j] == i;
    }
  }

  // ---- isIntSumValid in 32-bit arithmetic ----

  predicate FitsInt(x: int) {
    -0x8000_0000 <= x <= 0x7fff_ffff
  }

  /** What two's complement makes of a result that need not fit an int. */
  function WrapInt(x: int): (w: int)
    ensures FitsInt(w)
    ensures FitsInt(x) ==> w == x
  {
    (x + 0x8000_0000) % 0x1_0000_0000 - 0x8000_0000
  }

  function AddInt(a: int, b: int): int {
    WrapInt(a + b)
  }

  /** C division by 2: towards zero. */
  function Half(x: int): int {
    if x >= 0 then x / 2 else -(-x / 2)
  }

  /** The check of the benchmark, in int arithmetic. */
  predicate IntSumValid(num: int, sum: int) {
    sum == Half(WrapInt(num * WrapInt(num - 1)))
  }

  /** A sum of naturals in int arithmetic, and whether it overflowed on the way. */
  ghost predicate Summed(sum: int, exact: nat, overflow: bool) {
    sum == WrapInt(exact) && (overflow <==> !FitsInt(exact))
  }

  lemma OneMoreSummed(sum: int, exact: nat, overflow: bool, x: nat)
    requires Summed(sum, exact, overflow) && x <= 0x7fff_ffff
    ensures Summed(AddInt(sum, x), exact + x, overflow || !FitsInt(sum + x))
  {
  }

  /** The check's product stays within an int exactly up to 46341 elements, while the sum
      it checks would do so up to 65536; within its range the check is exact. */
  lemma IntSumCheck(num: nat, sum: int)
    requires num <= 0x7fff_ffff
    ensures FitsInt(num * (num - 1)) <==> num <= 46341
    ensures FitsInt(SumBelow(num)) <==> num <= 65536
    ensures num <= 46341 ==> (IntSumValid(num, sum) <==> sum == SumBelow(num))
  {
    SumBelowIs(num);
    if num <= 46341 {
      ProductGrows(num, 46341);
    } else {
      ProductGrows(46342, num);
    }
    if num <= 65536 {
      ProductGrows(num, 65536);
    } else {
      ProductGrows(65537, num);
    }
  }

  /** For every count and every int: what the check accepts where arithmetic wraps. */
  lemma IntSumExactly(num: nat, sum: int)
    requires num <= 0x7fff_ffff && FitsInt(sum)
    ensures IntSumValid(num, sum) <==>
      -0x4000_0000 <= sum < 0x4000_0000 && (2 * sum - num * (num - 1)) % 0x1_0000_0000 == 0
  {
    assert WrapInt(num - 1) == num - 1;
    SumDoubled(num);
    HalfExactly(SumBelow(num), sum);
  }

  lemma HalfExactly(x: nat, sum: int)
    requires FitsInt(sum)
    ensures sum == Half(WrapInt(2 * x)) <==> -0x4000_0000 <= sum < 0x4000_0000 && (2 * sum - 2 * x) % 0x1_0000_0000 == 0
  {
  }

  /** Beyond it the check is wrong even about right sums: in wrapping arithmetic the
      wrapped sum passes exactly if doubling it does not overflow. */
  lemma WrappedSumCheck(num: nat)
    requires num <= 0x7fff_ffff
    ensures var sum := WrapInt(SumBelow(num));
      IntSumValid(num, sum) <==> -0x4000_0000 <= sum < 0x4000_0000
  {
    SumDoubled(num);
    HalfOfDouble(SumBelow(num));
  }

  lemma {:induction false} SumDoubled(num: nat)
    ensures num * (num - 1) == 2 * SumBelow(num)
  {
    if num > 0 { SumDoubled(num - 1); }
  }

  lemma HalfOfDouble(x: nat)
    ensures WrapInt(x) == Half(WrapInt(2 * x)) <==> -0x4000_0000 <= WrapInt(x) < 0x4000_0000
  {
  }

  lemma SumBelowBetween(num: nat)
    ensures num <= 46341 ==> SumBelow(num) < 0x4000_0000
    ensures 46341 < num <= 65536 ==> 0x4000_0000 <= SumBelow(num) <= 0x7fff_ffff
  {
    SumBelowIs(num);
    hide SumBelow;
    if num <= 46341 {
      ProductGrows(num, 46341);
    } else if num <= 65536 {
      ProductGrows(46342, num);
      ProductGrows(num, 65536);
    }
  }
}

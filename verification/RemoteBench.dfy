/**
 * The throughput benchmark's random workload as it runs with the preloaded malloc: the
 * array and the two vectors of indices are three regions of remote memory, which share
 * one copy buffer.
 */
module RemoteBench {
  import opened Words
  import opened Sums
  import opened PageCache
  import opened RandomOrder
  import Transparency
  import ProgramTraces

  // ---- Ints in regions ----

  /** Where the benchmark keeps its `num` ints: the array and the vectors' elements.
      `enc` and `dec` are the 4 bytes of an int. */
  datatype Setting = Setting(
    num: nat, p: int, idx1: int, idx2: int, enc: nat -> seq<Byte>, dec: seq<Byte> -> int)

  predicate Proper(b: Setting) {
    && b.p != b.idx1 && b.p != b.idx2 && b.idx1 != b.idx2
    && forall j: nat :: j < b.num ==> |b.enc(j)| == 4 && b.dec(b.enc(j)) == j
  }

  /** The region holds `n` ints, here and on the server. */
  predicate HasInts(c: Cache, r: int, n: nat) {
    Consistent(c) && r in c.live && n <= 1024 * c.live[r] && r in c.remote && c.live[r] <= |c.remote[r]|
  }

  predicate Arrays(c: Cache, b: Setting) {
    HasInts(c, b.p, b.num) && HasInts(c, b.idx1, b.num) && HasInts(c, b.idx2, b.num)
  }

  /** Before the benchmark: nothing of the three regions is local.  The buffer and the
      pages may hold anything, and other regions may be local. */
  predicate Ready(c: Cache, b: Setting) {
    Arrays(c, b) && b.p !in c.lines && b.idx1 !in c.lines && b.idx2 !in c.lines
  }

  /** Every region that held ints still does. */
  ghost predicate KeepsInts(c: Cache, d: Cache) {
    forall q, n: nat :: HasInts(c, q, n) ==> HasInts(d, q, n)
  }

  datatype Word = Word(c: Cache, bytes: seq<Byte>)

  function LoadAt(c: Cache, r: int, i: nat, residue: Page): (w: Word)
    requires HasInts(c, r, i + 1)
    ensures KeepsInts(c, w.c) && |w.bytes| == 4
  {
    var e := Load(r, i / 1024, i % 1024 * 4, 4, residue);
    Word(Step(c, e), Loaded(c, e))
  }

  function StoreAt(c: Cache, r: int, i: nat, bytes: seq<Byte>): (c': Cache)
    requires HasInts(c, r, i + 1) && |bytes| == 4
    ensures KeepsInts(c, c')
  {
    Step(c, Store(r, i / 1024, i % 1024 * 4, bytes))
  }

  // ---- The benchmark ----

  /** What the outside decides in one of the two loops, by the number of indices left:
      the random number, and what the packets of its loads hold. */
  datatype Chance = Chance(rand: nat -> nat, residues: (nat, nat) -> Page)

  /** Elements 0 to k-1 stored in order. */
  function Pass(c: Cache, r: int, k: nat, val: nat -> seq<Byte>): (c': Cache)
    requires HasInts(c, r, k) && forall j: nat :: j < k ==> |val(j)| == 4
    ensures KeepsInts(c, c')
  {
    if k == 0 then c else StoreAt(Pass(c, r, k - 1, val), r, k - 1, val(k - 1))
  }

  /** A vector of zeros is made, then numbered. */
  function IndexArray(c: Cache, b: Setting, r: int): (c': Cache)
    requires HasInts(c, r, b.num) && Proper(b)
    ensures KeepsInts(c, c')
  {
    if b.num == 0 then c else Pass(Pass(c, r, b.num, _ => b.enc(0)), r, b.num, b.enc)
  }

  /** Draw the element at `k`: read it, then swap it with the last one. */
  function GetNumAt(c: Cache, r: int, size: nat, k: nat, residues: (nat, nat) -> Page): (w: Word)
    requires HasInts(c, r, size) && k < size
    ensures KeepsInts(c, w.c) && |w.bytes| == 4
  {
    var num := LoadAt(c, r, k, residues(size, 0));
    var tmp := LoadAt(num.c, r, k, residues(size, 1));
    var last := LoadAt(tmp.c, r, size - 1, residues(size, 2));
    Word(StoreAt(StoreAt(last.c, r, k, last.bytes), r, size - 1, tmp.bytes), num.bytes)
  }

  /** An index that lies outside the array leads astray. */
  datatype Outcome = Done(c: Cache, sum: int) | Stray

  /** One turn of the fill loop, with `size` indices left. */
  function FillOne(c: Cache, b: Setting, size: nat, ch: Chance): (o: Outcome)
    requires Arrays(c, b) && 0 < size <= b.num
    ensures o.Done? ==> Arrays(o.c, b)
  {
    var w := GetNumAt(c, b.idx1, size, Draw(ch.rand, size), ch.residues);
    var i := b.dec(w.bytes);
    if 0 <= i < b.num then Done(StoreAt(w.c, b.p, i, w.bytes), 0) else Stray
  }

  function FillLoop(c: Cache, b: Setting, size: nat, ch: Chance): (o: Outcome)
    requires Arrays(c, b) && size <= b.num
    ensures o.Done? ==> Arrays(o.c, b)
    decreases size
  {
    hide FillOne, Arrays;
    if size == 0 then Done(c, 0)
    else
      var o := FillOne(c, b, size, ch);
      if o.Done? then FillLoop(o.c, b, size - 1, ch) else Stray
  }

  /** One turn of the sum loop: what it adds. */
  function SumOne(c: Cache, b: Setting, size: nat, ch: Chance): (o: Outcome)
    requires Arrays(c, b) && 0 < size <= b.num
    ensures o.Done? ==> Arrays(o.c, b)
  {
    var w := GetNumAt(c, b.idx2, size, Draw(ch.rand, size), ch.residues);
    var i := b.dec(w.bytes);
    if 0 <= i < b.num then
      var v := LoadAt(w.c, b.p, i, ch.residues(size, 3));
      Done(v.c, b.dec(v.bytes))
    else Stray
  }

  /** The sum loop with `size` indices left, adding up exactly. */
  function SumLoop(c: Cache, b: Setting, size: nat, ch: Chance): (o: Outcome)
    requires Arrays(c, b) && size <= b.num
    ensures o.Done? ==> Arrays(o.c, b)
    decreases size
  {
    hide SumOne, Arrays;
    if size == 0 then Done(c, 0)
    else
      var o := SumOne(c, b, size, ch);
      if o.Stray? then Stray
      else
        var rest := SumLoop(o.c, b, size - 1, ch);
        if rest.Done? then rest.(sum := o.sum + rest.sum) else Stray
  }

  function Bench(c: Cache, b: Setting, fill: Chance, sum: Chance): Outcome
    requires Arrays(c, b) && Proper(b)
  {
    var filled := FillLoop(IndexArray(c, b, b.idx1), b, b.num, fill);
    if filled.Done? then SumLoop(IndexArray(filled.c, b, b.idx2), b, b.num, sum) else Stray
  }

  /** The sum comes out right. */
  predicate Right(c: Cache, b: Setting, fill: Chance, sum: Chance)
    requires Arrays(c, b) && Proper(b)
  {
    var o := Bench(c, b, fill, sum);
    o.Done? && o.sum == SumBelow(b.num)
  }

  // ---- Its loops ----

  /** A loop that stores elements 0 to k-1. */
  method StoreAll(c0: Cache, r: int, k: nat, val: nat -> seq<Byte>) returns (c: Cache)
    requires HasInts(c0, r, k) && forall j: nat :: j < k ==> |val(j)| == 4
    ensures c == Pass(c0, r, k, val)
  {
    hide StoreAt, Consistent;
    c := c0;
    for i := 0 to k
      invariant c == Pass(c0, r, i, val)
    {
      c := StoreAt(c, r, i, val(i));
    }
  }

  /** A vector of zeros, then numbered from 0. */
  method GetIndexArrayAt(c0: Cache, b: Setting, r: int) returns (c: Cache)
    requires HasInts(c0, r, b.num) && Proper(b)
    ensures c == IndexArray(c0, b, r)
  {
    c := c0;
    if b.num > 0 {
      hide Pass;
      c := StoreAll(c, r, b.num, _ => b.enc(0));
      c := StoreAll(c, r, b.num, b.enc);
    }
  }

  method FillRandomlyAt(c0: Cache, b: Setting, ch: Chance) returns (o: Outcome)
    requires Arrays(c0, b)
    ensures o == FillLoop(c0, b, b.num, ch)
  {
    hide FillOne, Arrays;
    var c, size: nat := c0, b.num;
    while size > 0
      invariant size <= b.num && Arrays(c, b)
      invariant FillLoop(c, b, size, ch) == FillLoop(c0, b, b.num, ch)
    {
      var turn := FillOne(c, b, size, ch);
      if turn.Stray? {
        return Stray;
      }
      c, size := turn.c, size - 1;
    }
    o := Done(c, 0);
  }

  /** A loop's outcome with `sum` added before it. */
  function Plus(sum: int, o: Outcome): Outcome {
    if o.Done? then o.(sum := sum + o.sum) else Stray
  }

  method SumRandomlyAt(c0: Cache, b: Setting, ch: Chance) returns (o: Outcome)
    requires Arrays(c0, b)
    ensures o == SumLoop(c0, b, b.num, ch)
  {
    hide SumOne, Arrays;
    var c, size: nat, sum := c0, b.num, 0;
    while size > 0
      invariant size <= b.num && Arrays(c, b)
      invariant Plus(sum, SumLoop(c, b, size, ch)) == SumLoop(c0, b, b.num, ch)
    {
      var turn := SumOne(c, b, size, ch);
      if turn.Stray? {
        return Stray;
      }
      c, sum, size := turn.c, sum + turn.sum, size - 1;
    }
    o := Done(c, sum);
  }

  method BenchForIntRandomAt(c: Cache, b: Setting, fill: Chance, sum: Chance) returns (o: Outcome)
    requires Arrays(c, b) && Proper(b)
    ensures o == Bench(c, b, fill, sum)
  {
    hide FillLoop, SumLoop, IndexArray;
    var c1 := GetIndexArrayAt(c, b, b.idx1);
    o := FillRandomlyAt(c1, b, fill);
    if o.Stray? {
      return;
    }
    var c2 := GetIndexArrayAt(o.c, b, b.idx2);
    o := SumRandomlyAt(c2, b, sum);
  }

  // ---- Its accesses to memory, in order ----

  /** Where element `i` of a region lies. */
  function LoadEvent(r: int, i: nat, residue: Page): Event {
    Load(r, i / 1024, 4 * i % 4096, 4, residue)
  }

  function StoreEvent(r: int, i: nat, bytes: seq<Byte>): Event {
    Store(r, i / 1024, 4 * i % 4096, bytes)
  }

  lemma LoadAtIs(c: Cache, r: int, i: nat, residue: Page)
    requires HasInts(c, r, i + 1)
    ensures var e := LoadEvent(r, i, residue);
      Consistent(c) && Possible(c.live, e) && LoadAt(c, r, i, residue) == Word(Step(c, e), Loaded(c, e))
  {
    assert 4 * i % 4096 == i % 1024 * 4;
    hide Step, Loaded;
  }

  lemma StoreAtIs(c: Cache, r: int, i: nat, bytes: seq<Byte>)
    requires HasInts(c, r, i + 1) && |bytes| == 4
    ensures Consistent(c) && StoreAt(c, r, i, bytes) == Step(c, StoreEvent(r, i, bytes))
  {
    assert 4 * i % 4096 == i % 1024 * 4;
    hide Step;
  }

  /** Stores of elements 0 to k-1 in order. */
  function Stores(r: int, k: nat, val: nat -> seq<Byte>): seq<Event> {
    if k == 0 then [] else Stores(r, k - 1, val) + [StoreEvent(r, k - 1, val(k - 1))]
  }

  lemma {:induction false} PassTrace(c: Cache, r: int, k: nat, val: nat -> seq<Byte>)
    requires HasInts(c, r, k) && forall j: nat :: j < k ==> |val(j)| == 4
    ensures Consistent(c) && Pass(c, r, k, val) == Run(c, Stores(r, k, val))
    decreases k
  {
    hide *;
    if k == 0 {
      NoStores(c, r, val);
    } else {
      FewerInts(c, r, k, k - 1);
      PassTrace(c, r, k - 1, val);
      OneMorePass(c, r, k, val);
      ProgramTraces.RunMore(c, Stores(r, k - 1, val), StoreEvent(r, k - 1, val(k - 1)));
      StoreAtIs(Pass(c, r, k - 1, val), r, k - 1, val(k - 1));
    }
  }

  lemma NoStores(c: Cache, r: int, val: nat -> seq<Byte>)
    requires HasInts(c, r, 0)
    ensures Consistent(c) && Pass(c, r, 0, val) == Run(c, Stores(r, 0, val))
  {
    hide Consistent;
  }

  lemma OneMorePass(c: Cache, r: int, k: nat, val: nat -> seq<Byte>)
    requires k > 0 && HasInts(c, r, k) && HasInts(c, r, k - 1) && forall j: nat :: j < k ==> |val(j)| == 4
    ensures var d := Pass(c, r, k - 1, val);
      HasInts(d, r, k) && Pass(c, r, k, val) == StoreAt(d, r, k - 1, val(k - 1))
    ensures Stores(r, k, val) == Stores(r, k - 1, val) + [StoreEvent(r, k - 1, val(k - 1))]
  {
    hide StoreAt, Consistent;
  }

  /** A vector is made by storing each element in order, first as zero. */
  lemma IndexArrayTrace(c: Cache, b: Setting, r: int)
    requires HasInts(c, r, b.num) && Proper(b) && b.num > 0
    ensures Consistent(c) && IndexArray(c, b, r) == Run(c, Stores(r, b.num, _ => b.enc(0)) + Stores(r, b.num, b.enc))
  {
    var zero: nat -> seq<Byte> := _ => b.enc(0);
    PassTrace(c, r, b.num, zero);
    PassTrace(Pass(c, r, b.num, zero), r, b.num, b.enc);
    assert IndexArray(c, b, r) == Pass(Pass(c, r, b.num, zero), r, b.num, b.enc);
    hide Pass, Run, HasInts, Stores, IndexArray;
    ProgramTraces.RunAppend(c, Stores(r, b.num, zero), Stores(r, b.num, b.enc));
  }

  /** getNum reads the element at `k` twice and the last one once, then stores the last
      one at `k` and the drawn one in the last place. */
  lemma DrawTrace(c: Cache, r: int, size: nat, k: nat, residues: (nat, nat) -> Page)
    requires HasInts(c, r, size) && k < size
    ensures var e0, e1, e2 := LoadEvent(r, k, residues(size, 0)), LoadEvent(r, k, residues(size, 1)), LoadEvent(r, size - 1, residues(size, 2));
      && Consistent(c)
      && var c1 := Step(c, e0);
         var c2 := Step(c1, e1);
         && Possible(c.live, e0) && Possible(c1.live, e1) && Possible(c2.live, e2)
         && var w := GetNumAt(c, r, size, k, residues);
            && w.bytes == Loaded(c, e0)
            && w.c == Step(Step(Step(c2, e2), StoreEvent(r, k, Loaded(c2, e2))), StoreEvent(r, size - 1, Loaded(c1, e1)))
  {
    hide *;
    DrawUnfolds(c, r, size, k, residues);
    var num := LoadAt(c, r, k, residues(size, 0));
    var tmp := LoadAt(num.c, r, k, residues(size, 1));
    var last := LoadAt(tmp.c, r, size - 1, residues(size, 2));
    LoadAtIs(c, r, k, residues(size, 0));
    LoadAtIs(num.c, r, k, residues(size, 1));
    LoadAtIs(tmp.c, r, size - 1, residues(size, 2));
    StoreAtIs(last.c, r, k, last.bytes);
    StoreAtIs(StoreAt(last.c, r, k, last.bytes), r, size - 1, tmp.bytes);
  }

  lemma DrawUnfolds(c: Cache, r: int, size: nat, k: nat, residues: (nat, nat) -> Page)
    requires HasInts(c, r, size) && k < size
    ensures HasInts(c, r, k + 1)
    ensures var num := LoadAt(c, r, k, residues(size, 0));
      && HasInts(num.c, r, k + 1)
      && var tmp := LoadAt(num.c, r, k, residues(size, 1));
         && HasInts(tmp.c, r, size)
         && var last := LoadAt(tmp.c, r, size - 1, residues(size, 2));
            && HasInts(last.c, r, k + 1) && HasInts(StoreAt(last.c, r, k, last.bytes), r, size)
            && GetNumAt(c, r, size, k, residues) ==
                 Word(StoreAt(StoreAt(last.c, r, k, last.bytes), r, size - 1, tmp.bytes), num.bytes)
  {
    hide LoadAt, StoreAt, Consistent;
  }

  /** A turn of the fill loop stores the index drawn at its own place in the array; an
      index outside the array ends it. */
  lemma FillTrace(c: Cache, b: Setting, size: nat, ch: Chance)
    requires Arrays(c, b) && 0 < size <= b.num
    ensures var w, o := GetNumAt(c, b.idx1, size, ch.rand(size) % size, ch.residues), FillOne(c, b, size, ch);
      && (o.Done? <==> 0 <= b.dec(w.bytes) < b.num)
      && (o.Done? ==> o.c == Step(w.c, StoreEvent(b.p, b.dec(w.bytes), w.bytes)))
  {
    hide GetNumAt, Step, LoadAt, StoreAt, StoreEvent, HasInts;
    DrawKeepsArray(c, b, b.idx1, size, ch);
    var w := GetNumAt(c, b.idx1, size, ch.rand(size) % size, ch.residues);
    if 0 <= b.dec(w.bytes) < b.num {
      FewerInts(w.c, b.p, b.num, b.dec(w.bytes) + 1);
      StoreAtIs(w.c, b.p, b.dec(w.bytes), w.bytes);
    }
  }

  lemma DrawKeepsArray(c: Cache, b: Setting, r: int, size: nat, ch: Chance)
    requires Arrays(c, b) && 0 < size <= b.num && (r == b.idx1 || r == b.idx2)
    ensures HasInts(c, r, size) && HasInts(GetNumAt(c, r, size, ch.rand(size) % size, ch.residues).c, b.p, b.num)
  {
    hide GetNumAt, Consistent;
  }

  /** A turn of the sum loop adds the array's element at the index drawn. */
  lemma SumTrace(c: Cache, b: Setting, size: nat, ch: Chance)
    requires Arrays(c, b) && 0 < size <= b.num
    ensures var w, o := GetNumAt(c, b.idx2, size, ch.rand(size) % size, ch.residues), SumOne(c, b, size, ch);
      && (o.Done? <==> 0 <= b.dec(w.bytes) < b.num)
      && (o.Done? ==>
            var e := LoadEvent(b.p, b.dec(w.bytes), ch.residues(size, 3));
            Consistent(w.c) && Possible(w.c.live, e) && o.c == Step(w.c, e) && o.sum == b.dec(Loaded(w.c, e)))
  {
    hide GetNumAt, Step, Loaded, LoadAt, StoreAt, LoadEvent, Possible, HasInts;
    DrawKeepsArray(c, b, b.idx2, size, ch);
    var w := GetNumAt(c, b.idx2, size, ch.rand(size) % size, ch.residues);
    if 0 <= b.dec(w.bytes) < b.num {
      FewerInts(w.c, b.p, b.num, b.dec(w.bytes) + 1);
      LoadAtIs(w.c, b.p, b.dec(w.bytes), ch.residues(size, 3));
    }
  }

  // ---- Elements ----

  function IntAt(page: Page, t: nat): (bytes: seq<Byte>)
    requires t < 1024
    ensures |bytes| == 4
  {
    page[4 * t..4 * t + 4]
  }

  /** The bytes of element `j` now. */
  function Element(c: Cache, r: int, j: nat): (bytes: seq<Byte>)
    requires HasInts(c, r, j + 1)
    ensures |bytes| == 4
  {
    IntAt(Transparency.Current(c, r, j / 1024), j % 1024)
  }

  /** Dropping the local page would lose nothing. */
  predicate Settled(c: Cache, r: int, n: nat) {
    && HasInts(c, r, n)
    && (r in c.lines && !c.lines[r].dirty ==> c.lines[r].data == c.remote[r][c.lines[r].index])
  }

  predicate Dirty(c: Cache, r: int, i: nat) {
    Resident(c, r, i) && c.lines[r].dirty
  }

  lemma OtherInt(page: Page, i: nat, j: nat, bytes: seq<Byte>)
    requires |bytes| == 4
    ensures i % 1024 * 4 + 4 <= PAGE_SIZE
    ensures IntAt(Overlay(page, i % 1024 * 4, bytes), j % 1024) == if i % 1024 == j % 1024 then bytes else IntAt(page, j % 1024)
  {
  }

  lemma SamePageOther(i: nat, j: nat)
    ensures i / 1024 == j / 1024 && i != j ==> i % 1024 != j % 1024
  {
  }

  /** A store puts its element in place.  If it faults, the others of its page are what
      the buffer holds. */
  lemma StoreElement(c: Cache, r: int, i: nat, bytes: seq<Byte>, j: nat)
    requires HasInts(c, r, i + 1) && HasInts(c, r, j + 1) && |bytes| == 4
    requires Resident(c, r, i / 1024) || Settled(c, r, i + 1)
    ensures HasInts(StoreAt(c, r, i, bytes), r, j + 1)
    ensures var c' := StoreAt(c, r, i, bytes);
      Element(c', r, j) ==
        if j == i then bytes
        else if Resident(c, r, i / 1024) || j / 1024 != i / 1024 then Element(c, r, j)
        else IntAt(c.buffer, j % 1024)
  {
    var d, c' := Bring(c, r, i / 1024, Write), StoreAt(c, r, i, bytes);
    OtherInt(d.lines[r].data, i, j, bytes);
    SamePageOther(i, j);
    assert c'.lines[r].data == Overlay(d.lines[r].data, i % 1024 * 4, bytes);
    if !Resident(c, r, i / 1024) {
      Transparency.CurrentAfterFault(c, r, i / 1024, Write, r, j / 1024);
    }
    hide Evict, Fault, IntAt, Overlay;
  }

  lemma StoreEffect(c: Cache, r: int, i: nat, bytes: seq<Byte>)
    requires HasInts(c, r, i + 1) && |bytes| == 4
    ensures var c' := StoreAt(c, r, i, bytes);
      && Resident(c', r, i / 1024) && c'.buffer == c.buffer && SameElsewhere(c, c', r)
      && (Resident(c, r, i / 1024) ==> c'.lines[r].dirty == c.lines[r].dirty)
      && (!Resident(c, r, i / 1024) ==> c'.lines[r].dirty)
  {
  }

  /** Storing what is there changes nothing. */
  lemma StoreSame(c: Cache, r: int, i: nat)
    requires HasInts(c, r, i + 1) && Resident(c, r, i / 1024)
    ensures StoreAt(c, r, i, Element(c, r, i)) == c
  {
    var p, at := c.lines[r].data, i % 1024 * 4;
    assert Overlay(p, at, IntAt(p, i % 1024)) == p;
    assert c.lines[r := c.lines[r].(data := p)] == c.lines;
  }

  /** A load finds its element and changes none. */
  lemma LoadElement(c: Cache, r: int, i: nat, residue: Page, j: nat)
    requires Settled(c, r, i + 1) && HasInts(c, r, j + 1)
    ensures var w := LoadAt(c, r, i, residue);
      w.bytes == Element(c, r, i) && Element(w.c, r, j) == Element(c, r, j)
  {
    if !Resident(c, r, i / 1024) {
      Transparency.CurrentAfterFault(c, r, i / 1024, Read(residue), r, j / 1024);
      Transparency.CurrentAfterFault(c, r, i / 1024, Read(residue), r, i / 1024);
    }
    hide Evict, Fault;
  }

  lemma LoadEffect(c: Cache, r: int, i: nat, n: nat, residue: Page)
    requires Settled(c, r, n) && HasInts(c, r, i + 1)
    ensures var c' := LoadAt(c, r, i, residue).c;
      && Resident(c', r, i / 1024) && Settled(c', r, n) && SameElsewhere(c, c', r)
      && (Resident(c, r, i / 1024) ==> c' == c)
      && (!Resident(c, r, i / 1024) ==> !c'.lines[r].dirty && c'.buffer == Transparency.Current(c, r, i / 1024))
  {
  }

  lemma FewerInts(c: Cache, r: int, n: nat, k: nat)
    requires HasInts(c, r, n) && k <= n
    ensures HasInts(c, r, k)
  {
  }

  lemma SettledFewer(c: Cache, r: int, n: nat, k: nat)
    requires Settled(c, r, n) && k <= n
    ensures Settled(c, r, k) && HasInts(c, r, n) && HasInts(c, r, k)
  {
  }

  // ---- Making a vector ----

  /** After a pass over `k` elements: they are in place, the last one's page is local and
      write-faulted, and the rest of it came from the buffer. */
  ghost predicate Passed(c: Cache, c': Cache, r: int, k: nat, val: nat -> seq<Byte>) {
    && HasInts(c', r, k) && c'.buffer == c.buffer && SameElsewhere(c, c', r)
    && (k == 0 ==> c' == c)
    && (k > 0 ==> Dirty(c', r, (k - 1) / 1024))
    && (forall j: nat :: j < k ==> Element(c', r, j) == val(j))
    && (k > 0 && !Resident(c, r, 0) ==>
          forall t: nat :: (k - 1) % 1024 < t < 1024 ==> TailInt(c', r, k, t) == IntAt(c.buffer, t))
  }

  /** Slot `t` of the page that element k-1 is in. */
  function TailInt(c: Cache, r: int, k: nat, t: nat): seq<Byte>
    requires HasInts(c, r, k) && k > 0 && t < 1024
  {
    IntAt(Transparency.Current(c, r, (k - 1) / 1024), t)
  }

  lemma TailIsElement(c: Cache, r: int, k: nat, t: nat)
    requires HasInts(c, r, k) && k > 0 && t < 1024
    ensures HasInts(c, r, (k - 1) / 1024 * 1024 + t + 1)
    ensures TailInt(c, r, k, t) == Element(c, r, (k - 1) / 1024 * 1024 + t)
  {
    var j := (k - 1) / 1024 * 1024 + t;
    assert j / 1024 == (k - 1) / 1024 && j % 1024 == t;
  }

  lemma PassStep(c: Cache, d: Cache, r: int, k: nat, val: nat -> seq<Byte>)
    requires HasInts(c, r, k + 1) && Passed(c, d, r, k, val) && HasInts(d, r, k + 1)
    requires |val(k)| == 4 && (r in c.lines ==> c.lines[r].dirty)
    ensures Passed(c, StoreAt(d, r, k, val(k)), r, k + 1, val)
  {
    var d' := StoreAt(d, r, k, val(k));
    assert HasInts(d, r, k + 1) && Settled(d, r, k + 1);
    StoreEffect(d, r, k, val(k));
    hide StoreAt, Element, IntAt, Resident;
    assert SameElsewhere(c, d', r);
    forall j: nat | j < k + 1 ensures Element(d', r, j) == val(j) {
      StoreElement(d, r, k, val(k), j);
      if j < k { PassPages(c, d, r, k, val, j); }
    }
    if !Resident(c, r, 0) {
      forall t: nat | k % 1024 < t < 1024 ensures TailInt(d', r, k + 1, t) == IntAt(c.buffer, t) {
        PassTail(c, d, r, k, val, t);
      }
    }
  }

  /** An earlier element of the page stored to next means that the page is local. */
  lemma PassPages(c: Cache, d: Cache, r: int, k: nat, val: nat -> seq<Byte>, j: nat)
    requires Passed(c, d, r, k, val) && j < k
    ensures j / 1024 == k / 1024 ==> Resident(d, r, k / 1024)
  {
    assert j <= k - 1 < k;
  }

  lemma PassTail(c: Cache, d: Cache, r: int, k: nat, val: nat -> seq<Byte>, t: nat)
    requires Passed(c, d, r, k, val) && HasInts(d, r, k + 1) && Settled(d, r, k + 1) && !Resident(c, r, 0)
    requires |val(k)| == 4 && k % 1024 < t < 1024
    ensures HasInts(StoreAt(d, r, k, val(k)), r, k + 1)
    ensures TailInt(StoreAt(d, r, k, val(k)), r, k + 1, t) == IntAt(c.buffer, t)
  {
    var d', j := StoreAt(d, r, k, val(k)), k / 1024 * 1024 + t;
    TailIsElement(d', r, k + 1, t);
    assert j / 1024 == k / 1024 && j % 1024 == t && j != k;
    TailIsElement(d, r, k + 1, t);
    StoreElement(d, r, k, val(k), j);
    hide StoreAt, Element, IntAt;
    if Resident(d, r, k / 1024) {
      assert k > 0;
      assert (k - 1) / 1024 == k / 1024 && (k - 1) % 1024 < t;
      TailIsElement(d, r, k, t);
    }
  }

  lemma NoPass(c: Cache, r: int, val: nat -> seq<Byte>)
    requires HasInts(c, r, 0)
    ensures Passed(c, c, r, 0, val)
  {
  }

  lemma {:induction false} PassIs(c: Cache, r: int, k: nat, val: nat -> seq<Byte>)
    requires HasInts(c, r, k) && (forall j: nat :: j < k ==> |val(j)| == 4) && (r in c.lines ==> c.lines[r].dirty)
    ensures Passed(c, Pass(c, r, k, val), r, k, val)
    decreases k
  {
    hide Passed, StoreAt, Consistent;
    if k == 0 {
      NoPass(c, r, val);
    } else {
      PassIs(c, r, k - 1, val);
      PassStep(c, Pass(c, r, k - 1, val), r, k - 1, val);
    }
  }

  lemma ElsewhereTrans(c: Cache, d: Cache, e: Cache, r: int)
    requires SameElsewhere(c, d, r) && SameElsewhere(d, e, r)
    ensures SameElsewhere(c, e, r)
  {
  }

  /** A region the others' accesses leave alone. */
  lemma ElsewhereSame(c: Cache, d: Cache, r: int, q: int, n: nat)
    requires SameElsewhere(c, d, r) && q != r && HasInts(c, q, n) && Consistent(d)
    ensures HasInts(d, q, n) && (Settled(d, q, n) <==> Settled(c, q, n))
    ensures q in d.lines <==> q in c.lines
    ensures q in c.lines ==> d.lines[q] == c.lines[q]
    ensures forall j: nat :: j < n ==> Element(d, q, j) == Element(c, q, j)
  {
    forall j: nat | j < n ensures Element(d, q, j) == Element(c, q, j) {
      assert Transparency.Current(d, q, j / 1024) == Transparency.Current(c, q, j / 1024);
    }
  }

  /** A vector just made holds its indices, its last page is local and write-faulted,
      and what follows the last index there came from the buffer. */
  ghost predicate Numbered(c: Cache, c': Cache, b: Setting, r: int)
    requires b.num > 0
  {
    && HasInts(c', r, b.num) && c'.buffer == c.buffer && SameElsewhere(c, c', r)
    && Dirty(c', r, (b.num - 1) / 1024)
    && (forall j: nat :: j < b.num ==> Element(c', r, j) == b.enc(j))
    && (b.num > 1024 ==>
          forall t: nat :: (b.num - 1) % 1024 < t < 1024 ==> TailInt(c', r, b.num, t) == IntAt(c.buffer, t))
  }

  lemma IndexArrayIs(c: Cache, b: Setting, r: int)
    requires HasInts(c, r, b.num) && Proper(b) && b.num > 0 && r !in c.lines
    ensures Numbered(c, IndexArray(c, b, r), b, r)
  {
    var zero: nat -> seq<Byte> := _ => b.enc(0);
    var d := Pass(c, r, b.num, zero);
    PassIs(c, r, b.num, zero);
    assert IndexArray(c, b, r) == Pass(d, r, b.num, b.enc);
    PassedTwice(c, d, b, r, zero);
  }

  lemma PassedTwice(c: Cache, d: Cache, b: Setting, r: int, val: nat -> seq<Byte>)
    requires Passed(c, d, r, b.num, val) && Proper(b) && b.num > 0
    ensures Numbered(c, Pass(d, r, b.num, b.enc), b, r)
  {
    var e := Pass(d, r, b.num, b.enc);
    hide HasInts, Element, TailInt, Pass;
    PassIs(d, r, b.num, b.enc);
    ElsewhereTrans(c, d, e, r);
    hide SameElsewhere;
  }

  // ---- Drawing ----

  /** `d` is `c` with possibly another page of `r` local, and no element changed. */
  ghost predicate Seen(c: Cache, d: Cache, r: int, n: nat) {
    && Settled(d, r, n) && SameElsewhere(c, d, r)
    && forall j: nat :: HasInts(c, r, j + 1) ==> HasInts(d, r, j + 1) && Element(d, r, j) == Element(c, r, j)
  }

  lemma SeenTrans(c: Cache, d: Cache, e: Cache, r: int, n: nat)
    requires Seen(c, d, r, n) && Seen(d, e, r, n)
    ensures Seen(c, e, r, n)
  {
    hide Element, Settled, HasInts;
    ElsewhereTrans(c, d, e, r);
    hide SameElsewhere;
  }

  lemma SeenElement(c: Cache, d: Cache, r: int, n: nat, j: nat)
    requires Seen(c, d, r, n) && HasInts(c, r, j + 1)
    ensures Settled(d, r, n) && HasInts(d, r, j + 1) && Element(d, r, j) == Element(c, r, j)
  {
  }

  lemma LoadIs(c: Cache, r: int, i: nat, n: nat, residue: Page)
    requires Settled(c, r, n) && i < n
    ensures var w := LoadAt(c, r, i, residue);
      && Seen(c, w.c, r, n) && HasInts(w.c, r, n) && w.bytes == Element(c, r, i)
      && Resident(w.c, r, i / 1024)
      && (Resident(c, r, i / 1024) ==> w.c == c)
      && (!Resident(c, r, i / 1024) ==> w.c.buffer == Transparency.Current(c, r, i / 1024))
  {
    var w := LoadAt(c, r, i, residue);
    LoadEffect(c, r, i, n, residue);
    LoadElement(c, r, i, residue, i);
    hide LoadAt, Element;
    forall j: nat | HasInts(c, r, j + 1) ensures HasInts(w.c, r, j + 1) && Element(w.c, r, j) == Element(c, r, j) {
      LoadElement(c, r, i, residue, j);
    }
  }

  /** The state after the three loads of a draw. */
  function Looked(c: Cache, r: int, size: nat, k: nat, residues: (nat, nat) -> Page): (d: Cache)
    requires HasInts(c, r, size) && k < size
    ensures HasInts(d, r, size)
  {
    LoadAt(LoadAt(LoadAt(c, r, k, residues(size, 0)).c, r, k, residues(size, 1)).c, r, size - 1, residues(size, 2)).c
  }

  /** The two stores of a draw. */
  function Swap(c: Cache, r: int, size: nat, k: nat): (c': Cache)
    requires HasInts(c, r, size) && k < size
    ensures HasInts(c', r, size)
  {
    StoreAt(StoreAt(c, r, k, Element(c, r, size - 1)), r, size - 1, Element(c, r, k))
  }

  /** They change no element; after them the last one's page is local and, if it had to
      be fetched from beside the other, it is also in the buffer. */
  lemma DrawIsSwap(c: Cache, r: int, size: nat, k: nat, residues: (nat, nat) -> Page)
    requires Settled(c, r, size) && k < size
    ensures var d := Looked(c, r, size, k, residues);
      && Seen(c, d, r, size) && Resident(d, r, (size - 1) / 1024)
      && (k / 1024 == (size - 1) / 1024 && Resident(c, r, k / 1024) ==> d == c)
      && (k / 1024 != (size - 1) / 1024 ==> d.buffer == d.lines[r].data)
      && GetNumAt(c, r, size, k, residues) ==
           Word(Swap(d, r, size, k), Element(c, r, k))
  {
    var c1 := LoadAt(c, r, k, residues(size, 0)).c;
    var d := LoadAt(c1, r, size - 1, residues(size, 2)).c;
    hide LoadAt, StoreAt, Element, Seen;
    LoadIs(c, r, k, size, residues(size, 0));
    SeenElement(c, c1, r, size, k);
    SeenElement(c, c1, r, size, size - 1);
    LoadIs(c1, r, k, size, residues(size, 1));
    LoadIs(c1, r, size - 1, size, residues(size, 2));
    SeenTrans(c, c1, d, r, size);
    SeenElement(c, d, r, size, k);
    SeenElement(c, d, r, size, size - 1);
    if k / 1024 != (size - 1) / 1024 {
      FetchedIsBuffer(c1, r, size - 1, size, residues(size, 2));
    }
  }

  lemma FetchedIsBuffer(c: Cache, r: int, i: nat, n: nat, residue: Page)
    requires Settled(c, r, n) && i < n && !Resident(c, r, i / 1024)
    ensures var d := LoadAt(c, r, i, residue).c; r in d.lines && d.buffer == d.lines[r].data
  {
  }

  lemma LookedLast(c: Cache, r: int, size: nat, residues: (nat, nat) -> Page)
    requires Settled(c, r, size) && size > 0
    ensures var d := Looked(c, r, size, size - 1, residues);
      d == LoadAt(c, r, size - 1, residues(size, 0)).c && Resident(d, r, (size - 1) / 1024)
      && HasInts(d, r, size) && Element(d, r, size - 1) == Element(c, r, size - 1)
  {
    var c1 := LoadAt(c, r, size - 1, residues(size, 0)).c;
    hide LoadAt, Element, Seen, Consistent, SameElsewhere;
    LoadIs(c, r, size - 1, size, residues(size, 0));
    SeenElement(c, c1, r, size, size - 1);
    LoadIs(c1, r, size - 1, size, residues(size, 1));
    LoadIs(c1, r, size - 1, size, residues(size, 2));
  }

  lemma SwapSame(c: Cache, r: int, size: nat)
    requires HasInts(c, r, size) && size > 0 && Resident(c, r, (size - 1) / 1024)
    ensures Swap(c, r, size, size - 1) == c
  {
    StoreSame(c, r, size - 1);
    hide StoreAt, Element;
  }

  /** Drawing the last element only reads it. */
  lemma DrawLast(c: Cache, r: int, size: nat, residues: (nat, nat) -> Page)
    requires Settled(c, r, size) && size > 0
    ensures HasInts(c, r, size)
    ensures GetNumAt(c, r, size, size - 1, residues) == Word(LoadAt(c, r, size - 1, residues(size, 0)).c, Element(c, r, size - 1))
  {
    hide *;
    SettledFewer(c, r, size, size);
    LookedLast(c, r, size, residues);
    DrawIsSwap(c, r, size, size - 1, residues);
    SwapSame(Looked(c, r, size, size - 1, residues), r, size);
  }

  /** What a draw leaves in slot `j`: the drawn element and the last one change places.
      If they lie on two pages, the rest of the drawn one's page becomes a copy of the
      last one's. */
  function Drawn(c: Cache, r: int, size: nat, k: nat, j: nat): (bytes: seq<Byte>)
    requires HasInts(c, r, size) && k < size && HasInts(c, r, j + 1)
  {
    var p := (size - 1) / 1024;
    if j == size - 1 then Element(c, r, k)
    else if j == k then Element(c, r, size - 1)
    else if j / 1024 == k / 1024 && k / 1024 != p then IntAt(Transparency.Current(c, r, p), j % 1024)
    else Element(c, r, j)
  }

  /** The first of the two stores. */
  lemma SwapFirst(d: Cache, r: int, size: nat, k: nat, last: seq<Byte>, j: nat)
    requires Settled(d, r, size) && k < size && |last| == 4 && HasInts(d, r, j + 1)
    ensures HasInts(d, r, k + 1) && Settled(d, r, k + 1)
    ensures var c1 := StoreAt(d, r, k, last);
      && HasInts(c1, r, size) && HasInts(c1, r, j + 1) && Resident(c1, r, k / 1024) && c1.buffer == d.buffer
      && (!Resident(d, r, k / 1024) ==> Settled(c1, r, size))
  {
    StoreEffect(d, r, k, last);
    hide StoreAt, SameElsewhere;
  }

  /** Slot `j` after the second one, which goes to the page `p` that is local again or not. */
  lemma SwapSecond(c1: Cache, r: int, size: nat, j: nat, num: seq<Byte>)
    requires HasInts(c1, r, size) && size > 0 && HasInts(c1, r, j + 1) && |num| == 4
    requires Resident(c1, r, (size - 1) / 1024) || Settled(c1, r, size)
    ensures var c2, p := StoreAt(c1, r, size - 1, num), (size - 1) / 1024;
      && HasInts(c2, r, j + 1)
      && Element(c2, r, j) ==
           if j == size - 1 then num
           else if j / 1024 == p && !Resident(c1, r, p) then IntAt(c1.buffer, j % 1024)
           else Element(c1, r, j)
  {
    hide StoreAt, Element, IntAt, Consistent;
    StoreElement(c1, r, size - 1, num, j);
  }

  /** Slot `j` after both, if they go to one page. */
  lemma SwapNear(d: Cache, r: int, size: nat, k: nat, j: nat, last: seq<Byte>, num: seq<Byte>)
    requires Settled(d, r, size) && HasInts(d, r, size) && k < size && HasInts(d, r, j + 1) && Resident(d, r, (size - 1) / 1024)
    requires |last| == 4 && |num| == 4 && k / 1024 == (size - 1) / 1024
    ensures HasInts(d, r, k + 1) && HasInts(StoreAt(d, r, k, last), r, size)
    ensures var c2 := StoreAt(StoreAt(d, r, k, last), r, size - 1, num);
      && HasInts(c2, r, j + 1)
      && Element(c2, r, j) == if j == size - 1 then num else if j == k then last else Element(d, r, j)
  {
    hide *;
    SwapFirst(d, r, size, k, last, j);
    StoreElement(d, r, k, last, j);
    SwapSecond(StoreAt(d, r, k, last), r, size, j, num);
  }

  /** And if they go to two pages: in both the rest is the buffer's. */
  lemma SwapFar(d: Cache, r: int, size: nat, k: nat, j: nat, last: seq<Byte>, num: seq<Byte>)
    requires Settled(d, r, size) && HasInts(d, r, size) && k < size && HasInts(d, r, j + 1) && Resident(d, r, (size - 1) / 1024)
    requires |last| == 4 && |num| == 4 && k / 1024 != (size - 1) / 1024
    ensures HasInts(d, r, k + 1) && HasInts(StoreAt(d, r, k, last), r, size)
    ensures var c2 := StoreAt(StoreAt(d, r, k, last), r, size - 1, num);
      && HasInts(c2, r, j + 1)
      && Element(c2, r, j) ==
           if j == size - 1 then num
           else if j == k then last
           else if j / 1024 == k / 1024 || j / 1024 == (size - 1) / 1024 then IntAt(d.buffer, j % 1024)
           else Element(d, r, j)
  {
    hide *;
    OnePageLocal(d, r, (size - 1) / 1024, k / 1024);
    SwapFirst(d, r, size, k, last, j);
    var c1 := StoreAt(d, r, k, last);
    OnePageLocal(c1, r, k / 1024, (size - 1) / 1024);
    StoreElement(d, r, k, last, j);
    SwapSecond(c1, r, size, j, num);
  }

  lemma OnePageLocal(c: Cache, r: int, p: nat, q: nat)
    requires Resident(c, r, p) && p != q
    ensures !Resident(c, r, q)
  {
  }

  lemma LocalIsBuffer(d: Cache, r: int, p: nat, j: nat)
    requires Resident(d, r, p) && d.buffer == d.lines[r].data && HasInts(d, r, j + 1)
    ensures IntAt(d.buffer, j % 1024) == IntAt(Transparency.Current(d, r, p), j % 1024)
    ensures j / 1024 == p ==> Element(d, r, j) == IntAt(d.buffer, j % 1024)
  {
  }

  /** Slot `j` after the two stores of a draw, in the state after its loads. */
  lemma SwapIs(d: Cache, r: int, size: nat, k: nat, j: nat)
    requires Settled(d, r, size) && HasInts(d, r, size) && k < size && HasInts(d, r, j + 1) && Resident(d, r, (size - 1) / 1024)
    requires k / 1024 != (size - 1) / 1024 ==> d.buffer == d.lines[r].data
    ensures HasInts(Swap(d, r, size, k), r, j + 1) && Element(Swap(d, r, size, k), r, j) == Drawn(d, r, size, k, j)
  {
    hide StoreAt, Element, IntAt, Settled, HasInts, Consistent, KeepsInts;
    FewerInts(d, r, size, k + 1);
    if k / 1024 == (size - 1) / 1024 {
      SwapNear(d, r, size, k, j, Element(d, r, size - 1), Element(d, r, k));
    } else {
      SwapFar(d, r, size, k, j, Element(d, r, size - 1), Element(d, r, k));
      LocalIsBuffer(d, r, (size - 1) / 1024, j);
    }
  }

  /** The whole effect of getNum on its vector in remote memory, whichever page is local. */
  lemma DrawExactly(c: Cache, r: int, size: nat, k: nat, residues: (nat, nat) -> Page, j: nat)
    requires Settled(c, r, size) && k < size && HasInts(c, r, j + 1)
    ensures HasInts(c, r, size)
    ensures var w := GetNumAt(c, r, size, k, residues);
      w.bytes == Element(c, r, k) && HasInts(w.c, r, j + 1) && Element(w.c, r, j) == Drawn(c, r, size, k, j)
  {
    var d := Looked(c, r, size, k, residues);
    DrawIsSwap(c, r, size, k, residues);
    DrawnSeen(c, d, r, size, k, j);
    hide GetNumAt, Looked, Swap, Drawn, Element, Seen;
    SwapIs(d, r, size, k, j);
  }

  lemma DrawnSeen(c: Cache, d: Cache, r: int, size: nat, k: nat, j: nat)
    requires Seen(c, d, r, size) && HasInts(c, r, size) && k < size && HasInts(c, r, j + 1)
    ensures Settled(d, r, size) && HasInts(d, r, j + 1) && Drawn(d, r, size, k, j) == Drawn(c, r, size, k, j)
  {
    var at := (size - 1) / 1024 * 1024 + j % 1024;
    assert at / 1024 == (size - 1) / 1024 && at % 1024 == j % 1024;
    assert HasInts(c, r, at + 1);
    SeenElement(c, d, r, size, at);
    SeenElement(c, d, r, size, j);
    SeenElement(c, d, r, size, k);
    SeenElement(c, d, r, size, size - 1);
  }

  // ---- Drawing inside one local page ----

  /** `v` is what the vector at `r` holds, all of it in one local, write-faulted page. */
  ghost predicate Vector(c: Cache, b: Setting, r: int, v: seq<int>) {
    && HasInts(c, r, |v|) && |v| <= b.num <= 1024 && Dirty(c, r, 0)
    && forall j: nat :: j < |v| ==> 0 <= v[j] < b.num && Element(c, r, j) == b.enc(v[j])
  }

  lemma DrawLocal(c: Cache, b: Setting, r: int, v: seq<int>, k: nat, residues: (nat, nat) -> Page)
    requires Proper(b) && Vector(c, b, r, v) && k < |v|
    ensures HasInts(c, r, |v|)
    ensures var w := GetNumAt(c, r, |v|, k, residues);
      && w.bytes == b.enc(v[k]) && Vector(w.c, b, r, Removed(v, k)) && SameElsewhere(c, w.c, r)
  {
    assert HasInts(c, r, |v|) && Settled(c, r, |v|) && k / 1024 == 0 && (|v| - 1) / 1024 == 0;
    assert Element(c, r, k) == b.enc(v[k]) && Element(c, r, |v| - 1) == b.enc(v[|v| - 1]);
    assert Resident(c, r, 0);
    hide StoreAt, Element, HasInts, Seen, Settled, Vector, SameElsewhere, GetNumAt, Looked, Swap, Removed;
    DrawIsSwap(c, r, |v|, k, residues);
    LocalSwap(c, b, r, v, k);
  }

  lemma StoreLocal(c: Cache, r: int, size: nat, i: nat, bytes: seq<Byte>)
    requires HasInts(c, r, size) && Dirty(c, r, 0) && i < size <= 1024 && |bytes| == 4
    ensures var c' := StoreAt(c, r, i, bytes);
      && Settled(c, r, i + 1) && Settled(c', r, size) && HasInts(c', r, size)
      && Dirty(c', r, 0) && SameElsewhere(c, c', r)
      && Resident(c, r, i / 1024)
  {
    assert i / 1024 == 0;
    StoreEffect(c, r, i, bytes);
    hide StoreAt, SameElsewhere;
  }

  lemma SwapStays(c: Cache, r: int, size: nat, k: nat)
    requires HasInts(c, r, size) && Dirty(c, r, 0) && k < size <= 1024
    ensures var c2 := Swap(c, r, size, k);
      Dirty(c2, r, 0) && SameElsewhere(c, c2, r)
  {
    var c1 := StoreAt(c, r, k, Element(c, r, size - 1));
    hide StoreAt, Element, SameElsewhere, Settled, Dirty, KeepsInts;
    StoreLocal(c, r, size, k, Element(c, r, size - 1));
    StoreLocal(c1, r, size, size - 1, Element(c, r, k));
    ElsewhereTrans(c, c1, Swap(c, r, size, k), r);
  }

  /** A store inside the one local page. */
  lemma StoreWithin(c: Cache, r: int, size: nat, i: nat, bytes: seq<Byte>, j: nat)
    requires HasInts(c, r, size) && Dirty(c, r, 0) && i < size <= 1024 && |bytes| == 4 && j < size
    ensures HasInts(c, r, j + 1) && HasInts(StoreAt(c, r, i, bytes), r, j + 1)
    ensures Element(StoreAt(c, r, i, bytes), r, j) == if j == i then bytes else Element(c, r, j)
  {
    hide StoreAt, Element, SameElsewhere;
    StoreLocal(c, r, size, i, bytes);
    StoreElement(c, r, i, bytes, j);
  }

  lemma StoreTwo(c: Cache, c1: Cache, r: int, size: nat, k: nat, j: nat, last: seq<Byte>, num: seq<Byte>)
    requires HasInts(c, r, size) && Dirty(c, r, 0) && k < size <= 1024 && j < size - 1 && |last| == 4 && |num| == 4
    requires c1 == StoreAt(c, r, k, last)
    ensures HasInts(c, r, j + 1) && HasInts(c1, r, size) && HasInts(StoreAt(c1, r, size - 1, num), r, j + 1)
    ensures Element(StoreAt(c1, r, size - 1, num), r, j) == if j == k then last else Element(c, r, j)
  {
    FewerInts(c, r, size, k + 1);
    hide *;
    StoreLocal(c, r, size, k, last);
    StoreWithin(c, r, size, k, last, j);
    StoreWithin(c1, r, size, size - 1, num, j);
  }

  lemma SwapElement(c: Cache, r: int, size: nat, k: nat, j: nat)
    requires HasInts(c, r, size) && Dirty(c, r, 0) && k < size <= 1024 && j < size - 1
    ensures HasInts(c, r, j + 1) && HasInts(Swap(c, r, size, k), r, j + 1)
    ensures Element(Swap(c, r, size, k), r, j) == if j == k then Element(c, r, size - 1) else Element(c, r, j)
  {
    FewerInts(c, r, size, k + 1);
    hide HasInts, Element, StoreAt, Consistent, Dirty, KeepsInts;
    var last, num := Element(c, r, size - 1), Element(c, r, k);
    StoreTwo(c, StoreAt(c, r, k, last), r, size, k, j, last, num);
  }

  lemma VectorAt(c: Cache, b: Setting, r: int, v: seq<int>, j: nat)
    requires Vector(c, b, r, v) && j < |v|
    ensures HasInts(c, r, j + 1) && 0 <= v[j] < b.num && Element(c, r, j) == b.enc(v[j])
  {
  }

  lemma LocalSwapAt(c: Cache, b: Setting, r: int, v: seq<int>, k: nat, j: nat)
    requires Proper(b) && Vector(c, b, r, v) && k < |v| && j < |v| - 1
    ensures HasInts(c, r, |v|)
    ensures var c2, u := Swap(c, r, |v|, k), Removed(v, k);
      HasInts(c2, r, j + 1) && 0 <= u[j] < b.num && Element(c2, r, j) == b.enc(u[j])
  {
    assert HasInts(c, r, |v|) && Dirty(c, r, 0) && |v| <= 1024;
    assert Removed(v, k)[j] == if j == k then v[|v| - 1] else v[j];
    hide *;
    SwapElement(c, r, |v|, k, j);
    VectorAt(c, b, r, v, j);
    VectorAt(c, b, r, v, |v| - 1);
  }

  lemma LocalSwap(c: Cache, b: Setting, r: int, v: seq<int>, k: nat)
    requires Proper(b) && Vector(c, b, r, v) && k < |v|
    ensures HasInts(c, r, |v|)
    ensures var c2 := Swap(c, r, |v|, k); Vector(c2, b, r, Removed(v, k)) && SameElsewhere(c, c2, r)
  {
    var c2, u := Swap(c, r, |v|, k), Removed(v, k);
    SwapStays(c, r, |v|, k);
    hide Swap, SameElsewhere, Element, Removed, Consistent, KeepsInts, Dirty, Proper;
    FewerInts(c2, r, |v|, |u|);
    forall j: nat | j < |u| ensures HasInts(c2, r, j + 1) && 0 <= u[j] < b.num && Element(c2, r, j) == b.enc(u[j]) {
      LocalSwapAt(c, b, r, v, k, j);
    }
    hide HasInts;
  }

  // ---- One page: every draw is right ----

  /** The fill loop with the indices `v` left. */
  ghost predicate FillingPage(c: Cache, b: Setting, v: seq<int>) {
    && Arrays(c, b) && Vector(c, b, b.idx1, v) && b.idx2 !in c.lines
    && (Dirty(c, b.p, 0) || (b.p !in c.lines && forall j :: 0 <= j < b.num ==> j in v))
    && forall j: nat :: j < b.num && j !in v ==> Element(c, b.p, j) == b.enc(j)
  }

  lemma FillOneIs(c: Cache, b: Setting, size: nat, ch: Chance, i: nat)
    requires Proper(b) && Arrays(c, b) && 0 < size <= b.num && i < b.num
    requires GetNumAt(c, b.idx1, size, Draw(ch.rand, size), ch.residues).bytes == b.enc(i)
    ensures var w := GetNumAt(c, b.idx1, size, Draw(ch.rand, size), ch.residues);
      Arrays(w.c, b) && FillOne(c, b, size, ch) == Done(StoreAt(w.c, b.p, i, b.enc(i)), 0)
  {
    hide GetNumAt, StoreAt, Draw;
  }

  lemma FillPageOne(c: Cache, b: Setting, v: seq<int>, ch: Chance)
    requires Proper(b) && FillingPage(c, b, v) && v != []
    ensures var o, v' := FillOne(c, b, |v|, ch), Removed(v, Draw(ch.rand, |v|));
      o.Done? && FillingPage(o.c, b, v')
  {
    var k := Draw(ch.rand, |v|);
    hide GetNumAt, StoreAt, Draw, FillOne, Removed, Proper, Element, HasInts;
    DrawLocal(c, b, b.idx1, v, k, ch.residues);
    assert 0 <= v[k] < b.num;
    FillOneIs(c, b, |v|, ch, v[k]);
    hide FillingPage, Arrays, Vector;
    FillPageStore(c, GetNumAt(c, b.idx1, |v|, k, ch.residues).c, b, v, k);
  }

  lemma FillPageStays(c: Cache, d: Cache, b: Setting, v: seq<int>, k: nat)
    requires Proper(b) && FillingPage(c, b, v) && k < |v| && Arrays(d, b)
    requires Vector(d, b, b.idx1, Removed(v, k)) && SameElsewhere(c, d, b.idx1)
    ensures Settled(d, b.p, b.num) && (Resident(d, b.p, 0) <==> b.p in c.lines)
    ensures forall j: nat :: j < b.num ==> Element(d, b.p, j) == Element(c, b.p, j)
    ensures var e := StoreAt(d, b.p, v[k], b.enc(v[k]));
      Arrays(e, b) && Vector(e, b, b.idx1, Removed(v, k)) && b.idx2 !in e.lines && Dirty(e, b.p, 0)
  {
    var i: nat, e := v[k], StoreAt(d, b.p, v[k], b.enc(v[k]));
    assert i / 1024 == 0;
    ElsewhereSame(c, d, b.idx1, b.p, b.num);
    ElsewhereSame(c, d, b.idx1, b.idx2, b.num);
    StoreEffect(d, b.p, i, b.enc(i));
    ElsewhereSame(d, e, b.p, b.idx1, b.num);
    ElsewhereSame(d, e, b.p, b.idx2, b.num);
    hide StoreAt, Element, SameElsewhere, Removed;
  }

  lemma FillPageElement(c: Cache, d: Cache, b: Setting, v: seq<int>, k: nat, j: nat)
    requires Proper(b) && FillingPage(c, b, v) && k < |v| && Arrays(d, b)
    requires Settled(d, b.p, b.num) && (Resident(d, b.p, 0) <==> b.p in c.lines)
    requires j < b.num && Element(d, b.p, j) == Element(c, b.p, j) && j !in Removed(v, k)
    ensures Element(StoreAt(d, b.p, v[k], b.enc(v[k])), b.p, j) == b.enc(j)
  {
    assert v[k] / 1024 == 0;
    StoreElement(d, b.p, v[k], b.enc(v[k]), j);
    RemovedKeepsRest(v, k);
    hide StoreAt, Element, Removed;
    assert j != v[k] ==> j !in v;
  }

  lemma FillPageStore(c: Cache, d: Cache, b: Setting, v: seq<int>, k: nat)
    requires Proper(b) && FillingPage(c, b, v) && k < |v| && Arrays(d, b)
    requires Vector(d, b, b.idx1, Removed(v, k)) && SameElsewhere(c, d, b.idx1)
    ensures 0 <= v[k] < b.num <= 1024
    ensures Arrays(StoreAt(d, b.p, v[k], b.enc(v[k])), b)
    ensures FillingPage(StoreAt(d, b.p, v[k], b.enc(v[k])), b, Removed(v, k))
  {
    var e := StoreAt(d, b.p, v[k], b.enc(v[k]));
    FillPageStays(c, d, b, v, k);
    hide StoreAt, Element, SameElsewhere, Removed, Vector, Dirty, Settled, HasInts, Resident, Proper;
    forall j: nat | j < b.num && j !in Removed(v, k) ensures Element(e, b.p, j) == b.enc(j) {
      hide FillingPage;
      FillPageElement(c, d, b, v, k, j);
    }
  }

  lemma {:induction false} FillPage(c: Cache, b: Setting, v: seq<int>, ch: Chance)
    requires Proper(b) && FillingPage(c, b, v)
    ensures Arrays(c, b) && |v| <= b.num
    ensures FillLoop(c, b, |v|, ch).Done? && FillingPage(FillLoop(c, b, |v|, ch).c, b, [])
    decreases |v|
  {
    hide FillingPage, FillOne, Draw, Proper, Arrays, Removed;
    FillingPageIs(c, b, v);
    if v != [] {
      FillPageOne(c, b, v, ch);
      FillPage(FillOne(c, b, |v|, ch).c, b, Removed(v, Draw(ch.rand, |v|)), ch);
    }
  }

  lemma FillingPageIs(c: Cache, b: Setting, v: seq<int>)
    requires FillingPage(c, b, v)
    ensures Arrays(c, b) && |v| <= b.num
  {
  }

  /** The sum loop with the indices `v` left. */
  ghost predicate SummingPage(c: Cache, b: Setting, v: seq<int>) {
    && Arrays(c, b) && Vector(c, b, b.idx2, v) && Dirty(c, b.p, 0)
    && forall j: nat :: j < b.num ==> Element(c, b.p, j) == b.enc(j)
  }

  lemma SumOneIs(c: Cache, b: Setting, size: nat, ch: Chance, i: nat)
    requires Proper(b) && Arrays(c, b) && 0 < size <= b.num && i < b.num
    requires GetNumAt(c, b.idx2, size, Draw(ch.rand, size), ch.residues).bytes == b.enc(i)
    ensures var w := GetNumAt(c, b.idx2, size, Draw(ch.rand, size), ch.residues);
      && Arrays(w.c, b)
      && var v := LoadAt(w.c, b.p, i, ch.residues(size, 3));
         Arrays(v.c, b) && SumOne(c, b, size, ch) == Done(v.c, b.dec(v.bytes))
  {
    hide GetNumAt, LoadAt, Draw;
  }

  lemma SumPageOne(c: Cache, b: Setting, v: seq<int>, ch: Chance)
    requires Proper(b) && SummingPage(c, b, v) && v != []
    ensures var o, k := SumOne(c, b, |v|, ch), Draw(ch.rand, |v|);
      o.Done? && o.sum == v[k] && SummingPage(o.c, b, Removed(v, k))
  {
    var k := Draw(ch.rand, |v|);
    hide GetNumAt, LoadAt, Draw, SumOne, Removed, Element;
    DrawLocal(c, b, b.idx2, v, k, ch.residues);
    assert 0 <= v[k] < b.num && v[k] / 1024 == 0;
    SumOneIs(c, b, |v|, ch, v[k]);
    hide SummingPage, Arrays, Vector, SameElsewhere;
    SumPageLoad(c, GetNumAt(c, b.idx2, |v|, k, ch.residues).c, b, v, k, ch.residues(|v|, 3));
  }

  lemma SumPageLoad(c: Cache, d: Cache, b: Setting, v: seq<int>, k: nat, residue: Page)
    requires Proper(b) && SummingPage(c, b, v) && k < |v| && Arrays(d, b)
    requires Vector(d, b, b.idx2, Removed(v, k)) && SameElsewhere(c, d, b.idx2)
    ensures var w := LoadAt(d, b.p, v[k], residue);
      Arrays(w.c, b) && w.bytes == b.enc(v[k]) && SummingPage(w.c, b, Removed(v, k))
  {
    assert v[k] / 1024 == 0;
    ElsewhereSame(c, d, b.idx2, b.p, b.num);
    assert Settled(d, b.p, b.num);
    hide LoadAt, Removed, Element, SameElsewhere, Seen;
    LoadIs(d, b.p, v[k], b.num, residue);
  }

  lemma {:induction false} SumPage(c: Cache, b: Setting, v: seq<int>, ch: Chance)
    requires Proper(b) && SummingPage(c, b, v)
    ensures Arrays(c, b) && |v| <= b.num
    ensures SumLoop(c, b, |v|, ch).Done? && SumLoop(c, b, |v|, ch).sum == Total(v)
    decreases |v|
  {
    hide SummingPage, SumOne, Draw, Proper, Arrays, Removed;
    SummingPageIs(c, b, v);
    if v != [] {
      var k := Draw(ch.rand, |v|);
      SumPageOne(c, b, v, ch);
      TotalRemoved(v, k);
      hide Total;
      SumPage(SumOne(c, b, |v|, ch).c, b, Removed(v, k), ch);
    }
  }

  lemma SummingPageIs(c: Cache, b: Setting, v: seq<int>)
    requires SummingPage(c, b, v)
    ensures Arrays(c, b) && |v| <= b.num
  {
  }

  lemma NumberedIsVector(c: Cache, c': Cache, b: Setting, r: int)
    requires 0 < b.num <= 1024 && Numbered(c, c', b, r)
    ensures Vector(c', b, r, Iota(b.num))
  {
    assert (b.num - 1) / 1024 == 0;
  }

  lemma NumberedKeeps(c: Cache, c': Cache, b: Setting, r: int, q: int)
    requires 0 < b.num && Numbered(c, c', b, r) && q != r && HasInts(c, q, b.num)
    ensures HasInts(c', q, b.num) && (q in c'.lines <==> q in c.lines) && (Dirty(c, q, 0) ==> Dirty(c', q, 0))
    ensures Settled(c, q, b.num) ==> Settled(c', q, b.num)
    ensures forall j: nat :: j < b.num ==> Element(c', q, j) == Element(c, q, j)
  {
    ElsewhereSame(c, c', r, q, b.num);
  }

  lemma StartPage(c: Cache, b: Setting)
    requires Ready(c, b) && Proper(b) && 0 < b.num <= 1024
    ensures FillingPage(IndexArray(c, b, b.idx1), b, Iota(b.num))
  {
    var d := IndexArray(c, b, b.idx1);
    hide IndexArray, Element, Numbered;
    IndexArrayIs(c, b, b.idx1);
    NumberedIsVector(c, d, b, b.idx1);
    NumberedKeeps(c, d, b, b.idx1, b.p);
    NumberedKeeps(c, d, b, b.idx1, b.idx2);
    NumberedHas(c, d, b, b.idx1);
    forall j | 0 <= j < b.num ensures j in Iota(b.num) {
      assert Iota(b.num)[j] == j;
    }
  }

  lemma NumberedHas(c: Cache, c': Cache, b: Setting, r: int)
    requires 0 < b.num && Numbered(c, c', b, r)
    ensures HasInts(c', r, b.num)
  {
  }

  lemma BetweenPages(c: Cache, b: Setting)
    requires FillingPage(c, b, []) && Proper(b) && 0 < b.num <= 1024
    ensures SummingPage(IndexArray(c, b, b.idx2), b, Iota(b.num))
  {
    var d := IndexArray(c, b, b.idx2);
    var none: seq<int> := [];
    assert 0 !in none;
    assert Dirty(c, b.p, 0);
    hide IndexArray, Element, Numbered;
    IndexArrayIs(c, b, b.idx2);
    NumberedIsVector(c, d, b, b.idx2);
    NumberedKeeps(c, d, b, b.idx2, b.p);
    NumberedKeeps(c, d, b, b.idx2, b.idx1);
    NumberedHas(c, d, b, b.idx2);
  }

  /** Up to 1024 ints each region keeps its one page local from the first store on, and
      the sum is right for all random numbers. */
  lemma OnePageIsRight(c: Cache, b: Setting, fill: Chance, sum: Chance)
    requires Ready(c, b) && Proper(b) && b.num <= 1024
    ensures Right(c, b, fill, sum)
  {
    if b.num > 0 {
      var v := Iota(b.num);
      hide FillingPage, SummingPage, IndexArray, Proper, Arrays, Iota;
      StartPage(c, b);
      FillPage(IndexArray(c, b, b.idx1), b, v, fill);
      var d := FillLoop(IndexArray(c, b, b.idx1), b, b.num, fill).c;
      BetweenPages(d, b);
      SumPage(IndexArray(d, b, b.idx2), b, v, sum);
      TotalIota(b.num);
      hide FillLoop, SumLoop, Total, SumBelow;
    }
  }

  // ---- Always drawing the last index: right for any number of pages ----

  /** The fill loop with `s` indices left, all drawn from the end. */
  ghost predicate FillingLast(c: Cache, b: Setting, s: nat)
    requires b.num > 0
  {
    && Arrays(c, b) && s <= b.num && b.idx2 !in c.lines
    && Settled(c, b.idx1, b.num) && Resident(c, b.idx1, (if s < b.num then s else b.num - 1) / 1024)
    && (forall j: nat :: j < b.num ==> Element(c, b.idx1, j) == b.enc(j))
    && (if s == b.num then b.p !in c.lines else Dirty(c, b.p, s / 1024))
    && (forall j: nat :: s <= j < b.num ==> Element(c, b.p, j) == b.enc(j))
    && (b.num > 1024 && s < 1024 ==> HoldsFirst(c, b))
  }

  /** The buffer holds the first 1024 indices. */
  predicate HoldsFirst(c: Cache, b: Setting) {
    forall t: nat :: t < 1024 ==> IntAt(c.buffer, t) == b.enc(t)
  }

  /** Reading the last index: where the vector's page is then, and what the buffer holds. */
  lemma FillLastRead(c: Cache, b: Setting, s: nat, residue: Page)
    requires Proper(b) && b.num > 0 && FillingLast(c, b, s) && s > 0
    ensures var w := LoadAt(c, b.idx1, s - 1, residue);
      && w.bytes == b.enc(s - 1) && Arrays(w.c, b) && b.idx2 !in w.c.lines
      && SameElsewhere(c, w.c, b.idx1)
      && Settled(w.c, b.idx1, b.num) && Resident(w.c, b.idx1, (s - 1) / 1024)
      && (forall j: nat :: j < b.num ==> Element(w.c, b.idx1, j) == b.enc(j))
      && (b.num > 1024 && s - 1 < 1024 ==> HoldsFirst(w.c, b))
  {
    var w := LoadAt(c, b.idx1, s - 1, residue);
    LoadIs(c, b.idx1, s - 1, b.num, residue);
    hide LoadAt, Element;
    ElsewhereSame(c, w.c, b.idx1, b.idx2, b.num);
    ElsewhereSame(c, w.c, b.idx1, b.p, b.num);
    if b.num > 1024 && s - 1 < 1024 && !Resident(c, b.idx1, 0) {
      assert (s - 1) / 1024 == 0;
      SeenBuffer(c, w.c, b);
    }
  }

  lemma SeenBuffer(c: Cache, d: Cache, b: Setting)
    requires HasInts(c, b.idx1, b.num) && b.num > 1024 && Seen(c, d, b.idx1, b.num)
    requires forall j: nat :: j < b.num ==> Element(c, b.idx1, j) == b.enc(j)
    requires d.buffer == Transparency.Current(c, b.idx1, 0)
    ensures HasInts(d, b.idx1, b.num) && HoldsFirst(d, b)
  {
    forall t: nat | t < 1024 ensures IntAt(d.buffer, t) == b.enc(t) {
      assert Element(c, b.idx1, t) == IntAt(d.buffer, t);
    }
  }

  /** The array's elements stored so far stay in place. */
  lemma FillLastElement(c: Cache, b: Setting, s: nat, d: Cache, j: nat)
    requires Proper(b) && b.num > 0 && FillingLast(c, b, s) && s > 0 && s - 1 <= j < b.num
    requires Settled(d, b.p, b.num) && (b.p in d.lines <==> b.p in c.lines)
    requires b.p in c.lines ==> d.lines[b.p] == c.lines[b.p]
    requires Element(d, b.p, j) == Element(c, b.p, j)
    ensures HasInts(StoreAt(d, b.p, s - 1, b.enc(s - 1)), b.p, j + 1)
    ensures Element(StoreAt(d, b.p, s - 1, b.enc(s - 1)), b.p, j) == b.enc(j)
  {
    StoreElement(d, b.p, s - 1, b.enc(s - 1), j);
    hide StoreAt, Element;
    if j >= s && !Resident(d, b.p, (s - 1) / 1024) {
      assert Resident(d, b.p, s / 1024);
      assert (s - 1) / 1024 < s / 1024 <= j / 1024;
    }
  }

  /** All that FillingLast says of the store but the array's elements. */
  lemma FillLastStays(c: Cache, d: Cache, b: Setting, s: nat)
    requires Proper(b) && b.num > 0 && FillingLast(c, b, s) && s > 0
    requires Arrays(d, b) && b.idx2 !in d.lines && SameElsewhere(c, d, b.idx1)
    requires Settled(d, b.idx1, b.num) && Resident(d, b.idx1, (s - 1) / 1024)
    requires forall j: nat :: j < b.num ==> Element(d, b.idx1, j) == b.enc(j)
    ensures Settled(d, b.p, b.num) && (b.p in d.lines <==> b.p in c.lines)
    ensures b.p in c.lines ==> d.lines[b.p] == c.lines[b.p]
    ensures forall j: nat :: j < b.num ==> Element(d, b.p, j) == Element(c, b.p, j)
    ensures var e := StoreAt(d, b.p, s - 1, b.enc(s - 1));
      && Arrays(e, b) && b.idx2 !in e.lines && Settled(e, b.idx1, b.num) && Resident(e, b.idx1, (s - 1) / 1024)
      && (forall j: nat :: j < b.num ==> Element(e, b.idx1, j) == b.enc(j))
      && Dirty(e, b.p, (s - 1) / 1024) && e.buffer == d.buffer
  {
    var i, e := s - 1, StoreAt(d, b.p, s - 1, b.enc(s - 1));
    ElsewhereSame(c, d, b.idx1, b.p, b.num);
    StoreEffect(d, b.p, i, b.enc(i));
    ElsewhereSame(d, e, b.p, b.idx1, b.num);
    ElsewhereSame(d, e, b.p, b.idx2, b.num);
    hide StoreAt, Element, SameElsewhere, HoldsFirst, KeepsInts;
    assert Resident(d, b.p, i / 1024) ==> d.lines[b.p].dirty;
  }

  lemma FillLastStore(c: Cache, d: Cache, b: Setting, s: nat)
    requires Proper(b) && b.num > 0 && FillingLast(c, b, s) && s > 0
    requires Arrays(d, b) && b.idx2 !in d.lines && SameElsewhere(c, d, b.idx1)
    requires Settled(d, b.idx1, b.num) && Resident(d, b.idx1, (s - 1) / 1024)
    requires forall j: nat :: j < b.num ==> Element(d, b.idx1, j) == b.enc(j)
    requires b.num > 1024 && s - 1 < 1024 ==> HoldsFirst(d, b)
    ensures FillingLast(StoreAt(d, b.p, s - 1, b.enc(s - 1)), b, s - 1)
  {
    var i, e := s - 1, StoreAt(d, b.p, s - 1, b.enc(s - 1));
    assert s <= b.num by { FillingLastIs(c, b, s); }
    FillLastStays(c, d, b, s);
    hide StoreAt, Element, SameElsewhere, IntAt, Settled, HasInts, KeepsInts, Proper, Resident;
    forall j: nat | i <= j < b.num ensures HasInts(e, b.p, j + 1) && Element(e, b.p, j) == b.enc(j) {
      hide FillingLast;
      FillLastElement(c, b, s, d, j);
    }
  }

  lemma FillLastOne(c: Cache, b: Setting, s: nat, ch: Chance)
    requires Proper(b) && b.num > 0 && FillingLast(c, b, s) && s > 0 && Draw(ch.rand, s) == s - 1
    ensures Arrays(c, b) && s <= b.num
    ensures FillOne(c, b, s, ch).Done? && FillingLast(FillOne(c, b, s, ch).c, b, s - 1)
  {
    hide GetNumAt, LoadAt, StoreAt, Draw, FillOne, Element, SameElsewhere, HoldsFirst;
    FillLastRead(c, b, s, ch.residues(s, 0));
    assert Settled(c, b.idx1, s);
    DrawLast(c, b.idx1, s, ch.residues);
    FillOneIs(c, b, s, ch, s - 1);
    hide FillingLast, Settled, HasInts;
    FillLastStore(c, LoadAt(c, b.idx1, s - 1, ch.residues(s, 0)).c, b, s);
  }

  /** Random numbers that draw the last index of any number up to `s`. */
  ghost predicate DrawsLast(ch: Chance, s: nat) {
    forall m: nat :: 0 < m <= s ==> Draw(ch.rand, m) == m - 1
  }

  lemma DrawsLastIs(ch: Chance, s: nat)
    requires DrawsLast(ch, s) && s > 0
    ensures Draw(ch.rand, s) == s - 1 && DrawsLast(ch, s - 1)
  {
  }

  lemma FillingLastIs(c: Cache, b: Setting, s: nat)
    requires b.num > 0 && FillingLast(c, b, s)
    ensures Arrays(c, b) && HasInts(c, b.idx2, b.num) && s <= b.num
  {
  }

  lemma {:induction false} FillLast(c: Cache, b: Setting, s: nat, ch: Chance)
    requires Proper(b) && b.num > 0 && FillingLast(c, b, s) && DrawsLast(ch, s)
    ensures Arrays(c, b) && s <= b.num
    ensures FillLoop(c, b, s, ch).Done? && FillingLast(FillLoop(c, b, s, ch).c, b, 0)
    decreases s
  {
    FillingLastIs(c, b, s);
    hide FillingLast, FillOne, Draw, Arrays, Proper;
    if s > 0 {
      FillLastOne(c, b, s, ch);
      FillLast(FillOne(c, b, s, ch).c, b, s - 1, ch);
    }
  }

  lemma StartLast(c: Cache, b: Setting)
    requires Ready(c, b) && Proper(b) && b.num > 0
    ensures FillingLast(IndexArray(c, b, b.idx1), b, b.num)
  {
    var d := IndexArray(c, b, b.idx1);
    hide IndexArray, Element, TailInt;
    IndexArrayIs(c, b, b.idx1);
    NumberedKeeps(c, d, b, b.idx1, b.p);
    NumberedKeeps(c, d, b, b.idx1, b.idx2);
    hide SameElsewhere;
  }

  /** u(0) + ... + u(s-1) */
  function SumOf(u: nat -> nat, s: nat): nat {
    if s == 0 then 0 else SumOf(u, s - 1) + u(s - 1)
  }

  /** The sum loop with `s` indices left, all drawn from the end: the vector holds u. */
  ghost predicate SummingLast(c: Cache, b: Setting, s: nat, u: nat -> nat) {
    && Arrays(c, b) && s <= b.num && Settled(c, b.idx2, b.num) && Settled(c, b.p, b.num)
    && (forall j: nat :: j < b.num ==> Element(c, b.p, j) == b.enc(j))
    && (forall j: nat :: j < s ==> u(j) < b.num && Element(c, b.idx2, j) == b.enc(u(j)))
  }

  lemma KeepsArrays(c: Cache, d: Cache, b: Setting)
    requires KeepsInts(c, d) && Arrays(c, b)
    ensures Arrays(d, b)
  {
  }

  lemma SumSeesVector(c: Cache, d: Cache, b: Setting, s: nat, u: nat -> nat)
    requires Proper(b) && SummingLast(c, b, s, u) && Arrays(d, b) && Seen(c, d, b.idx2, b.num)
    ensures SummingLast(d, b, s, u)
  {
    ElsewhereSame(c, d, b.idx2, b.p, b.num);
    assert Settled(d, b.idx2, b.num);
    hide SameElsewhere;
    forall j: nat | j < s ensures Element(d, b.idx2, j) == b.enc(u(j)) {
      SeenElement(c, d, b.idx2, b.num, j);
    }
    hide Element, Seen;
  }

  lemma SumSeesArray(c: Cache, d: Cache, b: Setting, s: nat, u: nat -> nat)
    requires Proper(b) && SummingLast(c, b, s, u) && s > 0 && Arrays(d, b) && Seen(c, d, b.p, b.num)
    ensures SummingLast(d, b, s - 1, u)
  {
    ElsewhereSame(c, d, b.p, b.idx2, b.num);
    assert Settled(d, b.p, b.num);
    hide SameElsewhere;
    forall j: nat | j < b.num ensures Element(d, b.p, j) == b.enc(j) {
      SeenElement(c, d, b.p, b.num, j);
    }
    hide Element, Seen;
  }

  lemma SumLastRead(c: Cache, b: Setting, s: nat, u: nat -> nat, residue: Page)
    requires Proper(b) && SummingLast(c, b, s, u) && s > 0
    ensures HasInts(c, b.idx2, s)
    ensures var w := LoadAt(c, b.idx2, s - 1, residue);
      w.bytes == b.enc(u(s - 1)) && SummingLast(w.c, b, s, u)
  {
    assert Settled(c, b.idx2, b.num) && HasInts(c, b.idx2, s);
    hide *;
    SummingLastIs(c, b, s, u);
    LoadIs(c, b.idx2, s - 1, b.num, residue);
    KeepsArrays(c, LoadAt(c, b.idx2, s - 1, residue).c, b);
    SumSeesVector(c, LoadAt(c, b.idx2, s - 1, residue).c, b, s, u);
  }

  lemma SumLastAdd(c: Cache, b: Setting, s: nat, u: nat -> nat, residue: Page)
    requires Proper(b) && SummingLast(c, b, s, u) && s > 0
    ensures u(s - 1) < b.num && HasInts(c, b.p, u(s - 1) + 1)
    ensures var w := LoadAt(c, b.p, u(s - 1), residue);
      w.bytes == b.enc(u(s - 1)) && SummingLast(w.c, b, s - 1, u)
  {
    assert Settled(c, b.p, b.num) && u(s - 1) < b.num && HasInts(c, b.p, u(s - 1) + 1);
    assert Element(c, b.p, u(s - 1)) == b.enc(u(s - 1));
    hide *;
    SummingLastIs(c, b, s, u);
    LoadIs(c, b.p, u(s - 1), b.num, residue);
    KeepsArrays(c, LoadAt(c, b.p, u(s - 1), residue).c, b);
    SumSeesArray(c, LoadAt(c, b.p, u(s - 1), residue).c, b, s, u);
  }

  lemma SummingLastIs(c: Cache, b: Setting, s: nat, u: nat -> nat)
    requires SummingLast(c, b, s, u)
    ensures Arrays(c, b) && s <= b.num && Settled(c, b.idx2, s)
    ensures s > 0 ==> u(s - 1) < b.num && HasInts(c, b.idx2, s) && Element(c, b.idx2, s - 1) == b.enc(u(s - 1))
  {
  }

  lemma SumLastOne(c: Cache, b: Setting, s: nat, u: nat -> nat, ch: Chance)
    requires Proper(b) && SummingLast(c, b, s, u) && s > 0 && Draw(ch.rand, s) == s - 1
    ensures Arrays(c, b) && s <= b.num
    ensures var o := SumOne(c, b, s, ch);
      o.Done? && o.sum == u(s - 1) && SummingLast(o.c, b, s - 1, u)
  {
    hide GetNumAt, LoadAt, Draw, SumOne, SummingLast, Settled, Arrays, Element;
    SummingLastIs(c, b, s, u);
    SumLastRead(c, b, s, u, ch.residues(s, 0));
    DrawLast(c, b.idx2, s, ch.residues);
    SumOneIs(c, b, s, ch, u(s - 1));
    SumLastAdd(LoadAt(c, b.idx2, s - 1, ch.residues(s, 0)).c, b, s, u, ch.residues(s, 3));
  }

  lemma {:induction false} SumLast(c: Cache, b: Setting, s: nat, u: nat -> nat, ch: Chance)
    requires Proper(b) && SummingLast(c, b, s, u) && DrawsLast(ch, s)
    ensures Arrays(c, b) && s <= b.num
    ensures SumLoop(c, b, s, ch).Done? && SumLoop(c, b, s, ch).sum == SumOf(u, s)
    decreases s
  {
    hide SummingLast, SumOne, Draw, DrawsLast, Arrays, Proper, Settled, HasInts, Element;
    SummingLastIs(c, b, s, u);
    if s > 0 {
      DrawsLastIs(ch, s);
      SumLastOne(c, b, s, u, ch);
      SumLast(SumOne(c, b, s, ch).c, b, s - 1, u, ch);
    }
  }

  /** Between the loops: the array is right, the second vector is made, and the rest of
      its last page is what the first vector's first page held. */
  lemma BetweenLast(c: Cache, b: Setting)
    requires Proper(b) && b.num > 0 && FillingLast(c, b, 0)
    ensures var d := IndexArray(c, b, b.idx2);
      && SummingLast(d, b, b.num, j => j)
      && (b.num > 1024 ==>
            forall t: nat :: (b.num - 1) % 1024 < t < 1024 ==> TailInt(d, b.idx2, b.num, t) == b.enc(t))
  {
    var d := IndexArray(c, b, b.idx2);
    hide IndexArray, Element, TailInt, SameElsewhere;
    IndexArrayIs(c, b, b.idx2);
    NumberedKeeps(c, d, b, b.idx2, b.p);
    NumberedKeeps(c, d, b, b.idx2, b.idx1);
  }

  lemma {:induction false} SumOfAll(s: nat)
    ensures SumOf(j => j, s) == SumBelow(s)
  {
    if s > 0 { SumOfAll(s - 1); }
  }

  /** Draws that always take the last index give the right sum for any number of pages. */
  lemma LastDrawsAreRight(c: Cache, b: Setting, fill: Chance, sum: Chance)
    requires Ready(c, b) && Proper(b) && DrawsLast(fill, b.num) && DrawsLast(sum, b.num)
    ensures Right(c, b, fill, sum)
  {
    if b.num > 0 {
      hide FillingLast, SummingLast, IndexArray, Proper, Arrays, DrawsLast;
      StartLast(c, b);
      FillLast(IndexArray(c, b, b.idx1), b, b.num, fill);
      var d := FillLoop(IndexArray(c, b, b.idx1), b, b.num, fill).c;
      BetweenLast(d, b);
      SumLast(IndexArray(d, b, b.idx2), b, b.num, j => j, sum);
      SumOfAll(b.num);
      hide FillLoop, SumLoop, SumOf, SumBelow;
    }
  }

  // ---- More pages: one draw from another page spoils the vector ----

  /** What the second vector holds after index 1 was drawn first: its first page is a copy
      of its last one, with the last index in place of the one drawn. */
  function Twisted(n: nat): nat -> nat
    requires n > 0
  {
    j => if j == 1 then n - 1
         else if j < 1024 && (n - 1) / 1024 * 1024 + j < n then (n - 1) / 1024 * 1024 + j
         else j
  }

  /** The second vector before its first draw. */
  ghost predicate FreshVector(c: Cache, b: Setting) {
    && b.num > 1024 && Settled(c, b.idx2, b.num)
    && (forall j: nat :: j < b.num ==> Element(c, b.idx2, j) == b.enc(j))
    && (forall t: nat :: (b.num - 1) % 1024 < t < 1024 ==> TailInt(c, b.idx2, b.num, t) == b.enc(t))
  }

  /** Slot `j` of the vector's last page. */
  lemma LastPage(c: Cache, b: Setting, j: nat)
    requires FreshVector(c, b) && j < 1024
    ensures var at := (b.num - 1) / 1024 * 1024 + j;
      HasInts(c, b.idx2, at + 1) && Element(c, b.idx2, at) == b.enc(if at < b.num then at else j)
  {
    TailIsElement(c, b.idx2, b.num, j);
  }

  lemma BufferAt(d: Cache, r: int, q: nat, t: nat)
    requires Resident(d, r, q) && d.buffer == d.lines[r].data && HasInts(d, r, q * 1024 + t + 1) && t < 1024
    ensures IntAt(d.buffer, t) == Element(d, r, q * 1024 + t)
  {
    assert (q * 1024 + t) / 1024 == q && (q * 1024 + t) % 1024 == t;
  }

  /** The state between the loads and the stores of the draw. */
  ghost predicate Crossing(c: Cache, d: Cache, b: Setting) {
    && FreshVector(c, b) && Seen(c, d, b.idx2, b.num) && HasInts(d, b.idx2, b.num)
    && Resident(d, b.idx2, (b.num - 1) / 1024) && d.buffer == d.lines[b.idx2].data
  }

  lemma CrossingAt(c: Cache, d: Cache, b: Setting, j: nat)
    requires Crossing(c, d, b) && j < b.num
    ensures Settled(d, b.idx2, b.num) && HasInts(d, b.idx2, j + 1) && Element(d, b.idx2, j) == b.enc(j)
  {
    SeenElement(c, d, b.idx2, b.num, j);
    assert HasInts(c, b.idx2, j + 1);
  }

  lemma CrossingIs(c: Cache, d: Cache, b: Setting)
    requires Proper(b) && Crossing(c, d, b)
    ensures b.num > 1024 && |b.enc(b.num - 1)| == 4 && Settled(d, b.idx2, b.num) && HasInts(d, b.idx2, b.num)
    ensures !Resident(d, b.idx2, 0)
  {
  }

  lemma CrossFirstStays(c: Cache, d: Cache, b: Setting)
    requires Proper(b) && Crossing(c, d, b)
    ensures var c1 := StoreAt(d, b.idx2, 1, b.enc(b.num - 1));
      Settled(c1, b.idx2, b.num) && Resident(c1, b.idx2, 0) && c1.buffer == d.buffer
  {
    StoreEffect(d, b.idx2, 1, b.enc(b.num - 1));
    hide StoreAt, SameElsewhere, Seen, FreshVector;
  }

  lemma TwistedIs(n: nat, j: nat)
    requires n > 1024
    ensures j == 1 ==> Twisted(n)(j) == n - 1
    ensures j / 1024 != 0 ==> Twisted(n)(j) == j
    ensures var at := (n - 1) / 1024 * 1024 + j;
      j / 1024 == 0 && j != 1 ==> Twisted(n)(j) == if at < n then at else j
  {
  }

  /** The first store brings page 0 back as the buffer holds it. */
  lemma CrossFirst(c: Cache, d: Cache, b: Setting, j: nat)
    requires Proper(b) && Crossing(c, d, b) && j < b.num - 1
    ensures var c1 := StoreAt(d, b.idx2, 1, b.enc(b.num - 1));
      && Settled(c1, b.idx2, b.num) && Resident(c1, b.idx2, 0) && c1.buffer == d.buffer
      && HasInts(c1, b.idx2, j + 1) && Element(c1, b.idx2, j) == b.enc(Twisted(b.num)(j))
  {
    hide *;
    CrossingIs(c, d, b);
    CrossingAt(c, d, b, j);
    FewerInts(d, b.idx2, b.num, 2);
    CrossFirstStays(c, d, b);
    TwistedIs(b.num, j);
    SettledFewer(d, b.idx2, b.num, 2);
    StoreElement(d, b.idx2, 1, b.enc(b.num - 1), j);
    SettledFewer(StoreAt(d, b.idx2, 1, b.enc(b.num - 1)), b.idx2, b.num, j + 1);
    if j / 1024 == 0 {
      CrossNew(c, d, b, j);
    }
  }

  /** And the second one the last page as it was. */
  lemma CrossElement(c: Cache, d: Cache, b: Setting, j: nat)
    requires Proper(b) && Crossing(c, d, b) && j < b.num - 1
    ensures HasInts(d, b.idx2, b.num) && HasInts(Swap(d, b.idx2, b.num, 1), b.idx2, j + 1)
    ensures Element(Swap(d, b.idx2, b.num, 1), b.idx2, j) == b.enc(Twisted(b.num)(j))
  {
    var r, n, q := b.idx2, b.num, (b.num - 1) / 1024;
    var c1 := StoreAt(d, r, 1, b.enc(n - 1));
    assert q >= 1 && HasInts(d, r, n);
    CrossFirst(c, d, b, j);
    CrossingAt(c, d, b, n - 1);
    CrossingAt(c, d, b, 1);
    CrossingAt(c, d, b, j);
    assert Swap(d, r, n, 1) == StoreAt(c1, r, n - 1, b.enc(1));
    StoreElement(c1, r, n - 1, b.enc(1), j);
    hide StoreAt, Swap, Element, IntAt;
    if j / 1024 == q {
      CrossOld(d, r, q, j);
    }
  }

  lemma CrossOld(d: Cache, r: int, q: nat, j: nat)
    requires Resident(d, r, q) && d.buffer == d.lines[r].data && HasInts(d, r, j + 1) && j / 1024 == q
    ensures IntAt(d.buffer, j % 1024) == Element(d, r, j)
  {
  }

  lemma CrossNew(c: Cache, d: Cache, b: Setting, j: nat)
    requires Crossing(c, d, b) && j < 1024
    ensures var at := (b.num - 1) / 1024 * 1024 + j;
      IntAt(d.buffer, j) == b.enc(if at < b.num then at else j)
  {
    var at := (b.num - 1) / 1024 * 1024 + j;
    LastPage(c, b, j);
    SeenElement(c, d, b.idx2, b.num, at);
    BufferAt(d, b.idx2, (b.num - 1) / 1024, j);
  }

  lemma CrossStays(d: Cache, r: int, n: nat)
    requires Settled(d, r, n) && n > 1024 && Resident(d, r, (n - 1) / 1024)
    ensures Settled(Swap(d, r, n, 1), r, n) && SameElsewhere(d, Swap(d, r, n, 1), r)
  {
    var c1 := StoreAt(d, r, 1, Element(d, r, n - 1));
    StoreEffect(d, r, 1, Element(d, r, n - 1));
    StoreEffect(c1, r, n - 1, Element(d, r, 1));
    hide StoreAt, Element;
    ElsewhereTrans(d, c1, Swap(d, r, n, 1), r);
    hide SameElsewhere;
  }

  /** Drawing index 1 first. */
  lemma CrossDraw(c: Cache, b: Setting, residues: (nat, nat) -> Page)
    requires Proper(b) && FreshVector(c, b)
    ensures HasInts(c, b.idx2, b.num)
    ensures var w := GetNumAt(c, b.idx2, b.num, 1, residues);
      && w.bytes == b.enc(1) && SameElsewhere(c, w.c, b.idx2) && Settled(w.c, b.idx2, b.num)
      && forall j: nat :: j < b.num - 1 ==> Element(w.c, b.idx2, j) == b.enc(Twisted(b.num)(j))
  {
    var r, n := b.idx2, b.num;
    assert HasInts(c, r, n) && Element(c, r, 1) == b.enc(1);
    var d := Looked(c, r, n, 1, residues);
    DrawIsSwap(c, r, n, 1, residues);
    assert Settled(d, r, n) && SameElsewhere(c, d, r);
    assert Crossing(c, d, b);
    hide Crossing, Looked, GetNumAt, Swap, Element, Twisted, FreshVector, Seen, SameElsewhere;
    CrossStays(d, r, n);
    ElsewhereTrans(c, d, Swap(d, r, n, 1), r);
    forall j: nat | j < n - 1
      ensures HasInts(Swap(d, r, n, 1), r, j + 1) && Element(Swap(d, r, n, 1), r, j) == b.enc(Twisted(n)(j))
    {
      CrossElement(c, d, b, j);
    }
  }

  /** The first turn of the sum loop. */
  lemma SumCross(c: Cache, b: Setting, ch: Chance)
    requires Proper(b) && SummingLast(c, b, b.num, j => j) && FreshVector(c, b) && Draw(ch.rand, b.num) == 1
    ensures Arrays(c, b)
    ensures var o := SumOne(c, b, b.num, ch);
      o.Done? && o.sum == 1 && SummingLast(o.c, b, b.num - 1, Twisted(b.num))
  {
    SummingLastIs(c, b, b.num, j => j);
    hide GetNumAt, LoadAt, Draw, SumOne, Element, FreshVector;
    CrossDraw(c, b, ch.residues);
    SumOneIs(c, b, b.num, ch, 1);
    SumCrossAdd(c, GetNumAt(c, b.idx2, b.num, 1, ch.residues).c, b, ch.residues(b.num, 3));
  }

  lemma SumCrossAdd(c: Cache, d: Cache, b: Setting, residue: Page)
    requires Proper(b) && b.num > 1024 && SummingLast(c, b, b.num, j => j) && Arrays(d, b)
    requires SameElsewhere(c, d, b.idx2) && Settled(d, b.idx2, b.num)
    requires forall j: nat :: j < b.num - 1 ==> Element(d, b.idx2, j) == b.enc(Twisted(b.num)(j))
    ensures var w := LoadAt(d, b.p, 1, residue);
      w.bytes == b.enc(1) && SummingLast(w.c, b, b.num - 1, Twisted(b.num))
  {
    var w := LoadAt(d, b.p, 1, residue);
    ElsewhereSame(c, d, b.idx2, b.p, b.num);
    LoadIs(d, b.p, 1, b.num, residue);
    hide LoadAt, Element;
    ElsewhereSame(d, w.c, b.p, b.idx2, b.num);
    ElsewhereSame(d, w.c, b.p, b.idx1, b.num);
    hide SameElsewhere;
  }

  // ---- How much too large ----

  /** Of the first `t` indices those other than 1. */
  function Others(t: nat): nat {
    if t < 2 then t else t - 1
  }

  function Lift(q: nat, k: nat): nat {
    1024 * q * k
  }

  lemma LiftMore(q: nat, k: nat)
    ensures Lift(q, k + 1) == Lift(q, k) + 1024 * q && Lift(q, 0) == 0
  {
  }

  /** The indices still to be drawn from the spoiled vector add up to more than they should. */
  lemma {:induction false} TwistedSum(n: nat, s: nat)
    requires n > 1024 && s <= n - 1
    ensures var q, m := (n - 1) / 1024, (n - 1) % 1024 + 1;
      SumOf(Twisted(n), s) == SumBelow(s) + (if s > 1 then n - 2 else 0) + Lift(q, Others(if s < m then s else m))
  {
    var q, m := (n - 1) / 1024, (n - 1) % 1024 + 1;
    if s == 0 {
      LiftMore(q, 0);
    } else {
      TwistedSum(n, s - 1);
      LiftMore(q, Others(if s - 1 < m then s - 1 else m));
      hide Lift;
      assert s - 1 < m <==> q * 1024 + (s - 1) < n;
    }
  }

  /** Random numbers that draw the last index each time. */
  function Last(): nat -> nat {
    m => if m == 0 then 0 else m - 1
  }

  /** The same, but for the first draw from `n`, which takes index 1. */
  function OneThenLast(n: nat): nat -> nat {
    m => if m == n then 1 else if m == 0 then 0 else m - 1
  }

  lemma DrawIs(rand: nat -> nat, m: nat, k: nat)
    requires k < m && rand(m) == k
    ensures Draw(rand, m) == k
  {
  }

  lemma LastDraws(n: nat, residues: (nat, nat) -> Page)
    requires n > 1024
    ensures DrawsLast(Chance(Last(), residues), n)
    ensures DrawsLast(Chance(OneThenLast(n), residues), n - 1) && Draw(OneThenLast(n), n) == 1
  {
    hide Draw;
    forall m: nat | 0 < m <= n ensures Draw(Last(), m) == m - 1 { DrawIs(Last(), m, m - 1); }
    forall m: nat | 0 < m < n ensures Draw(OneThenLast(n), m) == m - 1 { DrawIs(OneThenLast(n), m, m - 1); }
    DrawIs(OneThenLast(n), n, 1);
  }

  lemma BetweenCross(c: Cache, b: Setting)
    requires Proper(b) && b.num > 1024 && FillingLast(c, b, 0)
    ensures HasInts(c, b.idx2, b.num)
    ensures SummingLast(IndexArray(c, b, b.idx2), b, b.num, j => j) && FreshVector(IndexArray(c, b, b.idx2), b)
  {
    FillingLastIs(c, b, 0);
    hide IndexArray, Element, TailInt, FillingLast;
    BetweenLast(c, b);
  }

  lemma ReadyIs(c: Cache, b: Setting)
    requires Ready(c, b)
    ensures Arrays(c, b) && HasInts(c, b.idx1, b.num)
  {
  }

  lemma FilledLast(c: Cache, b: Setting, fill: Chance)
    requires Ready(c, b) && Proper(b) && b.num > 0 && DrawsLast(fill, b.num)
    ensures HasInts(c, b.idx1, b.num)
    ensures var o := FillLoop(IndexArray(c, b, b.idx1), b, b.num, fill);
      o.Done? && FillingLast(o.c, b, 0)
  {
    ReadyIs(c, b);
    hide FillingLast, IndexArray, Proper, DrawsLast, HasInts;
    StartLast(c, b);
    FillLast(IndexArray(c, b, b.idx1), b, b.num, fill);
  }

  lemma SumLoopUnfolds(c: Cache, b: Setting, s: nat, ch: Chance)
    requires Arrays(c, b) && 0 < s <= b.num && SumOne(c, b, s, ch).Done?
    requires SumLoop(SumOne(c, b, s, ch).c, b, s - 1, ch).Done?
    ensures var o := SumOne(c, b, s, ch); var rest := SumLoop(o.c, b, s - 1, ch);
      SumLoop(c, b, s, ch) == rest.(sum := o.sum + rest.sum)
  {
    hide SumOne, Arrays;
  }

  lemma SumTwisted(d: Cache, b: Setting, sum: Chance)
    requires Proper(b) && b.num > 1024 && FillingLast(d, b, 0)
    requires DrawsLast(sum, b.num - 1) && Draw(sum.rand, b.num) == 1
    ensures HasInts(d, b.idx2, b.num)
    ensures var e := IndexArray(d, b, b.idx2);
      && Arrays(e, b)
      && var o := SumLoop(e, b, b.num, sum); o.Done? && o.sum == 1 + SumOf(Twisted(b.num), b.num - 1)
  {
    hide *;
    BetweenCross(d, b);
    var e := IndexArray(d, b, b.idx2);
    SumCross(e, b, sum);
    SumLast(SumOne(e, b, b.num, sum).c, b, b.num - 1, Twisted(b.num), sum);
    SumLoopUnfolds(e, b, b.num, sum);
  }

  /** Beyond 1024 ints, from any state: if the fill draws every index from the end and the
      sum starts with index 1, the sum is too large, by the number of the last page times
      1024 for each of its indices that is now met twice. */
  lemma MorePagesGoWrong(c: Cache, b: Setting, residues1: (nat, nat) -> Page, residues2: (nat, nat) -> Page)
    requires Ready(c, b) && Proper(b) && b.num > 1024
    ensures var o := Bench(c, b, Chance(Last(), residues1), Chance(OneThenLast(b.num), residues2));
      && o.Done? && o.sum == SumBelow(b.num) + Lift((b.num - 1) / 1024, Others((b.num - 1) % 1024 + 1))
      && o.sum > SumBelow(b.num)
  {
    var n, fill, sum := b.num, Chance(Last(), residues1), Chance(OneThenLast(b.num), residues2);
    ReadyIs(c, b);
    hide FillingLast, IndexArray, Proper, Ready, Arrays, HasInts, DrawsLast, Twisted, Draw, Last, OneThenLast,
      FillLoop, SumLoop, SumOf, SumBelow, Lift, Others;
    LastDraws(n, residues1);
    LastDraws(n, residues2);
    FilledLast(c, b, fill);
    SumTwisted(FillLoop(IndexArray(c, b, b.idx1), b, n, fill).c, b, sum);
    CrossTotal(n);
  }

  lemma CrossTotal(n: nat)
    requires n > 1024
    ensures var extra := Lift((n - 1) / 1024, Others((n - 1) % 1024 + 1));
      extra > 0 && 1 + SumOf(Twisted(n), n - 1) == SumBelow(n) + extra
  {
    var q, m := (n - 1) / 1024, (n - 1) % 1024 + 1;
    TwistedSum(n, n - 1);
    LiftMore(q, Others(m) - 1);
    hide Lift, SumOf;
  }

  /** With array and vectors in remote memory the benchmark's sum is right for all random
      numbers exactly if each of them lies in one page. */
  lemma RightExactly(c: Cache, b: Setting)
    requires Ready(c, b) && Proper(b)
    ensures (forall fill: Chance, sum: Chance :: Right(c, b, fill, sum)) <==> b.num <= 1024
  {
    hide Ready, Proper, SumBelow, Bench, Arrays;
    ReadyIs(c, b);
    if b.num <= 1024 {
      forall fill: Chance, sum: Chance ensures Right(c, b, fill, sum) {
        OnePageIsRight(c, b, fill, sum);
      }
    } else {
      var zeros: (nat, nat) -> Page := (_, _) => ZeroPage();
      MorePagesGoWrong(c, b, zeros, zeros);
      assert !Right(c, b, Chance(Last(), zeros), Chance(OneThenLast(b.num), zeros));
    }
  }

  /** Registering the three regions, at addresses that are new or keep enough pages,
      prepares the benchmark. */
  lemma RegisteredReady(c: Cache, m: nat, b: Setting)
    requires Consistent(c) && 0 < m && b.num <= 1024 * m
    requires b.p != b.idx1 && b.p != b.idx2 && b.idx1 != b.idx2
    requires forall r :: r == b.p || r == b.idx1 || r == b.idx2 ==> r !in c.live && (r in c.remote ==> m <= |c.remote[r]|)
    ensures Ready(Run(c, [Register(b.p, m), Register(b.idx1, m), Register(b.idx2, m)]), b)
  {
    var e1, e2, e3 := Register(b.p, m), Register(b.idx1, m), Register(b.idx2, m);
    assert NewFor(c, b.p, m) && NewFor(c, b.idx1, m) && NewFor(c, b.idx2, m);
    hide Run, Step, HasInts, NewFor, Consistent;
    RunOfThree(c, e1, e2, e3);
    RegisterOne(c, b.p, m, b.num);
    RegisterOne(Step(c, e1), b.idx1, m, b.num);
    RegisterOne(Step(Step(c, e1), e2), b.idx2, m, b.num);
  }

  /** A region may be registered there, and the server has or gives it `m` pages. */
  predicate NewFor(c: Cache, r: int, m: nat) {
    Consistent(c) && r !in c.live && (r in c.remote ==> m <= |c.remote[r]|)
  }

  lemma RegisterOne(c: Cache, r: int, m: nat, n: nat)
    requires NewFor(c, r, m) && 0 < m && n <= 1024 * m
    ensures var d := Step(c, Register(r, m));
      && HasInts(d, r, n) && r !in d.lines
      && (forall q :: q != r && NewFor(c, q, m) ==> NewFor(d, q, m))
      && (forall q :: q != r && HasInts(c, q, n) && q !in c.lines ==> HasInts(d, q, n) && q !in d.lines)
  {
  }

  lemma RunOfThree(c: Cache, e1: Event, e2: Event, e3: Event)
    requires Consistent(c)
    ensures Run(c, [e1, e2, e3]) == Step(Step(Step(c, e1), e2), e3)
  {
    hide Step, Consistent;
    assert [e1, e2, e3] == [] + [e1] + [e2] + [e3];
    ProgramTraces.RunMore(c, [], e1);
    ProgramTraces.RunMore(c, [] + [e1], e2);
    ProgramTraces.RunMore(c, [] + [e1] + [e2], e3);
  }

  /** So with m pages for each, enough for the ints, the whole benchmark is right for all
      random numbers exactly up to one page of ints, however large m is. */
  lemma RightFromTheStart(c: Cache, m: nat, b: Setting)
    requires Consistent(c) && 0 < m && b.num <= 1024 * m
    requires b.p != b.idx1 && b.p != b.idx2 && b.idx1 != b.idx2
    requires forall j: nat :: j < b.num ==> |b.enc(j)| == 4 && b.dec(b.enc(j)) == j
    requires forall r :: r == b.p || r == b.idx1 || r == b.idx2 ==> r !in c.live && (r in c.remote ==> m <= |c.remote[r]|)
    ensures var d := Run(c, [Register(b.p, m), Register(b.idx1, m), Register(b.idx2, m)]);
      && Arrays(d, b) && Proper(b)
      && ((forall fill: Chance, sum: Chance :: Right(d, b, fill, sum)) <==> b.num <= 1024)
  {
    assert Proper(b);
    var d := Run(c, [Register(b.p, m), Register(b.idx1, m), Register(b.idx2, m)]);
    hide Run, Proper, Bench, Arrays, Right;
    RegisteredReady(c, m, b);
    ReadyIs(d, b);
    RightExactly(d, b);
  }

  // ---- In int arithmetic ----

  /** The sum comes out right in the range of int, where it may have wrapped. */
  predicate RightInt(c: Cache, b: Setting, fill: Chance, sum: Chance)
    requires Arrays(c, b) && Proper(b)
  {
    var o := Bench(c, b, fill, sum);
    o.Done? && WrapInt(o.sum) == WrapInt(SumBelow(b.num))
  }

  lemma WrapApart(x: int, y: int)
    requires 0 < y - x < 0x1_0000_0000
    ensures WrapInt(x) != WrapInt(y)
  {
  }

  lemma ExtraFitsWord(n: nat)
    requires 1024 < n <= 0x40_0000
    ensures Lift((n - 1) / 1024, Others((n - 1) % 1024 + 1)) < 0x1_0000_0000
  {
    LiftBound((n - 1) / 1024, Others((n - 1) % 1024 + 1));
  }

  lemma LiftBound(q: nat, k: nat)
    requires q <= 4095 && k <= 1023
    ensures Lift(q, k) <= 1024 * 4095 * 1023
  {
    assert Lift(q, k) == 1024 * (q * k);
    TimesGrows(q, 4095, k);
  }

  lemma TimesGrows(a: nat, b: nat, k: nat)
    requires a <= b
    ensures a * k <= b * k
  {
  }

  /** And for up to 2^22 ints wrapping does not hide it. */
  lemma RightIntExactly(c: Cache, b: Setting)
    requires Ready(c, b) && Proper(b) && b.num <= 0x40_0000
    ensures (forall fill: Chance, sum: Chance :: RightInt(c, b, fill, sum)) <==> b.num <= 1024
  {
    hide Ready, Proper, SumBelow, Bench, WrapInt, Lift, Others, Arrays;
    ReadyIs(c, b);
    if b.num <= 1024 {
      forall fill: Chance, sum: Chance ensures RightInt(c, b, fill, sum) {
        OnePageIsRight(c, b, fill, sum);
      }
    } else {
      var zeros: (nat, nat) -> Page := (_, _) => ZeroPage();
      var fill, sum := Chance(Last(), zeros), Chance(OneThenLast(b.num), zeros);
      MorePagesGoWrong(c, b, zeros, zeros);
      ExtraFitsWord(b.num);
      WrapApart(SumBelow(b.num), Bench(c, b, fill, sum).sum);
      assert !RightInt(c, b, fill, sum);
    }
  }
}

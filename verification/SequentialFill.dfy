/**
 * The test client's workload on the whole system: fill k pages of a region with the
 * numbers 0, 1, 2, ... in order, 512 doubles to a page, then read them back and add
 * them up.
 */
module SequentialFill {
  import opened Words
  import opened Sums
  import opened PageCache
  import Transparency
  import ByteServer
  import ClientModel
  import opened ClientRefinement
  import opened Runtime
  import opened ProgramTraces

  /** Any 8-byte encoding of the elements that can be decoded. */
  ghost predicate Codec(m: nat, enc: nat -> seq<Byte>, dec: seq<Byte> -> int) {
    forall j :: 0 <= j < m ==> |enc(j)| == 8 && dec(enc(j)) == j
  }

  /** Element `j` of a page sequence. */
  function Slot(page: Page, j: nat): seq<Byte> {
    var at := j % 512 * 8;
    page[at..at + 8]
  }

  predicate HasRegion(c: Cache, r: int, k: nat) {
    Consistent(c) && r in c.live && k <= c.live[r] && k <= |c.remote[r]|
  }

  /** What a load of element `j` would find now. */
  function Element(c: Cache, r: int, j: nat): seq<Byte>
    requires HasRegion(c, r, j / 512 + 1)
  {
    Slot(Transparency.Current(c, r, j / 512), j)
  }

  // ---- Filling ----

  /** After `i` stores: the page of the last one is local and write-faulted, the
      elements so far are in place, and all pages before it were sent. */
  ghost predicate Filled(c: Cache, r: int, k: nat, i: nat, enc: nat -> seq<Byte>, gets: nat, puts: nat) {
    && HasRegion(c, r, k) && i <= 512 * k
    && (if i == 0 then r !in c.lines else r in c.lines && c.lines[r].index == (i - 1) / 512 && c.lines[r].dirty)
    && (forall j :: 0 <= j < i ==> Element(c, r, j) == enc(j))
    && c.gets == gets && c.puts == puts + (if i == 0 then 0 else (i - 1) / 512)
  }

  lemma OtherSlot(page: Page, i: nat, j: nat, bytes: seq<Byte>)
    requires |bytes| == 8
    ensures i % 512 * 8 + 8 <= PAGE_SIZE
    ensures i % 512 == j % 512 ==> Slot(Overlay(page, i % 512 * 8, bytes), j) == bytes
    ensures i % 512 != j % 512 ==> Slot(Overlay(page, i % 512 * 8, bytes), j) == Slot(page, j)
  {
  }

  lemma SamePageSlots(i: nat, j: nat)
    requires j < i && j / 512 == i / 512
    ensures i % 512 != j % 512 && i % 512 != 0
  {
  }

  lemma EarlierPage(i: nat, j: nat)
    requires j < i && i % 512 == 0
    ensures j / 512 < i / 512
  {
  }

  lemma FillHit(c: Cache, r: int, k: nat, i: nat, enc: nat -> seq<Byte>, gets: nat, puts: nat)
    requires Filled(c, r, k, i, enc, gets, puts) && i < 512 * k && |enc(i)| == 8 && i % 512 != 0
    ensures Possible(c.live, Store(r, i / 512, i % 512 * 8, enc(i)))
    ensures Filled(Stored(c, r, i / 512, i % 512 * 8, enc(i)), r, k, i + 1, enc, gets, puts)
  {
    var c' := Stored(c, r, i / 512, i % 512 * 8, enc(i));
    assert (i - 1) / 512 == i / 512;
    forall j | 0 <= j < i + 1 ensures Element(c', r, j) == enc(j) {
      OtherSlot(c.lines[r].data, i, j, enc(i));
      if j < i {
        assert Element(c, r, j) == enc(j);
        if j / 512 == i / 512 { SamePageSlots(i, j); }
      }
    }
  }

  lemma FillFault(c: Cache, r: int, k: nat, i: nat, enc: nat -> seq<Byte>, gets: nat, puts: nat)
    requires Filled(c, r, k, i, enc, gets, puts) && i < 512 * k && |enc(i)| == 8 && i % 512 == 0
    ensures Possible(c.live, Store(r, i / 512, i % 512 * 8, enc(i)))
    ensures Filled(Stored(c, r, i / 512, i % 512 * 8, enc(i)), r, k, i + 1, enc, gets, puts)
  {
    var d, c' := Fault(c, r, i / 512, Write), Stored(c, r, i / 512, i % 512 * 8, enc(i));
    assert i > 0 ==> (i - 1) / 512 == i / 512 - 1;
    assert !Resident(c, r, i / 512);
    forall j | 0 <= j < i + 1 ensures Element(c', r, j) == enc(j) {
      if j < i {
        assert Element(c, r, j) == enc(j);
        EarlierPage(i, j);
        Transparency.CurrentAfterFault(c, r, i / 512, Write, r, j / 512);
      } else {
        OtherSlot(d.lines[r].data, i, i, enc(i));
      }
    }
  }

  // ---- Reading back ----

  /** Between two loads of the second loop: all elements can be found, and dropping
      the local page would lose nothing. */
  ghost predicate Readable(c: Cache, r: int, k: nat, i: nat, enc: nat -> seq<Byte>, gets: nat, puts: nat) {
    && HasRegion(c, r, k) && 0 < k && i <= 512 * k && r in c.lines
    && (forall j :: 0 <= j < 512 * k ==> Element(c, r, j) == enc(j))
    && (if i == 0 || k == 1 then
          c.lines[r].index == k - 1 && c.gets == gets && c.puts == puts + (k - 1)
        else
          c.lines[r].index == (i - 1) / 512 && c.gets == gets + (i - 1) / 512 + 1 && c.puts == puts + k)
    && (!c.lines[r].dirty ==> c.lines[r].data == c.remote[r][c.lines[r].index])
    && (c.lines[r].dirty <==> i == 0 || k == 1)
  }

  lemma FilledIsReadable(c: Cache, r: int, k: nat, enc: nat -> seq<Byte>, gets: nat, puts: nat)
    requires Filled(c, r, k, 512 * k, enc, gets, puts) && 0 < k
    ensures Readable(c, r, k, 0, enc, gets, puts)
  {
    assert (512 * k - 1) / 512 == k - 1;
  }

  lemma ReadStep(c: Cache, r: int, k: nat, i: nat, enc: nat -> seq<Byte>, gets: nat, puts: nat, residue: Page)
    requires Readable(c, r, k, i, enc, gets, puts) && i < 512 * k
    ensures Possible(c.live, LoadOf(r, i, residue))
    ensures Loaded(c, LoadOf(r, i, residue)) == enc(i)
    ensures Readable(Bring(c, r, i / 512, Read(residue)), r, k, i + 1, enc, gets, puts)
  {
    var d := Bring(c, r, i / 512, Read(residue));
    assert Element(c, r, i) == enc(i);
    forall j | 0 <= j < 512 * k ensures Element(d, r, j) == enc(j) {
      assert Element(c, r, j) == enc(j);
      if !Resident(c, r, i / 512) {
        Transparency.CurrentAfterFault(c, r, i / 512, Read(residue), r, j / 512);
      }
    }
    assert Element(d, r, i) == enc(i);
  }

  // ---- The loops ----

  /** The loops' accesses stay inside the region, 8 bytes at a time. */
  lemma ElementFits(s: ClientModel.System, start: int, k: nat, i: nat)
    requires ClientModel.Valid(s) && HasRegion(Abs(s), start, k) && i < 512 * k
    ensures ClientModel.InPage(s.c, start, 8 * i, 8)
    ensures 8 * i / 4096 == i / 512 && 8 * i % 4096 == i % 512 * 8
  {
    ValidHasTables(s);
    RegionKnown(s, start);
  }

  /** The fill loop's invariant on the whole system. */
  ghost predicate Filling(c: Cache, s: ClientModel.System, start: int, k: nat, i: nat, enc: nat -> seq<Byte>) {
    && ClientModel.Valid(s) && SameElsewhere(c, Abs(s), start)
    && Filled(Abs(s), start, k, i, enc, c.gets, c.puts)
  }

  /** The sum loop's. */
  ghost predicate Reading(c: Cache, s: ClientModel.System, start: int, k: nat, i: nat, enc: nat -> seq<Byte>) {
    && ClientModel.Valid(s) && SameElsewhere(c, Abs(s), start)
    && Readable(Abs(s), start, k, i, enc, c.gets, c.puts)
  }

  lemma StoreElement(c: Cache, s: ClientModel.System, start: int, k: nat, i: nat, enc: nat -> seq<Byte>)
    requires Filling(c, s, start, k, i, enc) && i < 512 * k && |enc(i)| == 8
    ensures ClientModel.Valid(s) && ClientModel.CanDo(s, ClientModel.Store(start, 8 * i, enc(i)))
    ensures Filling(c, ClientModel.Do(s, ClientModel.Store(start, 8 * i, enc(i))), start, k, i + 1, enc)
  {
    hide ClientModel.Valid, Abs, Stored, ClientModel.DoStore, ClientModel.Do, SameElsewhere;
    ElementFits(s, start, k, i);
    DoRefines(s, ClientModel.Store(start, 8 * i, enc(i)));
    AccessStaysInRegion(c, Abs(s), Store(start, i / 512, i % 512 * 8, enc(i)));
    if i % 512 == 0 {
      FillFault(Abs(s), start, k, i, enc, c.gets, c.puts);
    } else {
      FillHit(Abs(s), start, k, i, enc, c.gets, c.puts);
    }
  }

  lemma LoadElement(c: Cache, s: ClientModel.System, start: int, k: nat, i: nat, enc: nat -> seq<Byte>, residue: Page)
    requires Reading(c, s, start, k, i, enc) && i < 512 * k
    ensures ClientModel.Valid(s) && ClientModel.CanDo(s, ClientModel.Load(start, 8 * i, 8, residue))
    ensures ClientModel.DoLoad(s, start, 8 * i, 8, residue) == enc(i)
    ensures Reading(c, ClientModel.Do(s, ClientModel.Load(start, 8 * i, 8, residue)), start, k, i + 1, enc)
  {
    hide ClientModel.Valid, Abs, Bring, Loaded, ClientModel.Do, ClientModel.DoLoad, SameElsewhere;
    ElementFits(s, start, k, i);
    DoRefines(s, ClientModel.Load(start, 8 * i, 8, residue));
    LoadRefines(s, start, 8 * i, 8, residue);
    AccessStaysInRegion(c, Abs(s), LoadOf(start, i, residue));
    ReadStep(Abs(s), start, k, i, enc, c.gets, c.puts, residue);
  }

  /** The system moved from the cache state `c` as the events `es` say. */
  ghost predicate Traced(c: Cache, s: ClientModel.System, es: seq<Event>) {
    Consistent(c) && ClientModel.Valid(s) && Abs(s) == Run(c, es)
  }

  lemma TracedStore(c: Cache, s: ClientModel.System, es: seq<Event>, start: int, k: nat, i: nat, enc: nat -> seq<Byte>)
    requires ClientModel.Valid(s) && HasRegion(Abs(s), start, k) && i < 512 * k && |enc(i)| == 8 && Traced(c, s, es)
    ensures ClientModel.CanDo(s, ClientModel.Store(start, 8 * i, enc(i)))
    ensures Traced(c, ClientModel.Do(s, ClientModel.Store(start, 8 * i, enc(i))), es + [StoreOf(start, i, enc)])
  {
    hide ClientModel.Valid, Abs, ClientModel.Do, Step, Run;
    ElementFits(s, start, k, i);
    DoRefines(s, ClientModel.Store(start, 8 * i, enc(i)));
    RunMore(c, es, StoreOf(start, i, enc));
  }

  lemma TracedLoad(c: Cache, s: ClientModel.System, es: seq<Event>, start: int, k: nat, i: nat, residue: Page)
    requires ClientModel.Valid(s) && HasRegion(Abs(s), start, k) && i < 512 * k && Traced(c, s, es)
    ensures ClientModel.CanDo(s, ClientModel.Load(start, 8 * i, 8, residue))
    ensures Traced(c, ClientModel.Do(s, ClientModel.Load(start, 8 * i, 8, residue)), es + [LoadOf(start, i, residue)])
  {
    hide ClientModel.Valid, Abs, ClientModel.Do, Step, Run;
    ElementFits(s, start, k, i);
    DoRefines(s, ClientModel.Load(start, 8 * i, 8, residue));
    RunMore(c, es, LoadOf(start, i, residue));
  }

  lemma FillingHas(c: Cache, s: ClientModel.System, start: int, k: nat, i: nat, enc: nat -> seq<Byte>)
    requires Filling(c, s, start, k, i, enc)
    ensures ClientModel.Valid(s) && HasRegion(Abs(s), start, k)
  {
    hide ClientModel.Valid, Abs;
  }

  lemma ReadingHas(c: Cache, s: ClientModel.System, start: int, k: nat, i: nat, enc: nat -> seq<Byte>)
    requires Reading(c, s, start, k, i, enc)
    ensures ClientModel.Valid(s) && HasRegion(Abs(s), start, k)
  {
    hide ClientModel.Valid, Abs;
  }

  /** The fill loop. */
  method Fill(ghost c: Cache, u: Uffdman, start: int, k: nat, enc: nat -> seq<Byte>)
    requires u.resolver.ServerInOrder() && forall j :: 0 <= j < 512 * k ==> |enc(j)| == 8
    requires Filling(c, u.View(), start, k, 0, enc)
    modifies u, u.resolver`sent, u.resolver.server
    requires Traced(c, u.View(), [])
    ensures u.resolver.ServerInOrder() && Filling(c, u.View(), start, k, 512 * k, enc)
    ensures Traced(c, u.View(), Fills(start, 512 * k, enc))
  {
    hide ClientModel.Valid, ClientModel.Do, ClientModel.CanDo, Filling, Traced, HasRegion, Abs, ByteServer.Inv, ByteServer.Abs;
    for i := 0 to 512 * k
      invariant u.resolver.ServerInOrder() && Filling(c, u.View(), start, k, i, enc)
      invariant Traced(c, u.View(), Fills(start, i, enc))
    {
      FillingHas(c, u.View(), start, k, i, enc);
      TracedStore(c, u.View(), Fills(start, i, enc), start, k, i, enc);
      StoreElement(c, u.View(), start, k, i, enc);
      u.Store(start, 8 * i, enc(i));
    }
  }

  /** The sum loop, in double precision.  `residues` is what the packets of its loads
      happen to hold. */
  method Sum(ghost c: Cache, u: Uffdman, start: int, k: nat, ghost enc: nat -> seq<Byte>, dec: seq<Byte> -> int,
             residues: nat -> Page) returns (sum: nat)
    requires u.resolver.ServerInOrder() && Codec(512 * k, enc, dec)
    requires Reading(c, u.View(), start, k, 0, enc) && Traced(c, u.View(), Fills(start, 512 * k, enc))
    modifies u, u.resolver`sent, u.resolver.server
    ensures u.resolver.ServerInOrder() && Reading(c, u.View(), start, k, 512 * k, enc)
    ensures Traced(c, u.View(), FillsAndLoads(start, k, 512 * k, enc, residues))
    ensures sum == DoubleSum(512 * k)
  {
    hide ClientModel.Valid, ClientModel.Do, ClientModel.CanDo, ClientModel.DoLoad, Reading, Traced, HasRegion, Abs, ByteServer.Inv, ByteServer.Abs,
      AddDouble, Fills;
    sum := 0;
    for i := 0 to 512 * k
      invariant u.resolver.ServerInOrder() && Reading(c, u.View(), start, k, i, enc)
      invariant Traced(c, u.View(), FillsAndLoads(start, k, i, enc, residues))
      invariant sum == DoubleSum(i)
    {
      ReadingHas(c, u.View(), start, k, i, enc);
      TracedLoad(c, u.View(), FillsAndLoads(start, k, i, enc, residues), start, k, i, residues(i));
      LoadElement(c, u.View(), start, k, i, enc, residues(i));
      var word := u.Load(start, 8 * i, 8, residues(i));
      sum := AddDouble(sum, dec(word));
    }
  }

  /** Fill k pages of the region at `start`, which has nothing local, then add them up:
      every element comes back, the sum is that of 0 .. 512k-1 in double precision, exact
      up to 2^27 + 1 elements, and the pages crossed the network once each way (a single
      page never does). */
  method FillThenSum(u: Uffdman, start: int, k: nat, enc: nat -> seq<Byte>, dec: seq<Byte> -> int,
                     residues: nat -> Page) returns (sum: nat)
    requires u.InOrder() && forall j :: 0 <= j < 512 * k ==> |enc(j)| == 8 && dec(enc(j)) == j
    requires var c := Abs(u.View()); start in c.live && k <= c.live[start] && k <= |c.remote[start]| && start !in c.lines
    modifies u, u.resolver`sent, u.resolver.server
    ensures u.resolver.ServerInOrder() && Finished(old(Abs(u.View())), u.View(), start, k, enc)
    ensures Traced(old(Abs(u.View())), u.View(), Workload(start, k, enc, residues))
    ensures sum == DoubleSum(512 * k)
    ensures 512 * k <= 0x800_0001 ==> sum == SumBelow(512 * k)
  {
    hide ClientModel.Valid, Abs, Filling, Reading, Finished, Traced, Codec, HasRegion, SameElsewhere, ByteServer.Inv, ByteServer.Abs,
      SumBelow, DoubleSum, AddDouble, Fills, FillsAndLoads;
    CodecIs(512 * k, enc, dec);
    ghost var c := Abs(u.View());
    RegionIs(c, start, k);
    EncodesEight(512 * k, enc, dec);
    TracedNothing(u.View());
    NothingToSum(start, k, enc, residues);
    ExactSum(k);
    StartFilling(u.View(), start, k, enc);
    Fill(c, u, start, k, enc);
    FillingDone(c, u.View(), start, k, enc);
    sum := 0;
    if k > 0 {
      sum := SumFilled(c, u, start, k, enc, dec, residues);
    }
  }

  lemma CodecIs(m: nat, enc: nat -> seq<Byte>, dec: seq<Byte> -> int)
    requires forall j :: 0 <= j < m ==> |enc(j)| == 8 && dec(enc(j)) == j
    ensures Codec(m, enc, dec)
  {
  }

  lemma RegionIs(c: Cache, r: int, k: nat)
    requires Consistent(c) && r in c.live && k <= c.live[r] && k <= |c.remote[r]|
    ensures HasRegion(c, r, k)
  {
  }

  /** The second half of FillThenSum. */
  method SumFilled(ghost c: Cache, u: Uffdman, start: int, k: nat, ghost enc: nat -> seq<Byte>, dec: seq<Byte> -> int,
                   residues: nat -> Page) returns (sum: nat)
    requires u.resolver.ServerInOrder() && Codec(512 * k, enc, dec)
    requires Reading(c, u.View(), start, k, 0, enc) && Traced(c, u.View(), Fills(start, 512 * k, enc))
    modifies u, u.resolver`sent, u.resolver.server
    ensures u.resolver.ServerInOrder() && Finished(c, u.View(), start, k, enc)
    ensures Traced(c, u.View(), Workload(start, k, enc, residues))
    ensures sum == DoubleSum(512 * k)
  {
    hide ClientModel.Valid, Abs, Reading, Finished, Traced, Codec, ByteServer.Inv, ByteServer.Abs, DoubleSum, Fills;
    sum := Sum(c, u, start, k, enc, dec, residues);
    ReadingDone(c, u.View(), start, k, enc);
  }

  lemma TracedNothing(s: ClientModel.System)
    requires ClientModel.Valid(s)
    ensures Traced(Abs(s), s, [])
  {
    hide ClientModel.Valid, Abs;
  }

  lemma NothingToSum(start: int, k: nat, enc: nat -> seq<Byte>, residues: nat -> Page)
    ensures k == 0 ==> DoubleSum(512 * k) == 0 && Workload(start, k, enc, residues) == Fills(start, 512 * k, enc)
  {
  }

  lemma TracedTwice(c: Cache, s: ClientModel.System, s': ClientModel.System, es: seq<Event>, fs: seq<Event>)
    requires Traced(c, s, es) && Traced(Abs(s), s', fs)
    ensures Traced(c, s', es + fs)
  {
    hide ClientModel.Valid, Abs, Run;
    RunAppend(c, es, fs);
  }

  lemma ExactSum(k: nat)
    ensures 512 * k <= 0x800_0001 ==> DoubleSum(512 * k) == SumBelow(512 * k)
  {
    if 512 * k <= 0x800_0001 { DoubleSumExact(512 * k); }
  }

  lemma EncodesEight(m: nat, enc: nat -> seq<Byte>, dec: seq<Byte> -> int)
    requires Codec(m, enc, dec)
    ensures forall j :: 0 <= j < m ==> |enc(j)| == 8
  {
  }

  lemma StartFilling(s: ClientModel.System, start: int, k: nat, enc: nat -> seq<Byte>)
    requires ClientModel.Valid(s) && HasRegion(Abs(s), start, k) && start !in Abs(s).lines
    ensures Filling(Abs(s), s, start, k, 0, enc)
  {
    hide ClientModel.Valid, Abs;
  }

  /** What the loops leave, in the terms of FillThenSum. */
  ghost predicate Finished(c: Cache, s: ClientModel.System, start: int, k: nat, enc: nat -> seq<Byte>) {
    && ClientModel.Valid(s) && HasRegion(Abs(s), start, k) && SameElsewhere(c, Abs(s), start)
    && (forall j: nat :: j < 512 * k ==> Element(Abs(s), start, j) == enc(j))
    && Abs(s).gets == c.gets + (if k <= 1 then 0 else k)
    && Abs(s).puts == c.puts + (if k <= 1 then 0 else k)
  }

  lemma FillingDone(c: Cache, s: ClientModel.System, start: int, k: nat, enc: nat -> seq<Byte>)
    requires Filling(c, s, start, k, 512 * k, enc)
    ensures k == 0 ==> Finished(c, s, start, k, enc)
    ensures k > 0 ==> Reading(c, s, start, k, 0, enc)
  {
    hide ClientModel.Valid, Abs, SameElsewhere;
    if k > 0 { FilledIsReadable(Abs(s), start, k, enc, c.gets, c.puts); }
  }

  lemma ReadingDone(c: Cache, s: ClientModel.System, start: int, k: nat, enc: nat -> seq<Byte>)
    requires Reading(c, s, start, k, 512 * k, enc)
    ensures Finished(c, s, start, k, enc)
  {
    hide ClientModel.Valid, Abs, SameElsewhere;
    assert (512 * k - 1) / 512 == k - 1;
  }

  // ---- The program ----

  /** Pages per region. */
  const NPAGES: U32 := 11

  /** What the kernel answers to one rmp_alloc: mmap and userfaultfd here, mmap there. */
  datatype Grant = Grant(addr: int, uffd: int, base: int)

  /** Two regions of the client can exist side by side. */
  predicate Compatible(g: Grant, h: Grant) {
    g.uffd != h.uffd && ClientModel.Disjoint(g.addr, NPAGES, h.addr, NPAGES)
  }

  lemma CompatibleIs(g: Grant, h: Grant)
    requires g.uffd != h.uffd && (g.addr + 45056 <= h.addr || h.addr + 45056 <= g.addr)
    ensures Compatible(g, h)
  {
  }

  function Addrs(gs: seq<Grant>): set<int> {
    set i | 0 <= i < |gs| :: gs[i].addr
  }

  function Uffds(gs: seq<Grant>): set<int> {
    set i | 0 <= i < |gs| :: gs[i].uffd
  }

  /** Exactly the regions of `gs` are known to the client. */
  ghost predicate Entered(c: ClientModel.Client, gs: seq<Grant>) {
    && c.addrHndl.Keys == Addrs(gs) && c.startUffd.Keys == Addrs(gs) && c.uffdStart.Keys == Uffds(gs)
    && forall a :: a in c.startUffd ==> a in c.spans && c.spans[a] == NPAGES
  }

  /** Each has its pages, and nothing is local. */
  ghost predicate Granted(c: Cache, gs: seq<Grant>) {
    c.lines == map[] && forall a :: a in Addrs(gs) ==> HasRegion(c, a, NPAGES)
  }

  ghost predicate Holding(s: ClientModel.System, gs: seq<Grant>) {
    ClientModel.Valid(s) && s.table.issued == |gs| && Entered(s.c, gs) && Granted(Abs(s), gs)
  }

  lemma OneMoreGrant(gs: seq<Grant>, g: Grant)
    requires forall i :: 0 <= i < |gs| ==> Compatible(gs[i], g)
    ensures Addrs(gs + [g]) == Addrs(gs) + {g.addr} && Uffds(gs + [g]) == Uffds(gs) + {g.uffd}
    ensures g.addr !in Addrs(gs) && g.uffd !in Uffds(gs)
    ensures forall a :: a in Addrs(gs) ==> ClientModel.Disjoint(a, NPAGES, g.addr, NPAGES)
  {
    var gs' := gs + [g];
    assert gs'[|gs|] == g && forall i :: 0 <= i < |gs| ==> gs'[i] == gs[i];
  }

  lemma AllocPossible(s: ClientModel.System, gs: seq<Grant>, g: Grant)
    requires s.table.issued < U32_LIMIT && Entered(s.c, gs) && g.addr % PAGE_SIZE == 0
    requires forall i :: 0 <= i < |gs| ==> Compatible(gs[i], g)
    ensures ClientModel.CanDo(s, ClientModel.Alloc(NPAGES, g.addr, g.uffd))
    ensures Entered(ClientModel.DoAlloc(s, NPAGES, g.addr, g.uffd).c, gs + [g])
  {
    OneMoreGrant(gs, g);
    hide ClientModel.Disjoint, Compatible, Addrs, Uffds;
  }

  lemma RegisterGrants(c: Cache, gs: seq<Grant>, g: Grant)
    requires Consistent(c) && Granted(c, gs) && c.live.Keys == c.remote.Keys == Addrs(gs)
    requires forall i :: 0 <= i < |gs| ==> Compatible(gs[i], g)
    ensures Granted(Step(c, Register(g.addr, NPAGES)), gs + [g])
  {
    OneMoreGrant(gs, g);
    hide ClientModel.Disjoint, Compatible, Addrs, Uffds;
  }

  lemma AllocHolds(s: ClientModel.System, gs: seq<Grant>, g: Grant)
    requires Holding(s, gs) && |gs| < U32_LIMIT && g.addr % PAGE_SIZE == 0
    requires forall i :: 0 <= i < |gs| ==> Compatible(gs[i], g)
    ensures ClientModel.CanDo(s, ClientModel.Alloc(NPAGES, g.addr, g.uffd))
    ensures Holding(ClientModel.DoAlloc(s, NPAGES, g.addr, g.uffd), gs + [g])
  {
    hide ClientModel.Valid, Abs, ClientModel.CanDo, ClientModel.DoAlloc, Granted, Compatible, Addrs, Uffds, Step, LiveOf;
    AllocPossible(s, gs, g);
    AllocRefines(s, NPAGES, g.addr, g.uffd);
    RegisterGrants(Abs(s), gs, g);
  }

  /** The client's main program from its start: connect to a new server, allocate three
      regions of eleven pages, fill ten pages of each and add them up, one after the
      other.  The kernel's answers may be any it can give. */
  method Program(mem: map<int, Byte>, g1: Grant, g2: Grant, g3: Grant, enc: nat -> seq<Byte>, dec: seq<Byte> -> int,
                 residues: nat -> Page) returns (sum: nat, sum2: nat, sum3: nat, ghost s: ClientModel.System)
    requires forall j :: 0 <= j < 5120 ==> |enc(j)| == 8 && dec(enc(j)) == j
    requires g1.addr % PAGE_SIZE == 0 && g2.addr % PAGE_SIZE == 0 && g3.addr % PAGE_SIZE == 0
    requires g1.uffd != g2.uffd && g1.uffd != g3.uffd && g2.uffd != g3.uffd
    requires g1.addr + 45056 <= g2.addr || g2.addr + 45056 <= g1.addr
    requires g1.addr + 45056 <= g3.addr || g3.addr + 45056 <= g1.addr
    requires g2.addr + 45056 <= g3.addr || g3.addr + 45056 <= g2.addr
    requires var len := Mul32(NPAGES, PAGE_SIZE);
      && ByteServer.MmapMayAnswer(mem, len, ByteServer.Some(g1.base))
      && ByteServer.MmapMayAnswer(ByteServer.Mmap(mem, g1.base, len), len, ByteServer.Some(g2.base))
      && ByteServer.MmapMayAnswer(ByteServer.Mmap(ByteServer.Mmap(mem, g1.base, len), g2.base, len), len, ByteServer.Some(g3.base))
    ensures sum == sum2 == sum3 == 5120 * 5119 / 2
    ensures Traced(Blank(), s, ProgramTrace([g1.addr, g2.addr, g3.addr], 10, 11, enc, residues))
  {
    hide ClientModel.Valid, Abs, ByteServer.Inv, ByteServer.Abs, ByteServer.MmapMayAnswer, ByteServer.Mmap, ClientModel.CanDo, ClientModel.DoAlloc,
      Codec, Holding, Compatible, Granted, Traced, Registers, Workloads;
    CodecIs(5120, enc, dec);
    CompatibleIs(g1, g2);
    CompatibleIs(g1, g3);
    CompatibleIs(g2, g3);
    var server := new RmpServer.Server(mem);
    var client := new RmpClient(server);
    var u := new Uffdman(client);
    HoldingNothing(u.View());
    AllocHolds(u.View(), [], g1);
    TracedAlloc(u.View(), [], g1.addr, g1.uffd);
    client.RmpAlloc(NPAGES, u, g1.addr, g1.uffd, ByteServer.Some(g1.base), 0);
    assert [] + [g1] == [g1] && [g1] + [g2] == [g1, g2] && [g1, g2] + [g3] == [g1, g2, g3];
    assert [] + [g1.addr] == [g1.addr] && [g1.addr] + [g2.addr] == [g1.addr, g2.addr] && [g1.addr, g2.addr] + [g3.addr] == [g1.addr, g2.addr, g3.addr];
    AllocHolds(u.View(), [g1], g2);
    TracedAlloc(u.View(), [g1.addr], g2.addr, g2.uffd);
    client.RmpAlloc(NPAGES, u, g2.addr, g2.uffd, ByteServer.Some(g2.base), 0);
    AllocHolds(u.View(), [g1, g2], g3);
    TracedAlloc(u.View(), [g1.addr, g2.addr], g3.addr, g3.uffd);
    client.RmpAlloc(NPAGES, u, g3.addr, g3.uffd, ByteServer.Some(g3.base), 0);
    assert Granted(Abs(u.View()), [g1, g2, g3]) by { HoldingGrants(u.View(), [g1, g2, g3]); }
    HoldingAll(Abs(u.View()), g1, g2, g3);
    s := u.View();
    sum, sum2, sum3 := ThreeSums(u, g1.addr, g2.addr, g3.addr, enc, dec, residues);
    TracedTwice(Blank(), s, u.View(), Registers([g1.addr, g2.addr, g3.addr], 11), Workloads([g1.addr, g2.addr, g3.addr], 10, enc, residues));
    s := u.View();
  }

  lemma TracedAlloc(s: ClientModel.System, rs: seq<int>, addr: int, uffd: int)
    requires Traced(Blank(), s, Registers(rs, 11)) && ClientModel.CanDo(s, ClientModel.Alloc(NPAGES, addr, uffd))
    ensures Traced(Blank(), ClientModel.DoAlloc(s, NPAGES, addr, uffd), Registers(rs + [addr], 11))
  {
    assert (rs + [addr])[..|rs|] == rs;
    hide ClientModel.Valid, Abs, Run, Step, Blank, ClientModel.DoAlloc, ClientModel.CanDo;
    AllocRefines(s, NPAGES, addr, uffd);
    RunMore(Blank(), Registers(rs, 11), Register(addr, 11));
  }

  lemma HoldingNothing(s: ClientModel.System)
    requires ClientModel.Valid(s) && s.table.issued == 0 && s.c.sent == [] && s.c.page == ZeroPage()
    requires s.c.addrHndl == map[] && s.c.startUffd == map[] && s.c.uffdStart == map[]
    ensures Holding(s, []) && Traced(Blank(), s, Registers([], 11))
  {
    assert Abs(s).lines.Keys == {} && Abs(s).remote.Keys == {} && Abs(s).live.Keys == {};
  }

  lemma HoldingGrants(s: ClientModel.System, gs: seq<Grant>)
    requires Holding(s, gs)
    ensures ClientModel.Valid(s) && Granted(Abs(s), gs)
  {
  }

  lemma HoldingAll(c: Cache, g1: Grant, g2: Grant, g3: Grant)
    requires Granted(c, [g1, g2, g3]) && Compatible(g1, g2) && Compatible(g1, g3) && Compatible(g2, g3)
    ensures g1.addr != g2.addr && g2.addr != g3.addr && g1.addr != g3.addr
    ensures forall r :: r == g1.addr || r == g2.addr || r == g3.addr ==> HasRegion(c, r, 10) && r !in c.lines
  {
    var gs := [g1, g2, g3];
    assert gs[0] == g1 && gs[1] == g2 && gs[2] == g3;
    assert gs[0].addr in Addrs(gs) && gs[1].addr in Addrs(gs) && gs[2].addr in Addrs(gs);
  }

  /** The program after its allocations: three regions of at least ten pages, each
      filled and summed in turn. */
  method ThreeSums(u: Uffdman, data: int, data2: int, data3: int, enc: nat -> seq<Byte>, dec: seq<Byte> -> int,
                   residues: nat -> Page) returns (sum: nat, sum2: nat, sum3: nat)
    requires u.InOrder() && (forall j :: 0 <= j < 5120 ==> |enc(j)| == 8 && dec(enc(j)) == j) && data != data2 && data2 != data3 && data != data3
    requires forall r :: r == data || r == data2 || r == data3 ==> HasRegion(Abs(u.View()), r, 10) && r !in Abs(u.View()).lines
    modifies u, u.resolver`sent, u.resolver.server
    ensures u.resolver.ServerInOrder()
    ensures Traced(old(Abs(u.View())), u.View(), Workloads([data, data2, data3], 10, enc, residues))
    ensures sum == sum2 == sum3 == 5120 * 5119 / 2
  {
    ghost var c, s := Abs(u.View()), u.View();
    SumBelowIs(5120);
    ThreeWorkloads(data, data2, data3, enc, residues);
    hide ClientModel.Valid, Abs, ByteServer.Inv, ByteServer.Abs, Finished, Traced, Codec, HasRegion, SumBelow, DoubleSum, Workload, Workloads;
    ghost var w1, w2, w3 := Workload(data, 10, enc, residues), Workload(data2, 10, enc, residues), Workload(data3, 10, enc, residues);
    sum := FillThenSum(u, data, 10, enc, dec, residues);
    StillFresh(s, u.View(), data, data2, enc);
    StillFresh(s, u.View(), data, data3, enc);
    s := u.View();
    sum2 := FillThenSum(u, data2, 10, enc, dec, residues);
    StillFresh(s, u.View(), data2, data3, enc);
    TracedTwice(c, s, u.View(), w1, w2);
    s := u.View();
    sum3 := FillThenSum(u, data3, 10, enc, dec, residues);
    TracedTwice(c, s, u.View(), w1 + w2, w3);
  }

  lemma ThreeWorkloads(data: int, data2: int, data3: int, enc: nat -> seq<Byte>, residues: nat -> Page)
    ensures Workloads([data, data2, data3], 10, enc, residues) ==
      Workload(data, 10, enc, residues) + Workload(data2, 10, enc, residues) + Workload(data3, 10, enc, residues)
  {
    hide Workload;
    var w := Workload(data, 10, enc, residues);
    assert [data, data2, data3][..2] == [data, data2] && [data, data2][..1] == [data] && [data][..0] == [];
    assert Workloads([data], 10, enc, residues) == [] + w == w;
    assert Workloads([data, data2], 10, enc, residues) == w + Workload(data2, 10, enc, residues);
  }

  lemma StillFresh(s: ClientModel.System, s': ClientModel.System, data: int, other: int, enc: nat -> seq<Byte>)
    requires ClientModel.Valid(s) && Finished(Abs(s), s', data, 10, enc) && other != data
    requires HasRegion(Abs(s), other, 10) && other !in Abs(s).lines
    ensures ClientModel.Valid(s') && HasRegion(Abs(s'), other, 10) && other !in Abs(s').lines
  {
    hide ClientModel.Valid, Abs;
  }
}

/** From the application's loads and stores down to the server's bytes. */
module EndToEnd {
  import opened Words
  import opened PageTable
  import opened ClientModel
  import opened ClientRefinement
  import PageCache
  import FlatMemory
  import Transparency
  import Traffic
  import BehindByOne
  import ByteServer
  import ServerRuns

  // ---- The packets account for the server ----

  /** What the client sends: allocations, gets and puts of page size, the error field clear. */
  predicate ClientSends(m: Message) {
    && m.size == 4096 && m.action <= 2 && m.error == 0
    && (m.action == 0 ==> 1 <= m.npages < 0x10_0000)
  }

  ghost predicate AllClients(sent: seq<Ask>) {
    forall k :: 0 <= k < |sent| ==> ClientSends(sent[k].msg)
  }

  /** The packets sent, served in order from `t`, lead to the server's present table. */
  ghost predicate Accounted(t: Table, s: System) {
    ServeAll(t, s.c.sent).table == s.table && AllClients(s.c.sent)
  }

  lemma ExchangeAccounts(t: Table, s: System, m: Message, granted: bool)
    requires Accounted(t, s) && ClientSends(m)
    ensures Accounted(t, Exchange(s, m, granted))
  {
    var ask := Ask(m, granted);
    assert (s.c.sent + [ask])[..|s.c.sent|] == s.c.sent;
  }

  lemma InvalidateAccounts(t: Table, s: System, u: int)
    requires Valid(s) && Accounted(t, s)
    ensures Accounted(t, Invalidate(s, u))
  {
    if u in s.c.prevAddr {
      var a, start := s.c.prevAddr[u], s.c.uffdStart[u];
      ExchangeAccounts(t, s, PutMessage(s.c.addrHndl[start], PageOffset(start, a), s.c.present[a]), false);
      hide Valid, ServeAll, AllClients, Exchange;
    }
  }

  lemma FetchAccounts(t: Table, s: System, start: int, addr: int, residue: Page)
    requires Accounted(t, s) && start in s.c.addrHndl
    ensures Accounted(t, Fetch(s, start, addr, residue))
  {
    ExchangeAccounts(t, s, GetMessage(s.c.addrHndl[start], PageOffset(start, addr), residue), false);
    hide ServeAll, AllClients, Exchange, PageOffset;
  }

  lemma InstallAccounts(t: Table, s: System, u: int, addr: int, op: int)
    requires Accounted(t, s)
    ensures Accounted(t, Install(s, u, addr, op))
  {
    hide ServeAll, AllClients;
  }

  lemma FaultAccounts(t: Table, s: System, start: int, addr: int, op: int, residue: Page)
    requires Valid(s) && start in s.c.startUffd && s.c.startUffd[start] in s.c.uffdStart && Accounted(t, s)
    ensures Accounted(t, HandleFault(s, s.c.startUffd[start], addr, op, residue))
  {
    var u := s.c.startUffd[start];
    hide *;
    HandleFaultUnfolds(s, start, addr, op, residue);
    InvalidateAccounts(t, s, u);
    var s1 := Invalidate(s, u);
    FetchAccounts(t, s1, start, addr, residue);
    InstallAccounts(t, Fetch(s1, start, addr, residue), u, addr, op);
    InstallAccounts(t, s1, u, addr, op);
  }

  lemma TouchAccounts(t: Table, s: System, start: int, off: nat, op: int, residue: Page)
    requires Valid(s) && start in s.c.startUffd && Accounted(t, s)
    ensures Accounted(t, Touch(s, start, off, op, residue))
  {
    hide Valid, Tables, Recorded, Residents, Accounted, HandleFault, RoundDown;
    DescriptorKnown(s, start);
    FaultAccounts(t, s, start, start + off, op, residue);
  }

  lemma DoAccounts(t: Table, s: System, op: Op)
    requires Valid(s) && Accounted(t, s)
    ensures Accounted(t, Do(s, op))
  {
    if CanDo(s, op) {
      match op
      case Load(start, off, _, residue) => TouchAccounts(t, s, start, off, READ_FAULT, residue); hide Valid, Touch;
      case Store(start, off, _) => TouchAccounts(t, s, start, off, WRITE_FAULT, ZeroPage()); hide Valid, Touch;
      case Alloc(n, _, _) => ExchangeAccounts(t, s, MapMessage(n), true); hide Valid, Exchange;
      case Unregister(start) => InvalidateAccounts(t, s, s.c.startUffd[start]); hide Valid, Invalidate;
    }
  }

  lemma {:induction false} RunAccounts(t: Table, s: System, ops: seq<Op>)
    requires Valid(s) && Accounted(t, s)
    ensures Accounted(t, RunOps(s, ops))
  {
    hide Valid, Accounted, Do;
    if ops != [] {
      RunAccounts(t, s, ops[..|ops| - 1]);
      DoAccounts(t, RunOps(s, ops[..|ops| - 1]), ops[|ops| - 1]);
    }
  }

  // ---- Whole-system theorems ----

  /** The packets of any client run, handled one after the other by the byte server:
      it never crashes, and it ends up holding, byte for byte, the pages the cache
      model says the server has. */
  lemma ServerBytesFollowCache(s: System, ops: seq<Op>, bytes: ByteServer.State, rs: seq<ServerRuns.Request>)
    requires Valid(s) && s.c.sent == []
    requires ByteServer.Inv(bytes, s.table.issued) && ByteServer.Abs(bytes, s.table.issued) == s.table
    requires ServerRuns.Asks(rs) == RunOps(s, ops).c.sent && ServerRuns.KernelAllows(bytes, rs)
    ensures var s', r := RunOps(s, ops), ServerRuns.HandleAll(bytes, rs);
      && r.Running? && ByteServer.Inv(r.state, s'.table.issued)
      && forall a :: a in s'.c.addrHndl ==>
           && s'.c.addrHndl[a] in r.state.addrMap
           && a in PageCache.Run(Abs(s), Performed(s, ops)).remote
           && ByteServer.PagesOf(r.state, s'.c.addrHndl[a]) == PageCache.Run(Abs(s), Performed(s, ops)).remote[a]
  {
    var s', r := RunOps(s, ops), ServerRuns.HandleAll(bytes, rs);
    assert Accounted(s.table, s);
    RunAccounts(s.table, s, ops);
    RunRefines(s, ops);
    assert forall k :: 0 <= k < |rs| ==> ServerRuns.Asks(rs)[k].msg == rs[k].msg;
    hide Valid, ServeAll, ByteServer.Inv, ByteServer.PagesOf, PageCache.Run, RunOps, Performed, Abs, ByteServer.Abs, ServerRuns.KernelAllows, ServerRuns.HandleAll;
    ServerRuns.BytesImplementPages(bytes, s.table.issued, rs);
    ValidHasTables(s');
    hide Tables;
    assert Abs(s').remote == RemoteOf(s');
    assert ByteServer.Abs(r.state, s'.table.issued) == s'.table;
  }

  lemma NothingLocal(s: System)
    requires Valid(s) && s.c.prevAddr == map[]
    ensures PageCache.Cold(Abs(s))
  {
    var lines := Abs(s).lines;
    assert forall a :: a in lines ==> HasLine(s.c, a);
    assert lines.Keys == {};
  }

  lemma PossibleLoad(f: FlatMemory.Flat, e: PageCache.Event)
    requires FlatMemory.FlatConsistent(f) && e.Load? && PageCache.Possible(f.live, e)
    ensures e.region in f.pages && e.index < |f.pages[e.region]| && e.at + e.len <= PAGE_SIZE
  {
  }

  /** Under the discipline every load of the application returns the last value it
      stored there, or 0 if it never did: remote memory is plain memory. */
  lemma DisciplinedLoadsAreFlat(s: System, ops: seq<Op>, start: int, off: nat, len: nat, residue: Page)
    requires Valid(s) && s.c.prevAddr == map[] && PageCache.Whole(Abs(s))
    requires CanDo(RunOps(s, ops), Load(start, off, len, residue))
    requires Transparency.DisciplinedRun(Abs(s), FlatMemory.AllValid(Abs(s).remote),
                                         Performed(s, ops) + [AbsOp(Load(start, off, len, residue))])
    ensures var f := FlatMemory.FlatRun(FlatMemory.FlatOf(Abs(s)), Performed(s, ops));
      && start in f.pages && off / 4096 < |f.pages[start]|
      && DoLoad(RunOps(s, ops), start, off, len, residue) == f.pages[start][off / 4096][off % 4096..off % 4096 + len]
  {
    hide Valid, Abs, RunOps, Performed, DoLoad, PageCache.Run, PageCache.Loaded, Transparency.DisciplinedRun,
      FlatMemory.AllValid, FlatMemory.FlatRun, FlatMemory.FlatOf, PageCache.Possible, PageCache.Whole;
    var c, es, e := Abs(s), Performed(s, ops), AbsOp(Load(start, off, len, residue));
    NothingLocal(s);
    RunRefines(s, ops);
    LoadRefines(RunOps(s, ops), start, off, len, residue);
    Transparency.DisciplinedRunsAreFlat(c, es, e);
    PossibleLoad(FlatMemory.FlatRun(FlatMemory.FlatOf(c), es), e);
  }

  /** The packets on the wire: one get per read fault, one put per write fault, the
      latter sent or still owed by a region whose recorded operation is a write. */
  lemma SentPacketsMatchFaults(s: System, ops: seq<Op>)
    requires Valid(s) && s.c.prevAddr == map[] && s.c.sent == []
    ensures var s', es := RunOps(s, ops), Performed(s, ops);
      && Count(s'.c.sent, GET) == Traffic.ReadFaults(Abs(s), es)
      && Count(s'.c.sent, PUT) + |Traffic.DirtyRegions(Abs(s'))| == Traffic.WriteFaults(Abs(s), es)
  {
    hide Valid, Abs, RunOps, Performed, Traffic.ReadFaults, Traffic.WriteFaults;
    NothingLocal(s);
    RunRefines(s, ops);
    Traffic.PacketsMatchFaults(Abs(s), Performed(s, ops));
  }

  /** Off by one: if no store of the run changes a page brought in by a read and no
      address is reused for more pages, then a page of which the server lacks the latest
      contents is the one recorded as previously resolved for its region, with operation
      write. */
  lemma ServerLagsOnlyOnRecordedPage(s: System, ops: seq<Op>, start: int, i: nat)
    requires Valid(s) && s.c.prevAddr == map[] && PageCache.Whole(Abs(s))
    requires BehindByOne.NeverStrays(Abs(s), Performed(s, ops))
    requires var latest := BehindByOne.Latest(Abs(s), Performed(s, ops));
      && start in RunOps(s, ops).c.addrHndl && start in latest
      && i < |RemoteOf(RunOps(s, ops))[start]| && i < |latest[start]|
      && RemoteOf(RunOps(s, ops))[start][i] != latest[start][i]
    ensures var c := RunOps(s, ops).c;
      && HasLine(c, start) && LineKnown(c, start)
      && c.prevAddr[c.startUffd[start]] == start + 4096 * i
      && c.prevOp[c.startUffd[start]] == 1 // UFFD_PAGEFAULT_FLAG_WRITE
  {
    var s', es := RunOps(s, ops), Performed(s, ops);
    hide Valid, Abs, RunOps, Performed, RemoteOf, BehindByOne.NeverStrays, BehindByOne.Latest, PageCache.Run, PageCache.Whole;
    NothingLocal(s);
    RunRefines(s, ops);
    BehindByOne.BehindByOneExactly(Abs(s), es);
    RecordedLine(s', start, i, BehindByOne.Latest(Abs(s), es));
  }

  lemma RecordedLine(s: System, start: int, i: nat, latest: map<int, seq<Page>>)
    requires Valid(s) && BehindByOne.Shaped(Abs(s), latest) && BehindByOne.Behind(Abs(s), latest)
    requires start in s.c.addrHndl && i < |RemoteOf(s)[start]| && RemoteOf(s)[start][i] != latest[start][i]
    ensures HasLine(s.c, start) && LineKnown(s.c, start)
    ensures s.c.prevAddr[s.c.startUffd[start]] == start + Bytes(i)
    ensures s.c.prevOp[s.c.startUffd[start]] == WRITE_FAULT
  {
    hide Valid, Abs, RemoteOf, LineKnown, HasLine;
    ValidHasTables(s);
    assert PageCache.Resident(Abs(s), start, i) && Abs(s).lines[start].dirty;
    DirtyLine(s, start);
  }

  lemma DirtyLine(s: System, start: int)
    requires Valid(s) && start in Abs(s).lines && Abs(s).lines[start].dirty
    ensures HasLine(s.c, start) && LineKnown(s.c, start)
    ensures s.c.prevAddr[s.c.startUffd[start]] == start + Bytes(Abs(s).lines[start].index)
    ensures s.c.prevOp[s.c.startUffd[start]] == WRITE_FAULT
  {
    LinesKnown(s, start);
    AlignedPage(start, s.c.prevAddr[s.c.startUffd[start]]);
    hide Tables, Residents, Abs, RemoteOf;
  }

  // ---- What holds in every reachable state ----

  /** A region has at most one resident page: the recorded one. */
  lemma ResidentIsRecorded(s: System, start: int, a: int)
    requires Valid(s) && start in s.c.startUffd && start in s.c.spans && a in s.c.present && PageOfRegion(s.c, a, start)
    ensures HasLine(s.c, start) && s.c.prevAddr[s.c.startUffd[start]] == a
  {
    var u :| u in s.c.prevAddr && s.c.prevAddr[u] == a;
    if s.c.uffdStart[u] != start {
      PagesApart(s, a, start, a, s.c.uffdStart[u]);
    }
  }

  /** After any run, addresses used again or not: at most one resident page per region,
      equal to the recorded one; the previous-page maps cover the same registered
      descriptors; the two descriptor maps are inverse. */
  lemma RunKeepsOnePagePerRegion(s: System, ops: seq<Op>)
    requires Valid(s)
    ensures var c := RunOps(s, ops).c;
      && c.addrHndl.Keys == c.addrNPages.Keys && c.startUffd.Keys <= c.spans.Keys
      && (forall start, a :: start in c.startUffd && a in c.present && PageOfRegion(c, a, start) ==>
            HasLine(c, start) && c.prevAddr[c.startUffd[start]] == a)
      && c.prevAddr.Keys == c.prevOp.Keys && c.prevAddr.Keys <= c.uffdStart.Keys
      && (forall a, u :: (a in c.startUffd && c.startUffd[a] == u) <==> (u in c.uffdStart && c.uffdStart[u] == a))
  {
    var s' := RunOps(s, ops);
    ValidHasTables(s');
    forall start, a | start in s'.c.startUffd && a in s'.c.present && PageOfRegion(s'.c, a, start)
      ensures HasLine(s'.c, start) && s'.c.prevAddr[s'.c.startUffd[start]] == a
    {
      ResidentIsRecorded(s', start, a);
    }
    hide RunOps, Residents, RegionOk, PageOfRegion, Disjoint;
  }

  /** What names a page on the server. */
  datatype Place = Place(hndl: int, offset: U32)

  function PlaceOf(c: Client, start: int, off: nat): Place
    requires start in c.addrHndl
  {
    Place(c.addrHndl[start], PageOffset(start, start + off))
  }

  /** After any run the resolver's translation of accesses is injective: two accesses go
      to one place on the server exactly if they are to one page of one region.  It
      stays within the region's pages, and names a page the server has exactly if that
      index is below the count kept for the address. */
  lemma TranslationIsInjective(s: System, ops: seq<Op>, a: int, off: nat, b: int, off': nat)
    requires Valid(s)
    requires var c := RunOps(s, ops).c; InPage(c, a, off, 1) && InPage(c, b, off', 1)
    ensures var s' := RunOps(s, ops);
      && a in s'.c.addrHndl && b in s'.c.addrHndl
      && (PlaceOf(s'.c, a, off) == PlaceOf(s'.c, b, off') <==> a == b && off / 4096 == off' / 4096)
      && PlaceOf(s'.c, a, off).offset == off / 4096 < s'.c.spans[a]
      && a in s'.c.addrNPages && s'.c.addrHndl[a] in s'.table.pages
      && (off / 4096 < |s'.table.pages[s'.c.addrHndl[a]]| <==> off / 4096 < s'.c.addrNPages[a])
  {
    var s' := RunOps(s, ops);
    ValidHasTables(s');
    RegionKnown(s', a);
    RegionKnown(s', b);
    Offsets(a, s'.c.spans[a], off);
    Offsets(b, s'.c.spans[b], off');
    hide RunOps, Recorded, Residents, Disjoint, PageOffset, RoundDown;
  }

  /** The cache seen after a run. */
  ghost function After(s: System, ops: seq<Op>): (c: PageCache.Cache)
    requires Valid(s)
    ensures PageCache.Consistent(c)
  {
    Abs(RunOps(s, ops))
  }

  /** What can change the reading of a page is a store into it, or an eviction in its
      region that drops it unsaved, as a read-faulted page. Any other operation after any
      run changes nothing about it; in particular no eviction in another region does. */
  lemma OnlyOwnPageChanges(s: System, ops: seq<Op>, op: Op, start: int, i: nat)
    requires Valid(s) && PageCache.Kept(After(s, ops), start, i)
    requires var c, e := After(s, ops), AbsOp(op); e.region == start ==>
               && !(e.Store? && e.index == i)
               && (PageCache.Resident(c, start, i) ==> c.lines[start].dirty)
    ensures PageCache.Kept(After(s, ops + [op]), start, i)
    ensures Transparency.Current(After(s, ops + [op]), start, i) == Transparency.Current(After(s, ops), start, i)
  {
    assert (ops + [op])[..|ops|] == ops;
    hide Valid, Abs, Do, CanDo, PageCache.Step, Transparency.Current;
    DoRefines(RunOps(s, ops), op);
    CurrentAfterStep(After(s, ops), AbsOp(op), start, i);
  }

  lemma CurrentAfterStep(c: PageCache.Cache, e: PageCache.Event, r: int, i: nat)
    requires PageCache.Consistent(c) && PageCache.Kept(c, r, i)
    requires e.region == r ==> !(e.Store? && e.index == i) && (PageCache.Resident(c, r, i) ==> c.lines[r].dirty)
    ensures PageCache.Kept(PageCache.Step(c, e), r, i)
    ensures Transparency.Current(PageCache.Step(c, e), r, i) == Transparency.Current(c, r, i)
  {
  }

  /** Unregistering a region: its write-faulted page is on the server, nothing else on
      the server has changed, none of its pages is resident, the four descriptor and
      previous-page maps have forgotten it, and the other regions' pages stay local. */
  lemma UnregisterSavesAndForgets(s: System, start: int)
    requires Valid(s) && start in s.c.startUffd
    ensures var u, c, s' := s.c.startUffd[start], Abs(s), DoUnregister(s, start);
      && Valid(s') && RemoteOf(s') == PageCache.Evict(c, start).remote
      && (start in c.lines && c.lines[start].dirty ==>
            RemoteOf(s') == PageCache.SetPage(RemoteOf(s), start, c.lines[start].index, c.lines[start].data))
      && ((start in c.lines && c.lines[start].dirty) || RemoteOf(s') == RemoteOf(s))
      && s'.c.startUffd == s.c.startUffd - {start} && s'.c.uffdStart == s.c.uffdStart - {u}
      && s'.c.prevAddr == s.c.prevAddr - {u} && s'.c.prevOp == s.c.prevOp - {u}
      && start in s'.c.spans && (forall a :: a in s'.c.present ==> !PageOfRegion(s'.c, a, start))
      && Abs(s').lines == c.lines - {start}
  {
    var s' := DoUnregister(s, start);
    UnregisterRefines(s, start);
    CanDoIsPossible(s, Unregister(start));
    UnregisterEvicts(Abs(s), start);
    RegionKnown(s, start);
    forall a | a in s'.c.present ensures !PageOfRegion(s'.c, a, start) {
      if PageOfRegion(s'.c, a, start) {
        ResidentIsRecorded(s, start, a);
      }
    }
    hide Valid, Tables, DoUnregister, RemoteOf;
  }

  // ---- Every operation the application can ask for is done ----

  /** A load inside one page of a registered region. */
  lemma LoadIsDone(s: System, start: int, off: nat, len: nat, residue: Page)
    requires Valid(s) && start in s.c.startUffd && start in s.c.spans
    requires off < 4096 * s.c.spans[start] && 0 < len && off % 4096 + len <= 4096
    ensures var s' := Do(s, Load(start, off, len, residue));
      && Valid(s') && start in Abs(s).live && off / 4096 < Abs(s).live[start]
      && Abs(s') == PageCache.Bring(Abs(s), start, off / 4096, PageCache.Read(residue))
  {
    assert CanDo(s, Load(start, off, len, residue));
    hide Valid, Abs, Touch, PageCache.Bring;
    TouchRefines(s, start, off, READ_FAULT, residue);
  }

  /** A store inside one page of a registered region. */
  lemma StoreIsDone(s: System, start: int, off: nat, bytes: seq<Byte>)
    requires Valid(s) && start in s.c.startUffd && start in s.c.spans
    requires off < 4096 * s.c.spans[start] && 0 < |bytes| && off % 4096 + |bytes| <= 4096
    ensures var s' := Do(s, Store(start, off, bytes));
      && Valid(s') && start in Abs(s).live && off / 4096 < Abs(s).live[start]
      && Abs(s') == PageCache.Hit(PageCache.Bring(Abs(s), start, off / 4096, PageCache.Write), start, off % 4096, bytes)
  {
    assert CanDo(s, Store(start, off, bytes));
    hide Valid, Abs, Touch, DoStore, PageCache.Bring, PageCache.Hit;
    StoreRefines(s, start, off, bytes);
  }

  /** An allocation of up to 2^20-1 pages at an aligned address where no registered
      region lies, with a descriptor not in use. */
  lemma AllocIsDone(s: System, n: U32, addr: int, u: int)
    requires Valid(s) && 1 <= n < 0x10_0000 && s.table.issued < 0x1_0000_0000
    requires addr % 4096 == 0 && u !in s.c.uffdStart && addr !in s.c.startUffd
    requires forall a :: a in s.c.startUffd && a in s.c.spans ==> a + 4096 * s.c.spans[a] <= addr || addr + 4096 * n <= a
    ensures var s' := Do(s, Alloc(n, addr, u));
      && Valid(s') && addr !in Abs(s).live && Abs(s') == PageCache.Registered(Abs(s), addr, n)
      && s'.c.startUffd == s.c.startUffd[addr := u] && s'.c.uffdStart == s.c.uffdStart[u := addr]
      && s'.c.spans == s.c.spans[addr := n] && s'.table.issued == s.table.issued + 1
  {
    assert CanDo(s, Alloc(n, addr, u));
    CanDoIsPossible(s, Alloc(n, addr, u));
    hide Valid, Abs, CanDo;
    AllocRefines(s, n, addr, u);
  }

  lemma UnregisterIsDone(s: System, start: int)
    requires Valid(s) && start in s.c.startUffd
    ensures var s', e := Do(s, Unregister(start)), PageCache.Evict(Abs(s), start);
      && Valid(s') && start in Abs(s).live && Abs(s') == e.(live := e.live - {start})
  {
    assert CanDo(s, Unregister(start));
    CanDoIsPossible(s, Unregister(start));
    hide Valid, Abs, DoUnregister, CanDo, PageCache.Evict;
    UnregisterRefines(s, start);
  }

  // ---- Addresses used again ----

  /** An address registered before keeps its old handle and pages: the handle the server
      has just granted reaches no region, and the region begins with the old bytes. */
  lemma ReusedAddressKeepsOldPages(s: System, n: U32, addr: int, u: int)
    requires Valid(s) && CanDo(s, Alloc(n, addr, u)) && addr in s.c.addrHndl
    ensures var s' := Do(s, Alloc(n, addr, u));
      && Valid(s') && RemoteOf(s') == RemoteOf(s) && s'.c.addrHndl == s.c.addrHndl
      && s.table.issued in s'.table.pages && s'.table.pages[s.table.issued] == ZeroPages(n)
      && (forall a :: a in s'.c.addrHndl ==> s'.c.addrHndl[a] != s.table.issued)
  {
    AllocRefines(s, n, addr, u);
    AllocKeepsRemote(s, n, addr, u);
    forall a | a in s.c.addrHndl ensures s.c.addrHndl[a] != s.table.issued {
      assert RegionOk(s, a);
    }
    hide Valid, Tables, RegionOk, Recorded, Residents, RemoteOf;
  }

  lemma FirstLoadPossible(s: System, n: U32, addr: int, u: int, off: nat, residue: Page)
    requires Valid(s) && CanDo(s, Alloc(n, addr, u)) && off < Bytes(n)
    ensures CanDo(DoAlloc(s, n, addr, u), Load(addr, off, 1, residue)) && !HasLine(s.c, addr) && addr !in Abs(s).live
  {
    hide Tables, Recorded, Residents, RemoteOf;
  }

  lemma MissFetches(c: PageCache.Cache, e: PageCache.Event)
    requires PageCache.Consistent(c) && e.Load? && PageCache.Possible(c.live, e) && e.region !in c.lines && e.len == 1
    ensures PageCache.Loaded(c, e) == [PageCache.Fetched(c, e.region, e.index, e.residue)[e.at]]
  {
  }

  /** Nothing of a region just registered is local, so a load fetches. */
  lemma FirstLoadFetches(s: System, n: U32, addr: int, u: int, off: nat, residue: Page)
    requires Valid(s) && CanDo(s, Alloc(n, addr, u)) && off < Bytes(n)
    ensures Valid(DoAlloc(s, n, addr, u)) && CanDo(DoAlloc(s, n, addr, u), Load(addr, off, 1, residue)) && addr !in Abs(s).live
    ensures DoLoad(DoAlloc(s, n, addr, u), addr, off, 1, residue) ==
      [PageCache.Fetched(PageCache.Registered(Abs(s), addr, n), addr, off / 4096, residue)[off % 4096]]
  {
    var s' := DoAlloc(s, n, addr, u);
    hide Valid, Abs, DoAlloc, DoLoad, HasLine, CanDo, PageCache.Fetched, PageCache.Loaded;
    FirstLoadPossible(s, n, addr, u, off, residue);
    AllocRefines(s, n, addr, u);
    CanDoIsPossible(s, Alloc(n, addr, u));
    LoadRefines(s', addr, off, 1, residue);
    MissFetches(Abs(s'), AbsOp(Load(addr, off, 1, residue)));
  }

  /** Right after a registration every load returns zero, whatever the packets carry,
      exactly if the address is new or its kept pages are zero and numerous enough. */
  lemma NewRegionReadsZeroExactly(s: System, n: U32, addr: int, u: int)
    requires Valid(s) && CanDo(s, Alloc(n, addr, u))
    ensures ReadsZero(s, n, addr, u) <==> Transparency.FreshFor(Abs(s), addr, n)
  {
    assert 0 < Bytes(n);
    hide Valid, Tables, Recorded, Residents, Abs, CanDo, DoLoad, DoAlloc, PageCache.Fetched, PageCache.Registered, Transparency.FreshFor;
    FirstLoadFetches(s, n, addr, u, 0, ZeroPage());
    forall off: nat, residue: Page | off < Bytes(n)
      ensures CanDo(DoAlloc(s, n, addr, u), Load(addr, off, 1, residue))
      ensures DoLoad(DoAlloc(s, n, addr, u), addr, off, 1, residue) ==
        [PageCache.Fetched(PageCache.Registered(Abs(s), addr, n), addr, off / 4096, residue)[off % 4096]]
    {
      FirstLoadFetches(s, n, addr, u, off, residue);
    }
    FetchesZero(Abs(s), addr, n);
  }

  ghost predicate ReadsZero(s: System, n: U32, addr: int, u: int)
    requires Valid(s) && CanDo(s, Alloc(n, addr, u))
  {
    && Valid(DoAlloc(s, n, addr, u))
    && forall off: nat, residue: Page :: off < Bytes(n) ==>
      && CanDo(DoAlloc(s, n, addr, u), Load(addr, off, 1, residue))
      && DoLoad(DoAlloc(s, n, addr, u), addr, off, 1, residue) == [0]
  }

  /** Every byte of a region just registered is fetched as zero. */
  ghost predicate FetchesZeros(c: PageCache.Cache, r: int, n: nat)
    requires PageCache.Consistent(c) && r !in c.live
  {
    forall off: nat, residue: Page :: off < Bytes(n) ==>
      PageCache.Fetched(PageCache.Registered(c, r, n), r, off / 4096, residue)[off % 4096] == 0
  }

  lemma FetchedIsZero(c: PageCache.Cache, r: int, n: nat, i: nat, residue: Page)
    requires PageCache.Consistent(c) && r !in c.live && FetchesZeros(c, r, n) && i < n
    ensures PageCache.Fetched(PageCache.Registered(c, r, n), r, i, residue) == ZeroPage()
  {
    var p := PageCache.Fetched(PageCache.Registered(c, r, n), r, i, residue);
    forall b | 0 <= b < 4096 ensures p[b] == 0 {
      var off := 4096 * i + b;
      assert off / 4096 == i && off % 4096 == b;
      assert PageCache.Fetched(PageCache.Registered(c, r, n), r, off / 4096, residue)[off % 4096] == 0;
    }
  }

  lemma FreshFetchesZeros(c: PageCache.Cache, r: int, n: nat)
    requires PageCache.Consistent(c) && r !in c.live && Transparency.FreshFor(c, r, n)
    ensures FetchesZeros(c, r, n)
  {
    var d := PageCache.Registered(c, r, n);
    forall off: nat, residue: Page | off < Bytes(n)
      ensures PageCache.Fetched(d, r, off / 4096, residue)[off % 4096] == 0
    {
      assert d.remote[r][off / 4096] == ZeroPage();
    }
  }

  lemma FetchesZero(c: PageCache.Cache, r: int, n: nat)
    requires PageCache.Consistent(c) && r !in c.live
    ensures FetchesZeros(c, r, n) <==> Transparency.FreshFor(c, r, n)
  {
    if FetchesZeros(c, r, n) {
      var ones: Page := seq(4096, _ => 1);
      assert ones[0] != ZeroPage()[0];
      if r in c.remote && |c.remote[r]| < n {
        FetchedIsZero(c, r, n, |c.remote[r]|, ones);
      }
      forall i | 0 <= i < n && r in c.remote ensures c.remote[r][i] == ZeroPage() {
        FetchedIsZero(c, r, n, i, ones);
      }
    } else if Transparency.FreshFor(c, r, n) {
      FreshFetchesZeros(c, r, n);
    }
  }

  // ---- Allocations the server refuses ----

  /** The handle is one of as many pages that no region uses. */
  ghost predicate Stray(s: System, n: U32, hndl: int) {
    && hndl in s.table.pages && |s.table.pages[hndl]| == n
    && forall a :: a in s.c.addrHndl ==> s.c.addrHndl[a] != hndl
  }

  lemma RefusedIs(s: System, n: U32, addr: int, u: int, hndl: int)
    ensures var s', t := DoRefusedAlloc(s, n, addr, u, hndl), DoAlloc(s, n, addr, u);
      && s'.table == s.table && s'.c.startUffd == t.c.startUffd && s'.c.uffdStart == t.c.uffdStart && s'.c.spans == t.c.spans
      && s'.c.addrHndl == Inserted(s.c.addrHndl, addr, hndl) && s'.c.addrNPages == Inserted(s.c.addrNPages, addr, n)
      && t.c.addrHndl.Keys == s'.c.addrHndl.Keys
  {
  }

  lemma RefusedKeepsTables(s: System, n: U32, addr: int, u: int, hndl: int)
    requires Valid(s) && CanDo(s, Alloc(n, addr, u))
    requires addr in s.c.addrHndl || Stray(s, n, hndl)
    ensures Tables(DoRefusedAlloc(s, n, addr, u, hndl))
  {
    var s' := DoRefusedAlloc(s, n, addr, u, hndl);
    assert addr % PAGE_SIZE == 0 && 1 <= n < MAX_PAGES;
    ValidHasTables(s);
    hide Valid, Recorded, Residents, Disjoint, DoAlloc, DoRefusedAlloc, CanDo;
    RefusedIs(s, n, addr, u, hndl);
    AllocKeepsTables(s, n, addr, u);
    forall a | a in s'.c.addrHndl ensures a in s'.c.addrNPages && RegionOk(s', a) {
      assert a in s.c.addrHndl ==> RegionOk(s, a);
    }
    hide RegionOk;
  }

  lemma RefusedTablesNeedStray(s: System, n: U32, addr: int, u: int, hndl: int)
    requires Valid(s) && CanDo(s, Alloc(n, addr, u)) && addr !in s.c.addrHndl
    requires Tables(DoRefusedAlloc(s, n, addr, u, hndl))
    ensures Stray(s, n, hndl)
  {
    var s' := DoRefusedAlloc(s, n, addr, u, hndl);
    assert RegionOk(s', addr) && s'.table.pages == s.table.pages && s'.c.addrNPages[addr] == n;
    forall a | a in s.c.addrHndl ensures s.c.addrHndl[a] != hndl {
      assert s'.c.addrHndl[a] != s'.c.addrHndl[addr];
    }
    hide RegionOk, Recorded, Residents;
  }

  /** The client takes a refused allocation for a granted one.  Its tables stay in order
      exactly if the address was used before, so that the handle is not stored, or the
      handle left in the packet happens to be one of as many pages that no region uses. */
  lemma RefusedAllocKeepsTablesExactly(s: System, n: U32, addr: int, u: int, hndl: int)
    requires Valid(s) && CanDo(s, Alloc(n, addr, u))
    ensures Tables(DoRefusedAlloc(s, n, addr, u, hndl)) <==> addr in s.c.addrHndl || Stray(s, n, hndl)
  {
    hide *;
    if addr in s.c.addrHndl || Stray(s, n, hndl) {
      RefusedKeepsTables(s, n, addr, u, hndl);
    } else if Tables(DoRefusedAlloc(s, n, addr, u, hndl)) {
      RefusedTablesNeedStray(s, n, addr, u, hndl);
    }
  }
}

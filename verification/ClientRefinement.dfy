/** The client's tables and packets implement the one-page-per-region cache. */
module ClientRefinement {
  import opened Words
  import opened PageTable
  import opened ClientModel
  import PageCache

  // ---- Addresses ----

  /** Page-aligned arithmetic: where an offset of a region falls. */
  lemma Offsets(start: int, n: nat, off: nat)
    requires start % PAGE_SIZE == 0 && n < MAX_PAGES && off < Bytes(n)
    ensures var a := RoundDown(start + off);
      && a % PAGE_SIZE == 0 && RoundDown(a) == a && start <= a < start + Bytes(n)
      && a == start + Bytes(off / PAGE_SIZE) && off / PAGE_SIZE < n
      && PageOffset(start, start + off) == PageOffset(start, a) == off / PAGE_SIZE == (a - start) / 4096
  {
    var i := off / 4096;
    assert start + off == 4096 * (start / 4096 + i) + off % 4096;
    assert (start + off) / 4096 == start / 4096 + i;
  }

  lemma AlignedPage(start: int, b: int)
    requires start % PAGE_SIZE == 0 && b % PAGE_SIZE == 0 && start <= b
    ensures b == start + Bytes((b - start) / 4096)
  {
  }

  /** Registered regions do not share pages. */
  lemma PagesApart(s: System, a: int, start: int, b: int, other: int)
    requires Tables(s) && start in s.c.startUffd && other in s.c.startUffd && start != other
    requires PageOfRegion(s.c, a, start) && PageOfRegion(s.c, b, other)
    ensures a != b
  {
    assert Disjoint(start, s.c.spans[start], other, s.c.spans[other]);
  }

  /** What the tables hold for a registered region. */
  lemma RegionKnown(s: System, start: int)
    requires Tables(s) && start in s.c.startUffd
    ensures start in s.c.addrHndl && start in s.c.addrNPages && RegionOk(s, start)
    ensures start in s.c.spans && 1 <= s.c.spans[start] < MAX_PAGES
    ensures s.c.startUffd[start] in s.c.uffdStart && s.c.uffdStart[s.c.startUffd[start]] == start
  {
  }

  lemma DescriptorKnown(s: System, start: int)
    requires Valid(s) && start in s.c.startUffd
    ensures s.c.startUffd[start] in s.c.uffdStart
  {
  }

  // ---- Abstraction ----

  function Count(sent: seq<Ask>, action: U32): nat {
    if sent == [] then 0
    else Count(sent[..|sent| - 1], action) + (if sent[|sent| - 1].msg.action == action then 1 else 0)
  }

  lemma CountMore(sent: seq<Ask>, ask: Ask, action: U32)
    ensures Count(sent + [ask], action) == Count(sent, action) + (if ask.msg.action == action then 1 else 0)
  {
    assert (sent + [ask])[..|sent|] == sent;
  }

  ghost function RemoteOf(s: System): (r: map<int, seq<Page>>)
    requires Tables(s)
    ensures r.Keys == s.c.addrHndl.Keys
    ensures forall a :: a in s.c.addrHndl ==> s.c.addrHndl[a] in s.table.pages && r[a] == s.table.pages[s.c.addrHndl[a]]
  {
    map a | a in s.c.addrHndl :: (assert RegionOk(s, a); s.table.pages[s.c.addrHndl[a]])
  }

  /** The region's descriptor has a recorded page. */
  predicate HasLine(c: Client, a: int) {
    a in c.startUffd && c.startUffd[a] in c.prevAddr
  }

  ghost predicate LineKnown(c: Client, a: int) {
    HasLine(c, a) && c.startUffd[a] in c.prevOp && c.prevAddr[c.startUffd[a]] in c.present && a <= c.prevAddr[c.startUffd[a]]
  }

  ghost function LineOf(c: Client, a: int): PageCache.Line
    requires LineKnown(c, a)
  {
    var u := c.startUffd[a];
    PageCache.Line((c.prevAddr[u] - a) / 4096, c.prevOp[u] != READ_FAULT, c.present[c.prevAddr[u]])
  }

  lemma LinesKnown(s: System, a: int)
    requires Valid(s) && HasLine(s.c, a)
    ensures a in s.c.addrHndl && a in s.c.addrNPages && RegionOk(s, a)
    ensures a in s.c.spans && LineKnown(s.c, a) && PageOfRegion(s.c, s.c.prevAddr[s.c.startUffd[a]], a)
    ensures LineOf(s.c, a).index < s.c.spans[a] && s.c.startUffd[a] in s.c.uffdStart && s.c.uffdStart[s.c.startUffd[a]] == a
  {
    var u := s.c.startUffd[a];
    RegionKnown(s, a);
    assert u in s.c.prevAddr && s.c.prevAddr[u] in s.c.present;
    assert PageOfRegion(s.c, s.c.prevAddr[u], a);
    hide Tables, RegionOk;
  }

  /** The registered regions with their sizes. */
  function LiveOf(c: Client): (live: map<int, nat>)
    requires c.startUffd.Keys <= c.spans.Keys
    ensures live.Keys == c.startUffd.Keys
    ensures forall a :: a in live ==> live[a] == c.spans[a]
  {
    map a | a in c.startUffd :: c.spans[a]
  }

  ghost function Abs(s: System): (c: PageCache.Cache)
    requires Valid(s)
    ensures PageCache.Consistent(c)
    ensures c.remote == RemoteOf(s) && c.live == LiveOf(s.c) && c.buffer == s.c.page
    ensures forall a :: a in c.lines <==> HasLine(s.c, a)
    ensures forall a :: a in c.lines ==> LineKnown(s.c, a) && c.lines[a] == LineOf(s.c, a)
    ensures c.gets == Count(s.c.sent, GET) && c.puts == Count(s.c.sent, PUT)
  {
    var lines := map a | a in s.c.startUffd && HasLine(s.c, a) :: (LinesKnown(s, a); LineOf(s.c, a));
    var c := PageCache.Cache(RemoteOf(s), LiveOf(s.c), lines, s.c.page, Count(s.c.sent, GET), Count(s.c.sent, PUT));
    assert PageCache.Consistent(c) by {
      forall a | a in lines ensures lines[a].index < c.live[a] {
        LinesKnown(s, a);
      }
    }
    c
  }

  function AbsOp(op: Op): PageCache.Event {
    match op
    case Load(start, off, len, residue) => PageCache.Load(start, off / 4096, off % 4096, len, residue)
    case Store(start, off, bytes) => PageCache.Store(start, off / 4096, off % 4096, bytes)
    case Alloc(n, addr, _) => PageCache.Register(addr, n)
    case Unregister(start) => PageCache.Unregister(start)
  }

  /** What the cache sees of a fault's operation. */
  function CauseOf(op: int, residue: Page): PageCache.Cause {
    if op == READ_FAULT then PageCache.Read(residue) else PageCache.Write
  }

  /** A missing page of a region is one that is not its line; a resident one has the
      line's contents. */
  lemma PresentIsResident(s: System, start: int, off: nat)
    requires Valid(s) && start in s.c.startUffd && start in s.c.spans && off < Bytes(s.c.spans[start])
    ensures var a := RoundDown(start + off);
      && (a in s.c.present <==> PageCache.Resident(Abs(s), start, off / 4096))
      && (a in s.c.present ==> Abs(s).lines[start].data == s.c.present[a])
  {
    RegionKnown(s, start);
    Offsets(start, s.c.spans[start], off);
    var a := RoundDown(start + off);
    if HasLine(s.c, start) {
      LinesKnown(s, start);
      AlignedPage(start, s.c.prevAddr[s.c.startUffd[start]]);
    }
    if a in s.c.present {
      var u :| u in s.c.prevAddr && s.c.prevAddr[u] == a;
      if s.c.uffdStart[u] != start {
        PagesApart(s, a, start, a, s.c.uffdStart[u]);
      }
    }
    hide Tables, Recorded, RemoteOf, RoundDown, RegionOk;
  }

  // ---- Packets ----

  /** `s` with page `i` of the region at `start` replaced on the server, if it has that page. */
  ghost function TableWith(s: System, start: int, i: nat, data: Page): Table
    requires start in s.c.addrHndl && s.c.addrHndl[start] in s.table.pages
  {
    var h := s.c.addrHndl[start];
    var pages := s.table.pages[h];
    if i < |pages| then s.table.(pages := s.table.pages[h := Replace(pages, i, data)]) else s.table
  }

  /** A put packet reaches exactly the page it was meant for, or is refused if the
      server has no such page. */
  lemma SendIs(s: System, start: int, addr: int, data: Page)
    requires Tables(s) && start in s.c.startUffd && start in s.c.spans && PageOfRegion(s.c, addr, start)
    ensures var i := (addr - start) / 4096;
      && start in s.c.addrHndl && s.c.addrHndl[start] in s.table.pages
      && Send(s, start, addr, data).table == TableWith(s, start, i, data)
      && Count(Send(s, start, addr, data).c.sent, PUT) == Count(s.c.sent, PUT) + 1
      && Count(Send(s, start, addr, data).c.sent, GET) == Count(s.c.sent, GET)
  {
    RegionKnown(s, start);
    hide Tables;
    Offsets(start, s.c.spans[start], addr - start);
    var ask := Ask(PutMessage(s.c.addrHndl[start], PageOffset(start, addr), data), false);
    CountMore(s.c.sent, ask, PUT);
    CountMore(s.c.sent, ask, GET);
  }

  /** A get packet brings back exactly the page it asked for, or its own residue if the
      server has no such page. */
  lemma FetchIs(s: System, start: int, off: nat, residue: Page)
    requires Tables(s) && start in s.c.startUffd && start in s.c.spans && off < Bytes(s.c.spans[start])
    ensures start in s.c.addrHndl && s.c.addrHndl[start] in s.table.pages
    ensures var s', pages := Fetch(s, start, start + off, residue), s.table.pages[s.c.addrHndl[start]];
      && s'.table == s.table
      && s'.c == s.c.(page := if off / 4096 < |pages| then pages[off / 4096] else residue, sent := s'.c.sent)
      && Count(s'.c.sent, GET) == Count(s.c.sent, GET) + 1 && Count(s'.c.sent, PUT) == Count(s.c.sent, PUT)
  {
    RegionKnown(s, start);
    hide Tables;
    Offsets(start, s.c.spans[start], off);
    var ask := Ask(GetMessage(s.c.addrHndl[start], PageOffset(start, start + off), residue), false);
    CountMore(s.c.sent, ask, PUT);
    CountMore(s.c.sent, ask, GET);
  }

  /** The same tables, but for the server's and the kernel's. */
  predicate SameRegions(c: Client, c': Client) {
    && c'.addrHndl == c.addrHndl && c'.addrNPages == c.addrNPages && c'.spans == c.spans
    && c'.startUffd == c.startUffd && c'.uffdStart == c.uffdStart
  }

  /** Replacing one page leaves every other page of every region as it was. */
  lemma PutKeepsTables(s: System, s': System, start: int, i: nat, data: Page)
    requires Tables(s) && start in s.c.addrHndl && s.c.addrHndl[start] in s.table.pages
    requires s'.table == TableWith(s, start, i, data) && SameRegions(s.c, s'.c)
    ensures Tables(s') && RemoteOf(s') == PageCache.SetPage(RemoteOf(s), start, i, data)
  {
    var after := PageCache.SetPage(RemoteOf(s), start, i, data);
    forall a | a in s.c.addrHndl
      ensures RegionOk(s', a)
      ensures s'.table.pages[s.c.addrHndl[a]] == after[a]
    {
      assert RegionOk(s, a);
    }
    assert Tables(s');
    assert RemoteOf(s').Keys == after.Keys;
    assert forall a :: a in s.c.addrHndl ==> RemoteOf(s')[a] == after[a];
  }

  // ---- Faults ----

  /** The resolver's and the descriptor tables alone decide `Tables`. */
  lemma TablesIgnoreRest(s: System, s': System)
    requires Tables(s) && s'.table == s.table && SameRegions(s.c, s'.c)
    ensures Tables(s') && RemoteOf(s') == RemoteOf(s)
  {
    forall a | a in s.c.addrHndl ensures RegionOk(s', a) { assert RegionOk(s, a); }
  }

  /** A recorded page is sent back if its operation was a write, and dropped. */
  lemma InvalidateIs(s: System, start: int)
    requires Valid(s) && HasLine(s.c, start)
    ensures LineKnown(s.c, start) && start in s.c.addrHndl
    ensures var u := s.c.startUffd[start]; var a := s.c.prevAddr[u];
      var sending := Send(s, start, a, s.c.present[a]);
      && Invalidate(s, u).table == (if LineOf(s.c, start).dirty then sending.table else s.table)
      && Invalidate(s, u).c == s.c.(
           present := s.c.present - {a}, sent := if LineOf(s.c, start).dirty then sending.c.sent else s.c.sent)
  {
    LinesKnown(s, start);
    RegionKnown(s, start);
    Offsets(start, s.c.spans[start], s.c.prevAddr[s.c.startUffd[start]] - start);
  }

  /** Server side of an invalidation: regions as in `d`. */
  ghost predicate ServerFollows(s: System, s': System, d: PageCache.Cache) {
    Tables(s') && RemoteOf(s') == d.remote && s'.table.issued == s.table.issued
  }

  /** Client side: only the recorded page is gone, and the packets are those of `d`. */
  ghost predicate ClientFollows(c: Client, c': Client, u: int, d: PageCache.Cache) {
    && c' == c.(present := c'.present, sent := c'.sent)
    && c'.present == (if u in c.prevAddr then c.present - {c.prevAddr[u]} else c.present)
    && Count(c'.sent, GET) == d.gets && Count(c'.sent, PUT) == d.puts
  }

  lemma EvictDirty(c: PageCache.Cache, r: int)
    requires PageCache.Consistent(c) && r in c.lines && c.lines[r].dirty
    ensures var d := PageCache.Evict(c, r);
      d.remote == PageCache.SetPage(c.remote, r, c.lines[r].index, c.lines[r].data) && d.gets == c.gets && d.puts == c.puts + 1
  {
  }

  /** The server after a put packet for page `addr` of the region at `start`. */
  lemma SendKeepsTables(s: System, s': System, start: int, addr: int, data: Page)
    requires Tables(s) && start in s.c.startUffd && start in s.c.spans && PageOfRegion(s.c, addr, start)
    requires start in s.c.addrHndl && s'.table == Send(s, start, addr, data).table && SameRegions(s.c, s'.c)
    ensures Tables(s') && s'.table.issued == s.table.issued
    ensures RemoteOf(s') == PageCache.SetPage(RemoteOf(s), start, (addr - start) / 4096, data)
  {
    assert start <= addr;
    hide Tables, Send, PageOfRegion;
    SendIs(s, start, addr, data);
    PutKeepsTables(s, s', start, (addr - start) / 4096, data);
  }

  lemma SendRemote(s: System, start: int)
    requires Valid(s) && HasLine(s.c, start) && LineKnown(s.c, start) && LineOf(s.c, start).dirty
    ensures var s', line := Invalidate(s, s.c.startUffd[start]), LineOf(s.c, start);
      && Tables(s') && s'.table.issued == s.table.issued
      && RemoteOf(s') == PageCache.SetPage(RemoteOf(s), start, line.index, line.data)
  {
    var u, a := s.c.startUffd[start], s.c.prevAddr[s.c.startUffd[start]];
    assert Tables(s);
    hide Tables, Valid, Abs, Send, Invalidate, Recorded, RemoteOf, PageOfRegion, RegionOk, PageCache.SetPage, Serve, Exchange, Count, Bytes, RoundDown, Replace;
    LinesKnown(s, start);
    InvalidateIs(s, start);
    SendKeepsTables(s, Invalidate(s, u), start, a, s.c.present[a]);
  }

  lemma SendServerSide(s: System, start: int)
    requires Valid(s) && HasLine(s.c, start) && LineKnown(s.c, start) && LineOf(s.c, start).dirty
    ensures ServerFollows(s, Invalidate(s, s.c.startUffd[start]), PageCache.Evict(Abs(s), start))
  {
    hide Tables, Valid, Invalidate, RemoteOf, PageCache.Evict, PageCache.SetPage;
    SendRemote(s, start);
    EvictDirty(Abs(s), start);
  }

  lemma SendClientSide(s: System, start: int)
    requires Valid(s) && HasLine(s.c, start) && LineKnown(s.c, start) && LineOf(s.c, start).dirty
    ensures ClientFollows(s.c, Invalidate(s, s.c.startUffd[start]).c, s.c.startUffd[start], PageCache.Evict(Abs(s), start))
  {
    var u, a := s.c.startUffd[start], s.c.prevAddr[s.c.startUffd[start]];
    assert Tables(s);
    hide Tables, Valid, Abs, Send, Invalidate, Recorded, RemoteOf, PageOfRegion, TableWith, RegionOk, PageCache.Evict, PageCache.SetPage, PageCache.Consistent;
    LinesKnown(s, start);
    InvalidateIs(s, start);
    SendIs(s, start, a, s.c.present[a]);
    EvictDirty(Abs(s), start);
  }

  lemma InvalidateRefines(s: System, start: int)
    requires Valid(s) && start in s.c.startUffd
    ensures ServerFollows(s, Invalidate(s, s.c.startUffd[start]), PageCache.Evict(Abs(s), start))
    ensures ClientFollows(s.c, Invalidate(s, s.c.startUffd[start]).c, s.c.startUffd[start], PageCache.Evict(Abs(s), start))
  {
    var u := s.c.startUffd[start];
    if u in s.c.prevAddr {
      InvalidateIs(s, start);
      if LineOf(s.c, start).dirty {
        SendServerSide(s, start);
        SendClientSide(s, start);
      } else {
        TablesIgnoreRest(s, Invalidate(s, u));
        hide Tables, RemoteOf, Recorded, Abs, Invalidate, Valid;
      }
    }
  }

  /** `s'` is `s1` after the new page was installed and recorded. */
  predicate Installed(c1: Client, c': Client, u: int, a: int, op: int) {
    && c' == c1.(page := c'.page, present := c'.present, prevAddr := c'.prevAddr, prevOp := c'.prevOp, sent := c'.sent)
    && c'.present == c1.present[a := c'.page]
    && c'.prevAddr == c1.prevAddr[u := a] && c'.prevOp == c1.prevOp[u := op]
  }

  /** Fetching after the invalidation brings what the cache fetches. */
  lemma FetchMatches(s: System, s1: System, start: int, off: nat, residue: Page, e: PageCache.Cache)
    requires ServerFollows(s, s1, e) && start in s1.c.startUffd && start in s1.c.spans && off < Bytes(s1.c.spans[start])
    ensures start in s1.c.addrHndl
    ensures var s2 := Fetch(s1, start, start + off, residue);
      && s2.table == s1.table
      && s2.c == s1.c.(page := PageCache.Fetched(e, start, off / 4096, residue), sent := s2.c.sent)
      && Count(s2.c.sent, GET) == Count(s1.c.sent, GET) + 1 && Count(s2.c.sent, PUT) == Count(s1.c.sent, PUT)
  {
    FetchIs(s1, start, off, residue);
    assert start in RemoteOf(s1) && RemoteOf(s1)[start] == s1.table.pages[s1.c.addrHndl[start]];
    hide Tables, Fetch, Count;
  }

  /** Installing a page changes no table `Tables` looks at. */
  lemma InstallFollows(s: System, s1: System, u: int, addr: int, op: int)
    requires Tables(s1) && s1.table.issued == s.table.issued
    ensures var s' := Install(s1, u, addr, op);
      && Tables(s') && RemoteOf(s') == RemoteOf(s1) && s'.table.issued == s.table.issued
      && Installed(s1.c, s'.c, u, RoundDown(addr), op) && s'.c.page == s1.c.page && s'.c.sent == s1.c.sent
  {
    TablesIgnoreRest(s1, Install(s1, u, addr, op));
    hide Tables, RemoteOf;
  }

  lemma FaultIs(c: PageCache.Cache, r: int, i: nat, cause: PageCache.Cause)
    requires PageCache.Consistent(c) && r in c.live && i < c.live[r]
    ensures var e, d := PageCache.Evict(c, r), PageCache.Fault(c, r, i, cause);
      && d.remote == e.remote && d.puts == e.puts
      && e.buffer == c.buffer
      && d.buffer == (if cause.Read? then PageCache.Fetched(e, r, i, cause.residue) else e.buffer)
      && d.gets == e.gets + if cause.Read? then 1 else 0
  {
  }

  lemma HandleFaultUnfolds(s: System, start: int, addr: int, op: int, residue: Page)
    requires Valid(s) && start in s.c.startUffd && s.c.startUffd[start] in s.c.uffdStart
    ensures var u := s.c.startUffd[start]; var s1 := Invalidate(s, u);
      && start in s1.c.addrHndl
      && HandleFault(s, u, addr, op, residue) == Install(if op == READ_FAULT then Fetch(s1, start, addr, residue) else s1, u, addr, op)
  {
    RegionKnown(s, start);
    hide Install, Fetch, Tables, Recorded, Residents;
  }

  /** What follows the invalidation: fetch, if the fault is a read, and install. */
  lemma ResolveIs(s: System, s1: System, u: int, start: int, off: nat, op: int, residue: Page, e: PageCache.Cache)
    requires ServerFollows(s, s1, e) && start in s1.c.startUffd && start in s1.c.spans && off < Bytes(s1.c.spans[start])
    requires start in s1.c.addrHndl && s1.c.page == e.buffer
    ensures var read := op == READ_FAULT;
      var s' := Install(if read then Fetch(s1, start, start + off, residue) else s1, u, start + off, op);
      && ServerFollows(s, s', e)
      && Installed(s1.c, s'.c, u, RoundDown(start + off), op)
      && s'.c.page == (if read then PageCache.Fetched(e, start, off / 4096, residue) else e.buffer)
      && Count(s'.c.sent, GET) == Count(s1.c.sent, GET) + (if read then 1 else 0)
      && Count(s'.c.sent, PUT) == Count(s1.c.sent, PUT)
  {
    hide Install, Tables, RemoteOf, Count, RoundDown, PageCache.Fetched, Fetch, Installed;
    if op == READ_FAULT {
      var s2 := Fetch(s1, start, start + off, residue);
      FetchMatches(s, s1, start, off, residue, e);
      TablesIgnoreRest(s1, s2);
      InstallFollows(s, s2, u, start + off, op);
      InstalledIgnoresFetch(s1.c, s2.c, Install(s2, u, start + off, op).c, u, RoundDown(start + off), op);
    } else {
      InstallFollows(s, s1, u, start + off, op);
    }
  }

  /** The same seen from the cache, which was at `c` before the fault. */
  lemma ResolveFollows(s: System, s1: System, c: PageCache.Cache, start: int, u: int, off: nat, op: int, residue: Page)
    requires PageCache.Consistent(c) && start in c.live && off / 4096 < c.live[start] && op in {READ_FAULT, WRITE_FAULT}
    requires ServerFollows(s, s1, PageCache.Evict(c, start)) && ClientFollows(s.c, s1.c, u, PageCache.Evict(c, start))
    requires start in s.c.startUffd && start in s.c.spans && off < Bytes(s.c.spans[start]) && s.c.page == c.buffer
    requires start in s.c.addrHndl
    ensures var s' := Install(if op == READ_FAULT then Fetch(s1, start, start + off, residue) else s1, u, start + off, op);
      var d := PageCache.Fault(c, start, off / 4096, CauseOf(op, residue));
      && ServerFollows(s, s', d)
      && Installed(s1.c, s'.c, u, RoundDown(start + off), op)
      && s'.c.page == d.buffer
      && Count(s'.c.sent, GET) == d.gets && Count(s'.c.sent, PUT) == d.puts
  {
    hide Install, Tables, RemoteOf, Count, RoundDown, Bytes,
      PageCache.Evict, PageCache.Fault, PageCache.Fetched, PageCache.Consistent, Fetch, Installed;
    FaultIs(c, start, off / 4096, CauseOf(op, residue));
    ResolveIs(s, s1, u, start, off, op, residue, PageCache.Evict(c, start));
  }

  lemma HandleFaultIs(s: System, start: int, off: nat, op: int, residue: Page)
    requires Valid(s) && start in s.c.startUffd && start in s.c.spans && off < Bytes(s.c.spans[start])
    requires op in {READ_FAULT, WRITE_FAULT}
    ensures s.c.startUffd[start] in s.c.uffdStart && off / 4096 < s.c.spans[start]
    ensures var u, a := s.c.startUffd[start], RoundDown(start + off);
      var s', d := HandleFault(s, u, start + off, op, residue), PageCache.Fault(Abs(s), start, off / 4096, CauseOf(op, residue));
      && ServerFollows(s, s', d)
      && Installed(Invalidate(s, u).c, s'.c, u, a, op)
      && s'.c.page == d.buffer
      && Count(s'.c.sent, GET) == d.gets && Count(s'.c.sent, PUT) == d.puts
  {
    RegionSize(s, start, off);
    var u := s.c.startUffd[start];
    hide *;
    HandleFaultUnfolds(s, start, start + off, op, residue);
    InvalidateRefines(s, start);
    ResolveFollows(s, Invalidate(s, u), Abs(s), start, u, off, op, residue);
  }

  lemma RegionSize(s: System, start: int, off: nat)
    requires Valid(s) && start in s.c.startUffd && start in s.c.spans && off < Bytes(s.c.spans[start])
    ensures start in s.c.addrHndl && s.c.startUffd[start] in s.c.uffdStart && off / 4096 < s.c.spans[start]
  {
    RegionKnown(s, start);
    Offsets(start, s.c.spans[start], off);
  }

  lemma InstalledIgnoresFetch(c1: Client, c2: Client, c': Client, u: int, a: int, op: int)
    requires Installed(c2, c', u, a, op) && c2 == c1.(page := c2.page, sent := c2.sent)
    ensures Installed(c1, c', u, a, op)
  {
  }

  /** Recording page `a` for descriptor `u` in place of its former page. */
  ghost predicate Replaced(c: Client, c': Client, u: int, a: int, op: int) {
    && c' == c.(page := c'.page, present := c'.present, prevAddr := c'.prevAddr, prevOp := c'.prevOp, sent := c'.sent)
    && c'.present == (if u in c.prevAddr then c.present - {c.prevAddr[u]} else c.present)[a := c'.page]
    && c'.prevAddr == c.prevAddr[u := a] && c'.prevOp == c.prevOp[u := op]
  }

  /** Two descriptors never record the same page. */
  lemma RecordsApart(s: System, u: int, a: int, v: int)
    requires Valid(s) && u in s.c.uffdStart && v in s.c.prevAddr && u != v
    requires s.c.uffdStart[u] in s.c.spans && PageOfRegion(s.c, a, s.c.uffdStart[u])
    ensures s.c.prevAddr[v] != a
  {
    PagesApart(s, a, s.c.uffdStart[u], s.c.prevAddr[v], s.c.uffdStart[v]);
  }

  ghost predicate OthersStay(c: Client, c': Client, u: int) {
    forall v :: v in c.prevAddr && v != u ==>
      c.prevAddr[v] in c.present && c.prevAddr[v] in c'.present && c'.present[c.prevAddr[v]] == c.present[c.prevAddr[v]]
  }

  lemma ReplacedKeepsOthers(s: System, s': System, u: int, a: int, op: int)
    requires Valid(s) && u in s.c.uffdStart
    requires s.c.uffdStart[u] in s.c.spans && PageOfRegion(s.c, a, s.c.uffdStart[u])
    requires Replaced(s.c, s'.c, u, a, op)
    ensures OthersStay(s.c, s'.c, u)
  {
    assert Recorded(s.c) && Residents(s.c);
    hide Tables, Valid, PageOfRegion;
    forall v | v in s.c.prevAddr && v != u
      ensures s.c.prevAddr[v] != a && (u in s.c.prevAddr ==> s.c.prevAddr[v] != s.c.prevAddr[u])
    {
      RecordsApart(s, u, a, v);
      if u in s.c.prevAddr { RecordsApart(s, u, s.c.prevAddr[u], v); }
    }
    hide Tables, Recorded;
  }

  lemma ReplacedIsRecorded(c: Client, c': Client, u: int, a: int, op: int)
    requires Recorded(c) && u in c.uffdStart && op in {READ_FAULT, WRITE_FAULT}
    requires c.uffdStart[u] in c.spans && PageOfRegion(c, a, c.uffdStart[u])
    requires Replaced(c, c', u, a, op)
    ensures Recorded(c')
  {
    forall v | v in c'.prevAddr
      ensures c'.prevOp[v] in {READ_FAULT, WRITE_FAULT}
      ensures c'.uffdStart[v] in c'.spans && PageOfRegion(c', c'.prevAddr[v], c'.uffdStart[v])
    {
      SamePageOfRegion(c, c', c'.prevAddr[v], c.uffdStart[v]);
    }
  }

  lemma ReplacedKeepsResidents(c: Client, c': Client, u: int, a: int, op: int)
    requires Residents(c) && Replaced(c, c', u, a, op) && OthersStay(c, c', u)
    ensures Residents(c')
  {
    forall b | b in c'.present ensures exists v :: v in c'.prevAddr && c'.prevAddr[v] == b {
      if b == a {
        assert c'.prevAddr[u] == b;
      } else {
        var v :| v in c.prevAddr && c.prevAddr[v] == b;
        assert c'.prevAddr[v] == b;
      }
    }
  }

  lemma ReplacedIsValid(s: System, s': System, u: int, a: int, op: int)
    requires Valid(s) && u in s.c.uffdStart && op in {READ_FAULT, WRITE_FAULT}
    requires s.c.uffdStart[u] in s.c.spans && PageOfRegion(s.c, a, s.c.uffdStart[u])
    requires Replaced(s.c, s'.c, u, a, op) && Tables(s')
    ensures Valid(s') && OthersStay(s.c, s'.c, u)
  {
    hide Tables, PageOfRegion, Recorded, Residents, Replaced;
    ReplacedKeepsOthers(s, s', u, a, op);
    ReplacedIsRecorded(s.c, s'.c, u, a, op);
    ReplacedKeepsResidents(s.c, s'.c, u, a, op);
  }

  lemma SamePageOfRegion(c: Client, c': Client, a: int, start: int)
    requires start in c.spans && c'.spans == c.spans
    ensures PageOfRegion(c', a, start) <==> PageOfRegion(c, a, start)
  {
  }

  /** The abstraction of a fault is a fault of the abstraction. */
  lemma FaultRefines(s: System, start: int, off: nat, op: int, residue: Page)
    requires Valid(s) && start in s.c.startUffd && start in s.c.spans && off < Bytes(s.c.spans[start])
    requires op in {READ_FAULT, WRITE_FAULT}
    ensures off / 4096 < s.c.spans[start]
    ensures var s' := HandleFault(s, s.c.startUffd[start], start + off, op, residue);
      && Valid(s')
      && Abs(s') == PageCache.Fault(Abs(s), start, off / 4096, CauseOf(op, residue))
      && s'.table.issued == s.table.issued
  {
    var u, a := s.c.startUffd[start], RoundDown(start + off);
    var s' := HandleFault(s, u, start + off, op, residue);
    RegionKnown(s, start);
    Offsets(start, s.c.spans[start], off);
    HandleFaultIs(s, start, off, op, residue);
    var d := PageCache.Fault(Abs(s), start, off / 4096, CauseOf(op, residue));
    InvalidateRefines(s, start);
    assert Tables(s);
    hide HandleFault, Invalidate, Recorded;
    assert Replaced(s.c, s'.c, u, a, op);
    ReplacedIsValid(s, s', u, a, op);
    OwnLineAfterFault(s, s', start, off, op);
    FaultLines(Abs(s), start, off / 4096, CauseOf(op, residue));
    LinesAfterFault(s, s', start, a, op, d.lines);
    AbsIs(s', d);
  }

  lemma AbsIs(s: System, c: PageCache.Cache)
    requires Valid(s)
    requires c.remote == RemoteOf(s) && c.live == LiveOf(s.c) && c.buffer == s.c.page
    requires c.gets == Count(s.c.sent, GET) && c.puts == Count(s.c.sent, PUT)
    requires forall b :: b in c.lines <==> HasLine(s.c, b)
    requires forall b :: b in c.lines ==> LineKnown(s.c, b) && c.lines[b] == LineOf(s.c, b)
    ensures Abs(s) == c
  {
    hide Valid, HasLine, LineKnown, LineOf;
    var lines := Abs(s).lines;
    forall b ensures b in lines <==> b in c.lines
      ensures b in c.lines ==> lines[b] == c.lines[b]
    {
      assert b in c.lines <==> HasLine(s.c, b);
    }
    assert lines == c.lines;
  }

  lemma FaultLines(c: PageCache.Cache, r: int, i: nat, cause: PageCache.Cause)
    requires PageCache.Consistent(c) && r in c.live && i < c.live[r]
    ensures var d := PageCache.Fault(c, r, i, cause);
      d.lines == c.lines[r := PageCache.Line(i, cause.Write?, d.buffer)]
  {
  }

  lemma OwnLineAfterFault(s: System, s': System, start: int, off: nat, op: int)
    requires Valid(s) && Valid(s') && start in s.c.startUffd && start in s.c.spans && off < Bytes(s.c.spans[start])
    requires Replaced(s.c, s'.c, s.c.startUffd[start], RoundDown(start + off), op)
    ensures HasLine(s'.c, start) && LineKnown(s'.c, start)
    ensures LineOf(s'.c, start) == PageCache.Line(off / 4096, op != READ_FAULT, s'.c.page)
  {
    RegionKnown(s, start);
    Offsets(start, s.c.spans[start], off);
    assert HasLine(s'.c, start);
    LinesKnown(s', start);
    hide Tables, Recorded, Valid, RegionOk, PageOfRegion, RoundDown;
  }

  lemma OtherLineAfterFault(s: System, s': System, start: int, a: int, op: int, b: int)
    requires Valid(s) && start in s.c.startUffd && b != start
    requires Replaced(s.c, s'.c, s.c.startUffd[start], a, op) && OthersStay(s.c, s'.c, s.c.startUffd[start])
    ensures HasLine(s'.c, b) <==> HasLine(s.c, b)
    ensures HasLine(s.c, b) ==> LineKnown(s.c, b) && LineKnown(s'.c, b) && LineOf(s'.c, b) == LineOf(s.c, b)
  {
    assert b in s.c.startUffd ==> s.c.uffdStart[s.c.startUffd[b]] == b;
    assert s.c.uffdStart[s.c.startUffd[start]] == start;
    if HasLine(s.c, b) {
      LinesKnown(s, b);
    }
    hide Tables, Recorded, Valid, PageOfRegion;
  }

  /** All lines but the one of `start` are as they were. */
  lemma LinesAfterFault(s: System, s': System, start: int, a: int, op: int, lines: map<int, PageCache.Line>)
    requires Valid(s) && start in s.c.startUffd && HasLine(s'.c, start) && LineKnown(s'.c, start)
    requires Replaced(s.c, s'.c, s.c.startUffd[start], a, op) && OthersStay(s.c, s'.c, s.c.startUffd[start])
    requires lines == Abs(s).lines[start := LineOf(s'.c, start)]
    ensures forall b :: b in lines <==> HasLine(s'.c, b)
    ensures forall b :: b in lines ==> LineKnown(s'.c, b) && lines[b] == LineOf(s'.c, b)
  {
    hide Valid, Abs, Replaced, OthersStay, LineOf, LineKnown;
    var before := Abs(s).lines;
    forall b
      ensures b in lines <==> HasLine(s'.c, b)
      ensures b in lines ==> LineKnown(s'.c, b) && lines[b] == LineOf(s'.c, b)
    {
      if b != start {
        assert b in before <==> HasLine(s.c, b);
        OtherLineAfterFault(s, s', start, a, op, b);
      }
    }
  }

  // ---- Operations ----

  lemma CanDoIsPossible(s: System, op: Op)
    requires Valid(s) && CanDo(s, op)
    ensures PageCache.Possible(Abs(s).live, AbsOp(op))
  {
    match op
    case Load(start, off, _, _) => RegionKnown(s, start); Offsets(start, s.c.spans[start], off);
    case Store(start, off, _) => RegionKnown(s, start); Offsets(start, s.c.spans[start], off);
    case Alloc(_, _, _) =>
    case Unregister(_) =>
  }

  lemma TouchRefines(s: System, start: int, off: nat, op: int, residue: Page)
    requires Valid(s) && start in s.c.startUffd && start in s.c.spans && off < Bytes(s.c.spans[start])
    requires op in {READ_FAULT, WRITE_FAULT}
    ensures off / 4096 < s.c.spans[start]
    ensures var s' := Touch(s, start, off, op, residue);
      && Valid(s')
      && Abs(s') == PageCache.Bring(Abs(s), start, off / 4096, CauseOf(op, residue))
      && s'.table.issued == s.table.issued
  {
    RegionKnown(s, start);
    Offsets(start, s.c.spans[start], off);
    PresentIsResident(s, start, off);
    FaultRefines(s, start, off, op, residue);
  }

  /** The resident page of a region is its line. */
  lemma LineIsPresent(s: System, start: int, off: nat)
    requires Valid(s) && start in s.c.startUffd && start in s.c.spans && off < Bytes(s.c.spans[start])
    requires PageCache.Resident(Abs(s), start, off / 4096)
    ensures var a := RoundDown(start + off);
      && a in s.c.present && Abs(s).lines[start].data == s.c.present[a]
      && s.c.startUffd[start] in s.c.prevAddr && s.c.prevAddr[s.c.startUffd[start]] == a
  {
    hide Valid, Tables, Recorded, Residents, Abs, RoundDown, RemoteOf;
    LinesKnown(s, start);
    ValidHasTables(s);
    RegionKnown(s, start);
    Offsets(start, s.c.spans[start], off);
    AlignedPage(start, s.c.prevAddr[s.c.startUffd[start]]);
  }

  lemma LoadRefines(s: System, start: int, off: nat, len: nat, residue: Page)
    requires Valid(s) && CanDo(s, Load(start, off, len, residue))
    ensures PageCache.Possible(Abs(s).live, AbsOp(Load(start, off, len, residue)))
    ensures DoLoad(s, start, off, len, residue) == PageCache.Loaded(Abs(s), AbsOp(Load(start, off, len, residue)))
  {
    hide Valid, Abs, Touch, PageCache.Bring, RoundDown;
    CanDoIsPossible(s, Load(start, off, len, residue));
    TouchRefines(s, start, off, READ_FAULT, residue);
    TouchKeepsRegions(s, start, off, READ_FAULT, residue);
    LineIsPresent(Touch(s, start, off, READ_FAULT, residue), start, off);
  }

  lemma TouchKeepsRegions(s: System, start: int, off: nat, op: int, residue: Page)
    requires Valid(s) && start in s.c.startUffd
    ensures SameRegions(s.c, Touch(s, start, off, op, residue).c)
  {
    RegionKnown(s, start);
    InvalidateRefines(s, start);
    hide Valid, Tables, Recorded, Residents, Serve, Invalidate, Abs, Count, PageCache.Evict;
  }

  /** `s'` is `s` with other contents in the resident page `a`. */
  predicate Changed(s: System, s': System, a: int) {
    && a in s.c.present && a in s'.c.present
    && s' == s.(c := s.c.(present := s.c.present[a := s'.c.present[a]]))
  }

  lemma ChangedIsValid(s: System, s': System, a: int)
    requires Valid(s) && Changed(s, s', a)
    ensures Valid(s') && RemoteOf(s') == RemoteOf(s)
  {
    hide RemoteOf;
    TablesIgnoreRest(s, s');
    hide Tables;
    assert Recorded(s'.c) by {
      forall v | v in s'.c.prevAddr
        ensures s'.c.uffdStart[v] in s'.c.spans && PageOfRegion(s'.c, s'.c.prevAddr[v], s'.c.uffdStart[v])
      {
        SamePageOfRegion(s.c, s'.c, s.c.prevAddr[v], s.c.uffdStart[v]);
      }
    }
  }

  lemma OtherLineUnchanged(s: System, s': System, start: int, a: int, b: int)
    requires Valid(s) && Changed(s, s', a) && HasLine(s.c, start) && s.c.prevAddr[s.c.startUffd[start]] == a
    requires b != start && HasLine(s.c, b)
    ensures LineKnown(s.c, b) && LineKnown(s'.c, b) && LineOf(s'.c, b) == LineOf(s.c, b)
  {
    hide Valid, RegionOk, PageOfRegion;
    LinesKnown(s, b);
    LinesKnown(s, start);
    ValidHasTables(s);
    hide Tables, Recorded, Residents;
    PagesApart(s, a, start, s.c.prevAddr[s.c.startUffd[b]], b);
  }

  lemma ValidHasTables(s: System)
    requires Valid(s)
    ensures Tables(s) && Recorded(s.c) && Residents(s.c)
  {
  }

  lemma OwnLineChanged(s: System, s': System, start: int, a: int)
    requires Valid(s) && HasLine(s.c, start) && s.c.prevAddr[s.c.startUffd[start]] == a && Changed(s, s', a)
    ensures LineKnown(s.c, start) && LineKnown(s'.c, start)
    ensures LineOf(s'.c, start) == LineOf(s.c, start).(data := s'.c.present[a])
  {
    hide Valid, RegionOk, PageOfRegion;
    LinesKnown(s, start);
  }

  lemma ChangedKeepsRecords(s: System, s': System, a: int)
    requires Changed(s, s', a)
    ensures forall b :: HasLine(s'.c, b) <==> HasLine(s.c, b)
  {
  }

  /** All lines but the one of `start` are as they were. */
  lemma LinesChanged(s: System, s': System, start: int, a: int, lines: map<int, PageCache.Line>)
    requires Valid(s) && Changed(s, s', a) && HasLine(s.c, start) && s.c.prevAddr[s.c.startUffd[start]] == a
    requires lines == Abs(s).lines[start := Abs(s).lines[start].(data := s'.c.present[a])]
    ensures forall b :: b in lines <==> HasLine(s'.c, b)
    ensures forall b :: b in lines ==> LineKnown(s'.c, b) && lines[b] == LineOf(s'.c, b)
  {
    hide Valid, Abs, LineOf, LineKnown, Changed;
    var before := Abs(s).lines;
    assert HasLine(s'.c, start) && forall b :: HasLine(s'.c, b) <==> HasLine(s.c, b) by { ChangedKeepsRecords(s, s', a); }
    OwnLineChanged(s, s', start, a);
    forall b
      ensures b in lines <==> HasLine(s'.c, b)
      ensures b in lines ==> LineKnown(s'.c, b) && lines[b] == LineOf(s'.c, b)
    {
      assert b in before <==> HasLine(s.c, b);
      if b != start && HasLine(s.c, b) {
        OtherLineUnchanged(s, s', start, a, b);
      }
    }
  }

  /** A store changes the local page and nothing else. */
  lemma HitRefines(s: System, s': System, start: int, off: nat, bytes: seq<Byte>)
    requires Valid(s) && start in s.c.startUffd && start in s.c.spans && off < Bytes(s.c.spans[start])
    requires off % 4096 + |bytes| <= PAGE_SIZE && PageCache.Resident(Abs(s), start, off / 4096)
    requires Changed(s, s', RoundDown(start + off))
    requires s'.c.present[RoundDown(start + off)] == Overlay(s.c.present[RoundDown(start + off)], off % 4096, bytes)
    ensures Valid(s') && Abs(s') == PageCache.Hit(Abs(s), start, off % 4096, bytes)
  {
    var a, d := RoundDown(start + off), PageCache.Hit(Abs(s), start, off % 4096, bytes);
    hide Valid, Tables, Abs, RemoteOf, RoundDown, Overlay, LineOf, LineKnown;
    ChangedIsValid(s, s', a);
    LineIsPresent(s, start, off);
    LinesChanged(s, s', start, a, d.lines);
    AbsIs(s', d);
  }

  lemma StoreRefines(s: System, start: int, off: nat, bytes: seq<Byte>)
    requires Valid(s) && CanDo(s, Store(start, off, bytes))
    ensures PageCache.Possible(Abs(s).live, AbsOp(Store(start, off, bytes)))
    ensures Valid(DoStore(s, start, off, bytes))
    ensures Abs(DoStore(s, start, off, bytes)) == PageCache.Stored(Abs(s), start, off / 4096, off % 4096, bytes)
    ensures DoStore(s, start, off, bytes).table.issued == s.table.issued
  {
    hide Valid, Abs, Touch, PageCache.Bring, PageCache.Hit, RoundDown, ZeroPage;
    CanDoIsPossible(s, Store(start, off, bytes));
    TouchRefines(s, start, off, WRITE_FAULT, ZeroPage());
    TouchKeepsRegions(s, start, off, WRITE_FAULT, ZeroPage());
    var b := Touch(s, start, off, WRITE_FAULT, ZeroPage());
    LineIsPresent(b, start, off);
    HitRefines(b, DoStore(s, start, off, bytes), start, off, bytes);
  }

  /** An address new to the client gets pages of its own; one used before keeps its
      handle and pages, and the handle just granted is forgotten. */
  lemma AllocRegionOk(s: System, n: U32, addr: int, u: int, a: int)
    requires Valid(s) && CanDo(s, Alloc(n, addr, u))
    requires a in s.c.addrHndl || a == addr
    ensures var s' := DoAlloc(s, n, addr, u);
      && a in s'.c.addrHndl && a in s'.c.addrNPages && RegionOk(s', a) && s'.c.addrHndl[a] in s'.table.pages
      && s'.table.pages[s'.c.addrHndl[a]] == (if a in s.c.addrHndl then RemoteOf(s)[a] else ZeroPages(n))
      && (a in s.c.addrHndl ==> s'.c.addrHndl[a] == s.c.addrHndl[a])
      && (a !in s.c.addrHndl ==> s'.c.addrHndl[a] == s.table.issued)
  {
    if a in s.c.addrHndl {
      assert RegionOk(s, a);
      assert s.c.addrHndl[a] != s.table.issued;
    }
  }

  lemma AllocKeepsApart(s: System, n: U32, addr: int, u: int)
    requires Valid(s) && CanDo(s, Alloc(n, addr, u))
    ensures var c' := DoAlloc(s, n, addr, u).c;
      && (forall a, b :: a in c'.addrHndl && b in c'.addrHndl && a != b ==> c'.addrHndl[a] != c'.addrHndl[b])
      && (forall a, b :: a in c'.startUffd && b in c'.startUffd && a != b && a in c'.spans && b in c'.spans ==>
            Disjoint(a, c'.spans[a], b, c'.spans[b]))
  {
    forall a | a in s.c.addrHndl ensures s.c.addrHndl[a] != s.table.issued {
      assert RegionOk(s, a);
    }
    hide RegionOk;
  }

  lemma AllocKeepsDescriptors(s: System, n: U32, addr: int, u: int)
    requires Valid(s) && CanDo(s, Alloc(n, addr, u))
    ensures var s' := DoAlloc(s, n, addr, u);
      && s'.c.startUffd.Keys <= s'.c.addrHndl.Keys && s'.c.startUffd.Keys <= s'.c.spans.Keys
      && (forall a :: a in s'.c.startUffd ==> s'.c.startUffd[a] in s'.c.uffdStart && s'.c.uffdStart[s'.c.startUffd[a]] == a)
      && (forall v :: v in s'.c.uffdStart ==> s'.c.uffdStart[v] in s'.c.startUffd && s'.c.startUffd[s'.c.uffdStart[v]] == v)
      && (forall a :: a in s'.c.startUffd ==> 1 <= s'.c.spans[a] < MAX_PAGES)
      && (forall h :: h in s'.table.pages ==> 0 <= h < s'.table.issued)
  {
    hide RegionOk, Disjoint, Recorded, Residents;
  }

  lemma AllocKeepsTables(s: System, n: U32, addr: int, u: int)
    requires Valid(s) && CanDo(s, Alloc(n, addr, u))
    ensures Tables(DoAlloc(s, n, addr, u))
  {
    var s' := DoAlloc(s, n, addr, u);
    AllocKeepsApart(s, n, addr, u);
    AllocKeepsDescriptors(s, n, addr, u);
    AllocAddsHandle(s, n, addr, u);
    hide Valid, RegionOk, Disjoint, DoAlloc, CanDo, Recorded, Residents;
    forall a | a in s'.c.addrHndl ensures a in s'.c.addrNPages && RegionOk(s', a) {
      AllocRegionOk(s, n, addr, u, a);
    }
  }

  lemma AllocKeepsRemote(s: System, n: U32, addr: int, u: int)
    requires Valid(s) && CanDo(s, Alloc(n, addr, u)) && Tables(DoAlloc(s, n, addr, u))
    ensures RemoteOf(DoAlloc(s, n, addr, u)) ==
      if addr in s.c.addrHndl then RemoteOf(s) else RemoteOf(s)[addr := ZeroPages(n)]
  {
    var after := RemoteOf(DoAlloc(s, n, addr, u));
    AllocAddsHandle(s, n, addr, u);
    hide Valid, Tables, RegionOk, DoAlloc, CanDo, Recorded, Residents;
    forall a | a in s.c.addrHndl || a == addr
      ensures after[a] == if a in s.c.addrHndl then RemoteOf(s)[a] else ZeroPages(n)
    {
      AllocRegionOk(s, n, addr, u, a);
    }
  }

  lemma AllocAddsHandle(s: System, n: U32, addr: int, u: int)
    requires Valid(s) && CanDo(s, Alloc(n, addr, u))
    ensures var c' := DoAlloc(s, n, addr, u).c;
      c'.addrHndl.Keys == s.c.addrHndl.Keys + {addr} && c'.addrNPages.Keys == c'.addrHndl.Keys
  {
    hide RegionOk, Disjoint, Recorded, Residents;
  }

  lemma AllocAddsRegion(s: System, n: U32, addr: int, u: int)
    requires Valid(s) && CanDo(s, Alloc(n, addr, u))
    ensures var c' := DoAlloc(s, n, addr, u).c;
      c'.startUffd.Keys <= c'.spans.Keys && LiveOf(c') == LiveOf(s.c)[addr := n]
  {
    var c' := DoAlloc(s, n, addr, u).c;
    assert LiveOf(c').Keys == LiveOf(s.c)[addr := n].Keys;
    hide Valid, Tables, Recorded, Residents;
  }

  lemma AllocKeepsRecords(s: System, n: U32, addr: int, u: int)
    requires Valid(s) && CanDo(s, Alloc(n, addr, u))
    ensures var c' := DoAlloc(s, n, addr, u).c; Recorded(c') && Residents(c')
  {
    var c' := DoAlloc(s, n, addr, u).c;
    forall v | v in c'.prevAddr
      ensures c'.uffdStart[v] in c'.spans && PageOfRegion(c', c'.prevAddr[v], c'.uffdStart[v])
    {
      assert s.c.uffdStart[v] != addr;
    }
    hide Tables;
  }

  lemma AllocKeepsLines(s: System, n: U32, addr: int, u: int)
    requires Valid(s) && CanDo(s, Alloc(n, addr, u))
    ensures var c' := DoAlloc(s, n, addr, u).c;
      && (forall b :: HasLine(c', b) <==> HasLine(s.c, b))
      && (forall b :: HasLine(s.c, b) ==> LineKnown(s.c, b) && LineKnown(c', b) && LineOf(c', b) == LineOf(s.c, b))
  {
    forall b | HasLine(s.c, b) ensures LineKnown(s.c, b) && b != addr {
      LinesKnown(s, b);
    }
    hide Tables;
  }

  lemma AllocRefines(s: System, n: U32, addr: int, u: int)
    requires Valid(s) && CanDo(s, Alloc(n, addr, u))
    ensures var s' := DoAlloc(s, n, addr, u);
      && Valid(s') && Abs(s') == PageCache.Step(Abs(s), PageCache.Register(addr, n))
      && s'.table.issued == s.table.issued + 1
      && addr in s'.c.addrHndl
      && s'.c.addrHndl[addr] == if addr in s.c.addrHndl then s.c.addrHndl[addr] else s.table.issued
  {
    var s', d := DoAlloc(s, n, addr, u), PageCache.Step(Abs(s), PageCache.Register(addr, n));
    AllocRegionOk(s, n, addr, u, addr);
    AllocKeepsTables(s, n, addr, u);
    AllocKeepsRemote(s, n, addr, u);
    AllocAddsRegion(s, n, addr, u);
    AllocKeepsRecords(s, n, addr, u);
    AllocKeepsLines(s, n, addr, u);
    CanDoIsPossible(s, Alloc(n, addr, u));
    CountMore(s.c.sent, Ask(MapMessage(n), true), GET);
    CountMore(s.c.sent, Ask(MapMessage(n), true), PUT);
    hide Tables, Recorded, Residents, Abs, RemoteOf, LiveOf, HasLine, LineKnown, LineOf, Count;
    AbsIs(s', d);
  }

  /** `c'` is `c` without the descriptor `u` of `start`, its record and its page. */
  ghost predicate Forgotten(c: Client, c': Client, start: int, u: int) {
    && c' == c.(startUffd := c.startUffd - {start}, uffdStart := c.uffdStart - {u},
                prevAddr := c.prevAddr - {u}, prevOp := c.prevOp - {u}, present := c'.present, sent := c'.sent)
    && c'.present == if u in c.prevAddr then c.present - {c.prevAddr[u]} else c.present
  }

  lemma ForgettingKeepsTables(s1: System, s': System, start: int, u: int)
    requires Tables(s1) && s'.table == s1.table && start in s1.c.startUffd && u == s1.c.startUffd[start]
    requires s'.c.addrHndl == s1.c.addrHndl && s'.c.addrNPages == s1.c.addrNPages && s'.c.spans == s1.c.spans
    requires s'.c.startUffd == s1.c.startUffd - {start} && s'.c.uffdStart == s1.c.uffdStart - {u}
    ensures Tables(s') && RemoteOf(s') == RemoteOf(s1) && LiveOf(s'.c) == LiveOf(s1.c) - {start}
  {
    forall a | a in s1.c.addrHndl ensures RegionOk(s', a) { assert RegionOk(s1, a); }
    hide RegionOk, Disjoint;
    assert LiveOf(s'.c) == LiveOf(s1.c) - {start};
  }

  lemma ForgettingKeepsOthers(s: System, c': Client, start: int, u: int)
    requires Valid(s) && start in s.c.startUffd && u == s.c.startUffd[start] && Forgotten(s.c, c', start, u)
    ensures OthersStay(s.c, c', u)
  {
    forall v | v in s.c.prevAddr && v != u
      ensures u in s.c.prevAddr ==> s.c.prevAddr[v] != s.c.prevAddr[u]
    {
      if u in s.c.prevAddr { RecordsApart(s, u, s.c.prevAddr[u], v); }
    }
    hide Tables, Recorded;
  }

  lemma ForgettingKeepsResidents(c: Client, c': Client, start: int, u: int)
    requires Residents(c) && Forgotten(c, c', start, u) && OthersStay(c, c', u)
    ensures Residents(c')
  {
    forall b | b in c'.present ensures exists v :: v in c'.prevAddr && c'.prevAddr[v] == b {
      var v :| v in c.prevAddr && c.prevAddr[v] == b;
      assert c'.prevAddr[v] == b;
    }
  }

  lemma ForgettingKeepsRecords(s: System, c': Client, start: int, u: int)
    requires Valid(s) && start in s.c.startUffd && u == s.c.startUffd[start] && Forgotten(s.c, c', start, u)
    ensures OthersStay(s.c, c', u) && Recorded(c') && Residents(c')
  {
    ForgettingKeepsOthers(s, c', start, u);
    ForgettingKeepsResidents(s.c, c', start, u);
    hide Tables, Residents, OthersStay;
    forall v | v in s.c.prevAddr && v != u
      ensures s.c.uffdStart[v] in c'.spans && PageOfRegion(c', s.c.prevAddr[v], s.c.uffdStart[v])
    {
      SamePageOfRegion(s.c, c', s.c.prevAddr[v], s.c.uffdStart[v]);
    }
  }

  lemma ForgettingKeepsLines(s: System, c': Client, start: int, u: int)
    requires Valid(s) && start in s.c.startUffd && u == s.c.startUffd[start] && Forgotten(s.c, c', start, u)
    ensures forall b :: HasLine(c', b) <==> HasLine(s.c, b) && b != start
    ensures forall b :: HasLine(c', b) ==> LineKnown(s.c, b) && LineKnown(c', b) && LineOf(c', b) == LineOf(s.c, b)
  {
    ForgettingKeepsRecords(s, c', start, u);
    forall b | b in s.c.startUffd
      ensures b != start ==> s.c.startUffd[b] != u
      ensures HasLine(s.c, b) ==> LineKnown(s.c, b)
    {
      assert s.c.uffdStart[s.c.startUffd[b]] == b;
      if HasLine(s.c, b) { LinesKnown(s, b); }
    }
    hide Tables, Recorded, Residents;
  }

  lemma UnregisterIs(s: System, start: int)
    requires Valid(s) && start in s.c.startUffd
    ensures var u := s.c.startUffd[start]; var s1, s' := Invalidate(s, u), DoUnregister(s, start);
      Forgotten(s.c, s'.c, start, u) && s'.table == s1.table && s'.c.sent == s1.c.sent
  {
    InvalidateRefines(s, start);
    hide Valid, Invalidate, Abs;
  }

  lemma UnregisterEvicts(c: PageCache.Cache, r: int)
    requires PageCache.Consistent(c) && r in c.live
    ensures var d, e := PageCache.Step(c, PageCache.Unregister(r)), PageCache.Evict(c, r);
      && d.lines == c.lines - {r} && d.live == c.live - {r}
      && d.remote == e.remote && d.buffer == c.buffer && d.gets == e.gets && d.puts == e.puts
  {
  }

  /** Unregistering saves the region's write-faulted page and leaves no resident page
      and no entry of the region behind; every other region stays as it was. */
  lemma UnregisterRefines(s: System, start: int)
    requires Valid(s) && start in s.c.startUffd
    ensures var u, s' := s.c.startUffd[start], DoUnregister(s, start);
      && Valid(s') && Abs(s') == PageCache.Step(Abs(s), PageCache.Unregister(start))
      && Forgotten(s.c, s'.c, start, u)
      && s'.table.issued == s.table.issued
  {
    var u, s', abs := s.c.startUffd[start], DoUnregister(s, start), Abs(s);
    var s1 := Invalidate(s, u);
    hide Valid, Tables, Recorded, Residents, Abs, RemoteOf, LiveOf, HasLine, LineKnown, LineOf, Invalidate, DoUnregister, PageCache.Step, PageCache.Evict;
    InvalidateRefines(s, start);
    UnregisterIs(s, start);
    ForgettingKeepsTables(s1, s', start, u);
    ForgettingKeepsRecords(s, s'.c, start, u);
    ForgettingKeepsLines(s, s'.c, start, u);
    UnregisterEvicts(abs, start);
    IsValid(s');
    AbsIs(s', PageCache.Step(abs, PageCache.Unregister(start)));
  }

  lemma IsValid(s: System)
    requires Tables(s) && Recorded(s.c) && Residents(s.c)
    ensures Valid(s)
  {
  }

  // ---- Whole runs ----

  lemma DoRefines(s: System, op: Op)
    requires Valid(s)
    ensures var s' := Do(s, op);
      && Valid(s')
      && Abs(s') == if CanDo(s, op) then PageCache.Step(Abs(s), AbsOp(op)) else Abs(s)
  {
    if CanDo(s, op) {
      CanDoIsPossible(s, op);
      hide Valid, Abs, Touch, DoStore, DoAlloc, DoUnregister, PageCache.Bring, PageCache.Stored;
      match op
      case Load(start, off, _, residue) => TouchRefines(s, start, off, READ_FAULT, residue);
      case Store(start, off, bytes) => StoreRefines(s, start, off, bytes);
      case Alloc(n, addr, u) => AllocRefines(s, n, addr, u);
      case Unregister(start) => UnregisterRefines(s, start);
    }
  }

  function RunOps(s: System, ops: seq<Op>): (s': System)
    requires Valid(s)
    ensures Valid(s')
  {
    if ops == [] then s
    else
      var before := RunOps(s, ops[..|ops| - 1]);
      DoRefines(before, ops[|ops| - 1]);
      Do(before, ops[|ops| - 1])
  }

  /** The operations of a run that could be done, seen as cache events. */
  function Performed(s: System, ops: seq<Op>): seq<PageCache.Event>
    requires Valid(s)
  {
    if ops == [] then []
    else
      var n := |ops| - 1;
      Performed(s, ops[..n]) + if CanDo(RunOps(s, ops[..n]), ops[n]) then [AbsOp(ops[n])] else []
  }

  /** Over every run of allocations, accesses and unregistrations the client's tables
      stay in order and the whole system moves as the cache does. */
  lemma {:induction false} RunRefines(s: System, ops: seq<Op>)
    requires Valid(s)
    ensures Valid(RunOps(s, ops))
    ensures Abs(RunOps(s, ops)) == PageCache.Run(Abs(s), Performed(s, ops))
  {
    hide Valid, Abs, Do, PageCache.Step;
    if ops != [] {
      var n := |ops| - 1;
      var before, events := RunOps(s, ops[..n]), Performed(s, ops[..n]);
      RunRefines(s, ops[..n]);
      DoRefines(before, ops[n]);
      if CanDo(before, ops[n]) {
        assert (events + [AbsOp(ops[n])])[..|events|] == events;
        assert Performed(s, ops) == events + [AbsOp(ops[n])];
      } else {
        assert Performed(s, ops) == events;
      }
    }
  }
}

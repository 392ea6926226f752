/**
 * Off-by-one invalidation as a cache: every region keeps at most one page locally,
 * all regions share one copy buffer, and page faults are the only events at which
 * anything travels.  Pages are named by region and index.
 */
module PageCache {
  import opened Words
  import PageTable

  /** The local page of a region: which one, whether a write faulted it in, and its contents. */
  datatype Line = Line(index: nat, dirty: bool, data: Page)

  /** `remote` is the server's side: the pages of every region ever registered.  `live`
      gives the registered regions and their local sizes; `gets` and `puts` count the
      packets sent. */
  datatype Cache = Cache(
    remote: map<int, seq<Page>>, live: map<int, nat>, lines: map<int, Line>, buffer: Page,
    gets: nat, puts: nat)

  /** What the application does.  An access stays within one page.  `residue` is the
      page that an unanswered get would come back with: what was in the packet. */
  datatype Event =
    | Load(region: int, index: nat, at: nat, len: nat, residue: Page)
    | Store(region: int, index: nat, at: nat, bytes: seq<Byte>)
    | Register(region: int, npages: nat)
    | Unregister(region: int)
  {
    predicate IsAccess() {
      Load? || Store?
    }
  }

  /** What makes a page fault. */
  datatype Cause = Read(residue: Page) | Write

  predicate Consistent(c: Cache) {
    && c.lines.Keys <= c.live.Keys <= c.remote.Keys
    && forall r :: r in c.lines ==> c.lines[r].index < c.live[r]
  }

  /** Whether an event can happen, given the registered regions and their sizes. */
  predicate Possible(live: map<int, nat>, e: Event) {
    match e
    case Load(r, i, at, len, _) => r in live && i < live[r] && 0 < len && at + len <= PAGE_SIZE
    case Store(r, i, at, bytes) => r in live && i < live[r] && 0 < |bytes| && at + |bytes| <= PAGE_SIZE
    case Register(r, n) => r !in live && 0 < n
    case Unregister(r) => r in live
  }

  predicate Resident(c: Cache, r: int, i: nat) {
    r in c.lines && c.lines[r].index == i
  }

  /** The server has this page. */
  predicate Kept(c: Cache, r: int, i: nat) {
    r in c.remote && i < |c.remote[r]|
  }

  /** The server has every page of every registered region. */
  predicate Whole(c: Cache) {
    c.live.Keys <= c.remote.Keys && forall r :: r in c.live ==> c.live[r] <= |c.remote[r]|
  }

  /** A put; one past the end is refused. */
  function SetPage(pages: map<int, seq<Page>>, r: int, i: nat, data: Page): map<int, seq<Page>> {
    if r in pages && i < |pages[r]| then pages[r := PageTable.Replace(pages[r], i, data)] else pages
  }

  /** What a get brings back. */
  function Fetched(c: Cache, r: int, i: nat, residue: Page): Page {
    if Kept(c, r, i) then c.remote[r][i] else residue
  }

  /** The same regions, registered or not, with the same sizes here and there. */
  predicate SameRegions(c: Cache, d: Cache) {
    && c.live == d.live && c.remote.Keys == d.remote.Keys
    && forall r :: r in c.remote ==> |c.remote[r]| == |d.remote[r]|
  }

  /** Send the local page of `r` back if a write faulted it in; drop it in any case. */
  function Evict(c: Cache, r: int): (c': Cache)
    requires Consistent(c)
    ensures Consistent(c') && SameRegions(c, c')
  {
    if r !in c.lines then c
    else
      var line := c.lines[r];
      var dropped := c.(lines := c.lines - {r});
      if line.dirty then
        dropped.(remote := SetPage(c.remote, r, line.index, line.data), puts := c.puts + 1)
      else
        dropped
  }

  /** Only a read fetches the page; a write installs whatever is in the buffer. */
  function Fault(c: Cache, r: int, i: nat, cause: Cause): (c': Cache)
    requires Consistent(c) && r in c.live && i < c.live[r]
    ensures Consistent(c') && Resident(c', r, i) && SameRegions(c, c')
  {
    var e := Evict(c, r);
    match cause
    case Write => e.(lines := e.lines[r := Line(i, true, e.buffer)])
    case Read(residue) =>
      var page := Fetched(e, r, i, residue);
      e.(lines := e.lines[r := Line(i, false, page)], buffer := page, gets := e.gets + 1)
  }

  function Bring(c: Cache, r: int, i: nat, cause: Cause): (c': Cache)
    requires Consistent(c) && r in c.live && i < c.live[r]
    ensures Consistent(c') && Resident(c', r, i) && SameRegions(c, c')
  {
    if Resident(c, r, i) then c else Fault(c, r, i, cause)
  }

  /** The bytes a load returns. */
  function Loaded(c: Cache, e: Event): seq<Byte>
    requires Consistent(c) && e.Load? && Possible(c.live, e)
  {
    Bring(c, e.region, e.index, Read(e.residue)).lines[e.region].data[e.at..e.at + e.len]
  }

  /** A store that hits the local page of `r`. */
  function Hit(c: Cache, r: int, at: nat, bytes: seq<Byte>): (c': Cache)
    requires Consistent(c) && r in c.lines && at + |bytes| <= PAGE_SIZE
    ensures Consistent(c') && SameRegions(c, c')
  {
    c.(lines := c.lines[r := c.lines[r].(data := Overlay(c.lines[r].data, at, bytes))])
  }

  function Stored(c: Cache, r: int, i: nat, at: nat, bytes: seq<Byte>): (c': Cache)
    requires Consistent(c) && Possible(c.live, Store(r, i, at, bytes))
    ensures Consistent(c') && Resident(c', r, i) && SameRegions(c, c')
  {
    Hit(Bring(c, r, i, Write), r, at, bytes)
  }

  /** A region registered again gets the pages it had before: the client keeps the old
      handle of its address. */
  function Registered(c: Cache, r: int, n: nat): (c': Cache)
    requires Consistent(c) && r !in c.live
    ensures Consistent(c')
  {
    c.(live := c.live[r := n], remote := if r in c.remote then c.remote else c.remote[r := PageTable.ZeroPages(n)])
  }

  function Step(c: Cache, e: Event): (c': Cache)
    requires Consistent(c)
    ensures Consistent(c')
  {
    if !Possible(c.live, e) then c
    else
      match e
      case Load(r, i, _, _, residue) => Bring(c, r, i, Read(residue))
      case Store(r, i, at, bytes) => Stored(c, r, i, at, bytes)
      case Register(r, n) => Registered(c, r, n)
      case Unregister(r) => Evict(c, r).(live := c.live - {r})
  }

  /** Regions other than `r` are as they were. */
  ghost predicate SameElsewhere(c: Cache, d: Cache, r: int) {
    && d.live == c.live && d.remote.Keys == c.remote.Keys
    && (forall q :: q != r ==> (q in d.lines <==> q in c.lines))
    && (forall q :: q in c.lines && q != r ==> q in d.lines && d.lines[q] == c.lines[q])
    && (forall q :: q in c.remote && q != r ==> d.remote[q] == c.remote[q])
  }

  lemma FaultStaysInRegion(c: Cache, d: Cache, r: int, i: nat, cause: Cause)
    requires Consistent(d) && SameElsewhere(c, d, r) && r in d.live && i < d.live[r]
    ensures SameElsewhere(c, Fault(d, r, i, cause), r)
  {
  }

  lemma AccessStaysInRegion(c: Cache, d: Cache, e: Event)
    requires e.IsAccess() && Consistent(d) && SameElsewhere(c, d, e.region)
    ensures SameElsewhere(c, Step(d, e), e.region)
  {
    if Possible(d.live, e) {
      FaultStaysInRegion(c, d, e.region, e.index, if e.Load? then Read(e.residue) else Write);
      hide Evict, Fault, Overlay;
    }
  }

  function Run(c: Cache, es: seq<Event>): (c': Cache)
    requires Consistent(c)
    ensures Consistent(c')
  {
    if es == [] then c else Step(Run(c, es[..|es| - 1]), es[|es| - 1])
  }

  predicate Distinct(rs: seq<int>) {
    forall i, j :: 0 <= i < j < |rs| ==> rs[i] != rs[j]
  }

  /** Nothing local yet. */
  predicate Cold(c: Cache) {
    Consistent(c) && c.lines == map[]
  }

  /** The state at program start: no region at all. */
  function Blank(): (c: Cache)
    ensures Cold(c) && Whole(c) && c.remote == map[] && c.live == map[]
  {
    Cache(map[], map[], map[], ZeroPage(), 0, 0)
  }
}

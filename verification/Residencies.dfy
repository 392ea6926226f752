/**
 * The server's contents read off the trace alone, without running the handler.
 * A residency is a maximal stretch of accesses of one region to one page; the
 * kind of its first access decides what becomes of it.
 */
module Residencies {
  import opened Words
  import opened PageCache

  predicate SamePage(e: Event, d: Event) {
    e.IsAccess() && d.IsAccess() && e.index == d.index
  }

  /** Every event could happen when it came. */
  predicate AllPossible(c: Cache, es: seq<Event>)
    requires Consistent(c)
  {
    es != [] ==>
      var before := es[..|es| - 1];
      AllPossible(c, before) && Possible(Run(c, before).live, es[|es| - 1])
  }

  lemma AllPossibleMore(c: Cache, es: seq<Event>, e: Event)
    requires Consistent(c)
    ensures AllPossible(c, []) && (AllPossible(c, es + [e]) <==> AllPossible(c, es) && Possible(Run(c, es).live, e))
  {
    assert (es + [e])[..|es|] == es;
  }

  predicate StoresFit(es: seq<Event>) {
    forall k :: 0 <= k < |es| ==> es[k].Store? ==> es[k].at + |es[k].bytes| <= PAGE_SIZE
  }

  /** The last access to `r`, or -1 if there is none or the region was (un)registered since. */
  function Last(es: seq<Event>, r: int): (k: int)
    ensures -1 <= k < |es|
    ensures k >= 0 ==> es[k].region == r && es[k].IsAccess()
  {
    if es == [] then -1
    else if es[|es| - 1].region == r then (if es[|es| - 1].IsAccess() then |es| - 1 else -1)
    else Last(es[..|es| - 1], r)
  }

  /** The first access of the residency `r` is in, or -1. */
  function Start(es: seq<Event>, r: int): (k: int)
    ensures -1 <= k < |es|
    ensures k >= 0 ==> es[k].region == r && es[k].IsAccess()
    ensures k >= 0 <==> Last(es, r) >= 0
  {
    if es == [] then -1
    else
      var n := |es| - 1;
      var before, last := es[..n], Last(es[..n], r);
      if es[n].region != r then Start(before, r)
      else if !es[n].IsAccess() then -1
      else if last < 0 || !SamePage(es[last], es[n]) then n
      else Start(before, r)
  }

  /** The last event begins a residency: it is a fault. */
  predicate Opens(es: seq<Event>) {
    es != [] && Start(es, es[|es| - 1].region) == |es| - 1
  }

  /** `page` after those stores of `es` that go to region `r`. */
  function Overlays(page: Page, es: seq<Event>, r: int): Page
    requires StoresFit(es)
  {
    if es == [] then page
    else
      var e, before := es[|es| - 1], Overlays(page, es[..|es| - 1], r);
      if e.Store? && e.region == r then Overlay(before, e.at, e.bytes) else before
  }

  /** The last event ends a write-faulted residency of page `i` of region `r`: it is
      a fault on another page of the region, or unregisters it. */
  predicate Returns(es: seq<Event>, r: int, i: nat) {
    && es != [] && es[|es| - 1].region == r && (Opens(es) || es[|es| - 1].Unregister?)
    && var before := es[..|es| - 1];
       var s := Start(before, r);
       s >= 0 && before[s].Store? && before[s].index == i
  }

  /** A page of a server, zero where it has none. */
  function PageOrZero(pages: map<int, seq<Page>>, r: int, i: nat): Page {
    if r in pages && i < |pages[r]| then pages[r][i] else ZeroPage()
  }

  /** How many pages the server has for `r`: as many as the region had when its address
      was registered for the first time; -1 if it never was. */
  function PagesKept(c: Cache, es: seq<Event>, r: int): int {
    if es == [] then (if r in c.remote then |c.remote[r]| else -1)
    else
      var before, e := PagesKept(c, es[..|es| - 1], r), es[|es| - 1];
      if before < 0 && e.Register? && e.region == r then e.npages else before
  }

  /** Page `i` of region `r` on the server: what its last write-faulted residency
      left when it ended. */
  function ServerPage(c: Cache, es: seq<Event>, r: int, i: nat): Page
    requires StoresFit(es)
    decreases |es|, 0
  {
    if es == [] then PageOrZero(c.remote, r, i)
    else
      var before := es[..|es| - 1];
      if Returns(es, r, i) && i < PagesKept(c, before, r) then LocalPage(c, before, r)
      else ServerPage(c, before, r, i)
  }

  /** The copy buffer: the page last fetched by a read fault of any region, or the
      residue of the packet if the server had no such page. */
  function BufferPage(c: Cache, es: seq<Event>): Page
    requires StoresFit(es)
    decreases |es|, 1
  {
    if es == [] then c.buffer
    else
      var e := es[|es| - 1];
      if !(e.Load? && Opens(es)) then BufferPage(c, es[..|es| - 1])
      else if e.index < PagesKept(c, es, e.region) then ServerPage(c, es, e.region, e.index)
      else e.residue
  }

  /** The local page of `r`: the buffer when the residency began, under the
      residency's stores. */
  function LocalPage(c: Cache, es: seq<Event>, r: int): Page
    requires StoresFit(es) && Start(es, r) >= 0
    decreases |es|, 2
  {
    var s := Start(es, r);
    Overlays(BufferPage(c, es[..s + 1]), es[s..], r)
  }

  // ---- The handler computes exactly this ----

  ghost predicate ServerMatches(c: Cache, es: seq<Event>, d: Cache)
    requires StoresFit(es)
  {
    forall r, i: nat :: PageOrZero(d.remote, r, i) == ServerPage(c, es, r, i)
  }

  ghost predicate SizesMatch(c: Cache, es: seq<Event>, d: Cache) {
    forall r :: PagesKept(c, es, r) == if r in d.remote then |d.remote[r]| else -1
  }

  ghost predicate LineMatches(c: Cache, es: seq<Event>, d: Cache, r: int)
    requires StoresFit(es)
  {
    && (r in d.lines <==> Start(es, r) >= 0)
    && (r in d.lines ==>
          && SamePage(es[Start(es, r)], es[Last(es, r)])
          && d.lines[r] == Line(es[Start(es, r)].index, es[Start(es, r)].Store?, LocalPage(c, es, r)))
  }

  ghost predicate LinesMatch(c: Cache, es: seq<Event>, d: Cache)
    requires StoresFit(es)
  {
    forall r :: LineMatches(c, es, d, r)
  }

  ghost predicate Matches(c: Cache, es: seq<Event>, d: Cache)
    requires StoresFit(es)
  {
    ServerMatches(c, es, d) && SizesMatch(c, es, d) && LinesMatch(c, es, d) && d.buffer == BufferPage(c, es)
  }

  /** `es` is `es[..n]` and one more event, which can happen in `d`. */
  ghost predicate Extends(c: Cache, es: seq<Event>, d: Cache) {
    && es != [] && StoresFit(es) && Consistent(d)
    && Possible(d.live, es[|es| - 1])
    && Matches(c, es[..|es| - 1], d)
  }

  lemma FaultIsOpening(c: Cache, es: seq<Event>, d: Cache)
    requires Extends(c, es, d) && es[|es| - 1].IsAccess()
    ensures var e := es[|es| - 1]; Resident(d, e.region, e.index) <==> !Opens(es)
  {
    assert LineMatches(c, es[..|es| - 1], d, es[|es| - 1].region);
  }

  lemma SuffixOfPrefix(es: seq<Event>, s: nat)
    requires s < |es|
    ensures es[s..][..|es| - 1 - s] == es[..|es| - 1][s..]
  {
  }

  lemma OverlaysSuffix(page: Page, es: seq<Event>, s: nat, r: int)
    requires s < |es| - 1 && StoresFit(es)
    ensures var e, before := es[|es| - 1], Overlays(page, es[..|es| - 1][s..], r);
      Overlays(page, es[s..], r) == if e.Store? && e.region == r then Overlay(before, e.at, e.bytes) else before
  {
    hide Overlay;
    var n, rest := |es| - 1, es[s..];
    SuffixOfPrefix(es, s);
    assert rest != [] && |rest| - 1 == n - s && rest[n - s] == es[n];
  }

  lemma PrefixOfPrefix(es: seq<Event>, n: nat, m: nat)
    requires m <= n <= |es|
    ensures es[..n][..m] == es[..m]
  {
  }

  lemma LocalPageExtends(c: Cache, es: seq<Event>, r: int)
    requires StoresFit(es) && es != []
    requires 0 <= Start(es, r) == Start(es[..|es| - 1], r)
    ensures var n := |es| - 1; var e := es[n];
      LocalPage(c, es, r) ==
        if e.Store? && e.region == r then Overlay(LocalPage(c, es[..n], r), e.at, e.bytes) else LocalPage(c, es[..n], r)
  {
    var n, s := |es| - 1, Start(es, r);
    hide BufferPage, Overlays, Start, Last;
    PrefixOfPrefix(es, n, s + 1);
    OverlaysSuffix(BufferPage(c, es[..s + 1]), es, s, r);
  }

  lemma OthersStay(c: Cache, es: seq<Event>, r: int)
    requires StoresFit(es) && es != [] && es[|es| - 1].region != r
    ensures var n := |es| - 1;
      && Start(es, r) == Start(es[..n], r) && Last(es, r) == Last(es[..n], r)
      && (Start(es, r) >= 0 ==> LocalPage(c, es, r) == LocalPage(c, es[..n], r))
  {
    if Start(es, r) >= 0 { LocalPageExtends(c, es, r); }
  }

  /** An access that continues its residency. */
  lemma HitExtendsLocal(c: Cache, es: seq<Event>)
    requires StoresFit(es) && es != [] && es[|es| - 1].IsAccess() && !Opens(es)
    ensures var n, e := |es| - 1, es[|es| - 1]; var r := e.region;
      && Start(es[..n], r) >= 0 && Start(es, r) == Start(es[..n], r)
      && LocalPage(c, es, r) ==
           if e.Store? then Overlay(LocalPage(c, es[..n], r), e.at, e.bytes) else LocalPage(c, es[..n], r)
  {
    hide LocalPage;
    LocalPageExtends(c, es, es[|es| - 1].region);
  }

  /** An access that begins a residency. */
  lemma OpeningSetsLocal(c: Cache, es: seq<Event>)
    requires StoresFit(es) && Opens(es)
    ensures var e := es[|es| - 1];
      LocalPage(c, es, e.region) ==
        if e.Store? then Overlay(BufferPage(c, es), e.at, e.bytes) else BufferPage(c, es)
  {
    var n := |es| - 1;
    assert es[..n + 1] == es;
    assert es[n..] == [es[n]] && es[n..][..0] == [];
    assert Overlays(BufferPage(c, es), [], es[n].region) == BufferPage(c, es);
  }

  lemma EvictedServer(c: Cache, es: seq<Event>, d: Cache)
    requires Extends(c, es, d)
    ensures var e := es[|es| - 1];
      ServerMatches(c, es, if Opens(es) || e.Unregister? then Evict(d, e.region) else d)
  {
    var n, e := |es| - 1, es[|es| - 1];
    var d' := if Opens(es) || e.Unregister? then Evict(d, e.region) else d;
    assert LineMatches(c, es[..n], d, e.region);
    forall r, i: nat ensures PageOrZero(d'.remote, r, i) == ServerPage(c, es, r, i) {
      assert PageOrZero(d.remote, r, i) == ServerPage(c, es[..n], r, i);
    }
  }

  /** Which of the two the server's table is after a step. */
  lemma StepRemote(d: Cache, e: Event, opens: bool)
    requires Consistent(d) && Possible(d.live, e)
    requires e.IsAccess() ==> (Resident(d, e.region, e.index) <==> !opens)
    requires !e.IsAccess() ==> !opens
    ensures var d' := if opens || e.Unregister? then Evict(d, e.region) else d;
      forall r, i: nat :: PageOrZero(Step(d, e).remote, r, i) == PageOrZero(d'.remote, r, i)
  {
  }

  lemma ServerStep(c: Cache, es: seq<Event>, d: Cache)
    requires Extends(c, es, d)
    ensures ServerMatches(c, es, Step(d, es[|es| - 1]))
  {
    var e := es[|es| - 1];
    EvictedServer(c, es, d);
    if e.IsAccess() { FaultIsOpening(c, es, d); }
    StepRemote(d, e, Opens(es));
    hide Extends, Step, ServerPage, PageOrZero, Evict;
  }

  lemma SizesStep(c: Cache, es: seq<Event>, d: Cache)
    requires Extends(c, es, d)
    ensures SizesMatch(c, es, Step(d, es[|es| - 1]))
  {
    var d' := Step(d, es[|es| - 1]);
    forall r ensures PagesKept(c, es, r) == if r in d'.remote then |d'.remote[r]| else -1 {
      assert PagesKept(c, es[..|es| - 1], r) == if r in d.remote then |d.remote[r]| else -1;
    }
  }

  lemma BufferStep(c: Cache, es: seq<Event>, d: Cache)
    requires Extends(c, es, d)
    ensures Step(d, es[|es| - 1]).buffer == BufferPage(c, es)
  {
    var e := es[|es| - 1];
    if e.IsAccess() { FaultIsOpening(c, es, d); }
    EvictedServer(c, es, d);
    if Opens(es) && e.Load? {
      assert PageOrZero(Evict(d, e.region).remote, e.region, e.index) == ServerPage(c, es, e.region, e.index);
    }
  }

  lemma OwnLineStep(c: Cache, es: seq<Event>, d: Cache)
    requires Extends(c, es, d)
    ensures LineMatches(c, es, Step(d, es[|es| - 1]), es[|es| - 1].region)
  {
    var n, e := |es| - 1, es[|es| - 1];
    BufferStep(c, es, d);
    assert LineMatches(c, es[..n], d, e.region);
    if e.IsAccess() {
      FaultIsOpening(c, es, d);
      hide BufferPage, ServerPage, LocalPage, Evict, LinesMatch, ServerMatches;
      if Opens(es) { OpeningSetsLocal(c, es); } else { HitExtendsLocal(c, es); }
    }
  }

  lemma StepKeepsOtherLines(d: Cache, e: Event, r: int)
    requires Consistent(d) && e.region != r
    ensures r in Step(d, e).lines <==> r in d.lines
    ensures r in d.lines ==> Step(d, e).lines[r] == d.lines[r]
  {
  }

  lemma OtherLineStep(c: Cache, es: seq<Event>, d: Cache, r: int)
    requires StoresFit(es) && es != [] && Consistent(d)
    requires LineMatches(c, es[..|es| - 1], d, r) && es[|es| - 1].region != r
    ensures LineMatches(c, es, Step(d, es[|es| - 1]), r)
  {
    OthersStay(c, es, r);
    StepKeepsOtherLines(d, es[|es| - 1], r);
    hide BufferPage, ServerPage, LocalPage, Start, Last, Step;
  }

  lemma LinesStep(c: Cache, es: seq<Event>, d: Cache)
    requires Extends(c, es, d)
    ensures LinesMatch(c, es, Step(d, es[|es| - 1]))
  {
    var n, d' := |es| - 1, Step(d, es[|es| - 1]);
    OwnLineStep(c, es, d);
    forall r | r != es[n].region ensures LineMatches(c, es, d', r) {
      assert LineMatches(c, es[..n], d, r);
      OtherLineStep(c, es, d, r);
    }
    hide LineMatches, Step;
  }

  lemma {:induction false} PossibleStoresFit(c: Cache, es: seq<Event>)
    requires Consistent(c) && AllPossible(c, es)
    ensures StoresFit(es)
  {
    hide Run;
    if es != [] {
      PossibleStoresFit(c, es[..|es| - 1]);
      assert forall k :: 0 <= k < |es| - 1 ==> es[..|es| - 1][k] == es[k];
    }
  }

  /** After any run over any number of regions: the server, the buffer and the local
      pages are what the trace alone determines. */
  lemma {:induction false} RunMatchesTrace(c: Cache, es: seq<Event>)
    requires Cold(c) && AllPossible(c, es)
    ensures StoresFit(es) && Matches(c, es, Run(c, es))
  {
    PossibleStoresFit(c, es);
    if es != [] {
      var n := |es| - 1;
      RunMatchesTrace(c, es[..n]);
      var d := Run(c, es[..n]);
      assert Extends(c, es, d);
      hide Extends, LinesMatch, ServerMatches, SizesMatch, Step, BufferPage;
      ServerStep(c, es, d);
      SizesStep(c, es, d);
      BufferStep(c, es, d);
      LinesStep(c, es, d);
    }
  }

  lemma RunIsServerPage(c: Cache, es: seq<Event>, r: int, i: nat)
    requires Cold(c) && AllPossible(c, es)
    ensures StoresFit(es) && PageOrZero(Run(c, es).remote, r, i) == ServerPage(c, es, r, i)
  {
    RunMatchesTrace(c, es);
    hide LinesMatch, SizesMatch, Run, ServerPage, BufferPage, PageOrZero;
  }

  /** In closed form: if the `m`-th event is the last one to end a write-faulted
      residency of page `i` of `r`, a page the server has, then the server holds what was
      local just before it.  Read-faulted residencies leave no trace. */
  lemma ServerHoldsLastWriteResidency(c: Cache, es: seq<Event>, r: int, i: nat, m: nat)
    requires Cold(c) && AllPossible(c, es)
    requires 0 < m <= |es| && Returns(es[..m], r, i) && i < PagesKept(c, es[..m - 1], r)
    requires forall j :: m < j <= |es| ==> !Returns(es[..j], r, i)
    ensures StoresFit(es[..m - 1]) && Start(es[..m - 1], r) >= 0
    ensures PageOrZero(Run(c, es).remote, r, i) == LocalPage(c, es[..m - 1], r)
  {
    RunIsServerPage(c, es, r, i);
    LastReturn(c, es, r, i, m);
  }

  lemma ServerPageUnfolds(c: Cache, es: seq<Event>, r: int, i: nat)
    requires StoresFit(es) && es != []
    ensures var before := es[..|es| - 1];
      && (Returns(es, r, i) && i < PagesKept(c, before, r) ==> Start(before, r) >= 0 && ServerPage(c, es, r, i) == LocalPage(c, before, r))
      && (!Returns(es, r, i) ==> ServerPage(c, es, r, i) == ServerPage(c, before, r, i))
  {
    hide LocalPage, BufferPage, PagesKept, Start, Last;
  }

  lemma {:induction false} LastReturn(c: Cache, es: seq<Event>, r: int, i: nat, m: nat)
    requires StoresFit(es)
    requires 0 < m <= |es| && Returns(es[..m], r, i) && i < PagesKept(c, es[..m - 1], r)
    requires forall j :: m < j <= |es| ==> !Returns(es[..j], r, i)
    ensures Start(es[..m - 1], r) >= 0 && ServerPage(c, es, r, i) == LocalPage(c, es[..m - 1], r)
  {
    hide LocalPage, BufferPage, PagesKept, ServerPage, Returns, Start, Last;
    var n := |es| - 1;
    assert es[..m][..m - 1] == es[..m - 1];
    assert es[..n + 1] == es;
    ServerPageUnfolds(c, es, r, i);
    if m <= n {
      assert forall j :: 0 <= j <= n ==> es[..n][..j] == es[..j];
      LastReturn(c, es[..n], r, i, m);
    }
  }

  /** And if no write-faulted residency of the page has ended, the server still holds
      the page it started with, or zeros if the region is new. */
  lemma ServerUntouchedOtherwise(c: Cache, es: seq<Event>, r: int, i: nat)
    requires Cold(c) && AllPossible(c, es)
    requires forall j :: 0 < j <= |es| ==> !Returns(es[..j], r, i)
    ensures PageOrZero(Run(c, es).remote, r, i) == PageOrZero(c.remote, r, i)
  {
    RunIsServerPage(c, es, r, i);
    NoReturn(c, es, r, i);
  }

  lemma {:induction false} NoReturn(c: Cache, es: seq<Event>, r: int, i: nat)
    requires StoresFit(es) && forall j :: 0 < j <= |es| ==> !Returns(es[..j], r, i)
    ensures ServerPage(c, es, r, i) == PageOrZero(c.remote, r, i)
  {
    hide Returns, PageOrZero;
    if es != [] {
      var n := |es| - 1;
      assert forall j :: 0 <= j <= n ==> es[..n][..j] == es[..j];
      assert es[..n + 1] == es;
      NoReturn(c, es[..n], r, i);
    }
  }
}

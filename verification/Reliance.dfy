/**
 * Which bytes can be relied on, read off the trace alone: neither more nor fewer than
 * the validity computed beside the run says.
 */
module Reliance {
  import opened Words
  import opened PageCache
  import opened FlatMemory
  import opened Residencies

  /** From the `s`-th event on, some store to `r` covers byte `b`. */
  predicate StoredSince(es: seq<Event>, s: int, r: int, b: int) {
    exists k :: 0 <= s <= k < |es| && StoresByte(es[k], r, b)
  }

  predicate StoresByte(e: Event, r: int, b: int) {
    e.Store? && e.region == r && Covers(b, e.at, |e.bytes|)
  }

  /** The last event stores byte `b` into page `i` of `r` where a read brought it in: the
      server's copy of the byte is out of date from then on. */
  predicate Spoils(es: seq<Event>, r: int, i: nat, b: int) {
    && es != [] && StoresByte(es[|es| - 1], r, b) && es[|es| - 1].index == i
    && Start(es, r) >= 0 && es[Start(es, r)].Load?
  }

  /** Byte `b` of the server's page `i` of `r` is current: the last of these to happen
      made it so.  A write-faulted residency of the page ended and had stored the byte;
      the region was registered and the server's byte was zero; or nothing happened. */
  predicate ServerReliable(c: Cache, es: seq<Event>, r: int, i: nat, b: nat)
    requires StoresFit(es) && b < PAGE_SIZE
  {
    if es == [] then true
    else
      var before, e := es[..|es| - 1], es[|es| - 1];
      if Returns(es, r, i) then StoredSince(before, Start(before, r), r, b)
      else if e.Register? && e.region == r then ServerPage(c, es, r, i)[b] == 0
      else !Spoils(es, r, i, b) && ServerReliable(c, before, r, i, b)
  }

  /** Byte `b` of the local page of `r` is current: the residency stored it, or fetched
      it while it was current on the server. */
  predicate LocalReliable(c: Cache, es: seq<Event>, r: int, b: nat)
    requires StoresFit(es) && Start(es, r) >= 0 && b < PAGE_SIZE
  {
    var s := Start(es, r);
    || StoredSince(es, s, r, b)
    || (es[s].Load? && es[s].index < PagesKept(c, es[..s + 1], r) && ServerReliable(c, es[..s + 1], r, es[s].index, b))
  }

  // ---- The validity computed beside the run is exactly this ----

  ghost predicate ServerValidity(c: Cache, es: seq<Event>, d: Cache, v: Validity)
    requires StoresFit(es) && Fits(d, v)
  {
    forall r, i: nat, b: nat :: r in d.remote && i < |d.remote[r]| && b < PAGE_SIZE ==>
      (b in v.remote[r][i] <==> ServerReliable(c, es, r, i, b))
  }

  ghost predicate LineValidity(c: Cache, es: seq<Event>, d: Cache, v: Validity, r: int)
    requires StoresFit(es) && Fits(d, v)
  {
    r in d.lines ==> Start(es, r) >= 0 && forall b: nat :: b < PAGE_SIZE ==> (b in v.lines[r] <==> LocalReliable(c, es, r, b))
  }

  ghost predicate LocalValidity(c: Cache, es: seq<Event>, d: Cache, v: Validity)
    requires StoresFit(es) && Fits(d, v)
  {
    forall r :: LineValidity(c, es, d, v, r)
  }

  /** `es` is one event more than the run that led to `d` and `v`. */
  ghost predicate Grows(c: Cache, es: seq<Event>, d: Cache, v: Validity) {
    && Extends(c, es, d) && Fits(d, v)
    && ServerValidity(c, es[..|es| - 1], d, v) && LocalValidity(c, es[..|es| - 1], d, v)
  }

  lemma StoredSinceMore(es: seq<Event>, s: nat, r: int, b: int)
    requires es != []
    ensures StoredSince(es, s, r, b) <==>
      StoredSince(es[..|es| - 1], s, r, b) || (s < |es| && StoresByte(es[|es| - 1], r, b))
  {
    var before := es[..|es| - 1];
    if k :| 0 <= s <= k < |before| && StoresByte(before[k], r, b) {
      assert StoresByte(es[k], r, b);
    }
    if k :| 0 <= s <= k < |es| && StoresByte(es[k], r, b) {
      assert k < |before| ==> StoresByte(before[k], r, b);
    }
  }

  /** While a residency lasts, one more event adds what it stores. */
  lemma LastingReliable(c: Cache, es: seq<Event>, r: int, b: nat)
    requires StoresFit(es) && es != [] && b < PAGE_SIZE && 0 <= Start(es, r) == Start(es[..|es| - 1], r)
    ensures LocalReliable(c, es, r, b) <==> LocalReliable(c, es[..|es| - 1], r, b) || StoresByte(es[|es| - 1], r, b)
  {
    var n, s := |es| - 1, Start(es, r);
    hide ServerReliable, PagesKept, StoredSince, StoresByte, Start, Last;
    StoredSinceMore(es, s, r, b);
    PrefixOfPrefix(es, n, s + 1);
    assert es[..n][s] == es[s];
  }

  /** What is said of another region's line does not change. */
  lemma OtherLineReliable(c: Cache, es: seq<Event>, r: int, b: nat)
    requires StoresFit(es) && es != [] && es[|es| - 1].region != r && b < PAGE_SIZE && Start(es, r) >= 0
    ensures Start(es[..|es| - 1], r) == Start(es, r)
    ensures LocalReliable(c, es, r, b) <==> LocalReliable(c, es[..|es| - 1], r, b)
  {
    OthersStay(c, es, r);
    hide LocalReliable, Start, Last, LocalPage;
    LastingReliable(c, es, r, b);
  }

  /** An access that continues its residency adds what it stores. */
  lemma HitReliable(c: Cache, es: seq<Event>, b: nat)
    requires StoresFit(es) && es != [] && es[|es| - 1].IsAccess() && !Opens(es) && b < PAGE_SIZE
    ensures var e, before := es[|es| - 1], es[..|es| - 1];
      && Start(es, e.region) == Start(before, e.region) >= 0
      && (LocalReliable(c, es, e.region, b) <==> LocalReliable(c, before, e.region, b) || StoresByte(e, e.region, b))
  {
    HitExtendsLocal(c, es);
    hide LocalReliable, Start, Last, LocalPage, Opens, StoresByte;
    LastingReliable(c, es, es[|es| - 1].region, b);
  }

  /** One that begins it starts from what was fetched. */
  lemma OpeningReliable(c: Cache, es: seq<Event>, b: nat)
    requires StoresFit(es) && Opens(es) && es[|es| - 1].IsAccess() && b < PAGE_SIZE
    ensures var e := es[|es| - 1];
      LocalReliable(c, es, e.region, b) <==>
        || StoresByte(e, e.region, b)
        || (e.Load? && e.index < PagesKept(c, es, e.region) && ServerReliable(c, es, e.region, e.index, b))
  {
    var n := |es| - 1;
    assert es[..n + 1] == es;
    StoredSinceMore(es, n, es[n].region, b);
    hide ServerReliable, PagesKept;
    assert !StoredSince(es[..n], n, es[n].region, b);
  }

  // ---- One step ----

  lemma EvictedValidity(c: Cache, es: seq<Event>, d: Cache, v: Validity, r: int, i: nat, b: nat)
    requires Grows(c, es, d, v) && r in d.remote && i < |d.remote[r]| && b < PAGE_SIZE
    ensures var e := es[|es| - 1];
      var v' := if Opens(es) || e.Unregister? then EvictValid(d, v, e.region) else v;
      b in v'.remote[r][i] <==>
        if Returns(es, r, i) then StoredSince(es[..|es| - 1], Start(es[..|es| - 1], r), r, b)
        else ServerReliable(c, es[..|es| - 1], r, i, b)
  {
    var n, e := |es| - 1, es[|es| - 1];
    assert LineMatches(c, es[..n], d, e.region) && LineValidity(c, es[..n], d, v, e.region);
    assert b in v.remote[r][i] <==> ServerReliable(c, es[..n], r, i, b);
    hide ServerReliable, LocalPage, StoredSince;
    if Returns(es, r, i) {
      assert LocalReliable(c, es[..n], r, b) <==> StoredSince(es[..n], Start(es[..n], r), r, b);
    }
  }

  /** Of an opening access, or an unregistering. */
  lemma FaultServerReliable(c: Cache, es: seq<Event>, r: int, i: nat, b: nat)
    requires StoresFit(es) && es != [] && b < PAGE_SIZE && (Opens(es) || es[|es| - 1].Unregister?)
    ensures ServerReliable(c, es, r, i, b) <==>
      if Returns(es, r, i) then StoredSince(es[..|es| - 1], Start(es[..|es| - 1], r), r, b)
      else ServerReliable(c, es[..|es| - 1], r, i, b)
  {
    var n := |es| - 1;
    assert Opens(es) ==> es[n].IsAccess();
    assert !Spoils(es, r, i, b);
    hide StoredSince;
  }

  /** A fault or an unregistering makes of the server's validity what its eviction does. */
  lemma StepEvicts(d: Cache, v: Validity, e: Event)
    requires Consistent(d) && Fits(d, v) && Possible(d.live, e) && !e.Register?
    requires e.IsAccess() ==> !Resident(d, e.region, e.index)
    ensures ValidStep(d, v, e).remote == EvictValid(d, v, e.region).remote
    ensures forall r :: r in Step(d, e).remote <==> r in d.remote
    ensures forall r :: r in d.remote ==> |Step(d, e).remote[r]| == |d.remote[r]|
  {
  }

  lemma FaultServerStep(c: Cache, es: seq<Event>, d: Cache, v: Validity)
    requires Grows(c, es, d, v) && (Opens(es) || es[|es| - 1].Unregister?)
    ensures ServerValidity(c, es, Step(d, es[|es| - 1]), ValidStep(d, v, es[|es| - 1]))
  {
    var n, e := |es| - 1, es[|es| - 1];
    var d', v' := Step(d, e), ValidStep(d, v, e);
    if e.IsAccess() { FaultIsOpening(c, es, d); }
    StepEvicts(d, v, e);
    forall r, i: nat, b: nat | r in d'.remote && i < |d'.remote[r]| && b < PAGE_SIZE
      ensures b in v'.remote[r][i] <==> ServerReliable(c, es, r, i, b)
    {
      hide Grows, ServerReliable, Step, ValidStep, EvictValid, Extends, Returns, StoredSince;
      EvictedValidity(c, es, d, v, r, i, b);
      FaultServerReliable(c, es, r, i, b);
    }
  }

  lemma RegisterServerStep(c: Cache, es: seq<Event>, d: Cache, v: Validity)
    requires Grows(c, es, d, v) && es[|es| - 1].Register?
    ensures ServerValidity(c, es, Step(d, es[|es| - 1]), ValidStep(d, v, es[|es| - 1]))
  {
    var n, e := |es| - 1, es[|es| - 1];
    var d', v' := Step(d, e), ValidStep(d, v, e);
    ServerStep(c, es, d);
    forall r, i: nat, b: nat | r in d'.remote && i < |d'.remote[r]| && b < PAGE_SIZE
      ensures b in v'.remote[r][i] <==> ServerReliable(c, es, r, i, b)
    {
      assert PageOrZero(d'.remote, r, i) == ServerPage(c, es, r, i);
      assert r != e.region ==> (b in v.remote[r][i] <==> ServerReliable(c, es[..n], r, i, b));
      assert !Returns(es, r, i) && !Spoils(es, r, i, b);
      hide ServerPage;
    }
  }

  lemma HitServerStep(c: Cache, es: seq<Event>, d: Cache, v: Validity)
    requires Grows(c, es, d, v) && es[|es| - 1].IsAccess() && !Opens(es)
    ensures ServerValidity(c, es, Step(d, es[|es| - 1]), ValidStep(d, v, es[|es| - 1]))
  {
    var n, e := |es| - 1, es[|es| - 1];
    var d', v' := Step(d, e), ValidStep(d, v, e);
    FaultIsOpening(c, es, d);
    HitExtendsLocal(c, es);
    assert LineMatches(c, es[..n], d, e.region);
    forall r, i: nat, b: nat | r in d'.remote && i < |d'.remote[r]| && b < PAGE_SIZE
      ensures b in v'.remote[r][i] <==> ServerReliable(c, es, r, i, b)
    {
      HitServerByte(c, es, d, v, r, i, b);
    }
  }

  lemma HitServerByte(c: Cache, es: seq<Event>, d: Cache, v: Validity, r: int, i: nat, b: nat)
    requires Grows(c, es, d, v) && es[|es| - 1].IsAccess() && !Opens(es)
    requires Resident(d, es[|es| - 1].region, es[|es| - 1].index)
    requires r in d.remote && i < |d.remote[r]| && b < PAGE_SIZE
    ensures var v' := ValidStep(d, v, es[|es| - 1]);
      && r in v'.remote && i < |v'.remote[r]|
      && (b in v'.remote[r][i] <==> ServerReliable(c, es, r, i, b))
  {
    var n, e := |es| - 1, es[|es| - 1];
    HitExtendsLocal(c, es);
    assert LineMatches(c, es[..n], d, e.region);
    assert b in v.remote[r][i] <==> ServerReliable(c, es[..n], r, i, b);
    assert !Returns(es, r, i);
    hide LocalPage, StoredSince, Evict, Fault;
    assert Spoils(es, r, i, b) <==> StoresByte(e, r, b) && e.index == i && es[Start(es, r)].Load?;
  }

  lemma ServerValidityStep(c: Cache, es: seq<Event>, d: Cache, v: Validity)
    requires Grows(c, es, d, v)
    ensures ServerValidity(c, es, Step(d, es[|es| - 1]), ValidStep(d, v, es[|es| - 1]))
  {
    var e := es[|es| - 1];
    if Opens(es) || e.Unregister? {
      FaultServerStep(c, es, d, v);
    } else if e.Register? {
      RegisterServerStep(c, es, d, v);
    } else {
      HitServerStep(c, es, d, v);
    }
    hide *;
  }

  lemma OpeningLineStep(c: Cache, es: seq<Event>, d: Cache, v: Validity)
    requires Grows(c, es, d, v) && Opens(es)
    ensures LineValidity(c, es, Step(d, es[|es| - 1]), ValidStep(d, v, es[|es| - 1]), es[|es| - 1].region)
  {
    var n, e := |es| - 1, es[|es| - 1];
    var r, d', v' := e.region, Step(d, e), ValidStep(d, v, e);
    assert e.IsAccess();
    FaultIsOpening(c, es, d);
    SizesStep(c, es, d);
    FaultServerStep(c, es, d, v);
    OpeningLine(d, v, e);
    assert PagesKept(c, es, r) == if r in d'.remote then |d'.remote[r]| else -1;
    hide Grows, Extends, ValidStep, Step, PagesKept, SizesMatch;
    forall b: nat | b < PAGE_SIZE ensures b in v'.lines[r] <==> LocalReliable(c, es, r, b) {
      OpeningReliable(c, es, b);
      hide LocalReliable, ServerReliable;
    }
  }

  lemma OpeningLine(d: Cache, v: Validity, e: Event)
    requires Consistent(d) && Fits(d, v) && Possible(d.live, e) && e.IsAccess() && !Resident(d, e.region, e.index)
    ensures var d', v', r := Step(d, e), ValidStep(d, v, e), e.region;
      && r in d'.lines && r in d'.remote
      && forall b: nat :: b < PAGE_SIZE ==>
           (b in v'.lines[r] <==> StoresByte(e, r, b) || (e.Load? && e.index < |d'.remote[r]| && b in v'.remote[r][e.index]))
  {
    var d', r := Step(d, e), e.region;
    assert |Evict(d, r).remote[r]| == |d.remote[r]| == |d'.remote[r]|;
  }

  lemma HitLineStep(c: Cache, es: seq<Event>, d: Cache, v: Validity)
    requires Grows(c, es, d, v) && es[|es| - 1].IsAccess() && !Opens(es)
    ensures LineValidity(c, es, Step(d, es[|es| - 1]), ValidStep(d, v, es[|es| - 1]), es[|es| - 1].region)
  {
    var n, e := |es| - 1, es[|es| - 1];
    var r, d', v' := e.region, Step(d, e), ValidStep(d, v, e);
    FaultIsOpening(c, es, d);
    assert LineValidity(c, es[..n], d, v, r);
    HitLine(d, v, e);
    hide Grows, Extends, ValidStep, Step;
    forall b: nat | b < PAGE_SIZE ensures Start(es, r) >= 0 && (b in v'.lines[r] <==> LocalReliable(c, es, r, b)) {
      HitReliable(c, es, b);
      hide LocalReliable;
    }
  }

  lemma HitLine(d: Cache, v: Validity, e: Event)
    requires Consistent(d) && Fits(d, v) && Possible(d.live, e) && e.IsAccess() && Resident(d, e.region, e.index)
    ensures forall b: nat :: b < PAGE_SIZE ==>
      (b in ValidStep(d, v, e).lines[e.region] <==> b in v.lines[e.region] || StoresByte(e, e.region, b))
  {
  }

  lemma OtherLineValidity(c: Cache, es: seq<Event>, d: Cache, v: Validity, r: int)
    requires Grows(c, es, d, v) && r != es[|es| - 1].region
    ensures LineValidity(c, es, Step(d, es[|es| - 1]), ValidStep(d, v, es[|es| - 1]), r)
  {
    var n, e := |es| - 1, es[|es| - 1];
    assert LineValidity(c, es[..n], d, v, r);
    LineElsewhere(d, v, e, r);
    OthersStay(c, es, r);
    hide Grows, Extends, ValidStep, Step, LocalPage;
    if r in d.lines {
      forall b: nat | b < PAGE_SIZE ensures LocalReliable(c, es, r, b) <==> LocalReliable(c, es[..n], r, b) {
        OtherLineReliable(c, es, r, b);
      }
      hide LocalReliable;
    }
  }

  lemma LineElsewhere(d: Cache, v: Validity, e: Event, r: int)
    requires Consistent(d) && Fits(d, v) && r != e.region
    ensures r in Step(d, e).lines <==> r in d.lines
    ensures r in d.lines ==> ValidStep(d, v, e).lines[r] == v.lines[r]
  {
    StepKeepsOtherLines(d, e, r);
    hide Step;
  }

  lemma LocalValidityStep(c: Cache, es: seq<Event>, d: Cache, v: Validity)
    requires Grows(c, es, d, v)
    ensures LocalValidity(c, es, Step(d, es[|es| - 1]), ValidStep(d, v, es[|es| - 1]))
  {
    var e := es[|es| - 1];
    var d', v' := Step(d, e), ValidStep(d, v, e);
    if Opens(es) {
      OpeningLineStep(c, es, d, v);
    } else if e.IsAccess() {
      HitLineStep(c, es, d, v);
    } else {
      NoLineLeft(d, e);
      hide Evict;
    }
    hide Grows, Step, ValidStep;
    forall r | r != e.region ensures LineValidity(c, es, d', v', r) {
      OtherLineValidity(c, es, d, v, r);
    }
    hide LineValidity;
  }

  lemma NoLineLeft(d: Cache, e: Event)
    requires Consistent(d) && Possible(d.live, e) && !e.IsAccess()
    ensures e.region !in Step(d, e).lines
  {
  }

  /** In every run from nothing local a byte is marked valid exactly if the trace says it
      can be relied on, on the server and locally. */
  lemma {:induction false} ValidityMatchesTrace(c: Cache, es: seq<Event>)
    requires Cold(c) && AllPossible(c, es)
    ensures StoresFit(es)
    ensures var d, v := Run(c, es), ValidRun(c, AllValid(c.remote), es);
      ServerValidity(c, es, d, v) && LocalValidity(c, es, d, v)
  {
    PossibleStoresFit(c, es);
    if es == [] {
      AllStartValid(c);
    } else {
      var n, v0 := |es| - 1, AllValid(c.remote);
      ValidityMatchesTrace(c, es[..n]);
      RunMatchesTrace(c, es[..n]);
      var d, v := Run(c, es[..n]), ValidRun(c, v0, es[..n]);
      assert Grows(c, es, d, v);
      hide Grows, ServerValidity, LocalValidity, Step, ValidStep;
      ServerValidityStep(c, es, d, v);
      LocalValidityStep(c, es, d, v);
    }
  }

  lemma AllStartValid(c: Cache)
    requires Cold(c)
    ensures ServerValidity(c, [], c, AllValid(c.remote)) && LocalValidity(c, [], c, AllValid(c.remote))
  {
    forall b: nat | b < PAGE_SIZE ensures b in AllBytes() { assert Covers(b, 0, PAGE_SIZE); }
  }

  // ---- In closed form ----

  /** Since the `m`-th event nothing has taken byte `b` of the server's page from it. */
  predicate Unspoilt(c: Cache, es: seq<Event>, r: int, i: nat, b: nat, m: nat)
    requires StoresFit(es) && b < PAGE_SIZE
  {
    forall j :: m < j <= |es| ==>
      && !Returns(es[..j], r, i) && !Spoils(es[..j], r, i, b)
      && (es[j - 1].Register? && es[j - 1].region == r ==> ServerPage(c, es[..j], r, i)[b] == 0)
  }

  lemma {:induction false} UnspoiltStays(c: Cache, es: seq<Event>, r: int, i: nat, b: nat, m: nat)
    requires StoresFit(es) && b < PAGE_SIZE && m <= |es| && Unspoilt(c, es, r, i, b, m)
    requires ServerReliable(c, es[..m], r, i, b)
    ensures ServerReliable(c, es, r, i, b)
  {
    assert es[..|es|] == es;
    if m < |es| {
      var n := |es| - 1;
      assert forall j :: 0 <= j <= n ==> es[..n][..j] == es[..j];
      hide ServerPage, Returns, Spoils;
      UnspoiltStays(c, es[..n], r, i, b, m);
    }
  }

  /** A byte of a page the server has that its last ended write-faulted residency stored
      (the one the `m`-th event ended), or, with m = 0, that no such residency ended for,
      and that no later read-faulted residency stored: a load may rely on it as long as
      the page is not local. */
  lemma ReliableOnServer(c: Cache, es: seq<Event>, r: int, i: nat, b: nat, m: nat)
    requires Cold(c) && AllPossible(c, es) && b < PAGE_SIZE && m <= |es|
    requires PageCache.Kept(Run(c, es), r, i) && !Resident(Run(c, es), r, i)
    requires StoresFit(es) && forall j :: m < j <= |es| ==>
      && !Returns(es[..j], r, i) && !Spoils(es[..j], r, i, b)
      && (es[j - 1].Register? && es[j - 1].region == r ==> ServerPage(c, es[..j], r, i)[b] == 0)
    requires m > 0 ==> Returns(es[..m], r, i) && StoredSince(es[..m - 1], Start(es[..m - 1], r), r, b)
    ensures b in ValidBytes(Run(c, es), ValidRun(c, AllValid(c.remote), es), r, i)
  {
    assert Unspoilt(c, es, r, i, b, m);
    ValidityMatchesTrace(c, es);
    assert m > 0 ==> es[..m][..m - 1] == es[..m - 1];
    assert ServerReliable(c, es[..m], r, i, b);
    hide ServerReliable, Unspoilt, LocalValidity, StoredSince, Returns, Run, ValidRun;
    UnspoiltStays(c, es, r, i, b, m);
  }

  /** And of a local page on every byte its residency stored, and, if a read brought it
      in, on those that could be relied on then. */
  lemma ReliableLocally(c: Cache, es: seq<Event>, r: int, b: nat)
    requires Cold(c) && AllPossible(c, es) && b < PAGE_SIZE && r in Run(c, es).lines
    ensures StoresFit(es) && Start(es, r) >= 0
    ensures var s, d := Start(es, r), Run(c, es);
      b in ValidBytes(d, ValidRun(c, AllValid(c.remote), es), r, d.lines[r].index) <==>
        || StoredSince(es, s, r, b)
        || (es[s].Load? && es[s].index < PagesKept(c, es[..s + 1], r) && ServerReliable(c, es[..s + 1], r, es[s].index, b))
  {
    hide ServerReliable, StoredSince, Run, ValidRun, PagesKept, ServerValidity, Start, Last, AllPossible;
    ValidityMatchesTrace(c, es);
    assert LineValidity(c, es, Run(c, es), ValidRun(c, AllValid(c.remote), es), r);
    hide LocalValidity;
  }
}

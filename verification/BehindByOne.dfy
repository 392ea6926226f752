/** How far the server lags behind what the program last had in its hands. */
module BehindByOne {
  import opened Words
  import opened PageCache
  import PageTable

  /** The contents each page had when it was last local. */
  function LatestStep(c: Cache, latest: map<int, seq<Page>>, e: Event): map<int, seq<Page>>
    requires Consistent(c) && Shaped(c, latest)
  {
    if !Possible(c.live, e) then latest
    else
      match e
      case Load(r, i, _, _, _) => SetPage(latest, r, i, Step(c, e).lines[r].data)
      case Store(r, i, _, _) => SetPage(latest, r, i, Step(c, e).lines[r].data)
      case Register(r, n) => if r in c.remote then latest else latest[r := PageTable.ZeroPages(n)]
      case Unregister(_) => latest
  }

  predicate Shaped(c: Cache, latest: map<int, seq<Page>>) {
    latest.Keys == c.remote.Keys && forall r :: r in c.remote ==> |latest[r]| == |c.remote[r]|
  }

  lemma StepKeepsShape(c: Cache, latest: map<int, seq<Page>>, e: Event)
    requires Consistent(c) && Shaped(c, latest)
    ensures Shaped(Step(c, e), LatestStep(c, latest, e))
  {
  }

  function Latest(c: Cache, es: seq<Event>): (latest: map<int, seq<Page>>)
    requires Consistent(c)
    ensures Shaped(Run(c, es), latest)
  {
    if es == [] then c.remote
    else
      var before := es[..|es| - 1];
      StepKeepsShape(Run(c, before), Latest(c, before), es[|es| - 1]);
      LatestStep(Run(c, before), Latest(c, before), es[|es| - 1])
  }

  /** Besides a page that is local after the event, only a region new to the server changes. */
  lemma LatestElsewhere(c: Cache, latest: map<int, seq<Page>>, e: Event, r: int, i: nat)
    requires Consistent(c) && Shaped(c, latest) && Kept(c, r, i) && !Resident(Step(c, e), r, i)
    ensures var latest' := LatestStep(c, latest, e);
      r in latest' && i < |latest'[r]| && latest'[r][i] == latest[r][i]
  {
  }

  /** A region new to the server starts as zeros. */
  lemma LatestOfNew(c: Cache, latest: map<int, seq<Page>>, r: int, n: nat)
    requires Consistent(c) && Shaped(c, latest) && r !in c.remote && 0 < n
    ensures LatestStep(c, latest, Register(r, n)) == latest[r := seq(n, _ => ZeroPage())]
  {
  }

  /** The server has every page, and is out of date on at most one page per region: the
      one the previous fault of that region brought in, by a write. */
  predicate Behind(c: Cache, latest: map<int, seq<Page>>)
    requires Consistent(c) && Shaped(c, latest)
  {
    && Whole(c)
    && forall r, i :: r in c.remote && 0 <= i < |c.remote[r]| && c.remote[r][i] != latest[r][i] ==>
      Resident(c, r, i) && c.lines[r].dirty
  }

  predicate Tracks(c: Cache, latest: map<int, seq<Page>>)
    requires Consistent(c) && Shaped(c, latest)
  {
    forall r :: r in c.lines && Kept(c, r, c.lines[r].index) ==> latest[r][c.lines[r].index] == c.lines[r].data
  }

  /** A store that changes a page brought in by a read. */
  predicate ChangesReadPage(c: Cache, e: Event)
    requires Consistent(c)
  {
    && Possible(c.live, e)
    && e.Store?
    && Resident(c, e.region, e.index)
    && !c.lines[e.region].dirty
    && Overlay(c.lines[e.region].data, e.at, e.bytes) != c.lines[e.region].data
  }

  /** A region registered again with more pages than the server keeps for its address. */
  predicate Outgrows(c: Cache, e: Event) {
    Possible(c.live, e) && e.Register? && e.region in c.remote && |c.remote[e.region]| < e.npages
  }

  lemma EvictCatchesUp(c: Cache, latest: map<int, seq<Page>>, r: int)
    requires Consistent(c) && Shaped(c, latest) && Tracks(c, latest) && Behind(c, latest)
    ensures Behind(Evict(c, r), latest) && Tracks(Evict(c, r), latest)
  {
    if r in c.lines {
      var c' := Evict(c, r);
      forall q, i | q in c'.remote && 0 <= i < |c'.remote[q]| && c'.remote[q][i] != latest[q][i]
        ensures Resident(c', q, i) && c'.lines[q].dirty
      {
        assert c.remote[q][i] != latest[q][i];
      }
    }
  }

  lemma FaultStaysBehind(c: Cache, latest: map<int, seq<Page>>, r: int, i: nat, cause: Cause, data: Page)
    requires Consistent(c) && Shaped(c, latest) && Tracks(c, latest) && Behind(c, latest)
    requires r in c.live && i < c.live[r] && !Resident(c, r, i)
    requires cause.Read? ==> data == c.remote[r][i]
    ensures var c', latest' := Fault(c, r, i, cause), SetPage(latest, r, i, data);
      && Behind(c', latest')
  {
    EvictCatchesUp(c, latest, r);
    var d, c', latest' := Evict(c, r), Fault(c, r, i, cause), SetPage(latest, r, i, data);
    forall q, j | q in c'.remote && 0 <= j < |c'.remote[q]| && c'.remote[q][j] != latest'[q][j]
      ensures Resident(c', q, j) && c'.lines[q].dirty
    {
      if q == r && j == i {
        assert cause.Write?;
      } else {
        assert d.remote[q][j] != latest[q][j];
      }
    }
  }

  lemma LoadStaysBehind(c: Cache, latest: map<int, seq<Page>>, e: Event)
    requires Consistent(c) && Shaped(c, latest) && Tracks(c, latest) && Behind(c, latest)
    requires e.Load? && Possible(c.live, e) && !Resident(c, e.region, e.index)
    ensures Shaped(Step(c, e), LatestStep(c, latest, e)) && Behind(Step(c, e), LatestStep(c, latest, e))
  {
    var r, i := e.region, e.index;
    FaultStaysBehind(c, latest, r, i, Read(e.residue), c.remote[r][i]);
    assert Evict(c, r).remote[r][i] == c.remote[r][i];
  }

  lemma HitStaysBehind(c: Cache, latest: map<int, seq<Page>>, e: Event)
    requires Consistent(c) && Shaped(c, latest) && Tracks(c, latest) && Behind(c, latest)
    requires e.Store? && Possible(c.live, e) && Resident(c, e.region, e.index)
    ensures Shaped(Step(c, e), LatestStep(c, latest, e))
    ensures Behind(Step(c, e), LatestStep(c, latest, e)) <==> !ChangesReadPage(c, e)
  {
    var r, i, c', latest' := e.region, e.index, Step(c, e), LatestStep(c, latest, e);
    assert c'.remote == c.remote && c'.lines[r].dirty == c.lines[r].dirty;
    if ChangesReadPage(c, e) {
      assert c.remote[r][i] == latest[r][i] == c.lines[r].data;
      assert c'.remote[r][i] != latest'[r][i];
    } else {
      assert !c.lines[r].dirty ==> latest'[r][i] == latest[r][i];
      forall q, j | q in c'.remote && 0 <= j < |c'.remote[q]| && c'.remote[q][j] != latest'[q][j]
        ensures Resident(c', q, j) && c'.lines[q].dirty
      {
        assert (q == r && j == i && c.lines[r].dirty) || c.remote[q][j] != latest[q][j];
      }
    }
  }

  lemma StepKeepsTrack(c: Cache, latest: map<int, seq<Page>>, e: Event)
    requires Consistent(c) && Shaped(c, latest) && Tracks(c, latest)
    ensures Shaped(Step(c, e), LatestStep(c, latest, e)) && Tracks(Step(c, e), LatestStep(c, latest, e))
  {
    StepKeepsShape(c, latest, e);
  }

  lemma HitKeepsRemote(c: Cache, r: int, at: nat, bytes: seq<Byte>)
    requires Consistent(c) && r in c.lines && at + |bytes| <= PAGE_SIZE
    ensures var d := Hit(c, r, at, bytes);
      && d.remote == c.remote && d.live == c.live && d.lines.Keys == c.lines.Keys
      && forall q :: q in c.lines ==> d.lines[q].index == c.lines[q].index && d.lines[q].dirty == c.lines[q].dirty
  {
  }

  /** Local contents do not matter. */
  lemma BehindIgnoresData(c: Cache, d: Cache, latest: map<int, seq<Page>>)
    requires Consistent(c) && Shaped(c, latest) && Behind(c, latest) && Consistent(d) && Shaped(d, latest)
    requires d.remote == c.remote && d.live.Keys <= c.live.Keys && d.lines.Keys == c.lines.Keys
    requires forall r :: r in d.live ==> d.live[r] == c.live[r]
    requires forall r :: r in c.lines ==> d.lines[r].index == c.lines[r].index && d.lines[r].dirty == c.lines[r].dirty
    ensures Behind(d, latest)
  {
    forall r, i | r in d.remote && 0 <= i < |d.remote[r]| && d.remote[r][i] != latest[r][i]
      ensures Resident(d, r, i) && d.lines[r].dirty
    {
      assert Resident(c, r, i);
    }
  }

  lemma RegisterStaysBehind(c: Cache, latest: map<int, seq<Page>>, e: Event)
    requires Consistent(c) && Shaped(c, latest) && Behind(c, latest) && e.Register?
    ensures Shaped(Step(c, e), LatestStep(c, latest, e))
    ensures Behind(Step(c, e), LatestStep(c, latest, e)) <==> !Outgrows(c, e)
  {
    var d, latest' := Step(c, e), LatestStep(c, latest, e);
    forall r, i | r in d.remote && 0 <= i < |d.remote[r]| && d.remote[r][i] != latest'[r][i]
      ensures Resident(d, r, i) && d.lines[r].dirty
    {
      assert c.remote[r][i] != latest[r][i];
    }
  }

  lemma StepStaysBehind(c: Cache, latest: map<int, seq<Page>>, e: Event)
    requires Consistent(c) && Shaped(c, latest) && Tracks(c, latest) && Behind(c, latest)
    ensures Shaped(Step(c, e), LatestStep(c, latest, e)) && Tracks(Step(c, e), LatestStep(c, latest, e))
    ensures Behind(Step(c, e), LatestStep(c, latest, e)) <==> !ChangesReadPage(c, e) && !Outgrows(c, e)
  {
    StepKeepsTrack(c, latest, e);
    assert Whole(c);
    hide Tracks, Behind, Evict, Fault, Hit;
    if Possible(c.live, e) {
      match e
      case Load(r, i, _, _, residue) =>
        if !Resident(c, r, i) { LoadStaysBehind(c, latest, e); }
      case Store(r, i, at, bytes) =>
        if Resident(c, r, i) {
          HitStaysBehind(c, latest, e);
        } else {
          FaultStaysBehind(c, latest, r, i, Write, Step(c, e).lines[r].data);
          HitKeepsRemote(Fault(c, r, i, Write), r, at, bytes);
          BehindIgnoresData(Fault(c, r, i, Write), Step(c, e), LatestStep(c, latest, e));
        }
      case Register(_, _) => RegisterStaysBehind(c, latest, e);
      case Unregister(r) =>
        EvictCatchesUp(c, latest, r);
        BehindIgnoresData(Evict(c, r), Step(c, e), latest);
    }
  }

  predicate AlwaysBehind(c: Cache, es: seq<Event>)
    requires Consistent(c)
  {
    Behind(Run(c, es), Latest(c, es)) && (es != [] ==> AlwaysBehind(c, es[..|es| - 1]))
  }

  /** No event of the run changes a read-faulted page or outgrows the server. */
  predicate NeverStrays(c: Cache, es: seq<Event>)
    requires Consistent(c)
  {
    es != [] ==>
      var before, e := es[..|es| - 1], es[|es| - 1];
      NeverStrays(c, before) && !ChangesReadPage(Run(c, before), e) && !Outgrows(Run(c, before), e)
  }

  lemma {:induction false} RunKeepsTrack(c: Cache, es: seq<Event>)
    requires Cold(c)
    ensures Tracks(Run(c, es), Latest(c, es))
  {
    assert Tracks(c, c.remote);
    hide Tracks, LatestStep, Step;
    if es != [] {
      var n := |es| - 1;
      RunKeepsTrack(c, es[..n]);
      StepKeepsTrack(Run(c, es[..n]), Latest(c, es[..n]), es[n]);
    }
  }

  /** The server is behind by at most that one page per region throughout a run exactly
      when no store of the run changes a page brought in by a read and no region is
      registered again with more pages than before. */
  lemma {:induction false} BehindByOneExactly(c: Cache, es: seq<Event>)
    requires Cold(c) && Whole(c)
    ensures AlwaysBehind(c, es) <==> NeverStrays(c, es)
  {
    assert Behind(c, c.remote) && Shaped(c, c.remote);
    hide Behind, Tracks, ChangesReadPage, Outgrows, LatestStep, Step;
    if es != [] {
      var n := |es| - 1;
      BehindByOneExactly(c, es[..n]);
      RunKeepsTrack(c, es[..n]);
      if AlwaysBehind(c, es[..n]) {
        StepStaysBehind(Run(c, es[..n]), Latest(c, es[..n]), es[n]);
      }
    }
  }
}

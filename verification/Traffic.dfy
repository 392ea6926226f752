/** How many faults a run takes and how many packets it sends. */
module Traffic {
  import opened PageCache

  predicate Faults(c: Cache, e: Event)
    requires Consistent(c)
  {
    Possible(c.live, e) && e.IsAccess() && !Resident(c, e.region, e.index)
  }

  function One(b: bool): nat {
    if b then 1 else 0
  }

  function ReadFaults(c: Cache, es: seq<Event>): nat
    requires Consistent(c)
  {
    if es == [] then 0
    else
      var n := |es| - 1;
      ReadFaults(c, es[..n]) + One(es[n].Load? && Faults(Run(c, es[..n]), es[n]))
  }

  function WriteFaults(c: Cache, es: seq<Event>): nat
    requires Consistent(c)
  {
    if es == [] then 0
    else
      var n := |es| - 1;
      WriteFaults(c, es[..n]) + One(es[n].Store? && Faults(Run(c, es[..n]), es[n]))
  }

  // ---- Conservation ----

  /** Regions whose recorded page was faulted in by a write. */
  function DirtyRegions(c: Cache): (s: set<int>)
    ensures forall r :: r in s <==> r in c.lines && c.lines[r].dirty
  {
    set r | r in c.lines && c.lines[r].dirty
  }

  lemma EvictAccounts(c: Cache, r: int)
    requires Consistent(c)
    ensures var d := Evict(c, r);
      && d.puts + |DirtyRegions(d)| == c.puts + |DirtyRegions(c)|
      && d.gets == c.gets && r !in DirtyRegions(d)
  {
    assert DirtyRegions(Evict(c, r)) == DirtyRegions(c) - {r};
  }

  lemma FaultAccounts(c: Cache, r: int, i: nat, cause: Cause)
    requires Consistent(c) && r in c.live && i < c.live[r]
    ensures var d := Fault(c, r, i, cause);
      && d.puts + |DirtyRegions(d)| == c.puts + |DirtyRegions(c)| + One(cause.Write?)
      && d.gets == c.gets + One(cause.Read?)
  {
    EvictAccounts(c, r);
    hide Evict;
    var e, d := Evict(c, r), Fault(c, r, i, cause);
    assert DirtyRegions(d) == if cause.Write? then DirtyRegions(e) + {r} else DirtyRegions(e);
  }

  lemma StepAccounts(c: Cache, e: Event)
    requires Consistent(c)
    ensures var d := Step(c, e);
      && d.puts + |DirtyRegions(d)| == c.puts + |DirtyRegions(c)| + One(e.Store? && Faults(c, e))
      && d.gets == c.gets + One(e.Load? && Faults(c, e))
  {
    hide Evict, Fault;
    if Possible(c.live, e) {
      match e
      case Load(r, i, _, _, residue) =>
        FaultAccounts(c, r, i, Read(residue));
      case Store(r, i, at, bytes) =>
        FaultAccounts(c, r, i, Write);
        assert DirtyRegions(Stored(c, r, i, at, bytes)) == DirtyRegions(Bring(c, r, i, Write));
      case Register(_, _) =>
        assert DirtyRegions(Step(c, e)) == DirtyRegions(c);
      case Unregister(r) =>
        EvictAccounts(c, r);
        assert DirtyRegions(Step(c, e)) == DirtyRegions(Evict(c, r));
    }
  }

  /** Over every run each read fault is one get packet, and each write fault is one
      put packet, sent or still owed by a region whose recorded operation is write. */
  lemma {:induction false} PacketsMatchFaults(c: Cache, es: seq<Event>)
    requires Cold(c) && c.gets == 0 && c.puts == 0
    ensures var d := Run(c, es);
      && d.gets == ReadFaults(c, es)
      && d.puts + |DirtyRegions(d)| == WriteFaults(c, es)
  {
    if es == [] {
      assert DirtyRegions(c) == {};
    } else {
      var n := |es| - 1;
      PacketsMatchFaults(c, es[..n]);
      StepAccounts(Run(c, es[..n]), es[n]);
    }
  }

  // ---- Counting faults by looking at the trace ----

  /** What marks the end of a region's life in its visits. */
  const GONE: int := -1

  /** The pages of `r` accessed, in order, and the ends of its registrations. */
  function Visits(c: Cache, es: seq<Event>, r: int): seq<int>
    requires Consistent(c)
  {
    if es == [] then []
    else
      var n := |es| - 1;
      var before, d, e := Visits(c, es[..n], r), Run(c, es[..n]), es[n];
      if e.region != r || !Possible(d.live, e) then before
      else if e.IsAccess() then before + [e.index]
      else if e.Unregister? then before + [GONE]
      else before
  }

  /** The number of maximal blocks of equal neighbours, leaving out the ends. */
  function Blocks(v: seq<int>): nat {
    if v == [] then 0
    else
      var n := |v| - 1;
      Blocks(v[..n]) + One(v[n] != GONE && (n == 0 || v[n] != v[n - 1]))
  }

  function SumBlocks(c: Cache, es: seq<Event>, rs: seq<int>): nat
    requires Consistent(c)
  {
    if rs == [] then 0 else Blocks(Visits(c, es, rs[0])) + SumBlocks(c, es, rs[1..])
  }

  lemma StepLine(c: Cache, e: Event, r: int)
    requires Consistent(c)
    ensures var d, here := Step(c, e), e.region == r && Possible(c.live, e);
      && (here && e.IsAccess() ==> Resident(d, r, e.index))
      && (here && e.Unregister? ==> r !in d.lines)
      && (here && e.Register? ==> r !in c.lines && r !in d.lines)
      && (!here ==> (r in d.lines <==> r in c.lines) && (r in d.lines ==> d.lines[r].index == c.lines[r].index))
  {
  }

  /** What is local in a region is the page it visited last since it was registered. */
  lemma {:induction false} LineIsLastVisit(c: Cache, es: seq<Event>, r: int)
    requires Cold(c)
    ensures var d, v := Run(c, es), Visits(c, es, r);
      && (r in d.lines <==> v != [] && v[|v| - 1] != GONE)
      && (r in d.lines ==> d.lines[r].index == v[|v| - 1])
  {
    if es != [] {
      var n := |es| - 1;
      LineIsLastVisit(c, es[..n], r);
      StepLine(Run(c, es[..n]), es[n], r);
      hide Step, Possible;
    }
  }

  lemma {:induction false} SumBlocksUnchanged(c: Cache, es: seq<Event>, rs: seq<int>)
    requires Consistent(c) && es != []
    requires forall r :: r in rs ==> Visits(c, es, r) == Visits(c, es[..|es| - 1], r)
    ensures SumBlocks(c, es, rs) == SumBlocks(c, es[..|es| - 1], rs)
  {
    hide Visits;
    if rs != [] {
      SumBlocksUnchanged(c, es, rs[1..]);
    }
  }

  /** One event moves the count of its own region only. */
  lemma {:induction false} SumBlocksStep(c: Cache, es: seq<Event>, rs: seq<int>, r: int, k: nat)
    requires Consistent(c) && es != [] && Distinct(rs) && r in rs
    requires forall q :: q in rs && q != r ==> Visits(c, es, q) == Visits(c, es[..|es| - 1], q)
    requires Blocks(Visits(c, es, r)) == Blocks(Visits(c, es[..|es| - 1], r)) + k
    ensures SumBlocks(c, es, rs) == SumBlocks(c, es[..|es| - 1], rs) + k
  {
    hide Visits, Blocks;
    var rest := rs[1..];
    if rs[0] == r {
      SumBlocksUnchanged(c, es, rest);
    } else {
      SumBlocksStep(c, es, rest, r, k);
    }
  }

  lemma OneMoreVisit(v: seq<int>, x: int)
    ensures Blocks(v + [x]) == Blocks(v) + One(x != GONE && (v == [] || x != v[|v| - 1]))
  {
    assert (v + [x])[..|v|] == v;
  }

  lemma VisitsElsewhere(c: Cache, es: seq<Event>, q: int)
    requires Consistent(c) && es != [] && q != es[|es| - 1].region
    ensures Visits(c, es, q) == Visits(c, es[..|es| - 1], q)
  {
  }

  lemma LastVisitFaults(c: Cache, es: seq<Event>)
    requires Cold(c) && es != []
    ensures var n := |es| - 1; var r := es[n].region;
      Blocks(Visits(c, es, r)) == Blocks(Visits(c, es[..n], r)) + One(Faults(Run(c, es[..n]), es[n]))
  {
    var n, e := |es| - 1, es[|es| - 1];
    var before := Visits(c, es[..n], e.region);
    hide Run, Blocks, Possible;
    LineIsLastVisit(c, es[..n], e.region);
    OneMoreVisit(before, if e.IsAccess() then e.index else GONE);
  }

  /** The number of faults is, summed over the regions, the number of maximal runs
      of accesses to one page between registering and unregistering. */
  lemma {:induction false} FaultsAreBlocks(c: Cache, es: seq<Event>, rs: seq<int>)
    requires Cold(c) && forall i, j :: 0 <= i < j < |rs| ==> rs[i] != rs[j]
    requires forall k :: 0 <= k < |es| ==> es[k].region in rs
    ensures ReadFaults(c, es) + WriteFaults(c, es) == SumBlocks(c, es, rs)
  {
    if es == [] {
      NoVisits(c, rs);
    } else {
      var n := |es| - 1;
      FaultsAreBlocks(c, es[..n], rs);
      LastVisitFaults(c, es);
      forall q | q != es[n].region ensures Visits(c, es, q) == Visits(c, es[..n], q) {
        VisitsElsewhere(c, es, q);
      }
      assert Faults(Run(c, es[..n]), es[n]) ==> es[n].IsAccess();
      hide Visits, Faults, Blocks;
      SumBlocksStep(c, es, rs, es[n].region, One(Faults(Run(c, es[..n]), es[n])));
    }
  }

  lemma {:induction false} NoVisits(c: Cache, rs: seq<int>)
    requires Consistent(c)
    ensures SumBlocks(c, [], rs) == 0
  {
    if rs != [] { NoVisits(c, rs[1..]); }
  }

  // ---- Scans ----

  lemma {:induction false} BlocksOfScan(v: seq<int>)
    requires v != [] && v[0] == 0
    requires forall k :: 0 < k < |v| ==> v[k - 1] <= v[k] <= v[k - 1] + 1
    ensures v[|v| - 1] >= 0 && Blocks(v) == v[|v| - 1] + 1
  {
    if |v| > 1 {
      BlocksOfScan(v[..|v| - 1]);
    }
  }

  predicate Touches(c: Cache, e: Event, r: int)
    requires Consistent(c)
  {
    e.IsAccess() && e.region == r && Possible(c.live, e)
  }

  lemma AccessKeepsRegions(c: Cache, d: Cache, e: Event, r: int)
    requires Consistent(c) && Consistent(d) && SameRegions(c, d) && Touches(c, e, r)
    ensures SameRegions(c, Step(d, e))
    ensures e.IsAccess() && e.region == r && Possible(d.live, e)
  {
  }

  lemma {:induction false} ScanKeepsRegions(c: Cache, es: seq<Event>, r: int)
    requires Consistent(c)
    requires forall k :: 0 <= k < |es| ==> Touches(c, es[k], r)
    ensures SameRegions(c, Run(c, es))
  {
    if es != [] {
      var n := |es| - 1;
      assert forall k :: 0 <= k < n ==> es[..n][k] == es[k];
      ScanKeepsRegions(c, es[..n], r);
      AccessKeepsRegions(c, Run(c, es[..n]), es[n], r);
      hide Touches, Step, SameRegions;
    }
  }

  /** The page indices of a sequence of accesses. */
  function Indices(es: seq<Event>): (v: seq<int>)
    ensures |v| == |es| && forall k :: 0 <= k < |es| && es[k].IsAccess() ==> v[k] == es[k].index
  {
    if es == [] then []
    else
      var e := es[|es| - 1];
      Indices(es[..|es| - 1]) + [if e.IsAccess() then e.index else 0]
  }

  lemma {:induction false} VisitsOfScan(c: Cache, es: seq<Event>, r: int)
    requires Consistent(c)
    requires forall k :: 0 <= k < |es| ==> Touches(c, es[k], r)
    ensures Visits(c, es, r) == Indices(es)
  {
    if es != [] {
      var n := |es| - 1;
      VisitsOfScan(c, es[..n], r);
      ScanKeepsRegions(c, es[..n], r);
      AccessKeepsRegions(c, Run(c, es[..n]), es[n], r);
      hide Touches, Run, Possible, SameRegions;
    }
  }

  /** Accessing pages 0 to n-1 of a region in order, each any number of times in a row,
      costs exactly n faults when nothing is local at the start. */
  lemma ScanFaultsOncePerPage(c: Cache, es: seq<Event>, r: int, n: nat)
    requires Cold(c) && es != []
    requires forall k :: 0 <= k < |es| ==> (es[k].Load? || es[k].Store?) && es[k].region == r && Possible(c.live, es[k])
    requires es[0].index == 0 && es[|es| - 1].index == n - 1
    requires forall k :: 0 < k < |es| ==> es[k - 1].index <= es[k].index <= es[k - 1].index + 1
    ensures ReadFaults(c, es) + WriteFaults(c, es) == n
  {
    assert forall k :: 0 <= k < |es| ==> Touches(c, es[k], r);
    VisitsOfScan(c, es, r);
    FaultsAreBlocks(c, es, [r]);
    hide Touches, Visits, Blocks;
    BlocksOfScan(Visits(c, es, r));
  }
}

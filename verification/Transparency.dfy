/** When remote memory cannot be told from plain memory. */
module Transparency {
  import opened Words
  import opened PageCache
  import opened FlatMemory
  import PageTable

  // ---- A discipline on the program ----

  /** Nothing half-written leaves: every byte of a write-faulted page was stored. */
  ghost predicate CompleteOrClean(c: Cache, v: Validity, r: int)
    requires Consistent(c) && Fits(c, v)
  {
    r in c.lines && c.lines[r].dirty ==> v.lines[r] == AllBytes()
  }

  /** The server serves zeros for region `r`, were it registered now with `n` pages:
      either its address is new, or the pages kept for it are zero and numerous enough. */
  predicate FreshFor(c: Cache, r: int, n: nat) {
    r in c.remote ==> n <= |c.remote[r]| && forall i :: 0 <= i < n ==> c.remote[r][i] == ZeroPage()
  }

  /** Stores avoid read-faulted pages; on a write-faulted page, bytes are stored
      before they are loaded, and all of them before the page leaves.  (The valid
      bytes of a write-faulted page are the bytes stored since the fault.)  Regions
      start from zeros. */
  ghost predicate Disciplined(c: Cache, v: Validity, e: Event)
    requires Consistent(c) && Fits(c, v)
  {
    Possible(c.live, e) ==>
      match e
      case Load(r, i, at, len, _) =>
        if Resident(c, r, i) then c.lines[r].dirty ==> Span(at, len) <= v.lines[r] else CompleteOrClean(c, v, r)
      case Store(r, i, _, _) =>
        if Resident(c, r, i) then c.lines[r].dirty else CompleteOrClean(c, v, r)
      case Register(r, n) => FreshFor(c, r, n)
      case Unregister(_) => true
  }

  /** Every event of the run was disciplined when it happened. */
  ghost predicate DisciplinedRun(c: Cache, v: Validity, es: seq<Event>)
    requires Consistent(c) && Fits(c, v)
  {
    es != [] ==>
      var before := es[..|es| - 1];
      DisciplinedRun(c, v, before) && Disciplined(Run(c, before), ValidRun(c, v, before), es[|es| - 1])
  }

  /** All bytes a region can show are valid, on the server and on read-faulted pages. */
  ghost predicate AllFull(c: Cache, v: Validity) {
    && Consistent(c) && Fits(c, v) && Whole(c)
    && (forall r :: r in c.lines && !c.lines[r].dirty ==> v.lines[r] == AllBytes())
    && (forall r, i :: r in c.live && 0 <= i < c.live[r] ==> v.remote[r][i] == AllBytes())
  }

  lemma EvictKeepsFull(c: Cache, v: Validity, r: int)
    requires AllFull(c, v) && CompleteOrClean(c, v, r)
    ensures AllFull(Evict(c, r), EvictValid(c, v, r))
  {
  }

  lemma BringKeepsFull(c: Cache, v: Validity, r: int, i: nat, cause: Cause)
    requires AllFull(c, v) && r in c.live && i < c.live[r]
    requires !Resident(c, r, i) ==> CompleteOrClean(c, v, r)
    ensures AllFull(Bring(c, r, i, cause), BringValid(c, v, r, i, cause))
  {
    if !Resident(c, r, i) {
      EvictKeepsFull(c, v, r);
      assert EvictValid(c, v, r).remote[r][i] == AllBytes();
      hide Evict, EvictValid;
    }
  }

  lemma ZeroPageIsValid()
    ensures ZeroBytes(ZeroPage()) == AllBytes()
  {
    forall b ensures b in ZeroBytes(ZeroPage()) <==> b in AllBytes() {
      assert Covers(b, 0, PAGE_SIZE) <==> 0 <= b < PAGE_SIZE;
    }
  }

  lemma RegisterKeepsFull(c: Cache, v: Validity, r: int, n: nat)
    requires AllFull(c, v) && r !in c.live && FreshFor(c, r, n)
    ensures AllFull(Registered(c, r, n), RegisterValid(c, v, r, n))
  {
    ZeroPageIsValid();
    hide AllBytes, ZeroBytes;
  }

  /** What a region no longer registered holds does not matter. */
  lemma UnregisterKeepsFull(c: Cache, v: Validity, r: int)
    requires AllFull(c, v) && r in c.live
    ensures AllFull(Step(c, Unregister(r)), ValidStep(c, v, Unregister(r)))
  {
  }

  lemma StepKeepsFull(c: Cache, v: Validity, e: Event)
    requires AllFull(c, v) && Disciplined(c, v, e)
    ensures AllFull(Step(c, e), ValidStep(c, v, e))
  {
    if Possible(c.live, e) {
      match e
      case Load(r, i, _, _, residue) => BringKeepsFull(c, v, r, i, Read(residue));
      case Store(r, i, _, _) => BringKeepsFull(c, v, r, i, Write); hide Bring, BringValid;
      case Register(r, n) => RegisterKeepsFull(c, v, r, n);
      case Unregister(r) => UnregisterKeepsFull(c, v, r);
    }
  }

  /** The discipline asks no more than that: from a state in which everything is current,
      an event is disciplined exactly if it is a load of current bytes or none, and
      everything is current afterwards. */
  lemma DisciplinedExactly(c: Cache, v: Validity, e: Event)
    requires AllFull(c, v) && Possible(c.live, e)
    ensures Disciplined(c, v, e) <==>
      && AllFull(Step(c, e), ValidStep(c, v, e))
      && (e.Load? ==> Span(e.at, e.len) <= ValidBytes(c, v, e.region, e.index))
  {
    if Disciplined(c, v, e) {
      StepKeepsFull(c, v, e);
      if e.Load? { FullLoadsAreValid(c, v, e); }
    } else {
      hide AllBytes, ZeroBytes;
      match e
      case Load(r, i, _, _, residue) => if !Resident(c, r, i) { EvictLosesFull(c, v, r, i, Read(residue)); }
      case Store(r, i, at, bytes) => UndisciplinedStore(c, v, r, i, at, bytes);
      case Register(r, n) => RegisterLosesFull(c, v, r, n);
      case Unregister(_) =>
    }
  }

  lemma EvictLosesFull(c: Cache, v: Validity, r: int, i: nat, cause: Cause)
    requires AllFull(c, v) && r in c.live && i < c.live[r] && !Resident(c, r, i) && !CompleteOrClean(c, v, r)
    ensures !AllFull(Bring(c, r, i, cause), BringValid(c, v, r, i, cause))
  {
    var k := c.lines[r].index;
    assert BringValid(c, v, r, i, cause).remote[r][k] == v.lines[r];
  }

  lemma UndisciplinedStore(c: Cache, v: Validity, r: int, i: nat, at: nat, bytes: seq<Byte>)
    requires AllFull(c, v) && Possible(c.live, Store(r, i, at, bytes)) && !Disciplined(c, v, Store(r, i, at, bytes))
    ensures !AllFull(Stored(c, r, i, at, bytes), StoreValid(c, v, r, i, at, |bytes|))
  {
    var v' := StoreValid(c, v, r, i, at, |bytes|);
    if Resident(c, r, i) {
      assert Covers(at, at, |bytes|) && at in AllBytes() by { assert Covers(at, 0, PAGE_SIZE); }
      assert at !in v'.remote[r][i];
    } else {
      EvictLosesFull(c, v, r, i, Write);
      assert v'.remote == BringValid(c, v, r, i, Write).remote;
      var k := c.lines[r].index;
      assert BringValid(c, v, r, i, Write).remote[r][k] == v.lines[r] != AllBytes();
    }
  }

  lemma RegisterLosesFull(c: Cache, v: Validity, r: int, n: nat)
    requires AllFull(c, v) && r !in c.live && !FreshFor(c, r, n)
    ensures !AllFull(Registered(c, r, n), RegisterValid(c, v, r, n))
  {
    if n <= |c.remote[r]| {
      var i :| 0 <= i < n && c.remote[r][i] != ZeroPage();
      NonZeroIsInvalid(c.remote[r][i]);
      assert RegisterValid(c, v, r, n).remote[r][i] == ZeroBytes(c.remote[r][i]);
    }
  }

  lemma NonZeroIsInvalid(p: Page)
    requires p != ZeroPage()
    ensures ZeroBytes(p) != AllBytes()
  {
    var b :| 0 <= b < PAGE_SIZE && p[b] != 0;
    assert Covers(b, 0, PAGE_SIZE);
    assert b in AllBytes() && b !in ZeroBytes(p);
  }

  lemma {:induction false} RunKeepsFull(c: Cache, v: Validity, es: seq<Event>)
    requires AllFull(c, v) && DisciplinedRun(c, v, es)
    ensures AllFull(Run(c, es), ValidRun(c, v, es))
  {
    assert Consistent(c) && Fits(c, v);
    hide AllFull, Disciplined, Step, ValidStep;
    if es != [] {
      var n := |es| - 1;
      RunKeepsFull(c, v, es[..n]);
      StepKeepsFull(Run(c, es[..n]), ValidRun(c, v, es[..n]), es[n]);
    }
  }

  lemma FullLoadsAreValid(c: Cache, v: Validity, e: Event)
    requires AllFull(c, v) && Disciplined(c, v, e)
    requires e.Load? && Possible(c.live, e)
    ensures Span(e.at, e.len) <= ValidBytes(c, v, e.region, e.index)
  {
    assert forall b :: Covers(b, e.at, e.len) ==> Covers(b, 0, PAGE_SIZE);
  }

  /** Under the discipline every load of every run returns the last value stored
      there, or what was there at the start. */
  lemma DisciplinedRunsAreFlat(c: Cache, es: seq<Event>, e: Event)
    requires Cold(c) && Whole(c) && DisciplinedRun(c, AllValid(c.remote), es + [e])
    requires e.Load? && Possible(Run(c, es).live, e)
    ensures var f := FlatRun(FlatOf(c), es);
      && Possible(f.live, e)
      && Loaded(Run(c, es), e) == f.pages[e.region][e.index][e.at..e.at + e.len]
  {
    var v := AllValid(c.remote);
    assert AllFull(c, v);
    assert (es + [e])[..|es|] == es;
    hide AllFull, Disciplined, Step, ValidStep, Possible, Loaded;
    RunKeepsFull(c, v, es);
    FullLoadsAreValid(Run(c, es), ValidRun(c, v, es), e);
    ValidLoadsAreFlat(c, es, e);
  }

  lemma {:induction false} PrefixDisciplined(c: Cache, v: Validity, es: seq<Event>, k: nat)
    requires Consistent(c) && Fits(c, v) && DisciplinedRun(c, v, es) && k <= |es|
    ensures DisciplinedRun(c, v, es[..k])
  {
    if k < |es| {
      PrefixDisciplined(c, v, es[..|es| - 1], k);
      assert es[..|es| - 1][..k] == es[..k];
    } else {
      assert es[..k] == es;
    }
  }

  /** So does every load inside a disciplined run. */
  lemma LoadsOfDisciplinedRun(c: Cache, es: seq<Event>, k: nat)
    requires Cold(c) && Whole(c) && DisciplinedRun(c, AllValid(c.remote), es)
    requires k < |es| && es[k].Load? && Possible(Run(c, es[..k]).live, es[k])
    ensures var e, f := es[k], FlatRun(FlatOf(c), es[..k]);
      && Possible(f.live, e)
      && Loaded(Run(c, es[..k]), e) == f.pages[e.region][e.index][e.at..e.at + e.len]
  {
    assert Fits(c, AllValid(c.remote));
    hide DisciplinedRun, AllValid, Possible, Loaded, Run, FlatRun;
    PrefixDisciplined(c, AllValid(c.remote), es, k + 1);
    assert es[..k + 1] == es[..k] + [es[k]];
    DisciplinedRunsAreFlat(c, es[..k], es[k]);
  }

  // ---- Exactly when nothing is ever lost ----

  /** What a load of this page would see now. */
  function Current(c: Cache, r: int, i: nat): Page
    requires Resident(c, r, i) || Kept(c, r, i)
  {
    if Resident(c, r, i) then c.lines[r].data else c.remote[r][i]
  }

  /** The server has all pages, and every load that could be issued now would return
      plain memory's value. */
  ghost predicate InSync(c: Cache, f: Flat) {
    && Consistent(c) && FlatConsistent(f) && f.live == c.live && Whole(c)
    && forall r, i :: r in c.live && 0 <= i < c.live[r] ==> Current(c, r, i) == f.pages[r][i]
  }

  /** A read-faulted page may be dropped: no store has changed it. */
  predicate DropSafe(c: Cache, r: int)
    requires Whole(c) && Consistent(c)
  {
    r in c.lines && !c.lines[r].dirty ==> c.lines[r].data == c.remote[r][c.lines[r].index]
  }

  /** The buffer may stand in for the page: they differ at most in the bytes about
      to be stored. */
  predicate FillSafe(c: Cache, r: int, i: nat, at: nat, len: nat)
    requires Kept(c, r, i)
  {
    forall b :: 0 <= b < PAGE_SIZE && !Covers(b, at, len) ==> c.buffer[b] == c.remote[r][i][b]
  }

  /** What would have to be checked before serving the fault of `e`, or before
      registering a region. */
  predicate Safe(c: Cache, e: Event)
    requires Whole(c) && Consistent(c)
  {
    Possible(c.live, e) ==>
      match e
      case Load(r, i, _, _, _) => Resident(c, r, i) || DropSafe(c, r)
      case Store(r, i, at, bytes) => Resident(c, r, i) || (DropSafe(c, r) && FillSafe(c, r, i, at, |bytes|))
      case Register(r, n) => FreshFor(c, r, n)
      case Unregister(_) => true
  }

  /** A fault replaces the faulting page; of the others only the evicted one may change. */
  lemma CurrentAfterFault(c: Cache, r: int, i: nat, cause: Cause, q: int, j: nat)
    requires Consistent(c) && r in c.live && i < c.live[r] && Kept(c, r, i) && !Resident(c, r, i)
    requires Kept(c, q, j)
    ensures var c' := Fault(c, r, i, cause);
      && Kept(c', q, j)
      && Current(c', q, j) ==
           if q == r && j == i then (if cause.Write? then c.buffer else c.remote[r][i])
           else if q == r && Resident(c, r, j) && !c.lines[r].dirty then c.remote[r][j]
           else Current(c, q, j)
  {
  }

  lemma FaultStaysInSync(c: Cache, f: Flat, r: int, i: nat, residue: Page)
    requires InSync(c, f) && r in c.live && i < c.live[r] && !Resident(c, r, i)
    ensures InSync(Fault(c, r, i, Read(residue)), f) <==> DropSafe(c, r)
  {
    var c' := Fault(c, r, i, Read(residue));
    forall q, j | q in c'.live && 0 <= j < c'.live[q]
      ensures DropSafe(c, r) ==> Current(c', q, j) == f.pages[q][j]
    {
      CurrentAfterFault(c, r, i, Read(residue), q, j);
    }
    if r in c.lines && !c.lines[r].dirty {
      CurrentAfterFault(c, r, i, Read(residue), r, c.lines[r].index);
      assert Current(c, r, c.lines[r].index) == c.lines[r].data;
    }
  }

  lemma HitStaysInSync(c: Cache, f: Flat, r: int, at: nat, bytes: seq<Byte>)
    requires InSync(c, f) && r in c.lines && 0 < |bytes| && at + |bytes| <= PAGE_SIZE
    ensures InSync(Hit(c, r, at, bytes), FlatStep(f, Store(r, c.lines[r].index, at, bytes)))
  {
    var c', f' := Hit(c, r, at, bytes), FlatStep(f, Store(r, c.lines[r].index, at, bytes));
    forall q, j | q in c'.live && 0 <= j < c'.live[q] ensures Current(c', q, j) == f'.pages[q][j] {
      assert Current(c, q, j) == f.pages[q][j];
    }
  }

  lemma OverlaysAgree(p: Page, q: Page, at: nat, bytes: seq<Byte>)
    requires at + |bytes| <= PAGE_SIZE
    ensures Overlay(p, at, bytes) == Overlay(q, at, bytes) <==>
      forall b :: 0 <= b < PAGE_SIZE && !Covers(b, at, |bytes|) ==> p[b] == q[b]
  {
    var x, y := Overlay(p, at, bytes), Overlay(q, at, bytes);
    if forall b :: 0 <= b < PAGE_SIZE && !Covers(b, at, |bytes|) ==> p[b] == q[b] {
      forall b | 0 <= b < PAGE_SIZE ensures x[b] == y[b] {
        assert Covers(b, at, |bytes|) || p[b] == q[b];
      }
    }
    if x == y {
      forall b | 0 <= b < PAGE_SIZE && !Covers(b, at, |bytes|) ensures p[b] == q[b] {
        assert x[b] == y[b];
      }
    }
  }

  lemma WriteFaultStaysInSync(c: Cache, f: Flat, r: int, i: nat, at: nat, bytes: seq<Byte>)
    requires InSync(c, f) && Possible(c.live, Store(r, i, at, bytes)) && !Resident(c, r, i)
    ensures InSync(Stored(c, r, i, at, bytes), FlatStep(f, Store(r, i, at, bytes)))
      <==> DropSafe(c, r) && FillSafe(c, r, i, at, |bytes|)
  {
    hide Evict, Fault;
    var d, c', f' := Fault(c, r, i, Write), Stored(c, r, i, at, bytes), FlatStep(f, Store(r, i, at, bytes));
    assert Current(c, r, i) == f.pages[r][i];
    CurrentAfterFault(c, r, i, Write, r, i);
    assert Current(c', r, i) == Overlay(c.buffer, at, bytes);
    OverlaysAgree(c.buffer, c.remote[r][i], at, bytes);
    forall q, j | q in c'.live && 0 <= j < c'.live[q] && !(q == r && j == i)
      ensures Current(c', q, j) == Current(d, q, j)
      ensures DropSafe(c, r) ==> Current(c', q, j) == f'.pages[q][j]
    {
      CurrentAfterFault(c, r, i, Write, q, j);
    }
    if r in c.lines && !c.lines[r].dirty {
      CurrentAfterFault(c, r, i, Write, r, c.lines[r].index);
      assert Current(c, r, c.lines[r].index) == c.lines[r].data;
    }
  }

  /** Registering a region, perhaps at an address used before: plain memory starts from
      zeros, and the region does so exactly if its address was never registered or the
      pages kept for it are zero and as many as are needed. */
  lemma RegisterStaysInSync(c: Cache, f: Flat, r: int, n: nat)
    requires InSync(c, f) && r !in c.live && 0 < n
    ensures InSync(Registered(c, r, n), FlatStep(f, Register(r, n))) <==> FreshFor(c, r, n)
  {
    var c', f' := Registered(c, r, n), FlatStep(f, Register(r, n));
    if FreshFor(c, r, n) {
      forall q, j | q in c'.live && 0 <= j < c'.live[q] ensures Current(c', q, j) == f'.pages[q][j] {
        assert q != r ==> Current(c, q, j) == f.pages[q][j];
      }
    } else if InSync(c', f') {
      forall j | 0 <= j < n ensures c.remote[r][j] == ZeroPage() {
        assert Current(c', r, j) == f'.pages[r][j];
      }
    }
  }

  lemma UnregisterStaysInSync(c: Cache, f: Flat, r: int)
    requires InSync(c, f) && r in c.live
    ensures InSync(Step(c, Unregister(r)), FlatStep(f, Unregister(r)))
  {
    var c' := Step(c, Unregister(r));
    forall q, j | q in c'.live && 0 <= j < c'.live[q]
      ensures Current(c', q, j) == Current(c, q, j)
    {
    }
  }

  lemma StepInSync(c: Cache, f: Flat, e: Event)
    requires InSync(c, f)
    ensures InSync(Step(c, e), FlatStep(f, e)) <==> Safe(c, e)
  {
    hide Evict, Fault, Hit, FreshFor;
    if Possible(c.live, e) {
      match e
      case Load(r, i, _, _, residue) =>
        if !Resident(c, r, i) { FaultStaysInSync(c, f, r, i, residue); }
      case Store(r, i, at, bytes) =>
        if Resident(c, r, i) { HitStaysInSync(c, f, r, at, bytes); }
        else { WriteFaultStaysInSync(c, f, r, i, at, bytes); }
      case Register(r, n) => RegisterStaysInSync(c, f, r, n);
      case Unregister(r) => UnregisterStaysInSync(c, f, r);
    }
  }

  ghost predicate AlwaysInSync(c: Cache, f: Flat, es: seq<Event>)
    requires Consistent(c) && FlatConsistent(f)
  {
    && InSync(Run(c, es), FlatRun(f, es))
    && (es != [] ==> AlwaysInSync(c, f, es[..|es| - 1]))
  }

  predicate AlwaysSafe(c: Cache, es: seq<Event>)
    requires Consistent(c)
  {
    es != [] ==>
      var before := es[..|es| - 1];
      AlwaysSafe(c, before) && Whole(Run(c, before)) && Safe(Run(c, before), es[|es| - 1])
  }

  lemma InSyncIsWhole(c: Cache, f: Flat)
    requires InSync(c, f)
    ensures Whole(c)
  {
  }

  /** Nothing is ever lost in a run exactly when every fault found the page it drops
      unchanged and, on a write, the buffer good enough, and every region was registered
      at a new address or over enough zero pages. */
  lemma {:induction false} InSyncExactlyWhenSafe(c: Cache, f: Flat, es: seq<Event>)
    requires InSync(c, f)
    ensures AlwaysInSync(c, f, es) <==> AlwaysSafe(c, es)
  {
    assert Consistent(c) && FlatConsistent(f);
    hide InSync, Safe, Step, FlatStep;
    if es != [] {
      var n := |es| - 1;
      InSyncExactlyWhenSafe(c, f, es[..n]);
      if AlwaysInSync(c, f, es[..n]) {
        assert Whole(Run(c, es[..n])) by { InSyncIsWhole(Run(c, es[..n]), FlatRun(f, es[..n])); }
        StepInSync(Run(c, es[..n]), FlatRun(f, es[..n]), es[n]);
      }
    }
  }

  // ---- Plain memory it is not ----

  /** One region of two fresh pages, nothing local, an empty buffer. */
  function TwoPages(): (c: Cache)
    ensures Cold(c) && Whole(c)
  {
    Cache(map[0 := PageTable.ZeroPages(2)], map[0 := 2], map[], ZeroPage(), 0, 0)
  }

  /** A load of one byte. */
  function Peek(r: int, i: nat): Event {
    Load(r, i, 0, 1, ZeroPage())
  }

  /** A store to a page brought in by a read raises no fault and is lost. */
  lemma StoreAfterReadIsLost(x: Byte)
    requires x != 0
    ensures var c := Step(Step(Step(TwoPages(), Peek(0, 0)), Store(0, 0, 0, [x])), Peek(0, 1));
      && Possible(c.live, Peek(0, 0)) && Loaded(c, Peek(0, 0)) != [x]
  {
    var c := TwoPages();
    var c1 := Step(c, Peek(0, 0));
    assert c1 == c.(lines := map[0 := Line(0, false, ZeroPage())], gets := 1);
    var c2 := Step(c1, Store(0, 0, 0, [x]));
    assert c2 == c1.(lines := map[0 := Line(0, false, Overlay(ZeroPage(), 0, [x]))]);
    var c3 := Step(c2, Peek(0, 1));
    assert c3 == c.(lines := map[0 := Line(1, false, ZeroPage())], gets := 2);
    assert Loaded(c3, Peek(0, 0))[0] == 0;
  }

  /** A page left after a write and written again comes back with the buffer's bytes:
      what a fill in random order does. */
  lemma ReturningWriteLosesStores(x: Byte, y: Byte, z: Byte)
    requires x != 0
    ensures var c := Step(Step(Step(TwoPages(), Store(0, 0, 0, [x])), Store(0, 1, 0, [y])), Store(0, 0, 1, [z]));
      && Possible(c.live, Peek(0, 0)) && Loaded(c, Peek(0, 0)) != [x]
  {
    var c := TwoPages();
    var c1 := Step(c, Store(0, 0, 0, [x]));
    assert c1 == c.(lines := map[0 := Line(0, true, Overlay(ZeroPage(), 0, [x]))]);
    var c2 := Step(c1, Store(0, 1, 0, [y]));
    assert c2.lines == map[0 := Line(1, true, Overlay(ZeroPage(), 0, [y]))];
    assert c2.live == c.live && c2.buffer == ZeroPage();
    var c3 := Step(c2, Store(0, 0, 1, [z]));
    assert c3.lines[0] == Line(0, true, Overlay(ZeroPage(), 1, [z]));
    assert Loaded(c3, Peek(0, 0))[0] == 0;
  }

  /** One page, filled and unregistered. */
  function Abandoned(x: Byte): (c: Cache)
    ensures Consistent(c)
  {
    Step(Step(Step(Blank(), Register(0, 1)), Store(0, 0, 0, [x])), Unregister(0))
  }

  lemma AbandonedIs(x: Byte)
    ensures Abandoned(x) == Blank().(remote := map[0 := [Overlay(ZeroPage(), 0, [x])]], puts := 1)
  {
    var zeros, page := PageTable.ZeroPages(1), Overlay(ZeroPage(), 0, [x]);
    var c1 := Step(Blank(), Register(0, 1));
    assert c1 == Blank().(live := map[0 := 1], remote := map[0 := zeros]);
    var c2 := Step(c1, Store(0, 0, 0, [x]));
    assert c2 == c1.(lines := map[0 := Line(0, true, page)]);
    assert zeros[0 := page] == [page];
    var c3 := Step(c2, Unregister(0));
    assert c3.live == map[] && c3.lines == map[];
    assert c3.remote == map[0 := PageTable.Replace(zeros, 0, page)];
    assert PageTable.Replace(zeros, 0, page) == [page];
  }

  /** A region registered at the address of an earlier one starts with that one's bytes,
      where plain memory starts with zeros. */
  lemma ReusedAddressIsNotFresh(x: Byte)
    requires x != 0
    ensures var c := Step(Abandoned(x), Register(0, 1));
      && Possible(c.live, Peek(0, 0)) && Loaded(c, Peek(0, 0)) == [x]
      && !FreshFor(Abandoned(x), 0, 1)
  {
    AbandonedIs(x);
    assert Overlay(ZeroPage(), 0, [x])[0] == x;
    var c := Step(Abandoned(x), Register(0, 1));
    assert Loaded(c, Peek(0, 0))[0] == x;
  }

  /** The abandoned page registered again as two, with a store to the second. */
  function Outgrown(x: Byte, y: Byte): (c: Cache)
    ensures Consistent(c)
  {
    Step(Step(Abandoned(x), Register(0, 2)), Store(0, 1, 0, [y]))
  }

  lemma OutgrownIs(x: Byte, y: Byte)
    ensures var c := Outgrown(x, y);
      && c.live == map[0 := 2] && c.remote == map[0 := [Overlay(ZeroPage(), 0, [x])]]
      && c.lines == map[0 := Line(1, true, Overlay(ZeroPage(), 0, [y]))]
  {
    hide Overlay, Abandoned;
    AbandonedIs(x);
    var c1 := Step(Abandoned(x), Register(0, 2));
    assert c1.live == map[0 := 2] && c1.lines == map[] && c1.buffer == ZeroPage();
  }

  /** And if it is larger, its last page is never saved: a load finds whatever the
      refused get came back with. */
  lemma OutgrownPageIsNeverSaved(x: Byte, y: Byte, residue: Page)
    ensures var c, e := Step(Outgrown(x, y), Peek(0, 0)), Load(0, 1, 0, 1, residue);
      Possible(c.live, e) && Loaded(c, e) == [residue[0]]
  {
    hide Overlay, Outgrown;
    OutgrownIs(x, y);
    var c2, c3 := Outgrown(x, y), Step(Outgrown(x, y), Peek(0, 0));
    assert c3.remote == c2.remote && c3.live == c2.live && c3.lines == map[0 := Line(0, false, c2.remote[0][0])];
  }
}

/**
 * The cache against plain memory.  Plain memory and the bytes that can be relied
 * on are computed beside the run; what a load of such bytes returns is proved.
 */
module FlatMemory {
  import opened Words
  import opened PageCache
  import PageTable

  /** Plain memory: stores and loads hit the same pages.  `live` gives the regions' sizes. */
  datatype Flat = Flat(pages: map<int, seq<Page>>, live: map<int, nat>)

  predicate FlatConsistent(f: Flat) {
    f.live.Keys == f.pages.Keys && forall r :: r in f.live ==> |f.pages[r]| == f.live[r]
  }

  /** Plain memory holding what the server holds. */
  function FlatOf(c: Cache): (f: Flat)
    requires Whole(c)
    ensures FlatConsistent(f) && f.live == c.live
    ensures forall r, i :: r in c.live && 0 <= i < c.live[r] ==> f.pages[r][i] == c.remote[r][i]
  {
    Flat(map r | r in c.live :: c.remote[r][..c.live[r]], c.live)
  }

  function FlatStep(f: Flat, e: Event): (f': Flat)
    requires FlatConsistent(f)
    ensures FlatConsistent(f')
  {
    if !Possible(f.live, e) then f
    else
      match e
      case Load(_, _, _, _, _) => f
      case Store(r, i, at, bytes) => f.(pages := SetPage(f.pages, r, i, Overlay(f.pages[r][i], at, bytes)))
      case Register(r, n) => Flat(f.pages[r := PageTable.ZeroPages(n)], f.live[r := n])
      case Unregister(r) => Flat(f.pages - {r}, f.live - {r})
  }

  function FlatRun(f: Flat, es: seq<Event>): (f': Flat)
    requires FlatConsistent(f)
    ensures FlatConsistent(f')
  {
    if es == [] then f else FlatStep(FlatRun(f, es[..|es| - 1]), es[|es| - 1])
  }

  // ---- Bytes that can be relied on ----

  predicate Covers(b: int, at: nat, len: nat) {
    at <= b < at + len
  }

  ghost function Span(at: nat, len: nat): (s: set<int>)
    ensures forall b :: b in s <==> Covers(b, at, len)
  {
    set b | at <= b < at + len && Covers(b, at, len)
  }

  ghost function AllBytes(): set<int> {
    Span(0, PAGE_SIZE)
  }

  /** For every server page and every local page, the bytes known to be current. */
  datatype Validity = Validity(remote: map<int, seq<set<int>>>, lines: map<int, set<int>>)

  ghost predicate Fits(c: Cache, v: Validity) {
    && v.lines.Keys == c.lines.Keys
    && v.remote.Keys == c.remote.Keys
    && forall r :: r in c.remote ==> |v.remote[r]| == |c.remote[r]|
  }

  ghost function ZeroBytes(p: Page): set<int> {
    set b | 0 <= b < PAGE_SIZE && p[b] == 0
  }

  ghost function AllValid(pages: map<int, seq<Page>>): Validity {
    Validity(map r | r in pages :: seq(|pages[r]|, _ => AllBytes()), map[])
  }

  /** A write-faulted page takes its valid bytes to the server, if that has the page. */
  ghost function EvictValid(c: Cache, v: Validity, r: int): (v': Validity)
    requires Consistent(c) && Fits(c, v)
    ensures Fits(Evict(c, r), v')
  {
    if r !in c.lines then v
    else
      Validity(
        if c.lines[r].dirty && Kept(c, r, c.lines[r].index)
        then v.remote[r := v.remote[r][c.lines[r].index := v.lines[r]]] else v.remote,
        v.lines - {r})
  }

  /** A read brings the valid bytes of a page the server has; a write fault brings none. */
  ghost function BringValid(c: Cache, v: Validity, r: int, i: nat, cause: Cause): (v': Validity)
    requires Consistent(c) && Fits(c, v) && r in c.live && i < c.live[r]
    ensures Fits(Bring(c, r, i, cause), v')
  {
    if Resident(c, r, i) then v
    else
      var e := EvictValid(c, v, r);
      e.(lines := e.lines[r := if cause.Read? && Kept(c, r, i) then e.remote[r][i] else {}])
  }

  /** A store makes its bytes valid locally; on a read-faulted page it makes the
      server's copy of them stale. */
  ghost function HitValid(c: Cache, v: Validity, r: int, at: nat, len: nat): (v': Validity)
    requires Consistent(c) && Fits(c, v) && r in c.lines
    ensures Fits(c, v')
  {
    var i, grown := c.lines[r].index, v.(lines := v.lines[r := v.lines[r] + Span(at, len)]);
    if c.lines[r].dirty || !Kept(c, r, i) then grown
    else grown.(remote := grown.remote[r := grown.remote[r][i := grown.remote[r][i] - Span(at, len)]])
  }

  ghost function StoreValid(c: Cache, v: Validity, r: int, i: nat, at: nat, len: nat): (v': Validity)
    requires Consistent(c) && Fits(c, v) && r in c.live && i < c.live[r]
    ensures Fits(Bring(c, r, i, Write), v')
  {
    HitValid(Bring(c, r, i, Write), BringValid(c, v, r, i, Write), r, at, len)
  }

  /** A registered region is to read as zeros, so what is zero on the server is valid. */
  ghost function RegisterValid(c: Cache, v: Validity, r: int, n: nat): (v': Validity)
    requires Consistent(c) && Fits(c, v) && r !in c.live
    ensures Fits(Registered(c, r, n), v')
  {
    var pages := Registered(c, r, n).remote[r];
    v.(remote := v.remote[r := seq(|pages|, i requires 0 <= i < |pages| => ZeroBytes(pages[i]))])
  }

  ghost function ValidStep(c: Cache, v: Validity, e: Event): (v': Validity)
    requires Consistent(c) && Fits(c, v)
    ensures Fits(Step(c, e), v')
  {
    if !Possible(c.live, e) then v
    else
      match e
      case Load(r, i, _, _, residue) => BringValid(c, v, r, i, Read(residue))
      case Store(r, i, at, bytes) => StoreValid(c, v, r, i, at, |bytes|)
      case Register(r, n) => RegisterValid(c, v, r, n)
      case Unregister(r) => EvictValid(c, v, r)
  }

  ghost function ValidRun(c: Cache, v: Validity, es: seq<Event>): (v': Validity)
    requires Consistent(c) && Fits(c, v)
    ensures Fits(Run(c, es), v')
  {
    if es == [] then v
    else ValidStep(Run(c, es[..|es| - 1]), ValidRun(c, v, es[..|es| - 1]), es[|es| - 1])
  }

  // ---- Soundness ----

  ghost predicate AgreeOn(p: Page, q: Page, ok: set<int>) {
    forall b :: 0 <= b < PAGE_SIZE && b in ok ==> p[b] == q[b]
  }

  /** The server's copy of the page counts: it is not shadowed by a write-faulted one. */
  predicate RemoteCounts(c: Cache, r: int, i: nat) {
    Kept(c, r, i) && !(Resident(c, r, i) && c.lines[r].dirty)
  }

  ghost predicate Sound(c: Cache, f: Flat, v: Validity) {
    && Consistent(c) && FlatConsistent(f) && f.live == c.live && Fits(c, v)
    && (forall r :: r in c.lines ==> AgreeOn(c.lines[r].data, f.pages[r][c.lines[r].index], v.lines[r]))
    && (forall r, i :: r in c.live && 0 <= i < c.live[r] && RemoteCounts(c, r, i) ==>
          AgreeOn(c.remote[r][i], f.pages[r][i], v.remote[r][i]))
  }

  lemma EvictSound(c: Cache, f: Flat, v: Validity, r: int)
    requires Sound(c, f, v)
    ensures Sound(Evict(c, r), f, EvictValid(c, v, r))
  {
    if r in c.lines {
      var c', v' := Evict(c, r), EvictValid(c, v, r);
      forall q, i | q in c'.live && 0 <= i < c'.live[q] && RemoteCounts(c', q, i)
        ensures AgreeOn(c'.remote[q][i], f.pages[q][i], v'.remote[q][i])
      {
        assert !(q == r && Resident(c, r, i)) ==> RemoteCounts(c, q, i);
      }
    }
  }

  lemma BringSound(c: Cache, f: Flat, v: Validity, r: int, i: nat, cause: Cause)
    requires Sound(c, f, v) && r in c.live && i < c.live[r]
    ensures Sound(Bring(c, r, i, cause), f, BringValid(c, v, r, i, cause))
  {
    if !Resident(c, r, i) {
      EvictSound(c, f, v, r);
      var e, e', w' := Evict(c, r), Bring(c, r, i, cause), BringValid(c, v, r, i, cause);
      assert Kept(e, r, i) ==> RemoteCounts(e, r, i);
      forall q, j | q in e'.live && 0 <= j < e'.live[q] && RemoteCounts(e', q, j)
        ensures AgreeOn(e'.remote[q][j], f.pages[q][j], w'.remote[q][j])
      {
        assert RemoteCounts(e, q, j);
      }
    }
  }

  lemma HitSound(c: Cache, f: Flat, v: Validity, r: int, at: nat, bytes: seq<Byte>)
    requires Sound(c, f, v) && r in c.lines && 0 < |bytes| && at + |bytes| <= PAGE_SIZE
    ensures Sound(Hit(c, r, at, bytes), FlatStep(f, Store(r, c.lines[r].index, at, bytes)), HitValid(c, v, r, at, |bytes|))
  {
    var i := c.lines[r].index;
    var c', f', v' := Hit(c, r, at, bytes), FlatStep(f, Store(r, i, at, bytes)), HitValid(c, v, r, at, |bytes|);
    assert AgreeOn(c'.lines[r].data, f'.pages[r][i], v'.lines[r]);
    forall q, j | q in c'.live && 0 <= j < c'.live[q] && RemoteCounts(c', q, j)
      ensures AgreeOn(c'.remote[q][j], f'.pages[q][j], v'.remote[q][j])
    {
      assert RemoteCounts(c, q, j);
      assert AgreeOn(c.remote[q][j], f.pages[q][j], v.remote[q][j]);
    }
  }

  lemma RegisterSound(c: Cache, f: Flat, v: Validity, r: int, n: nat)
    requires Sound(c, f, v) && r !in c.live && 0 < n
    ensures Sound(Registered(c, r, n), FlatStep(f, Register(r, n)), RegisterValid(c, v, r, n))
  {
    var c', f', v' := Registered(c, r, n), FlatStep(f, Register(r, n)), RegisterValid(c, v, r, n);
    forall q, j | q in c'.live && 0 <= j < c'.live[q] && RemoteCounts(c', q, j)
      ensures AgreeOn(c'.remote[q][j], f'.pages[q][j], v'.remote[q][j])
    {
      assert q != r ==> RemoteCounts(c, q, j);
    }
  }

  lemma UnregisterSound(c: Cache, f: Flat, v: Validity, r: int)
    requires Sound(c, f, v) && r in c.live
    ensures Sound(Step(c, Unregister(r)), FlatStep(f, Unregister(r)), EvictValid(c, v, r))
  {
    EvictSound(c, f, v, r);
    var d, c' := Evict(c, r), Step(c, Unregister(r));
    forall q, j | q in c'.live && 0 <= j < c'.live[q] && RemoteCounts(c', q, j)
      ensures RemoteCounts(d, q, j)
    {
    }
  }

  /** Every event keeps the valid bytes, here and on the server, equal to plain memory's. */
  lemma StepSound(c: Cache, f: Flat, v: Validity, e: Event)
    requires Sound(c, f, v)
    ensures Sound(Step(c, e), FlatStep(f, e), ValidStep(c, v, e))
  {
    hide Evict, Fault;
    if Possible(c.live, e) {
      match e
      case Load(r, i, _, _, residue) => BringSound(c, f, v, r, i, Read(residue));
      case Store(r, i, at, bytes) =>
        BringSound(c, f, v, r, i, Write);
        HitSound(Bring(c, r, i, Write), f, BringValid(c, v, r, i, Write), r, at, bytes);
      case Register(r, n) => RegisterSound(c, f, v, r, n);
      case Unregister(r) => UnregisterSound(c, f, v, r);
    }
  }

  lemma {:induction false} RunSound(c: Cache, f: Flat, v: Validity, es: seq<Event>)
    requires Sound(c, f, v)
    ensures Sound(Run(c, es), FlatRun(f, es), ValidRun(c, v, es))
  {
    hide Sound, Step, FlatStep, ValidStep;
    assert Consistent(c) && FlatConsistent(f) && Fits(c, v) by { SoundIs(c, f, v); }
    if es != [] {
      var n := |es| - 1;
      RunSound(c, f, v, es[..n]);
      StepSound(Run(c, es[..n]), FlatRun(f, es[..n]), ValidRun(c, v, es[..n]), es[n]);
    }
  }

  lemma SoundIs(c: Cache, f: Flat, v: Validity)
    requires Sound(c, f, v)
    ensures Consistent(c) && FlatConsistent(f) && f.live == c.live && Fits(c, v)
  {
  }

  /** The bytes of a page a load could rely on now. */
  ghost function ValidBytes(c: Cache, v: Validity, r: int, i: nat): set<int>
    requires Consistent(c) && Fits(c, v)
  {
    if Resident(c, r, i) then v.lines[r] else if Kept(c, r, i) then v.remote[r][i] else {}
  }

  lemma LoadSound(c: Cache, f: Flat, v: Validity, e: Event)
    requires Sound(c, f, v) && e.Load? && Possible(c.live, e)
    requires Span(e.at, e.len) <= ValidBytes(c, v, e.region, e.index)
    ensures Loaded(c, e) == f.pages[e.region][e.index][e.at..e.at + e.len]
  {
    var r, i, cause := e.region, e.index, Read(e.residue);
    BringSound(c, f, v, r, i, cause);
    var b, w := Bring(c, r, i, cause), BringValid(c, v, r, i, cause);
    assert AgreeOn(b.lines[r].data, f.pages[r][i], w.lines[r]);
    assert Covers(e.at, e.at, e.len);
    forall k | e.at <= k < e.at + e.len ensures b.lines[r].data[k] == f.pages[r][i][k] {
      assert Covers(k, e.at, e.len);
    }
  }

  /** In every run over any number of regions, registered once or several times, that
      starts with nothing local, a load of bytes marked valid returns what plain memory
      holds there. */
  lemma ValidLoadsAreFlat(c: Cache, es: seq<Event>, e: Event)
    requires Cold(c) && Whole(c)
    requires var c', v' := Run(c, es), ValidRun(c, AllValid(c.remote), es);
      e.Load? && Possible(c'.live, e) && Span(e.at, e.len) <= ValidBytes(c', v', e.region, e.index)
    ensures var f := FlatRun(FlatOf(c), es);
      && Possible(f.live, e)
      && Loaded(Run(c, es), e) == f.pages[e.region][e.index][e.at..e.at + e.len]
  {
    var f, v := FlatOf(c), AllValid(c.remote);
    RunSound(c, f, v, es);
    LoadSound(Run(c, es), FlatRun(f, es), ValidRun(c, v, es), e);
  }
}

/** The sequential workload keeps the discipline under which remote memory is plain memory. */
module FillDiscipline {
  import opened Words
  import opened PageCache
  import opened FlatMemory
  import opened Transparency
  import opened SequentialFill
  import opened ProgramTraces

  predicate EightBytes(m: nat, enc: nat -> seq<Byte>) {
    forall j :: 0 <= j < m ==> |enc(j)| == 8
  }

  lemma RunSnoc(c: Cache, v: Validity, es: seq<Event>, e: Event)
    requires Consistent(c) && Fits(c, v)
    ensures Run(c, es + [e]) == Step(Run(c, es), e)
    ensures ValidRun(c, v, es + [e]) == ValidStep(Run(c, es), ValidRun(c, v, es), e)
    ensures DisciplinedRun(c, v, es + [e]) <==>
      DisciplinedRun(c, v, es) && Disciplined(Run(c, es), ValidRun(c, v, es), e)
  {
    assert (es + [e])[..|es|] == es;
    hide Step, ValidStep, Disciplined;
  }

  /** While filling, the local page is valid from its start to the last element stored. */
  ghost predicate FilledValidly(c: Cache, v: Validity, r: int, k: nat, i: nat, enc: nat -> seq<Byte>, gets: nat, puts: nat) {
    && Filled(c, r, k, i, enc, gets, puts) && Fits(c, v)
    && (i > 0 ==> v.lines[r] == Span(0, (i - 1) % 512 * 8 + 8))
  }

  lemma FillFaultDisciplined(c: Cache, v: Validity, r: int, k: nat, i: nat, enc: nat -> seq<Byte>, gets: nat, puts: nat)
    requires FilledValidly(c, v, r, k, i, enc, gets, puts) && i < 512 * k && |enc(i)| == 8 && i % 512 == 0
    ensures Disciplined(c, v, StoreOf(r, i, enc))
    ensures FilledValidly(Step(c, StoreOf(r, i, enc)), ValidStep(c, v, StoreOf(r, i, enc)), r, k, i + 1, enc, gets, puts)
  {
    var v' := ValidStep(c, v, StoreOf(r, i, enc));
    FillFault(c, r, k, i, enc, gets, puts);
    assert i > 0 ==> (i - 1) / 512 != i / 512 && (i - 1) % 512 == 511;
    assert !Resident(c, r, i / 512);
    assert v'.lines[r] == {} + Span(0, 8) == Span(0, 8);
  }

  lemma FillHitDisciplined(c: Cache, v: Validity, r: int, k: nat, i: nat, enc: nat -> seq<Byte>, gets: nat, puts: nat)
    requires FilledValidly(c, v, r, k, i, enc, gets, puts) && i < 512 * k && |enc(i)| == 8 && i % 512 != 0
    ensures Disciplined(c, v, StoreOf(r, i, enc))
    ensures FilledValidly(Step(c, StoreOf(r, i, enc)), ValidStep(c, v, StoreOf(r, i, enc)), r, k, i + 1, enc, gets, puts)
  {
    var v' := ValidStep(c, v, StoreOf(r, i, enc));
    FillHit(c, r, k, i, enc, gets, puts);
    assert (i - 1) / 512 == i / 512 && (i - 1) % 512 == i % 512 - 1;
    assert v'.lines[r] == v.lines[r] + Span(i % 512 * 8, 8);
    JoinSpans(i % 512 * 8);
  }

  lemma FillStepDisciplined(c: Cache, v: Validity, r: int, k: nat, i: nat, enc: nat -> seq<Byte>, gets: nat, puts: nat)
    requires FilledValidly(c, v, r, k, i, enc, gets, puts) && i < 512 * k && |enc(i)| == 8
    ensures Disciplined(c, v, StoreOf(r, i, enc))
    ensures FilledValidly(Step(c, StoreOf(r, i, enc)), ValidStep(c, v, StoreOf(r, i, enc)), r, k, i + 1, enc, gets, puts)
  {
    hide *;
    if i % 512 == 0 {
      FillFaultDisciplined(c, v, r, k, i, enc, gets, puts);
    } else {
      FillHitDisciplined(c, v, r, k, i, enc, gets, puts);
    }
  }

  lemma JoinSpans(n: nat)
    ensures Span(0, n) + Span(n, 8) == Span(0, n + 8)
  {
    forall b ensures b in Span(0, n) + Span(n, 8) <==> b in Span(0, n + 8) {
      assert Covers(b, 0, n) || Covers(b, n, 8) <==> Covers(b, 0, n + 8);
    }
  }

  /** The run of `es` was disciplined and left the fill loop's state. */
  ghost predicate FillReached(c: Cache, v: Validity, es: seq<Event>, r: int, k: nat, i: nat, enc: nat -> seq<Byte>)
    requires Consistent(c) && Fits(c, v)
  {
    && DisciplinedRun(c, v, es)
    && FilledValidly(Run(c, es), ValidRun(c, v, es), r, k, i, enc, c.gets, c.puts)
  }

  /** Where the workload may start: region `r` has nothing local; others may. */
  ghost predicate Ready(c: Cache, v: Validity, r: int, k: nat) {
    HasRegion(c, r, k) && Fits(c, v) && r !in c.lines
  }

  lemma NoFillYet(c: Cache, v: Validity, r: int, k: nat, enc: nat -> seq<Byte>)
    requires Ready(c, v, r, k)
    ensures FillReached(c, v, [], r, k, 0, enc)
  {
  }

  lemma FillReachedNext(c: Cache, v: Validity, es: seq<Event>, r: int, k: nat, i: nat, enc: nat -> seq<Byte>)
    requires Consistent(c) && Fits(c, v) && FillReached(c, v, es, r, k, i, enc) && i < 512 * k && |enc(i)| == 8
    ensures FillReached(c, v, es + [StoreOf(r, i, enc)], r, k, i + 1, enc)
  {
    hide FilledValidly, Run, ValidRun, DisciplinedRun, Disciplined, Step, ValidStep;
    RunSnoc(c, v, es, StoreOf(r, i, enc));
    FillStepDisciplined(Run(c, es), ValidRun(c, v, es), r, k, i, enc, c.gets, c.puts);
  }

  lemma {:induction false} FillDisciplined(c: Cache, v: Validity, r: int, k: nat, i: nat, enc: nat -> seq<Byte>)
    requires Ready(c, v, r, k) && i <= 512 * k && EightBytes(512 * k, enc)
    ensures FillReached(c, v, Fills(r, i, enc), r, k, i, enc)
  {
    hide FillReached;
    if i == 0 {
      NoFillYet(c, v, r, k, enc);
    } else {
      FillDisciplined(c, v, r, k, i - 1, enc);
      FillReachedNext(c, v, Fills(r, i - 1, enc), r, k, i - 1, enc);
    }
  }

  /** While reading, a write-faulted local page is entirely valid. */
  ghost predicate ReadableValidly(c: Cache, v: Validity, r: int, k: nat, i: nat, enc: nat -> seq<Byte>, gets: nat, puts: nat) {
    && Readable(c, r, k, i, enc, gets, puts) && Fits(c, v)
    && (c.lines[r].dirty ==> v.lines[r] == AllBytes())
  }

  lemma ReadStepDisciplined(c: Cache, v: Validity, r: int, k: nat, i: nat, enc: nat -> seq<Byte>, gets: nat, puts: nat,
                            residue: Page)
    requires ReadableValidly(c, v, r, k, i, enc, gets, puts) && i < 512 * k
    ensures Disciplined(c, v, LoadOf(r, i, residue))
    ensures ReadableValidly(Step(c, LoadOf(r, i, residue)), ValidStep(c, v, LoadOf(r, i, residue)), r, k, i + 1, enc, gets, puts)
  {
    ReadStep(c, r, k, i, enc, gets, puts, residue);
    assert forall b :: Covers(b, i % 512 * 8, 8) ==> Covers(b, 0, PAGE_SIZE);
  }

  ghost predicate ReadReached(c: Cache, v: Validity, es: seq<Event>, r: int, k: nat, i: nat, enc: nat -> seq<Byte>)
    requires Consistent(c) && Fits(c, v)
  {
    && DisciplinedRun(c, v, es)
    && ReadableValidly(Run(c, es), ValidRun(c, v, es), r, k, i, enc, c.gets, c.puts)
  }

  lemma NoReadYet(c: Cache, v: Validity, es: seq<Event>, r: int, k: nat, enc: nat -> seq<Byte>)
    requires Consistent(c) && Fits(c, v) && FillReached(c, v, es, r, k, 512 * k, enc) && 0 < k
    ensures ReadReached(c, v, es, r, k, 0, enc)
  {
    hide Run, ValidRun, DisciplinedRun;
    FilledIsReadable(Run(c, es), r, k, enc, c.gets, c.puts);
    assert (512 * k - 1) % 512 == 511;
  }

  lemma ReadReachedNext(c: Cache, v: Validity, es: seq<Event>, r: int, k: nat, i: nat, enc: nat -> seq<Byte>, residue: Page)
    requires Consistent(c) && Fits(c, v) && ReadReached(c, v, es, r, k, i, enc) && i < 512 * k
    ensures ReadReached(c, v, es + [LoadOf(r, i, residue)], r, k, i + 1, enc)
  {
    hide ReadableValidly, Run, ValidRun, DisciplinedRun, Disciplined, Step, ValidStep;
    RunSnoc(c, v, es, LoadOf(r, i, residue));
    ReadStepDisciplined(Run(c, es), ValidRun(c, v, es), r, k, i, enc, c.gets, c.puts, residue);
  }

  lemma {:induction false} WorkloadReached(c: Cache, v: Validity, r: int, k: nat, i: nat, enc: nat -> seq<Byte>,
                                           residues: nat -> Page)
    requires Ready(c, v, r, k) && 0 < k && i <= 512 * k && EightBytes(512 * k, enc)
    ensures ReadReached(c, v, FillsAndLoads(r, k, i, enc, residues), r, k, i, enc)
  {
    hide FillReached, ReadReached, EightBytes;
    if i == 0 {
      FillDisciplined(c, v, r, k, 512 * k, enc);
      NoReadYet(c, v, Fills(r, 512 * k, enc), r, k, enc);
    } else {
      WorkloadReached(c, v, r, k, i - 1, enc, residues);
      ReadReachedNext(c, v, FillsAndLoads(r, k, i - 1, enc, residues), r, k, i - 1, enc, residues(i - 1));
    }
  }

  /** The whole workload is disciplined, whatever is local in other regions: the page
      left over by the fill loop is complete when the first load evicts it. */
  lemma WorkloadDisciplined(c: Cache, v: Validity, r: int, k: nat, enc: nat -> seq<Byte>, residues: nat -> Page)
    requires Consistent(c) && Fits(c, v) && r in c.live && r !in c.lines
    requires 0 < k <= c.live[r] && k <= |c.remote[r]| && forall j :: 0 <= j < 512 * k ==> |enc(j)| == 8
    ensures DisciplinedRun(c, v, Workload(r, k, enc, residues))
  {
    WorkloadReached(c, v, r, k, 512 * k, enc, residues);
  }

  // ---- The whole program ----

  lemma {:induction false} RunConcat(c: Cache, v: Validity, es: seq<Event>, fs: seq<Event>)
    requires Consistent(c) && Fits(c, v)
    ensures Run(c, es + fs) == Run(Run(c, es), fs)
    ensures ValidRun(c, v, es + fs) == ValidRun(Run(c, es), ValidRun(c, v, es), fs)
    ensures DisciplinedRun(c, v, es + fs) <==>
      DisciplinedRun(c, v, es) && DisciplinedRun(Run(c, es), ValidRun(c, v, es), fs)
  {
    if fs == [] {
      assert es + fs == es;
    } else {
      var n := |fs| - 1;
      assert es + fs == es + fs[..n] + [fs[n]] && fs == fs[..n] + [fs[n]];
      RunConcat(c, v, es, fs[..n]);
      RunSnoc(c, v, es + fs[..n], fs[n]);
      RunSnoc(Run(c, es), ValidRun(c, v, es), fs[..n], fs[n]);
      hide Run, ValidRun, DisciplinedRun, Disciplined, Step, ValidStep;
    }
  }

  predicate AccessesOnly(es: seq<Event>, r: int) {
    forall j :: 0 <= j < |es| ==> es[j].IsAccess() && es[j].region == r
  }

  lemma {:induction false} RunStaysInRegion(c: Cache, es: seq<Event>, r: int)
    requires Consistent(c) && AccessesOnly(es, r)
    ensures SameElsewhere(c, Run(c, es), r)
  {
    if es != [] {
      var n := |es| - 1;
      assert forall j :: 0 <= j < n ==> es[..n][j] == es[j];
      RunStaysInRegion(c, es[..n], r);
      AccessStaysInRegion(c, Run(c, es[..n]), es[n]);
    }
  }

  lemma {:induction false} FillsAccessOnly(r: int, i: nat, enc: nat -> seq<Byte>)
    ensures AccessesOnly(Fills(r, i, enc), r)
  {
    if i > 0 { FillsAccessOnly(r, i - 1, enc); }
  }

  lemma {:induction false} WorkloadAccessesOnly(r: int, k: nat, i: nat, enc: nat -> seq<Byte>, residues: nat -> Page)
    ensures AccessesOnly(FillsAndLoads(r, k, i, enc, residues), r)
  {
    if i == 0 { FillsAccessOnly(r, 512 * k, enc); } else { WorkloadAccessesOnly(r, k, i - 1, enc, residues); }
  }

  /** All regions of `rs` are there with `n` pages, the server has them, and none has a
      local page. */
  ghost predicate AllReady(c: Cache, rs: seq<int>, n: nat) {
    forall r :: r in rs ==> HasRegion(c, r, n) && r !in c.lines
  }

  lemma {:induction false} RegistersDisciplined(rs: seq<int>, n: nat)
    requires Distinct(rs) && 0 < n
    ensures var c, v := Blank(), AllValid(Blank().remote);
      && DisciplinedRun(c, v, Registers(rs, n))
      && var d := Run(c, Registers(rs, n)); AllReady(d, rs, n) && forall r :: r in d.remote ==> r in rs
  {
    if rs != [] {
      var m := |rs| - 1;
      var c, v, es, e := Blank(), AllValid(Blank().remote), Registers(rs[..m], n), Register(rs[m], n);
      RegistersDisciplined(rs[..m], n);
      RunSnoc(c, v, es, e);
      assert rs == rs[..m] + [rs[m]];
      assert rs[m] !in rs[..m];
      RegisterMakesReady(Run(c, es), ValidRun(c, v, es), rs[..m], rs[m], n);
      hide Run, ValidRun, DisciplinedRun, Disciplined, Step, ValidStep, HasRegion;
    }
  }

  lemma RegisterMakesReady(c: Cache, v: Validity, rs: seq<int>, r: int, n: nat)
    requires Consistent(c) && Fits(c, v) && AllReady(c, rs, n) && 0 < n && r !in rs && forall q :: q in c.remote ==> q in rs
    ensures Disciplined(c, v, Register(r, n))
    ensures AllReady(Step(c, Register(r, n)), rs + [r], n)
    ensures forall q :: q in Step(c, Register(r, n)).remote ==> q in rs + [r]
  {
  }

  /** The workloads of distinct regions, run one after the other from a state in which
      all are ready, are disciplined together. */
  lemma {:induction false} WorkloadsDisciplined(c: Cache, v: Validity, rs: seq<int>, k: nat, n: nat, enc: nat -> seq<Byte>,
                                                residues: nat -> Page)
    requires Consistent(c) && Fits(c, v) && AllReady(c, rs, n) && Distinct(rs) && 0 < k <= n && EightBytes(512 * k, enc)
    ensures DisciplinedRun(c, v, Workloads(rs, k, enc, residues))
    ensures forall q :: q !in rs ==> SameRegionIn(c, Run(c, Workloads(rs, k, enc, residues)), q)
  {
    if rs != [] {
      var m := |rs| - 1;
      var r, es, fs := rs[m], Workloads(rs[..m], k, enc, residues), Workload(rs[m], k, enc, residues);
      assert Distinct(rs[..m]) && rs == rs[..m] + [r] && r !in rs[..m];
      WorkloadsDisciplined(c, v, rs[..m], k, n, enc, residues);
      var d, w := Run(c, es), ValidRun(c, v, es);
      WorkloadAccessesOnly(r, k, 512 * k, enc, residues);
      RunStaysInRegion(d, fs, r);
      StillReady(c, d, w, r, k, n);
      WorkloadDisciplined(d, w, r, k, enc, residues);
      RunConcat(c, v, es, fs);
      hide Run, ValidRun, DisciplinedRun, Workload, Ready, AllReady, EightBytes, Consistent, Fits;
      forall q | q !in rs ensures SameRegionIn(c, Run(c, es + fs), q) {
        SameRegionTrans(c, d, Run(d, fs), r, q);
      }
    }
  }

  /** Region `q` is in both as it was: pages, size and local page. */
  ghost predicate SameRegionIn(c: Cache, d: Cache, q: int) {
    && (q in c.live <==> q in d.live) && (q in c.live ==> c.live[q] == d.live[q])
    && (q in c.remote <==> q in d.remote) && (q in c.remote ==> c.remote[q] == d.remote[q])
    && (q in c.lines <==> q in d.lines)
  }

  lemma SameRegionTrans(c: Cache, d: Cache, e: Cache, r: int, q: int)
    requires SameRegionIn(c, d, q) && SameElsewhere(d, e, r) && q != r
    ensures SameRegionIn(c, e, q)
  {
  }

  lemma StillReady(c: Cache, d: Cache, w: Validity, r: int, k: nat, n: nat)
    requires HasRegion(c, r, n) && r !in c.lines && k <= n && SameRegionIn(c, d, r) && Consistent(d) && Fits(d, w)
    ensures Ready(d, w, r, k)
  {
  }

  /** Every event of the program is disciplined. */
  lemma ProgramDisciplined(rs: seq<int>, k: nat, n: nat, enc: nat -> seq<Byte>, residues: nat -> Page)
    requires forall i, j :: 0 <= i < j < |rs| ==> rs[i] != rs[j]
    requires 0 < k <= n && forall j :: 0 <= j < 512 * k ==> |enc(j)| == 8
    ensures DisciplinedRun(Blank(), AllValid(Blank().remote), ProgramTrace(rs, k, n, enc, residues))
  {
    var c, v := Blank(), AllValid(Blank().remote);
    RegistersDisciplined(rs, n);
    RunConcat(c, v, Registers(rs, n), Workloads(rs, k, enc, residues));
    hide Run, ValidRun, DisciplinedRun, Blank, AllValid, AllReady, Workloads, Registers;
    WorkloadsDisciplined(Run(c, Registers(rs, n)), ValidRun(c, v, Registers(rs, n)), rs, k, n, enc, residues);
  }

  /** So each of its loads returns what plain memory holds. */
  lemma ProgramLoadsAreFlat(rs: seq<int>, k: nat, n: nat, enc: nat -> seq<Byte>, residues: nat -> Page, j: nat)
    requires forall i, j :: 0 <= i < j < |rs| ==> rs[i] != rs[j]
    requires 0 < k <= n && forall j :: 0 <= j < 512 * k ==> |enc(j)| == 8
    requires var es := ProgramTrace(rs, k, n, enc, residues);
      j < |es| && es[j].Load? && Possible(Run(Blank(), es[..j]).live, es[j])
    ensures var es := ProgramTrace(rs, k, n, enc, residues);
      var e, f := es[j], FlatRun(FlatOf(Blank()), es[..j]);
      && Possible(f.live, e)
      && Loaded(Run(Blank(), es[..j]), e) == f.pages[e.region][e.index][e.at..e.at + e.len]
  {
    ProgramDisciplined(rs, k, n, enc, residues);
    hide ProgramTrace, DisciplinedRun, Run, FlatRun, Loaded, Possible, AllValid;
    LoadsOfDisciplinedRun(Blank(), ProgramTrace(rs, k, n, enc, residues), j);
  }
}

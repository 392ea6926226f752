/** The client program as a sequence of events. */
module ProgramTraces {
  import opened Words
  import opened PageCache

  function StoreOf(r: int, i: nat, enc: nat -> seq<Byte>): Event {
    Store(r, i / 512, i % 512 * 8, enc(i))
  }

  function LoadOf(r: int, i: nat, residue: Page): Event {
    Load(r, i / 512, i % 512 * 8, 8, residue)
  }

  /** The first `i` accesses of the fill loop. */
  function Fills(r: int, i: nat, enc: nat -> seq<Byte>): seq<Event> {
    if i == 0 then [] else Fills(r, i - 1, enc) + [StoreOf(r, i - 1, enc)]
  }

  /** The fill loop over k pages and the first `i` accesses of the sum loop. */
  function FillsAndLoads(r: int, k: nat, i: nat, enc: nat -> seq<Byte>, residues: nat -> Page): seq<Event> {
    if i == 0 then Fills(r, 512 * k, enc)
    else FillsAndLoads(r, k, i - 1, enc, residues) + [LoadOf(r, i - 1, residues(i - 1))]
  }

  /** Fill then sum of one region, from its first store to its last load. */
  function Workload(r: int, k: nat, enc: nat -> seq<Byte>, residues: nat -> Page): seq<Event> {
    FillsAndLoads(r, k, 512 * k, enc, residues)
  }

  /** Registers the regions of `rs` with `n` pages each. */
  function Registers(rs: seq<int>, n: nat): seq<Event> {
    if rs == [] then [] else Registers(rs[..|rs| - 1], n) + [Register(rs[|rs| - 1], n)]
  }

  /** Fills and sums k pages of each region of `rs` in turn. */
  function Workloads(rs: seq<int>, k: nat, enc: nat -> seq<Byte>, residues: nat -> Page): seq<Event> {
    if rs == [] then [] else Workloads(rs[..|rs| - 1], k, enc, residues) + Workload(rs[|rs| - 1], k, enc, residues)
  }

  /** The client program from its start, with no region at all: register any number of
      regions, then fill and sum each in turn. */
  function ProgramTrace(rs: seq<int>, k: nat, n: nat, enc: nat -> seq<Byte>, residues: nat -> Page): seq<Event> {
    Registers(rs, n) + Workloads(rs, k, enc, residues)
  }

  lemma RunMore(c: Cache, es: seq<Event>, e: Event)
    requires Consistent(c)
    ensures Run(c, es + [e]) == Step(Run(c, es), e)
  {
    assert (es + [e])[..|es|] == es;
  }

  lemma {:induction false} RunAppend(c: Cache, es: seq<Event>, fs: seq<Event>)
    requires Consistent(c)
    ensures Run(c, es + fs) == Run(Run(c, es), fs)
  {
    if fs == [] {
      assert es + fs == es;
    } else {
      var n := |fs| - 1;
      assert es + fs == es + fs[..n] + [fs[n]] && fs == fs[..n] + [fs[n]];
      RunAppend(c, es, fs[..n]);
      RunMore(c, es + fs[..n], fs[n]);
      RunMore(Run(c, es), fs[..n], fs[n]);
      hide Run, Step;
    }
  }
}

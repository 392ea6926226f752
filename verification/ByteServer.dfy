/**
 * The page server as it is written: two tables indexed by handle, a u32 handle
 * counter, u32 size arithmetic and byte-addressed memory.
 */
module ByteServer {
  import opened Words
  import opened PageTable

  /** `mem` holds exactly the mapped bytes of the process. */
  datatype State = State(
    handleCount: U32, addrMap: map<int, int>, hndlNPages: map<int, U32>, mem: map<int, Byte>)

  datatype Option<+T> = None | Some(value: T)

  /** Touching an unmapped byte ends the process. */
  datatype Outcome = Reply(state: State, msg: Message) | Segv

  // ---- Kernel ----

  predicate Mapped(mem: map<int, Byte>, a: int, n: int) {
    forall x :: a <= x < a + n ==> x in mem
  }

  predicate Free(mem: map<int, Byte>, a: int, n: int) {
    forall x :: a <= x < a + n ==> x !in mem
  }

  /** The answers mmap may give: none at all, or, for a positive length, the
      start of a page-aligned unmapped interval. */
  predicate MmapMayAnswer(mem: map<int, Byte>, len: int, answer: Option<int>) {
    answer.Some? ==>
      && 0 < len
      && 0 < answer.value && answer.value % PAGE_SIZE == 0
      && Free(mem, answer.value, RoundUp(len))
  }

  predicate Within(x: int, a: int, n: int) {
    a <= x < a + n
  }

  function Mmap(mem: map<int, Byte>, base: int, len: int): (r: map<int, Byte>)
    ensures forall x :: x in r <==> x in mem || Within(x, base, RoundUp(len))
    ensures forall x :: x in r ==> r[x] == if Within(x, base, RoundUp(len)) then 0 else mem[x]
  {
    mem + map x | base <= x < base + RoundUp(len) && Within(x, base, RoundUp(len)) :: 0
  }

  function Munmap(mem: map<int, Byte>, base: int, len: int): (r: map<int, Byte>)
    ensures forall x :: x in r <==> x in mem && !Within(x, base, RoundUp(len))
    ensures forall x :: x in r ==> r[x] == mem[x]
  {
    map x | x in mem && !Within(x, base, RoundUp(len)) :: mem[x]
  }

  function PageAt(mem: map<int, Byte>, a: int): (p: Page)
    requires Mapped(mem, a, PAGE_SIZE)
    ensures forall b :: 0 <= b < PAGE_SIZE ==> p[b] == mem[a + b]
  {
    seq(4096, b requires 0 <= b < 4096 => mem[a + b])
  }

  function Memcpy(mem: map<int, Byte>, a: int, data: Page): (r: map<int, Byte>)
    ensures forall x :: x in r <==> x in mem || Within(x, a, PAGE_SIZE)
    ensures forall x :: x in r ==> r[x] == if Within(x, a, PAGE_SIZE) then data[x - a] else mem[x]
  {
    mem + map x | a <= x < a + PAGE_SIZE && Within(x, a, PAGE_SIZE) :: data[x - a]
  }

  lemma PageAtMemcpy(mem: map<int, Byte>, a: int, data: Page, b: int)
    requires Mapped(mem, a, PAGE_SIZE) && Mapped(mem, b, PAGE_SIZE)
    requires a == b || a + PAGE_SIZE <= b || b + PAGE_SIZE <= a
    ensures Mapped(Memcpy(mem, a, data), b, PAGE_SIZE)
    ensures PageAt(Memcpy(mem, a, data), b) == if a == b then data else PageAt(mem, b)
  {
  }

  lemma PageAtMmap(mem: map<int, Byte>, base: int, len: int, a: int)
    requires base <= a && a + PAGE_SIZE <= base + RoundUp(len)
    ensures Mapped(Mmap(mem, base, len), a, PAGE_SIZE)
    ensures PageAt(Mmap(mem, base, len), a) == ZeroPage()
  {
  }

  // ---- unordered_map::operator[] ----

  function At(m: map<int, int>, h: int): int {
    if h in m then m[h] else 0
  }

  function Touch<T>(m: map<int, T>, h: int, zero: T): map<int, T> {
    if h in m then m else m[h := zero]
  }

  function AfterLookups(s: State, h: int): State {
    s.(hndlNPages := Touch(s.hndlNPages, h, 0), addrMap := Touch(s.addrMap, h, 0))
  }

  // ---- Requests ----

  function MapRequest(s: State, m: Message, answer: Option<int>): Outcome {
    if answer.None? then
      Reply(s, m.(error := ALLOC_FAILED))
    else
      var h := s.handleCount;
      Reply(State((h + 1) % U32_LIMIT, s.addrMap[h := answer.value], s.hndlNPages[h := m.npages],
                  Mmap(s.mem, answer.value, Mul32(m.npages, m.size))),
            m.(hndl := h))
  }

  /** The address a get or a put of `m` copies from or to. */
  function Target(s: State, m: Message): int {
    At(s.addrMap, m.hndl) + Mul32(m.size, m.offset)
  }

  /** Server::read.  The lookups come first, so an unknown handle enters both tables. */
  function ReadPage(s: State, m: Message): Outcome {
    if At(s.hndlNPages, m.hndl) <= m.offset then
      Reply(AfterLookups(s, m.hndl), m.(error := READ_FAILED))
    else if !Mapped(s.mem, Target(s, m), PAGE_SIZE) then
      Segv
    else
      Reply(AfterLookups(s, m.hndl), m.(data := PageAt(s.mem, Target(s, m))))
  }

  /** Server::write. */
  function WritePage(s: State, m: Message): Outcome {
    if At(s.hndlNPages, m.hndl) <= m.offset then
      Reply(AfterLookups(s, m.hndl), m.(error := WRITE_FAILED))
    else if !Mapped(s.mem, Target(s, m), PAGE_SIZE) then
      Segv
    else
      Reply(AfterLookups(s, m.hndl).(mem := Memcpy(s.mem, Target(s, m), m.data)), m)
  }

  function GetRequest(s: State, m: Message): Outcome {
    if m.hndl !in s.addrMap then Reply(s, m.(error := INVALID_HANDLE)) else ReadPage(s, m)
  }

  function PutRequest(s: State, m: Message): Outcome {
    if m.hndl !in s.addrMap then Reply(s, m.(error := INVALID_HANDLE)) else WritePage(s, m)
  }

  function FreeRequest(s: State, m: Message): Outcome {
    var n := At(s.hndlNPages, m.hndl);
    if m.hndl !in s.addrMap then
      Reply(s, m.(error := INVALID_HANDLE))
    else if n == 0 then
      Reply(s.(hndlNPages := Touch(s.hndlNPages, m.hndl, 0)), m.(error := FREE_FAILED))
    else if Mul32(n, m.size) == 0 then // munmap refuses length 0
      Reply(AfterLookups(s, m.hndl), m.(error := FREE_FAILED))
    else
      Reply(State(s.handleCount, s.addrMap - {m.hndl}, s.hndlNPages - {m.hndl},
                  Munmap(s.mem, s.addrMap[m.hndl], Mul32(n, m.size))), m)
  }

  function Handle(s: State, m: Message, answer: Option<int>): Outcome {
    if m.action == MAP then MapRequest(s, m, answer)
    else if m.action == GET then GetRequest(s, m)
    else if m.action == PUT then PutRequest(s, m)
    else if m.action == FREE then FreeRequest(s, m)
    else Reply(s, m.(error := UNKNOWN_ACTION))
  }

  // ---- Invariants ----

  /** Holds whatever the packets carry: the two tables list the same handles, all
      of them issued, each with a page. */
  ghost predicate TablesAgree(s: State, issued: nat) {
    && s.handleCount == issued % U32_LIMIT
    && s.addrMap.Keys == s.hndlNPages.Keys
    && forall h :: h in s.addrMap ==> 0 <= h < issued && 1 <= s.hndlNPages[h]
  }

  ghost predicate RegionMapped(s: State, h: int)
    requires h in s.addrMap && h in s.hndlNPages
  {
    && s.hndlNPages[h] < MAX_PAGES
    && 0 < s.addrMap[h]
    && Mapped(s.mem, s.addrMap[h], Bytes(s.hndlNPages[h]))
  }

  ghost predicate Apart(addrs: map<int, int>, sizes: map<int, U32>, g: int, h: int)
    requires g in addrs && g in sizes && h in addrs && h in sizes
  {
    || addrs[g] + Bytes(sizes[g]) <= addrs[h]
    || addrs[h] + Bytes(sizes[h]) <= addrs[g]
  }

  /** Every live handle owns a mapped interval of its own, as long as its pages. */
  ghost predicate Inv(s: State, issued: nat) {
    && TablesAgree(s, issued)
    && (forall h :: h in s.addrMap ==> RegionMapped(s, h))
    && (forall g, h :: g in s.addrMap && h in s.addrMap && g != h ==> Apart(s.addrMap, s.hndlNPages, g, h))
  }

  /** The pages of a handle, read off the bytes. */
  ghost function PagesOf(s: State, h: int): (ps: seq<Page>)
    requires h in s.addrMap && h in s.hndlNPages && RegionMapped(s, h)
    ensures |ps| == s.hndlNPages[h]
    ensures forall o :: 0 <= o < |ps| ==> ps[o] == PageAt(s.mem, s.addrMap[h] + Bytes(o))
  {
    seq(s.hndlNPages[h], o requires 0 <= o < s.hndlNPages[h] => PageAt(s.mem, s.addrMap[h] + Bytes(o)))
  }

  ghost function Abs(s: State, issued: nat): (t: Table)
    requires Inv(s, issued)
    ensures t.issued == issued && t.pages.Keys == s.addrMap.Keys
    ensures forall h :: h in s.addrMap ==> t.pages[h] == PagesOf(s, h)
  {
    Table(issued, map h | h in s.addrMap :: PagesOf(s, h))
  }

  lemma AbsIs(s: State, issued: nat, pages: map<int, seq<Page>>)
    requires Inv(s, issued) && pages.Keys == s.addrMap.Keys
    requires forall h :: h in s.addrMap ==> pages[h] == PagesOf(s, h)
    ensures Abs(s, issued) == Table(issued, pages)
  {
    hide RegionMapped, PagesOf, Apart;
    assert Abs(s, issued).pages == pages;
  }

  /** What this project's client sends: whole pages, and allocations whose byte
      size either fits in 32 bits or wraps to 0. */
  predicate PageSized(m: Message) {
    && m.size == PAGE_SIZE
    && (m.action == MAP ==> m.npages < MAX_PAGES || m.npages % MAX_PAGES == 0)
  }

  predicate KernelMayAnswer(s: State, m: Message, answer: Option<int>) {
    m.action == MAP ==> MmapMayAnswer(s.mem, Mul32(m.npages, m.size), answer)
  }

  // ---- One request ----

  lemma SmallProduct(n: U32)
    ensures n < MAX_PAGES ==> Mul32(PAGE_SIZE, n) == Mul32(n, PAGE_SIZE) == Bytes(n)
    ensures n % MAX_PAGES == 0 ==> Mul32(n, PAGE_SIZE) == 0
    ensures RoundUp(Bytes(n)) == Bytes(n)
  {
    WholePages(n);
    hide RoundUp;
  }

  lemma WholePages(n: nat)
    ensures RoundUp(Bytes(n)) == Bytes(n)
  {
  }

  /** Unchanged bytes mean unchanged pages. */
  lemma SamePages(s: State, s': State, h: int)
    requires h in s.addrMap && h in s.hndlNPages && RegionMapped(s, h)
    requires h in s'.addrMap && h in s'.hndlNPages
    requires s'.addrMap[h] == s.addrMap[h] && s'.hndlNPages[h] == s.hndlNPages[h]
    requires forall x :: Within(x, s.addrMap[h], Bytes(s.hndlNPages[h])) ==> x in s'.mem && s'.mem[x] == s.mem[x]
    ensures RegionMapped(s', h) && PagesOf(s', h) == PagesOf(s, h)
  {
    var a, n := s.addrMap[h], Bytes(s.hndlNPages[h]);
    assert Mapped(s'.mem, a, n) by {
      forall x | a <= x < a + n ensures x in s'.mem { assert Within(x, a, n); }
    }
    forall o | 0 <= o < s.hndlNPages[h]
      ensures PagesOf(s', h)[o] == PagesOf(s, h)[o]
    {
      forall b | 0 <= b < PAGE_SIZE
        ensures PagesOf(s', h)[o][b] == PagesOf(s, h)[o][b]
      {
        assert Within(a + Bytes(o) + b, a, n);
      }
    }
  }

  lemma MapReply(s: State, issued: nat, m: Message, base: int)
    requires TablesAgree(s, issued)
    requires m.action == MAP && PageSized(m) && KernelMayAnswer(s, m, Some(base))
    ensures 1 <= m.npages < MAX_PAGES && Free(s.mem, base, Bytes(m.npages)) && 0 < base
    ensures Handle(s, m, Some(base)) == Reply(Mapping(s, s.handleCount, m.npages, base), m.(hndl := s.handleCount))
  {
    SmallProduct(m.npages);
  }

  /** `s` after giving `n` fresh pages at `base` to handle `h`. */
  ghost function Mapping(s: State, h: nat, n: U32, base: int): State {
    State((h + 1) % U32_LIMIT, s.addrMap[h := base], s.hndlNPages[h := n], Mmap(s.mem, base, Bytes(n)))
  }

  lemma MappingAddsZeroPages(s: State, h: nat, n: U32, base: int)
    requires 1 <= n < MAX_PAGES && 0 < base
    ensures RegionMapped(Mapping(s, h, n, base), h)
    ensures PagesOf(Mapping(s, h, n, base), h) == ZeroPages(n)
  {
    var s' := Mapping(s, h, n, base);
    assert RoundUp(Bytes(n)) == Bytes(n) by { SmallProduct(n); }
    assert Mapped(s'.mem, base, Bytes(n)) by {
      forall x | base <= x < base + Bytes(n) ensures x in s'.mem { assert Within(x, base, Bytes(n)); }
    }
    forall o | 0 <= o < n ensures PagesOf(s', h)[o] == ZeroPage() {
      PageAtMmap(s.mem, base, Bytes(n), base + Bytes(o));
    }
  }

  lemma MappingKeepsOthers(s: State, issued: nat, h: nat, n: U32, base: int, g: int)
    requires Inv(s, issued) && g in s.addrMap && g != h
    requires 1 <= n < MAX_PAGES && Free(s.mem, base, Bytes(n))
    ensures var s' := Mapping(s, h, n, base);
      && g in s'.addrMap && RegionMapped(s', g) && PagesOf(s', g) == PagesOf(s, g)
      && Apart(s'.addrMap, s'.hndlNPages, g, h)
  {
    SmallProduct(n);
    assert RegionMapped(s, g);
    FreeIsApart(s, g, base, Bytes(n));
    SamePages(s, Mapping(s, h, n, base), g);
  }

  lemma MappingKeepsApart(s: State, issued: nat, h: nat, n: U32, base: int, f: int, g: int)
    requires Inv(s, issued) && f in s.addrMap && g in s.addrMap && f != g && f != h && g != h
    ensures Apart(Mapping(s, h, n, base).addrMap, Mapping(s, h, n, base).hndlNPages, f, g)
  {
    assert Apart(s.addrMap, s.hndlNPages, f, g);
  }

  lemma MappingIsInv(s: State, issued: nat, n: U32, base: int)
    requires Inv(s, issued) && 1 <= n < MAX_PAGES && Free(s.mem, base, Bytes(n)) && 0 < base
    ensures Inv(Mapping(s, s.handleCount, n, base), issued + 1)
    ensures PagesOf(Mapping(s, s.handleCount, n, base), s.handleCount) == ZeroPages(n)
    ensures forall g :: g in s.addrMap && g != s.handleCount ==> RegionMapped(s, g) && PagesOf(Mapping(s, s.handleCount, n, base), g) == PagesOf(s, g)
  {
    var h, s' := s.handleCount, Mapping(s, s.handleCount, n, base);
    Successor(issued);
    MappingAddsZeroPages(s, h, n, base);
    hide RegionMapped, PagesOf, Apart, Mmap, Free;
    forall g | g in s.addrMap && g != h
      ensures RegionMapped(s', g) && PagesOf(s', g) == PagesOf(s, g) && Apart(s'.addrMap, s'.hndlNPages, g, h)
      ensures Apart(s'.addrMap, s'.hndlNPages, h, g)
    {
      MappingKeepsOthers(s, issued, h, n, base, g);
      ApartIsSymmetric(s'.addrMap, s'.hndlNPages, g, h);
    }
    forall f, g | f in s.addrMap && g in s.addrMap && f != g && f != h && g != h
      ensures Apart(s'.addrMap, s'.hndlNPages, f, g)
    {
      MappingKeepsApart(s, issued, h, n, base, f, g);
    }
  }

  lemma ApartIsSymmetric(addrs: map<int, int>, sizes: map<int, U32>, g: int, h: int)
    requires g in addrs && g in sizes && h in addrs && h in sizes && Apart(addrs, sizes, g, h)
    ensures Apart(addrs, sizes, h, g)
  {
  }

  lemma MappingKeepsInv(s: State, issued: nat, n: U32, base: int)
    requires Inv(s, issued) && 1 <= n < MAX_PAGES && Free(s.mem, base, Bytes(n)) && 0 < base
    ensures var h, s' := s.handleCount, Mapping(s, s.handleCount, n, base);
      && Inv(s', issued + 1)
      && Abs(s', issued + 1) == Table(issued + 1, Abs(s, issued).pages[h := ZeroPages(n)])
  {
    MappingIsInv(s, issued, n, base);
    hide RegionMapped, PagesOf, Apart, Mmap, Free;
    AbsIs(Mapping(s, s.handleCount, n, base), issued + 1, Abs(s, issued).pages[s.handleCount := ZeroPages(n)]);
  }

  lemma Successor(n: nat)
    ensures (n % U32_LIMIT + 1) % U32_LIMIT == (n + 1) % U32_LIMIT
  {
  }

  /** A mapped interval and an unmapped one do not meet. */
  lemma FreeIsApart(s: State, g: int, base: int, len: int)
    requires g in s.addrMap && g in s.hndlNPages && RegionMapped(s, g) && 1 <= s.hndlNPages[g]
    requires 0 < len && Free(s.mem, base, len)
    ensures s.addrMap[g] + Bytes(s.hndlNPages[g]) <= base || base + len <= s.addrMap[g]
  {
    var a, n := s.addrMap[g], Bytes(s.hndlNPages[g]);
    var x := if a < base then base else a;
    assert x < a + n ==> x in s.mem;
    assert x < base + len ==> x !in s.mem;
  }

  /** The address of page `o` of a live handle lies in its own interval. */
  lemma TargetIsPage(s: State, issued: nat, m: Message)
    requires Inv(s, issued) && m.size == PAGE_SIZE
    requires m.hndl in s.addrMap && m.offset < s.hndlNPages[m.hndl]
    ensures Target(s, m) == s.addrMap[m.hndl] + Bytes(m.offset)
    ensures Mapped(s.mem, Target(s, m), PAGE_SIZE)
  {
    SmallProduct(m.offset);
    assert RegionMapped(s, m.hndl);
  }

  lemma GetReply(s: State, issued: nat, m: Message, answer: Option<int>)
    requires Inv(s, issued) && m.action == GET && PageSized(m)
    requires m.hndl in s.addrMap && m.offset < s.hndlNPages[m.hndl]
    ensures Handle(s, m, answer) == Reply(s, m.(data := PagesOf(s, m.hndl)[m.offset]))
  {
    TargetIsPage(s, issued, m);
  }

  /** `s` after `data` was copied over page `o` of handle `h`. */
  ghost function Writing(s: State, h: int, o: nat, data: Page): State
    requires h in s.addrMap
  {
    s.(mem := Memcpy(s.mem, s.addrMap[h] + Bytes(o), data))
  }

  lemma PutReply(s: State, issued: nat, m: Message, answer: Option<int>)
    requires Inv(s, issued) && m.action == PUT && PageSized(m)
    requires m.hndl in s.addrMap && m.offset < s.hndlNPages[m.hndl]
    ensures Handle(s, m, answer) == Reply(Writing(s, m.hndl, m.offset, m.data), m)
  {
    TargetIsPage(s, issued, m);
  }

  lemma WritingStaysMapped(s: State, h: int, o: nat, data: Page)
    requires h in s.addrMap && h in s.hndlNPages && RegionMapped(s, h)
    ensures RegionMapped(Writing(s, h, o, data), h)
  {
  }

  lemma PageAfterWriting(s: State, h: int, o: nat, data: Page, i: nat)
    requires h in s.addrMap && h in s.hndlNPages && RegionMapped(s, h)
    requires RegionMapped(Writing(s, h, o, data), h)
    requires o < s.hndlNPages[h] && i < s.hndlNPages[h]
    ensures PagesOf(Writing(s, h, o, data), h)[i] == if i == o then data else PagesOf(s, h)[i]
  {
    hide Memcpy, PageAt, PagesOf;
    PageAtMemcpy(s.mem, s.addrMap[h] + Bytes(o), data, s.addrMap[h] + Bytes(i));
  }

  lemma WritingChangesOnePage(s: State, h: int, o: nat, data: Page)
    requires h in s.addrMap && h in s.hndlNPages && RegionMapped(s, h)
    requires o < s.hndlNPages[h]
    ensures RegionMapped(Writing(s, h, o, data), h)
    ensures PagesOf(Writing(s, h, o, data), h) == Replace(PagesOf(s, h), o, data)
  {
    WritingStaysMapped(s, h, o, data);
    var s' := Writing(s, h, o, data);
    forall i | 0 <= i < s.hndlNPages[h]
      ensures PagesOf(s', h)[i] == if i == o then data else PagesOf(s, h)[i]
    {
      hide *;
      PageAfterWriting(s, h, o, data, i);
    }
  }

  lemma WritingKeepsOthers(s: State, issued: nat, h: int, o: nat, data: Page, g: int)
    requires Inv(s, issued) && h in s.addrMap && o < s.hndlNPages[h] && g in s.addrMap && g != h
    ensures var s' := Writing(s, h, o, data);
      g in s'.addrMap && RegionMapped(s', g) && PagesOf(s', g) == PagesOf(s, g)
  {
    assert Apart(s.addrMap, s.hndlNPages, g, h);
    SamePages(s, Writing(s, h, o, data), g);
  }

  lemma OneRegionChanged(s: State, issued: nat, s': State, h: int)
    requires Inv(s, issued) && h in s.addrMap
    requires s' == s.(mem := s'.mem) && RegionMapped(s', h)
    requires forall g :: g in s.addrMap && g != h ==> RegionMapped(s', g) && PagesOf(s', g) == PagesOf(s, g)
    ensures Inv(s', issued)
    ensures Abs(s', issued) == Table(issued, Abs(s, issued).pages[h := PagesOf(s', h)])
  {
    hide RegionMapped, PagesOf, Apart;
    AbsIs(s', issued, Abs(s, issued).pages[h := PagesOf(s', h)]);
  }

  lemma WritingKeepsInv(s: State, issued: nat, h: int, o: nat, data: Page)
    requires Inv(s, issued) && h in s.addrMap && o < s.hndlNPages[h]
    ensures var s' := Writing(s, h, o, data);
      && Inv(s', issued)
      && Abs(s', issued) == Table(issued, Abs(s, issued).pages[h := PagesOf(s', h)])
  {
    var s' := Writing(s, h, o, data);
    WritingStaysMapped(s, h, o, data);
    forall g | g in s.addrMap && g != h
      ensures RegionMapped(s', g) && PagesOf(s', g) == PagesOf(s, g)
    {
      WritingKeepsOthers(s, issued, h, o, data, g);
    }
    OneRegionChanged(s, issued, s', h);
  }

  ghost function Unmapping(s: State, h: int): State
    requires h in s.addrMap && h in s.hndlNPages
  {
    State(s.handleCount, s.addrMap - {h}, s.hndlNPages - {h}, Munmap(s.mem, s.addrMap[h], Bytes(s.hndlNPages[h])))
  }

  lemma FreeReply(s: State, issued: nat, m: Message, answer: Option<int>)
    requires Inv(s, issued) && m.action == FREE && PageSized(m) && m.hndl in s.addrMap
    ensures Handle(s, m, answer) == Reply(Unmapping(s, m.hndl), m)
  {
    assert RegionMapped(s, m.hndl);
    SmallProduct(s.hndlNPages[m.hndl]);
  }

  lemma UnmappingKeepsInv(s: State, issued: nat, h: int)
    requires Inv(s, issued) && h in s.addrMap
    ensures var s' := Unmapping(s, h);
      Inv(s', issued) && Abs(s', issued) == Table(issued, Abs(s, issued).pages - {h})
  {
    var s' := Unmapping(s, h);
    SmallProduct(s.hndlNPages[h]);
    forall g | g in s'.addrMap
      ensures RegionMapped(s', g) && PagesOf(s', g) == PagesOf(s, g)
    {
      assert Apart(s.addrMap, s.hndlNPages, g, h);
      SamePages(s, s', g);
    }
    forall f, g | f in s'.addrMap && g in s'.addrMap && f != g ensures Apart(s'.addrMap, s'.hndlNPages, f, g) {
      assert Apart(s.addrMap, s.hndlNPages, f, g);
    }
  }

  /** The server is alive, in order, and where `spec` says. */
  ghost predicate Meets(r: Outcome, spec: Answer) {
    && r.Reply?
    && Inv(r.state, spec.table.issued)
    && Abs(r.state, spec.table.issued) == spec.table
    && r.msg == spec.reply
  }

  /** One packet, whatever handles were given out before: the bytes do what the page
      table does. */
  lemma HandleSimulates(s: State, issued: nat, m: Message, answer: Option<int>)
    requires Inv(s, issued) && PageSized(m) && KernelMayAnswer(s, m, answer)
    ensures Meets(Handle(s, m, answer), Serve(Abs(s, issued), m, answer.Some?))
  {
    hide RegionMapped, PagesOf, Apart, Mapping, Writing, Unmapping, Mmap, Munmap, Memcpy;
    if m.action == MAP {
      if answer.Some? {
        MapReply(s, issued, m, answer.value);
        MappingKeepsInv(s, issued, m.npages, answer.value);
      }
    } else if m.action <= FREE && m.hndl in s.addrMap {
      if m.action == FREE {
        FreeReply(s, issued, m, answer);
        UnmappingKeepsInv(s, issued, m.hndl);
      } else if m.offset < s.hndlNPages[m.hndl] {
        if m.action == GET {
          GetReply(s, issued, m, answer);
        } else {
          PutReply(s, issued, m, answer);
          WritingKeepsInv(s, issued, m.hndl, m.offset, m.data);
          WritingChangesOnePage(s, m.hndl, m.offset, m.data);
        }
      }
    }
  }
}

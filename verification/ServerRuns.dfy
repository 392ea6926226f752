/** What holds of the page server over whole packet sequences. */
module ServerRuns {
  import opened Words
  import opened PageTable
  import opened ByteServer

  /** A packet and what mmap would answer to it. */
  datatype Request = Request(msg: Message, answer: Option<int>)

  datatype Run = Running(state: State, replies: seq<Message>) | Crashed

  function HandleAll(s: State, rs: seq<Request>): (r: Run)
    ensures r.Running? ==> |r.replies| == |rs|
  {
    if rs == [] then
      Running(s, [])
    else
      var before := HandleAll(s, rs[..|rs| - 1]);
      if before.Crashed? then
        Crashed
      else
        var last := rs[|rs| - 1];
        match Handle(before.state, last.msg, last.answer)
        case Reply(s', m) => Running(s', before.replies + [m])
        case Segv => Crashed
  }

  /** Every mmap answer was one the kernel may give at that moment. */
  predicate KernelAllows(s: State, rs: seq<Request>) {
    rs == [] ||
    (&& KernelAllows(s, rs[..|rs| - 1])
     && var before := HandleAll(s, rs[..|rs| - 1]);
        before.Running? ==> KernelMayAnswer(before.state, rs[|rs| - 1].msg, rs[|rs| - 1].answer))
  }

  function Asks(rs: seq<Request>): (r: seq<Ask>)
    ensures |r| == |rs|
    ensures forall k :: 0 <= k < |rs| ==> r[k] == Ask(rs[k].msg, rs[k].answer.Some?)
  {
    seq(|rs|, k requires 0 <= k < |rs| => Ask(rs[k].msg, rs[k].answer.Some?))
  }

  /** Any sequence of page-sized packets, however many allocations it holds: the byte server never crashes, gives the
      replies of the page table, and ends where the page table ends. */
  lemma {:induction false} BytesImplementPages(s: State, issued: nat, rs: seq<Request>)
    requires Inv(s, issued) && KernelAllows(s, rs)
    requires forall k :: 0 <= k < |rs| ==>
      && rs[k].msg.size == 4096
      && (rs[k].msg.action == 0 ==> rs[k].msg.npages < 0x10_0000 || rs[k].msg.npages % 0x10_0000 == 0)
    ensures var r, spec := HandleAll(s, rs), ServeAll(Abs(s, issued), Asks(rs));
      && r.Running? && Inv(r.state, spec.table.issued)
      && Abs(r.state, spec.table.issued) == spec.table && r.replies == spec.replies
  {
    if rs != [] {
      var n := |rs| - 1;
      assert PageSized(rs[n].msg);
      hide Handle, Inv, PageSized, KernelMayAnswer;
      assert Asks(rs)[..n] == Asks(rs[..n]);
      BytesImplementPages(s, issued, rs[..n]);
      var before, t := HandleAll(s, rs[..n]), ServeAll(Abs(s, issued), Asks(rs[..n])).table;
      HandleSimulates(before.state, t.issued, rs[n].msg, rs[n].answer);
    }
  }

  // ---- Any packets at all ----

  /** The handles given out during a run, in order. */
  function Granted(s: State, rs: seq<Request>): (hs: seq<int>) {
    if rs == [] || HandleAll(s, rs).Crashed? then
      []
    else
      var n := |rs| - 1;
      Granted(s, rs[..n]) +
      if rs[n].msg.action == MAP && rs[n].answer.Some? then [HandleAll(s, rs).replies[n].hndl] else []
  }

  lemma HandleCounts(s: State, m: Message, answer: Option<int>)
    ensures var r := Handle(s, m, answer);
      r.Reply? ==>
        if m.action == MAP && answer.Some?
        then r.msg.hndl == s.handleCount && r.state.handleCount == (s.handleCount + 1) % U32_LIMIT
        else r.state.handleCount == s.handleCount
  {
  }

  lemma {:induction false} HandlesCountUp(s: State, rs: seq<Request>)
    requires HandleAll(s, rs).Running?
    ensures HandleAll(s, rs).state.handleCount == (s.handleCount + |Granted(s, rs)|) % 0x1_0000_0000
    ensures forall k :: 0 <= k < |Granted(s, rs)| ==> Granted(s, rs)[k] == (s.handleCount + k) % 0x1_0000_0000
  {
    hide Handle;
    if rs != [] {
      var n := |rs| - 1;
      HandlesCountUp(s, rs[..n]);
      HandleCounts(HandleAll(s, rs[..n]).state, rs[n].msg, rs[n].answer);
      Successor(s.handleCount + |Granted(s, rs[..n])|);
    }
  }

  lemma Residues(a: nat, i: nat, j: nat)
    requires i < j
    ensures j - i < 0x1_0000_0000 ==> (a + i) % 0x1_0000_0000 != (a + j) % 0x1_0000_0000
    ensures j - i == 0x1_0000_0000 ==> (a + i) % 0x1_0000_0000 == (a + j) % 0x1_0000_0000
  {
  }

  /** No handle is given out twice, not even after it was freed, exactly as long
      as the u32 counter has not gone round. */
  lemma HandlesNeverReissued(s: State, rs: seq<Request>)
    requires HandleAll(s, rs).Running?
    ensures var hs := Granted(s, rs);
      (forall i, j :: 0 <= i < j < |hs| ==> hs[i] != hs[j]) <==> |hs| <= 0x1_0000_0000
  {
    var hs := Granted(s, rs);
    HandlesCountUp(s, rs);
    if |hs| > 0x1_0000_0000 {
      Residues(s.handleCount, 0, 0x1_0000_0000);
      assert hs[0] == hs[0x1_0000_0000];
    } else {
      forall i, j | 0 <= i < j < |hs| ensures hs[i] != hs[j] {
        Residues(s.handleCount, i, j);
      }
    }
  }

  /** In an ordered table the lookups through operator[] insert nothing. */
  lemma LookupsInsertNothing(s: State, issued: nat, h: int)
    requires TablesAgree(s, issued) && h in s.addrMap
    ensures AfterLookups(s, h) == s
  {
  }

  /** Whatever a packet carries, it leaves the two tables in step. */
  lemma HandleKeepsTables(s: State, issued: nat, m: Message, answer: Option<int>)
    requires TablesAgree(s, issued) && KernelMayAnswer(s, m, answer)
    ensures var r := Handle(s, m, answer);
      r.Reply? ==> TablesAgree(r.state, if m.action == MAP && answer.Some? then issued + 1 else issued)
  {
    if m.hndl in s.addrMap {
      LookupsInsertNothing(s, issued, m.hndl);
    }
    assert m.npages == 0 ==> Mul32(m.npages, m.size) == 0;
  }

  /** Over any packet sequence, even after the counter has gone round, both tables list
      the same handles, all of them issued and each with at least one page. */
  lemma {:induction false} TablesStayInStep(s: State, issued: nat, rs: seq<Request>)
    requires TablesAgree(s, issued) && KernelAllows(s, rs) && HandleAll(s, rs).Running?
    ensures TablesAgree(HandleAll(s, rs).state, issued + |Granted(s, rs)|)
  {
    hide Handle, KernelMayAnswer, TablesAgree;
    if rs != [] {
      var n := |rs| - 1;
      TablesStayInStep(s, issued, rs[..n]);
      HandleKeepsTables(HandleAll(s, rs[..n]).state, issued + |Granted(s, rs[..n])|, rs[n].msg, rs[n].answer);
    }
  }

  /** Until the counter goes round every live handle is below it. */
  lemma LiveHandlesBelowCounter(s: State, issued: nat, rs: seq<Request>)
    requires TablesAgree(s, issued) && KernelAllows(s, rs) && HandleAll(s, rs).Running?
    requires issued + |Granted(s, rs)| < 0x1_0000_0000
    ensures var s' := HandleAll(s, rs).state; forall h :: h in s'.addrMap ==> 0 <= h < s'.handleCount
  {
    hide HandleAll, Granted, KernelAllows;
    TablesStayInStep(s, issued, rs);
  }

  // ---- The answers in numbers ----

  /** What a client reads in the error field, by the action it asked for: 0 map, 1 get,
      2 put, 3 free.  A refusal changes nothing but that field; an accepted request
      leaves it as it came. */
  lemma AnswersInNumbers(s: State, issued: nat, m: Message, answer: Option<int>)
    requires TablesAgree(s, issued)
    ensures var r, known := Handle(s, m, answer), m.hndl in s.addrMap && m.hndl in s.hndlNPages;
      && (m.action == 0 && answer.None? ==> r == Reply(s, m.(error := 1)))
      && (m.action == 0 && answer.Some? ==> r.Reply? && r.msg == m.(hndl := s.handleCount))
      && (1 <= m.action <= 3 && m.hndl !in s.addrMap ==> r == Reply(s, m.(error := 6)))
      && (m.action == 1 && known && s.hndlNPages[m.hndl] <= m.offset ==> r == Reply(s, m.(error := 2)))
      && (m.action == 2 && known && s.hndlNPages[m.hndl] <= m.offset ==> r == Reply(s, m.(error := 3)))
      && (m.action == 1 && known && m.offset < s.hndlNPages[m.hndl] && r.Reply? ==> r.state == s && r.msg == m.(data := r.msg.data))
      && (m.action == 2 && known && m.offset < s.hndlNPages[m.hndl] && r.Reply? ==> r.msg == m)
      && (m.action == 3 && known && s.hndlNPages[m.hndl] * m.size % 0x1_0000_0000 == 0 ==> r == Reply(s, m.(error := 4)))
      && (m.action == 3 && known && s.hndlNPages[m.hndl] * m.size % 0x1_0000_0000 != 0 ==>
            r.Reply? && r.msg == m && m.hndl !in r.state.addrMap && m.hndl !in r.state.hndlNPages)
      && (m.action > 3 ==> r == Reply(s, m.(error := 5)))
  {
    if m.hndl in s.addrMap {
      LookupsInsertNothing(s, issued, m.hndl);
    }
  }

  function PagesUp(len: nat): nat {
    (len + 4095) / 4096 * 4096
  }

  /** What each accepted request does to the tables and the bytes of the process, whatever
      size it carries: products are taken modulo 2^32, mappings are whole pages. */
  lemma MemoryInNumbers(s: State, issued: nat, m: Message, answer: Option<int>)
    requires TablesAgree(s, issued)
    ensures m.action == 0 && answer.Some? ==>
      var s', a, len := Handle(s, m, answer).state, answer.value, PagesUp(m.npages * m.size % 0x1_0000_0000);
      && s'.handleCount == (s.handleCount + 1) % 0x1_0000_0000
      && s'.addrMap == s.addrMap[s.handleCount := a] && s'.hndlNPages == s.hndlNPages[s.handleCount := m.npages]
      && (forall x :: x in s'.mem <==> x in s.mem || a <= x < a + len)
      && (forall x :: x in s'.mem ==> s'.mem[x] == if a <= x < a + len then 0 else s.mem[x])
    ensures m.action == 1 && m.hndl in s.addrMap && m.hndl in s.hndlNPages && m.offset < s.hndlNPages[m.hndl] ==>
      var r, a := Handle(s, m, answer), s.addrMap[m.hndl] + m.size * m.offset % 0x1_0000_0000;
      && (r.Reply? <==> forall x :: a <= x < a + 4096 ==> x in s.mem)
      && (r.Reply? ==> r.state == s && forall b :: 0 <= b < 4096 ==> a + b in s.mem && r.msg.data[b] == s.mem[a + b])
    ensures m.action == 2 && m.hndl in s.addrMap && m.hndl in s.hndlNPages && m.offset < s.hndlNPages[m.hndl] ==>
      var r, a := Handle(s, m, answer), s.addrMap[m.hndl] + m.size * m.offset % 0x1_0000_0000;
      && (r.Reply? <==> forall x :: a <= x < a + 4096 ==> x in s.mem)
      && (r.Reply? ==>
            && r.state == s.(mem := r.state.mem) && r.state.mem.Keys == s.mem.Keys
            && forall x :: x in s.mem ==> r.state.mem[x] == if a <= x < a + 4096 then m.data[x - a] else s.mem[x])
    ensures m.action == 3 && m.hndl in s.addrMap && m.hndl in s.hndlNPages && s.hndlNPages[m.hndl] * m.size % 0x1_0000_0000 != 0 ==>
      var s', a, len := Handle(s, m, answer).state, s.addrMap[m.hndl], PagesUp(s.hndlNPages[m.hndl] * m.size % 0x1_0000_0000);
      && s'.handleCount == s.handleCount && s'.addrMap == s.addrMap - {m.hndl} && s'.hndlNPages == s.hndlNPages - {m.hndl}
      && (forall x :: x in s'.mem <==> x in s.mem && !(a <= x < a + len))
      && (forall x :: x in s'.mem ==> s'.mem[x] == s.mem[x])
  {
    if m.hndl in s.addrMap {
      LookupsInsertNothing(s, issued, m.hndl);
    }
  }

  /** The kernel may refuse any mapping, and place one of positive length anywhere it fits. */
  lemma KernelInNumbers(s: State, m: Message, a: int)
    ensures KernelMayAnswer(s, m, None)
    ensures m.action == 0 ==>
      var len := m.npages * m.size % 0x1_0000_0000;
      KernelMayAnswer(s, m, Some(a)) <==>
        0 < len && 0 < a && a % 4096 == 0 && forall x :: a <= x < a + PagesUp(len) ==> x !in s.mem
  {
  }

  /** A run can always go on with any packet and any answer the kernel may then give. */
  lemma KernelAllowsMore(s: State, rs: seq<Request>, q: Request)
    ensures KernelAllows(s, [])
    ensures KernelAllows(s, rs + [q]) <==>
      KernelAllows(s, rs) && (HandleAll(s, rs).Running? ==> KernelMayAnswer(HandleAll(s, rs).state, q.msg, q.answer))
  {
    assert (rs + [q])[..|rs|] == rs;
  }

  // ---- How many pages one handle can have ----

  /** Every offset accepted for a handle of `n` pages addresses a page inside its mapping. */
  predicate OffsetsInside(n: U32) {
    forall o: U32 :: o < n ==> Mul32(PAGE_SIZE, o) + PAGE_SIZE <= RoundUp(Mul32(n, PAGE_SIZE))
  }

  /** No two accepted offsets address overlapping pages. */
  predicate OffsetsDisjoint(n: U32) {
    forall o: U32, p: U32 :: o < p < n ==>
      || Mul32(PAGE_SIZE, o) + PAGE_SIZE <= Mul32(PAGE_SIZE, p)
      || Mul32(PAGE_SIZE, p) + PAGE_SIZE <= Mul32(PAGE_SIZE, o)
  }

  /** A u32 product with the page size keeps the page count modulo 2^20. */
  lemma WrappedProduct(n: U32)
    ensures Mul32(n, PAGE_SIZE) == Mul32(PAGE_SIZE, n) == Bytes(n % MAX_PAGES)
    ensures RoundUp(Bytes(n % MAX_PAGES)) == Bytes(n % MAX_PAGES)
  {
    SmallProduct(n % MAX_PAGES);
    assert 4096 * n == 4096 * (n % MAX_PAGES) + 0x1_0000_0000 * (n / MAX_PAGES);
  }

  /** Accepted offsets stay inside the mapping exactly below 2^20 pages. */
  lemma OffsetsInsideLimit(n: U32)
    ensures OffsetsInside(n) <==> n < MAX_PAGES
  {
    hide Mul32, RoundUp;
    WrappedProduct(n);
    if n < MAX_PAGES {
      forall o: U32 | o < n ensures Mul32(PAGE_SIZE, o) + PAGE_SIZE <= RoundUp(Mul32(n, PAGE_SIZE)) {
        WrappedProduct(o);
      }
    } else {
      var past: U32 := n % MAX_PAGES;
      WrappedProduct(past);
      assert !(Mul32(PAGE_SIZE, past) + PAGE_SIZE <= RoundUp(Mul32(n, PAGE_SIZE)));
    }
  }

  /** They are pairwise disjoint exactly up to 2^20 pages. */
  lemma OffsetsDisjointLimit(n: U32)
    ensures OffsetsDisjoint(n) <==> n <= MAX_PAGES
  {
    hide Mul32;
    forall o: U32 ensures Mul32(PAGE_SIZE, o) == Bytes(o % MAX_PAGES) {
      WrappedProduct(o);
    }
    if n > MAX_PAGES {
      var wrapped: U32 := MAX_PAGES;
      assert Mul32(PAGE_SIZE, 0) == Mul32(PAGE_SIZE, wrapped);
    }
  }

  /** What an allocation of `n` pages meets: a size that wraps to 0 is refused; of the
      others exactly those below 2^20 pages give every accepted offset a page of its
      own inside the mapping. */
  lemma PageCountLimit(n: U32)
    ensures (forall mem: map<int, Byte>, a: Option<int> :: MmapMayAnswer(mem, Mul32(n, PAGE_SIZE), a) ==> a.None?)
       <==> n % MAX_PAGES == 0
    ensures n % MAX_PAGES != 0 ==> (OffsetsInside(n) && OffsetsDisjoint(n) <==> n < MAX_PAGES)
  {
    WrappedProduct(n);
    hide Mul32;
    if n % MAX_PAGES != 0 {
      OffsetsInsideLimit(n);
      OffsetsDisjointLimit(n);
      assert MmapMayAnswer(map[], Mul32(n, PAGE_SIZE), Some(PAGE_SIZE));
    }
  }

  /** A request for 10^12 pages arrives as a smaller u32 and its byte size wraps to a
      length mmap may well grant: far less than the offsets then accepted. */
  lemma HugeRequestMayBeGranted()
    ensures var n := 1_000_000_000_000 % U32_LIMIT;
      && Mul32(n, PAGE_SIZE) == 0x5100_0000
      && MmapMayAnswer(map[], Mul32(n, PAGE_SIZE), Some(PAGE_SIZE))
      && !OffsetsInside(n)
  {
    OffsetsInsideLimit(1_000_000_000_000 % U32_LIMIT);
  }

  // ---- Packets of other sizes ----

  /** What a packet may ask so that its copy or unmapping cannot leave its handle's
      mapping: allocations of page-sized pages, and otherwise any size up to a page. */
  predicate Tame(m: Message) {
    if m.action == MAP then PageSized(m) else m.size <= PAGE_SIZE
  }

  /** The bytes a get or a put copies lie in the mapping of its handle. */
  ghost predicate CopyInside(s: State, m: Message)
    requires m.hndl in s.addrMap && m.hndl in s.hndlNPages
  {
    var a := s.addrMap[m.hndl];
    a <= Target(s, m) && Target(s, m) + PAGE_SIZE <= a + Bytes(s.hndlNPages[m.hndl])
  }

  lemma SmallOffset(size: U32, o: U32, n: U32)
    requires o < n < MAX_PAGES && size <= PAGE_SIZE
    ensures OffsetFits(size, o, n)
  {
    TimesGrows(size, 4096, o);
  }

  lemma TimesGrows(a: nat, b: nat, o: nat)
    requires a <= b
    ensures 0 <= a * o <= b * o
  {
  }

  /** The u32 product of size and offset is at most the start of the last of `n` pages. */
  predicate OffsetFits(size: U32, o: U32, n: U32) {
    size * o % 0x1_0000_0000 <= 4096 * (n - 1)
  }

  /** An accepted packet copies inside its handle's mapping exactly if the u32 product of
      its size and offset is at most the start of the last page; up to page size it is. */
  lemma CopyInsideExactly(s: State, issued: nat, m: Message)
    requires Inv(s, issued) && m.hndl in s.addrMap && m.offset < s.hndlNPages[m.hndl]
    ensures CopyInside(s, m) <==> OffsetFits(m.size, m.offset, s.hndlNPages[m.hndl])
    ensures m.size <= PAGE_SIZE ==> CopyInside(s, m)
  {
    assert RegionMapped(s, m.hndl);
    hide Mul32;
    if m.size <= PAGE_SIZE {
      SmallOffset(m.size, m.offset, s.hndlNPages[m.hndl]);
    }
  }

  /** A packet size is safe for all handles and all accepted offsets exactly up to a page. */
  lemma SafeSizesExactly(size: U32)
    ensures (forall n: U32, o: U32 :: o < n < MAX_PAGES ==> OffsetFits(size, o, n)) <==> size <= PAGE_SIZE
  {
    if size <= PAGE_SIZE {
      forall n: U32, o: U32 | o < n < MAX_PAGES ensures OffsetFits(size, o, n) {
        SmallOffset(size, o, n);
      }
    } else {
      var two: U32, one: U32 := 2, 1;
      assert !OffsetFits(size, one, two);
    }
  }

  /** A put inside its handle's mapping changes no other handle's pages. */
  lemma InsidePutKeepsOthers(s: State, issued: nat, m: Message)
    requires Inv(s, issued) && m.hndl in s.addrMap && m.offset < s.hndlNPages[m.hndl] && CopyInside(s, m)
    ensures var r := PutRequest(s, m);
      && r.Reply? && Inv(r.state, issued)
      && forall g :: g in s.addrMap && g != m.hndl ==> RegionMapped(s, g) && PagesOf(r.state, g) == PagesOf(s, g)
  {
    var h, s' := m.hndl, s.(mem := Memcpy(s.mem, Target(s, m), m.data));
    assert RegionMapped(s, h);
    LookupsInsertNothing(s, issued, h);
    forall g | g in s.addrMap && g != h ensures RegionMapped(s', g) && PagesOf(s', g) == PagesOf(s, g) {
      assert Apart(s.addrMap, s.hndlNPages, g, h);
      SamePages(s, s', g);
    }
    OneRegionChanged(s, issued, s', h);
  }

  /** Unmapping part of a mapping and forgetting its handle keeps the others in order. */
  lemma PartialUnmapKeepsInv(s: State, issued: nat, h: int, len: nat)
    requires Inv(s, issued) && h in s.addrMap && RoundUp(len) <= Bytes(s.hndlNPages[h])
    ensures Inv(State(s.handleCount, s.addrMap - {h}, s.hndlNPages - {h}, Munmap(s.mem, s.addrMap[h], len)), issued)
  {
    var s' := State(s.handleCount, s.addrMap - {h}, s.hndlNPages - {h}, Munmap(s.mem, s.addrMap[h], len));
    hide RoundUp;
    forall g | g in s'.addrMap ensures RegionMapped(s', g) {
      assert RegionMapped(s, g);
      assert Apart(s.addrMap, s.hndlNPages, g, h);
      SamePages(s, s', g);
    }
    forall f, g | f in s'.addrMap && g in s'.addrMap && f != g ensures Apart(s'.addrMap, s'.hndlNPages, f, g) {
      assert Apart(s.addrMap, s.hndlNPages, f, g);
    }
  }

  lemma TameFreeKeepsInv(s: State, issued: nat, m: Message)
    requires Inv(s, issued) && m.size <= PAGE_SIZE
    ensures var r := FreeRequest(s, m);
      r.Reply? && Inv(r.state, issued)
  {
    if m.hndl in s.addrMap {
      var n := s.hndlNPages[m.hndl];
      assert RegionMapped(s, m.hndl);
      LookupsInsertNothing(s, issued, m.hndl);
      TameLength(n, m.size);
      hide Mul32, RoundUp, RegionMapped;
      PartialUnmapKeepsInv(s, issued, m.hndl, Mul32(n, m.size));
    }
  }

  lemma TameLength(n: U32, size: U32)
    requires n < MAX_PAGES && size <= PAGE_SIZE
    ensures RoundUp(Mul32(n, size)) <= Bytes(n)
  {
    TimesGrows(size, 4096, n);
    WholePages(n);
    assert Mul32(n, size) == size * n <= Bytes(n);
  }

  /** A tame packet never kills the server and keeps its mappings in order. */
  lemma TameKeepsInv(s: State, issued: nat, m: Message, answer: Option<int>)
    requires Inv(s, issued) && Tame(m) && KernelMayAnswer(s, m, answer)
    ensures var r := Handle(s, m, answer);
      r.Reply? && Inv(r.state, if m.action == MAP && answer.Some? then issued + 1 else issued)
  {
    if m.action == MAP {
      HandleSimulates(s, issued, m, answer);
      hide Inv, Handle;
    } else if m.action == FREE {
      TameFreeKeepsInv(s, issued, m);
    } else if m.action <= FREE && m.hndl in s.addrMap {
      LookupsInsertNothing(s, issued, m.hndl);
      if m.offset < s.hndlNPages[m.hndl] {
        CopyInsideExactly(s, issued, m);
        if m.action == PUT {
          InsidePutKeepsOthers(s, issued, m);
        } else {
          assert RegionMapped(s, m.hndl);
          hide Mul32;
        }
      }
    }
  }

  /** The server is alive, and if it accepts `m` as a get or a put, the copy is inside. */
  ghost predicate StaysInside(r: Run, m: Message) {
    && r.Running? && r.state.addrMap.Keys == r.state.hndlNPages.Keys
    && (m.action != MAP && m.hndl in r.state.addrMap && m.offset < r.state.hndlNPages[m.hndl] ==> CopyInside(r.state, m))
  }

  ghost predicate AlwaysInside(s: State, rs: seq<Request>) {
    rs != [] ==>
      AlwaysInside(s, rs[..|rs| - 1]) && StaysInside(HandleAll(s, rs[..|rs| - 1]), rs[|rs| - 1].msg)
  }

  lemma {:induction false} TameRunInside(s: State, issued: nat, rs: seq<Request>)
    requires Inv(s, issued) && KernelAllows(s, rs)
    requires forall k :: 0 <= k < |rs| ==> Tame(rs[k].msg)
    ensures HandleAll(s, rs).Running? && Inv(HandleAll(s, rs).state, issued + |Granted(s, rs)|)
    ensures AlwaysInside(s, rs)
  {
    hide Handle, KernelMayAnswer, Inv, Tame, StaysInside;
    if rs != [] {
      var n := |rs| - 1;
      TameRunInside(s, issued, rs[..n]);
      var before := HandleAll(s, rs[..n]);
      TameKeepsInv(before.state, issued + |Granted(s, rs[..n])|, rs[n].msg, rs[n].answer);
      TameCopyInside(before, issued + |Granted(s, rs[..n])|, rs[n].msg);
    }
  }

  /** So over a run of packets up to page size no copy ever leaves the mapping of its handle. */
  lemma TameRunsStayInside(s: State, issued: nat, rs: seq<Request>)
    requires Inv(s, issued) && KernelAllows(s, rs)
    requires forall k :: 0 <= k < |rs| ==> var m := rs[k].msg;
      if m.action == 0 then m.size == 4096 && (m.npages < 0x10_0000 || m.npages % 0x10_0000 == 0) else m.size <= 4096
    ensures HandleAll(s, rs).Running? && Inv(HandleAll(s, rs).state, issued + |Granted(s, rs)|)
    ensures AlwaysInside(s, rs)
  {
    hide Inv, KernelAllows, HandleAll, AlwaysInside, Granted;
    assert forall k :: 0 <= k < |rs| ==> Tame(rs[k].msg);
    TameRunInside(s, issued, rs);
  }

  lemma TameCopyInside(r: Run, issued: nat, m: Message)
    requires r.Running? && Inv(r.state, issued) && Tame(m)
    ensures StaysInside(r, m)
  {
    if m.action != MAP && m.hndl in r.state.addrMap && m.offset < r.state.hndlNPages[m.hndl] {
      CopyInsideExactly(r.state, issued, m);
    }
  }
}

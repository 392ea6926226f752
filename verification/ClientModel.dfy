/**
 * The client as it is written: the resolver's handle tables, the fault handler's
 * descriptor and previous-page tables, the shared buffer and the resident pages,
 * talking to the page table in packets.
 */
module ClientModel {
  import opened Words
  import opened PageTable

  /** `page` is the buffer shared by all handlers; `sent` the packets sent so far.  The
      kernel's side: `spans`, how many pages each region was registered with, and
      `present`, the resident pages by address. */
  datatype Client = Client(
    addrHndl: map<int, int>, addrNPages: map<int, U32>,
    startUffd: map<int, int>, uffdStart: map<int, int>,
    prevAddr: map<int, int>, prevOp: map<int, int>,
    page: Page, spans: map<int, U32>, present: map<int, Page>, sent: seq<Ask>)

  datatype System = System(c: Client, table: Table)

  const READ_FAULT: int := 0
  const WRITE_FAULT: int := 1 // UFFD_PAGEFAULT_FLAG_WRITE

  // ---- Packets (fields the client leaves unset and nobody reads are 0) ----

  function MapMessage(npages: U32): Message {
    Message(0, npages, PAGE_SIZE, 0, MAP, ZeroPage(), 0)
  }

  /** `residue` is what the unset data field happens to hold: it comes back if the
      server refuses the packet. */
  function GetMessage(h: int, offset: U32, residue: Page): Message {
    Message(h, 0, PAGE_SIZE, offset, GET, residue, 0)
  }

  function PutMessage(h: int, offset: U32, data: Page): Message {
    Message(h, 0, PAGE_SIZE, offset, PUT, data, 0)
  }

  /** Send a packet and receive the answer. */
  function Exchange(s: System, m: Message, granted: bool): System {
    System(s.c.(sent := s.c.sent + [Ask(m, granted)]), Serve(s.table, m, granted).table)
  }

  // ---- rmp_pagefault_resovler ----

  /** The page offset of an address in the region that starts at `start`. */
  function PageOffset(start: int, addr: int): U32 {
    (RoundDown(addr) - start) / 4096 % U32_LIMIT
  }

  function Send(s: System, start: int, addr: int, data: Page): System
    requires start in s.c.addrHndl
  {
    Exchange(s, PutMessage(s.c.addrHndl[start], PageOffset(start, addr), data), false)
  }

  /** The error field of the answer is not looked at. */
  function Fetch(s: System, start: int, addr: int, residue: Page): System
    requires start in s.c.addrHndl
  {
    var m := GetMessage(s.c.addrHndl[start], PageOffset(start, addr), residue);
    var s' := Exchange(s, m, false);
    s'.(c := s'.c.(page := Serve(s.table, m, false).reply.data))
  }

  // ---- State ----

  predicate RegionOk(s: System, a: int)
    requires a in s.c.addrHndl && a in s.c.addrNPages
  {
    && a % PAGE_SIZE == 0
    && 1 <= s.c.addrNPages[a] < MAX_PAGES
    && s.c.addrHndl[a] in s.table.pages
    && |s.table.pages[s.c.addrHndl[a]]| == s.c.addrNPages[a]
  }

  /** The intervals of two regions do not meet. */
  predicate Disjoint(a: int, m: int, b: int, n: int) {
    a + Bytes(m) <= b || b + Bytes(n) <= a
  }

  /** Every address ever registered has a handle of its own; registered regions have
      disjoint intervals; the two descriptor maps are inverse. */
  ghost predicate Tables(s: System) {
    && s.c.startUffd.Keys <= s.c.addrHndl.Keys && s.c.addrHndl.Keys == s.c.addrNPages.Keys
    && s.c.startUffd.Keys <= s.c.spans.Keys
    && (forall a :: a in s.c.startUffd ==> s.c.startUffd[a] in s.c.uffdStart && s.c.uffdStart[s.c.startUffd[a]] == a)
    && (forall u :: u in s.c.uffdStart ==> s.c.uffdStart[u] in s.c.startUffd && s.c.startUffd[s.c.uffdStart[u]] == u)
    && (forall a :: a in s.c.addrHndl ==> RegionOk(s, a))
    && (forall a, b :: a in s.c.addrHndl && b in s.c.addrHndl && a != b ==> s.c.addrHndl[a] != s.c.addrHndl[b])
    && (forall a :: a in s.c.startUffd ==> 1 <= s.c.spans[a] < MAX_PAGES)
    && (forall a, b :: a in s.c.startUffd && b in s.c.startUffd && a != b ==> Disjoint(a, s.c.spans[a], b, s.c.spans[b]))
    && (forall h :: h in s.table.pages ==> 0 <= h < s.table.issued)
  }

  predicate PageOfRegion(c: Client, a: int, start: int)
    requires start in c.spans
  {
    a % PAGE_SIZE == 0 && start <= a < start + Bytes(c.spans[start])
  }

  /** The previous-page maps cover the same registered descriptors, each with a page
      of its region. */
  ghost predicate Recorded(c: Client) {
    && c.prevAddr.Keys == c.prevOp.Keys && c.prevAddr.Keys <= c.uffdStart.Keys
    && forall u :: u in c.prevAddr ==>
      && c.prevOp[u] in {READ_FAULT, WRITE_FAULT}
      && c.uffdStart[u] in c.spans && PageOfRegion(c, c.prevAddr[u], c.uffdStart[u])
  }

  /** The resident pages are exactly the recorded ones: at most one per region. */
  ghost predicate Residents(c: Client) {
    && (forall u :: u in c.prevAddr ==> c.prevAddr[u] in c.present)
    && (forall a :: a in c.present ==> exists u :: u in c.prevAddr && c.prevAddr[u] == a)
  }

  ghost predicate Valid(s: System) {
    Tables(s) && Recorded(s.c) && Residents(s.c)
  }

  // ---- invalidate_prev_resolved_page ----

  function Invalidate(s: System, u: int): System
    requires Tables(s) && Recorded(s.c)
    requires u in s.c.prevAddr ==> s.c.prevAddr[u] in s.c.present
  {
    if u in s.c.prevAddr && u in s.c.prevOp && u in s.c.uffdStart then
      var a, start := s.c.prevAddr[u], s.c.uffdStart[u];
      var s' := if s.c.prevOp[u] != READ_FAULT then Send(s, start, a, s.c.present[a]) else s;
      s'.(c := s'.c.(present := s'.c.present - {RoundDown(a)}))
    else s
  }

  // ---- One turn of fault_handler_thread ----

  /** Copy the buffer into the faulting page and record page and operation. */
  function Install(s: System, u: int, addr: int, op: int): System {
    var a := RoundDown(addr);
    s.(c := s.c.(present := s.c.present[a := s.c.page], prevAddr := s.c.prevAddr[u := a], prevOp := s.c.prevOp[u := op]))
  }

  function HandleFault(s: System, u: int, addr: int, op: int, residue: Page): System
    requires Valid(s) && u in s.c.uffdStart
  {
    var s1 := Invalidate(s, u);
    Install(if op == READ_FAULT then Fetch(s1, s.c.uffdStart[u], addr, residue) else s1, u, addr, op)
  }

  // ---- The application and the kernel ----

  datatype Op =
    | Load(start: int, off: nat, len: nat, residue: Page)
    | Store(start: int, off: nat, bytes: seq<Byte>)
    | Alloc(npages: U32, addr: int, uffd: int)
    | Unregister(start: int)

  predicate InPage(c: Client, start: int, off: nat, len: nat) {
    && start in c.startUffd && start in c.spans
    && off < Bytes(c.spans[start]) && 0 < len && off % PAGE_SIZE + len <= PAGE_SIZE
  }

  /** Accesses go to registered regions, one page at a time.  `addr` and `uffd` are
      what the kernel answers to mmap and userfaultfd: an interval no registered region
      lies in, at an address new or used before, and a descriptor not in use; the server
      must have granted the pages. */
  predicate CanDo(s: System, op: Op) {
    match op
    case Load(start, off, len, _) => InPage(s.c, start, off, len)
    case Store(start, off, bytes) => InPage(s.c, start, off, |bytes|)
    case Alloc(n, addr, u) =>
      && 1 <= n < MAX_PAGES && s.table.issued < U32_LIMIT
      && addr % PAGE_SIZE == 0 && u !in s.c.uffdStart
      && addr !in s.c.startUffd
      && forall a :: a in s.c.startUffd && a in s.c.spans ==> Disjoint(a, s.c.spans[a], addr, n)
    case Unregister(start) => start in s.c.startUffd
  }

  /** A missing page raises a fault and the access waits for the handler. */
  function Touch(s: System, start: int, off: nat, op: int, residue: Page): System
    requires Valid(s) && start in s.c.startUffd
  {
    if RoundDown(start + off) in s.c.present then s
    else HandleFault(s, s.c.startUffd[start], start + off, op, residue)
  }

  function DoLoad(s: System, start: int, off: nat, len: nat, residue: Page): seq<Byte>
    requires Valid(s) && CanDo(s, Load(start, off, len, residue))
  {
    var s', a := Touch(s, start, off, READ_FAULT, residue), RoundDown(start + off);
    s'.c.present[a][off % PAGE_SIZE..off % PAGE_SIZE + len]
  }

  /** A write fetches nothing, so no residue can show. */
  function DoStore(s: System, start: int, off: nat, bytes: seq<Byte>): System
    requires Valid(s) && CanDo(s, Store(start, off, bytes))
  {
    var s', a := Touch(s, start, off, WRITE_FAULT, ZeroPage()), RoundDown(start + off);
    s'.(c := s'.c.(present := s'.c.present[a := Overlay(s'.c.present[a], off % PAGE_SIZE, bytes)]))
  }

  /** unordered_map::insert: never overwrites. */
  function Inserted<T>(m: map<int, T>, k: int, v: T): map<int, T> {
    if k in m then m else m[k := v]
  }

  /** Enter a region in the four tables.  An address used before keeps its old handle. */
  function Enter(s: System, addr: int, u: int, h: int, npages: U32): System {
    s.(c := s.c.(
      startUffd := Inserted(s.c.startUffd, addr, u), uffdStart := Inserted(s.c.uffdStart, u, addr),
      addrHndl := Inserted(s.c.addrHndl, addr, h), addrNPages := Inserted(s.c.addrNPages, addr, npages),
      spans := s.c.spans[addr := npages]))
  }

  function DoAlloc(s: System, npages: U32, addr: int, u: int): System {
    var h := Serve(s.table, MapMessage(npages), true).reply.hndl;
    Enter(Exchange(s, MapMessage(npages), true), addr, u, h, npages)
  }

  /** An allocation the server refuses: the client does not notice and enters the region
      with whatever handle its packet happened to hold. */
  function DoRefusedAlloc(s: System, npages: U32, addr: int, u: int, hndl: int): System {
    var m := MapMessage(npages).(hndl := hndl);
    Enter(Exchange(s, m, false), addr, u, Serve(s.table, m, false).reply.hndl, npages)
  }

  /** Drop a region from the descriptor and previous-page tables. */
  function Forget(s: System, start: int, u: int): System {
    s.(c := s.c.(
      startUffd := s.c.startUffd - {start}, uffdStart := s.c.uffdStart - {u},
      prevAddr := s.c.prevAddr - {u}, prevOp := s.c.prevOp - {u}))
  }

  function DoUnregister(s: System, start: int): System
    requires Valid(s)
  {
    if start !in s.c.startUffd then s
    else Forget(Invalidate(s, s.c.startUffd[start]), start, s.c.startUffd[start])
  }

  function Do(s: System, op: Op): System
    requires Valid(s)
  {
    if !CanDo(s, op) then s
    else
      match op
      case Load(start, off, _, residue) => Touch(s, start, off, READ_FAULT, residue)
      case Store(start, off, bytes) => DoStore(s, start, off, bytes)
      case Alloc(n, addr, u) => DoAlloc(s, n, addr, u)
      case Unregister(start) => DoUnregister(s, start)
  }
}

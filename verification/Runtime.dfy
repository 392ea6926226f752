/**
 * The client process: the page resolver's and the fault handler's state in place,
 * and the server at the other end of the socket.
 */
module Runtime {
  import opened Words
  import opened PageTable
  import ByteServer
  import opened RmpServer
  import opened ClientModel
  import opened ClientRefinement

  lemma ServeIssues(t: Table, m: Message, granted: bool)
    ensures Serve(t, m, granted).table.issued == t.issued + if m.action == MAP && granted then 1 else 0
  {
  }

  /** What the handler relies on when a fault arrives for `uffd`. */
  lemma FaultReady(s: System, uffd: int)
    requires Valid(s) && uffd in s.c.uffdStart
    ensures Tables(s) && Recorded(s.c)
    ensures s.c.uffdStart[uffd] in s.c.startUffd && s.c.startUffd[s.c.uffdStart[uffd]] == uffd && s.c.uffdStart[uffd] in s.c.addrHndl
    ensures uffd in s.c.prevAddr ==> s.c.prevAddr[uffd] in s.c.present
    ensures var c' := Invalidate(s, uffd).c;
      c'.uffdStart == s.c.uffdStart && c'.addrHndl == s.c.addrHndl
  {
  }

  lemma MappedAfter(s: ByteServer.State, m: Message, answer: ByteServer.Option<int>)
    ensures var r := ByteServer.Handle(s, m, answer);
      m.action == MAP && answer.Some? ==> r.Reply? && r.state.mem == ByteServer.Mmap(s.mem, answer.value, Mul32(m.npages, m.size))
  {
  }

  lemma TouchIs(s: System, start: int, off: nat, op: int, residue: Page)
    requires Valid(s) && start in s.c.startUffd && s.c.startUffd[start] in s.c.uffdStart
    ensures Touch(s, start, off, op, residue) ==
      if RoundDown(start + off) in s.c.present then s
      else ClientModel.HandleFault(s, s.c.startUffd[start], start + off, op, residue)
  {
  }

  lemma AllocKeepsValid(s: System, npages: U32, addr: int, uffd: int)
    requires Valid(s) && CanDo(s, Alloc(npages, addr, uffd))
    ensures Valid(DoAlloc(s, npages, addr, uffd))
  {
    AllocRefines(s, npages, addr, uffd);
  }

  /** After the fault the page accessed is resident. */
  lemma TouchReady(s: System, start: int, off: nat, op: int, residue: Page)
    requires Valid(s) && start in s.c.startUffd
    ensures s.c.startUffd[start] in s.c.uffdStart
    ensures RoundDown(start + off) in Touch(s, start, off, op, residue).c.present
  {
    hide Invalidate, Fetch, Tables, Recorded, Residents;
    DescriptorKnown(s, start);
  }

  /** The page resolver. */
  class RmpClient {
    const server: Server

    var addrHndlMap: map<int, int>
    var addrNPagesMap: map<int, U32>

    /** The packets sent so far. */
    ghost var sent: seq<Ask>

    constructor (server: Server)
      ensures this.server == server && addrHndlMap == map[] && addrNPagesMap == map[] && sent == []
    {
      this.server := server;
      addrHndlMap, addrNPagesMap, sent := map[], map[], [];
    }

    ghost predicate ServerInOrder()
      reads server
    {
      ByteServer.Inv(server.Value(), server.issued)
    }

    /** Send one packet and receive the answer.  `answer` is what the server's kernel
        replies should the packet make it map memory. */
    method Exchange(m: Message, answer: ByteServer.Option<int>) returns (reply: Message)
      requires ServerInOrder()
      requires ByteServer.PageSized(m) && ByteServer.KernelMayAnswer(server.Value(), m, answer)
      modifies server, this`sent
      ensures ServerInOrder()
      ensures Answer(server.Pages(), reply) == Serve(old(server.Pages()), m, answer.Some?)
      ensures sent == old(sent) + [Ask(m, answer.Some?)]
      ensures m.action == MAP && answer.Some? ==>
        server.mem == ByteServer.Mmap(old(server.mem), answer.value, Mul32(m.npages, m.size))
    {
      ghost var s := server.Value();
      hide ByteServer.Inv, ByteServer.Handle, ByteServer.Abs, ByteServer.PageSized, ByteServer.KernelMayAnswer;
      ByteServer.HandleSimulates(server.Value(), server.issued, m, answer);
      ServeIssues(server.Pages(), m, answer.Some?);
      hide Serve;
      var packet := new Packet(m);
      var alive := server.Handle(packet, answer);
      MappedAfter(s, m, answer);
      reply := packet.Value();
      sent := sent + [Ask(m, answer.Some?)];
    }

    method WritePage(hd: int, offset: U32, page: Page)
      requires ServerInOrder()
      modifies server, this`sent
      ensures ServerInOrder()
      ensures server.Pages() == Serve(old(server.Pages()), PutMessage(hd, offset, page), false).table
      ensures sent == old(sent) + [Ask(PutMessage(hd, offset, page), false)]
    {
      var _ := Exchange(PutMessage(hd, offset, page), ByteServer.None);
    }

    /** `residue` is what the packet's data holds before it is filled in. */
    method ReadPage(hd: int, offset: U32, residue: Page) returns (page: Page)
      requires ServerInOrder()
      modifies server, this`sent
      ensures ServerInOrder()
      ensures var a := Serve(old(server.Pages()), GetMessage(hd, offset, residue), false);
        server.Pages() == a.table && page == a.reply.data
      ensures sent == old(sent) + [Ask(GetMessage(hd, offset, residue), false)]
    {
      var reply := Exchange(GetMessage(hd, offset, residue), ByteServer.None);
      page := reply.data;
    }

    /** Sends `page` or returns the page fetched in its place. */
    method PagefaultResolver(start: int, addr: int, isWrite: int, page: Page, residue: Page) returns (page': Page)
      requires ServerInOrder() && start in addrHndlMap
      modifies server, this`sent
      ensures ServerInOrder()
      ensures var h, o := addrHndlMap[start], PageOffset(start, addr);
        var m := if isWrite != 0 then PutMessage(h, o, page) else GetMessage(h, o, residue);
        var a := Serve(old(server.Pages()), m, false);
        && server.Pages() == a.table && sent == old(sent) + [Ask(m, false)]
        && page' == if isWrite != 0 then page else a.reply.data
    {
      hide ByteServer.Inv, ByteServer.Abs, Serve;
      var offset := RoundDown(addr) - start;
      var pageOffset := offset / 4096 % U32_LIMIT;
      var hndl := addrHndlMap[start];
      page' := page;
      if isWrite != 0 {
        WritePage(hndl, pageOffset, page);
      } else {
        page' := ReadPage(hndl, pageOffset, residue);
      }
    }

    /** `addr` and `uffd` are what mmap and userfaultfd return here, `answer` what mmap
        returns on the server, `hndl` what the packet's handle field happens to hold.
        The error field of the answer is not looked at. */
    method RmpAlloc(npages: U32, uffdman: Uffdman, addr: int, uffd: int, answer: ByteServer.Option<int>, hndl: int)
      requires uffdman.resolver == this && uffdman.InOrder()
      requires CanDo(uffdman.View(), Alloc(npages, addr, uffd))
      requires ByteServer.MmapMayAnswer(server.mem, Mul32(npages, PAGE_SIZE), answer)
      modifies this, server, uffdman
      ensures ServerInOrder()
      ensures answer.Some? ==>
        && uffdman.InOrder() && uffdman.View() == DoAlloc(old(uffdman.View()), npages, addr, uffd)
        && server.mem == ByteServer.Mmap(old(server.mem), answer.value, Mul32(npages, PAGE_SIZE))
      ensures answer.None? ==> uffdman.View() == DoRefusedAlloc(old(uffdman.View()), npages, addr, uffd, hndl)
    {
      ghost var s := uffdman.View();
      assert npages < MAX_PAGES;
      hide Valid, CanDo, ByteServer.Inv, ByteServer.Abs, ByteServer.MmapMayAnswer, ByteServer.Mmap, Serve, Enter;
      AllocKeepsValid(s, npages, addr, uffd);
      var m := if answer.Some? then MapMessage(npages) else MapMessage(npages).(hndl := hndl);
      var reply := Exchange(m, answer);
      assert uffdman.View() == ClientModel.Exchange(s, m, answer.Some?);
      EnterRegion(uffdman, npages, addr, uffd, reply.hndl);
    }

    method EnterRegion(uffdman: Uffdman, npages: U32, addr: int, uffd: int, hndl: int)
      requires uffdman.resolver == this && ServerInOrder()
      modifies this`addrHndlMap, this`addrNPagesMap, uffdman`startAddrUffdMap, uffdman`uffdStartAddrMap, uffdman`spans
      ensures ServerInOrder() && uffdman.View() == Enter(old(uffdman.View()), addr, uffd, hndl, npages)
    {
      hide ByteServer.Inv, ByteServer.Abs;
      uffdman.RegisterRegion(addr, npages, uffd);
      RecordRegion(npages, addr, hndl);
    }

    /** `insert` never overwrites: an address used before keeps its old entries. */
    method RecordRegion(npages: U32, addr: int, hndl: int)
      modifies this`addrHndlMap, this`addrNPagesMap
      ensures addrHndlMap == Inserted(old(addrHndlMap), addr, hndl)
      ensures addrNPagesMap == Inserted(old(addrNPagesMap), addr, npages)
    {
      if addr !in addrHndlMap {
        addrHndlMap := addrHndlMap[addr := hndl];
      }
      if addr !in addrNPagesMap {
        addrNPagesMap := addrNPagesMap[addr := npages];
      }
    }
  }

  /** The fault handler and its tables. */
  class Uffdman {
    const resolver: RmpClient

    var startAddrUffdMap: map<int, int>
    var uffdStartAddrMap: map<int, int>
    var uffdPrevResolvedAddr: map<int, int>
    var uffdPrevResolvedOp: map<int, int>

    /** The page copied into faulting regions, shared by all of them. */
    var page: Page

    /** The kernel's side of the state: how many pages each region was registered with,
        and the resident pages of registered regions. */
    var spans: map<int, U32>
    var present: map<int, Page>

    constructor (resolver: RmpClient)
      requires resolver.ServerInOrder() && resolver.addrHndlMap == map[] && resolver.addrNPagesMap == map[]
      requires forall h :: h in resolver.server.Pages().pages ==> 0 <= h < resolver.server.issued
      ensures this.resolver == resolver && InOrder()
      ensures View() == System(Client(map[], map[], map[], map[], map[], map[], ZeroPage(), map[], map[], resolver.sent),
                               resolver.server.Pages())
    {
      this.resolver := resolver;
      startAddrUffdMap, uffdStartAddrMap := map[], map[];
      uffdPrevResolvedAddr, uffdPrevResolvedOp := map[], map[];
      page, spans, present := ZeroPage(), map[], map[];
    }

    /** The state of the whole system. */
    ghost function View(): System
      reads this, resolver, resolver.server
      requires resolver.ServerInOrder()
    {
      System(Client(resolver.addrHndlMap, resolver.addrNPagesMap, startAddrUffdMap, uffdStartAddrMap,
                    uffdPrevResolvedAddr, uffdPrevResolvedOp, page, spans, present, resolver.sent),
             resolver.server.Pages())
    }

    ghost predicate InOrder()
      reads this, resolver, resolver.server
    {
      resolver.ServerInOrder() && Valid(View())
    }

    method InvalidatePrevResolvedPage(uffd: int)
      requires resolver.ServerInOrder() && Tables(View()) && Recorded(View().c)
      requires uffd in uffdPrevResolvedAddr ==> uffdPrevResolvedAddr[uffd] in present
      modifies this`present, resolver`sent, resolver.server
      ensures resolver.ServerInOrder() && View() == Invalidate(old(View()), uffd)
    {
      if uffd in uffdPrevResolvedAddr && uffd in uffdPrevResolvedOp && uffd in uffdStartAddrMap {
        var prevResolvedAddr := uffdPrevResolvedAddr[uffd];
        var prevResolvedOp := uffdPrevResolvedOp[uffd];
        var regionStartAddr := uffdStartAddrMap[uffd];
        assert regionStartAddr in resolver.addrHndlMap;
        hide Tables, Recorded, ByteServer.Inv;
        if prevResolvedOp != 0 {
          var _ := resolver.PagefaultResolver(regionStartAddr, prevResolvedAddr, prevResolvedOp, present[prevResolvedAddr], ZeroPage());
        }
        present := present - {RoundDown(prevResolvedAddr)};
      }
    }

    /** Copy the buffer into the faulting page and record page and operation. */
    method InstallPage(uffd: int, faultingAddr: int, faultingOp: int)
      requires resolver.ServerInOrder()
      modifies this`present, this`uffdPrevResolvedAddr, this`uffdPrevResolvedOp
      ensures resolver.ServerInOrder() && View() == Install(old(View()), uffd, faultingAddr, faultingOp)
    {
      hide ByteServer.Inv, ByteServer.Abs;
      present := present[RoundDown(faultingAddr) := page];
      uffdPrevResolvedAddr := uffdPrevResolvedAddr[uffd := RoundDown(faultingAddr)];
      uffdPrevResolvedOp := uffdPrevResolvedOp[uffd := faultingOp];
    }

    method FetchPage(regionStartAddr: int, faultingAddr: int, residue: Page)
      requires resolver.ServerInOrder() && regionStartAddr in resolver.addrHndlMap
      modifies this`page, resolver`sent, resolver.server
      ensures resolver.ServerInOrder() && View() == Fetch(old(View()), regionStartAddr, faultingAddr, residue)
    {
      hide ByteServer.Inv, ByteServer.Abs, Serve;
      page := resolver.PagefaultResolver(regionStartAddr, faultingAddr, READ_FAULT, page, residue);
    }

    /** One page-fault event of the handler's loop. */
    method HandleFault(uffd: int, faultingAddr: int, faultingOp: int, residue: Page)
      requires InOrder() && uffd in uffdStartAddrMap
      modifies this, resolver`sent, resolver.server
      ensures resolver.ServerInOrder() && View() == ClientModel.HandleFault(old(View()), uffd, faultingAddr, faultingOp, residue)
    {
      ghost var s := View();
      FaultReady(s, uffd);
      hide Valid, Tables, Recorded, Residents, ByteServer.Inv, ByteServer.Abs, Invalidate, Install, Fetch;
      InvalidatePrevResolvedPage(uffd);
      if faultingOp == READ_FAULT {
        FetchPage(uffdStartAddrMap[uffd], faultingAddr, residue);
      }
      InstallPage(uffd, faultingAddr, faultingOp);
    }

    method RegisterRegion(addr: int, npages: U32, uffd: int)
      modifies this`startAddrUffdMap, this`uffdStartAddrMap, this`spans
      ensures startAddrUffdMap == Inserted(old(startAddrUffdMap), addr, uffd)
      ensures uffdStartAddrMap == Inserted(old(uffdStartAddrMap), uffd, addr)
      ensures spans == old(spans)[addr := npages]
    {
      spans := spans[addr := npages];
      if addr !in startAddrUffdMap {
        startAddrUffdMap := startAddrUffdMap[addr := uffd];
      }
      if uffd !in uffdStartAddrMap {
        uffdStartAddrMap := uffdStartAddrMap[uffd := addr];
      }
    }

    /** Drop a region from the four tables. */
    method ForgetRegion(addr: int, uffd: int)
      requires resolver.ServerInOrder()
      modifies this`startAddrUffdMap, this`uffdStartAddrMap, this`uffdPrevResolvedAddr, this`uffdPrevResolvedOp
      ensures resolver.ServerInOrder() && View() == Forget(old(View()), addr, uffd)
    {
      hide ByteServer.Inv, ByteServer.Abs;
      startAddrUffdMap := startAddrUffdMap - {addr};
      uffdStartAddrMap := uffdStartAddrMap - {uffd};
      uffdPrevResolvedAddr := uffdPrevResolvedAddr - {uffd};
      uffdPrevResolvedOp := uffdPrevResolvedOp - {uffd};
    }

    method UnregisterRegion(addr: int)
      requires InOrder()
      modifies this, resolver`sent, resolver.server
      ensures InOrder() && View() == DoUnregister(old(View()), addr)
    {
      if addr in startAddrUffdMap {
        ghost var s := View();
        var uffd := startAddrUffdMap[addr];
        DescriptorKnown(s, addr);
        FaultReady(s, uffd);
        hide Valid, Tables, Recorded, Residents, ByteServer.Inv, ByteServer.Abs, Invalidate, Forget, Forgotten;
        UnregisterRefines(s, addr);
        InvalidatePrevResolvedPage(uffd);
        ForgetRegion(addr, uffd);
      }
    }

    // ---- What the processor does ----

    /** A missing page raises a fault and the access waits. */
    method Access(start: int, off: nat, op: int, residue: Page)
      requires InOrder() && start in startAddrUffdMap && startAddrUffdMap[start] in uffdStartAddrMap
      modifies this, resolver`sent, resolver.server
      ensures resolver.ServerInOrder()
      ensures RoundDown(start + off) in old(present) ==> View() == old(View())
      ensures RoundDown(start + off) !in old(present) ==>
        View() == ClientModel.HandleFault(old(View()), old(startAddrUffdMap[start]), start + off, op, residue)
    {
      hide Valid, ByteServer.Inv, ByteServer.Abs, ClientModel.HandleFault;
      if RoundDown(start + off) !in present {
        HandleFault(startAddrUffdMap[start], start + off, op, residue);
      }
    }

    /** Change the resident page `a`. */
    method Poke(a: int, at: nat, bytes: seq<Byte>)
      requires resolver.ServerInOrder() && a in present && at + |bytes| <= PAGE_SIZE
      modifies this`present
      ensures resolver.ServerInOrder()
      ensures View() == old(View()).(c := old(View()).c.(present := old(present)[a := Overlay(old(present)[a], at, bytes)]))
    {
      hide ByteServer.Inv, ByteServer.Abs, Overlay;
      present := present[a := Overlay(present[a], at, bytes)];
    }

    /** A load of the application. */
    method Load(start: int, off: nat, len: nat, residue: Page) returns (bytes: seq<Byte>)
      requires InOrder() && CanDo(View(), Op.Load(start, off, len, residue))
      modifies this, resolver`sent, resolver.server
      ensures InOrder() && View() == Do(old(View()), Op.Load(start, off, len, residue))
      ensures bytes == DoLoad(old(View()), start, off, len, residue)
    {
      ghost var s := View();
      hide Valid, ByteServer.Inv, ByteServer.Abs, Touch;
      DoRefines(s, Op.Load(start, off, len, residue));
      TouchReady(s, start, off, READ_FAULT, residue);
      TouchIs(s, start, off, READ_FAULT, residue);
      Access(start, off, READ_FAULT, residue);
      bytes := present[RoundDown(start + off)][off % PAGE_SIZE..off % PAGE_SIZE + len];
    }

    /** A store of the application. */
    method Store(start: int, off: nat, bytes: seq<Byte>)
      requires InOrder() && CanDo(View(), Op.Store(start, off, bytes))
      modifies this, resolver`sent, resolver.server
      ensures InOrder() && View() == Do(old(View()), Op.Store(start, off, bytes))
    {
      ghost var s := View();
      hide Valid, ByteServer.Inv, ByteServer.Abs, Touch, Overlay, ZeroPage;
      DoRefines(s, Op.Store(start, off, bytes));
      TouchReady(s, start, off, WRITE_FAULT, ZeroPage());
      TouchIs(s, start, off, WRITE_FAULT, ZeroPage());
      Access(start, off, WRITE_FAULT, ZeroPage());
      Poke(RoundDown(start + off), off % PAGE_SIZE, bytes);
    }
  }
}

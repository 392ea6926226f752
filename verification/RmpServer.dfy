/** The page server's class, method by method. */
module RmpServer {
  import opened Words
  import opened PageTable
  import opened ByteServer

  class Packet {
    var hndl: int
    var npages: U32
    var size: U32
    var offset: U32
    var action: U32
    var data: Page
    var error: U32

    function Value(): Message
      reads this
    {
      Message(hndl, npages, size, offset, action, data, error)
    }

    constructor (m: Message)
      ensures Value() == m
    {
      hndl, npages, size, offset := m.hndl, m.npages, m.size, m.offset;
      action, data, error := m.action, m.data, m.error;
    }
  }

  class Server {
    var handleCount: U32
    var addrMap: map<int, int>
    var hndlNPages: map<int, U32>

    /** The mapped bytes of the process: the kernel's side of the state. */
    var mem: map<int, Byte>

    /** How many allocations have succeeded. */
    ghost var issued: nat

    function Value(): State
      reads this
    {
      State(handleCount, addrMap, hndlNPages, mem)
    }

    /** The pages held for each handle. */
    ghost function Pages(): Table
      reads this
      requires Inv(Value(), issued)
    {
      Abs(Value(), issued)
    }

    constructor (mem: map<int, Byte>)
      ensures Inv(Value(), issued) && Pages() == Table(0, map[]) && this.mem == mem
    {
      handleCount, addrMap, hndlNPages, issued := 0, map[], map[], 0;
      this.mem := mem;
    }

    method GetNewHandle() returns (h: U32)
      modifies this`handleCount
      ensures h == old(handleCount) && handleCount == (h + 1) % U32_LIMIT
    {
      h := handleCount;
      handleCount := (handleCount + 1) % U32_LIMIT;
    }

    method GetAddrMap(h: int) returns (a: int)
      modifies this`addrMap
      ensures a == At(old(addrMap), h) && addrMap == Touch(old(addrMap), h, 0)
    {
      if h !in addrMap {
        addrMap := addrMap[h := 0];
      }
      a := addrMap[h];
    }

    method GetHndlNPages(h: int) returns (n: U32)
      modifies this`hndlNPages
      ensures n == At(old(hndlNPages), h) && hndlNPages == Touch(old(hndlNPages), h, 0)
    {
      if h !in hndlNPages {
        hndlNPages := hndlNPages[h := 0];
      }
      n := hndlNPages[h];
    }

    /** `answer` is what mmap returns: the start of the new mapping, or failure. */
    method Alloc(npages: U32, pageSize: U32, answer: Option<int>) returns (h: int)
      modifies this
      ensures answer.None? ==> h == -1 && Value() == old(Value()) && issued == old(issued)
      ensures answer.Some? ==>
        && h == old(handleCount) && issued == old(issued) + 1
        && Value() == State((h + 1) % U32_LIMIT, old(addrMap)[h := answer.value], old(hndlNPages)[h := npages],
                            Mmap(old(mem), answer.value, Mul32(npages, pageSize)))
    {
      if answer.None? {
        return -1;
      }
      mem := Mmap(mem, answer.value, Mul32(npages, pageSize));
      var newHandle := GetNewHandle();
      addrMap := addrMap[newHandle := answer.value];
      hndlNPages := hndlNPages[newHandle := npages];
      issued := issued + 1;
      h := newHandle;
    }

    method Read(h: int, packet: Packet) returns (rc: int, alive: bool)
      requires h == packet.hndl
      modifies this, packet
      ensures var r := ReadPage(old(Value()), old(packet.Value()));
        && alive == r.Reply? && issued == old(issued)
        && (alive ==> Value() == r.state && (rc == 0 || rc == -1))
        && (alive && rc == 0 ==> packet.Value() == r.msg)
        && (alive && rc == -1 ==> packet.Value() == old(packet.Value()) && r.msg == packet.Value().(error := READ_FAILED))
    {
      var offset := packet.offset;
      var npages := GetHndlNPages(h);
      var addr := GetAddrMap(h);
      if npages <= offset {
        return -1, true;
      }
      var addrWithOffset := addr + Mul32(packet.size, offset);
      if !Mapped(mem, addrWithOffset, PAGE_SIZE) {
        return 0, false;
      }
      packet.data := PageAt(mem, addrWithOffset);
      return 0, true;
    }

    method Write(h: int, packet: Packet) returns (rc: int, alive: bool)
      requires h == packet.hndl
      modifies this
      ensures var r := WritePage(old(Value()), packet.Value());
        && alive == r.Reply? && issued == old(issued)
        && (alive ==> Value() == r.state && (rc == 0 || rc == -1))
        && (alive && rc == 0 ==> r.msg == packet.Value())
        && (alive && rc == -1 ==> r.msg == packet.Value().(error := WRITE_FAILED))
    {
      var offset := packet.offset;
      var npages := GetHndlNPages(h);
      var addr := GetAddrMap(h);
      if npages <= offset {
        return -1, true;
      }
      var addrWithOffset := addr + Mul32(packet.size, offset);
      if !Mapped(mem, addrWithOffset, PAGE_SIZE) {
        return 0, false;
      }
      mem := Memcpy(mem, addrWithOffset, packet.data);
      return 0, true;
    }

    method Release(h: int, pageSize: U32) returns (rc: int)
      modifies this
      ensures forall m: Message :: m.hndl == h && m.size == pageSize ==>
        var r := FreeRequest(old(Value()), m);
        && r.Reply? && Value() == r.state && issued == old(issued)
        && (rc == 0 || rc == -1)
        && (rc == 0 ==> r.msg == m)
        && (rc == -1 && h in old(addrMap) ==> r.msg == m.(error := FREE_FAILED))
    {
      if h in addrMap {
        var npages := GetHndlNPages(h);
        if npages == 0 {
          return -1;
        }
        var addr := GetAddrMap(h);
        var size := Mul32(npages, pageSize);
        if size == 0 {
          return -1; // munmap refuses length 0
        }
        mem := Munmap(mem, addr, size);
        addrMap := addrMap - {h};
        hndlNPages := hndlNPages - {h};
        return 0;
      }
      return -1;
    }

    /** One request, answered in the packet itself.  `alive` is false when a stray
        copy killed the process. */
    method Handle(packet: Packet, answer: Option<int>) returns (alive: bool)
      modifies this, packet
      ensures var r := ByteServer.Handle(old(Value()), old(packet.Value()), answer);
        && alive == r.Reply?
        && (alive ==> Value() == r.state && packet.Value() == r.msg)
      ensures issued == if old(packet.action) == MAP && answer.Some? then old(issued) + 1 else old(issued)
      ensures old(packet.action) == 0 && answer.None? ==> packet.error == 1
      ensures old(packet.action) > 3 ==> packet.error == 5
    {
      match packet.action {
        case 0 =>
          var h := Alloc(packet.npages, packet.size, answer);
          if h == -1 {
            packet.error := ALLOC_FAILED;
          } else {
            packet.hndl := h;
          }
          alive := true;
        case 1 =>
          alive := HandleRead(packet);
        case 2 =>
          alive := HandleWrite(packet);
        case 3 =>
          HandleFree(packet);
          alive := true;
        case _ =>
          packet.error := UNKNOWN_ACTION;
          alive := true;
      }
    }

    method HandleRead(packet: Packet) returns (alive: bool)
      modifies this, packet
      ensures issued == old(issued)
      ensures var r := GetRequest(old(Value()), old(packet.Value()));
        && alive == r.Reply?
        && (alive ==> Value() == r.state && packet.Value() == r.msg)
      ensures old(packet.hndl) !in old(addrMap) ==> packet.error == 6
      ensures old(packet.hndl) in old(addrMap) && At(old(hndlNPages), old(packet.hndl)) <= old(packet.offset) ==> packet.error == 2
      ensures old(packet.hndl) in old(addrMap) && old(packet.offset) < At(old(hndlNPages), old(packet.hndl)) && alive ==>
        packet.error == old(packet.error)
    {
      if packet.hndl !in addrMap {
        packet.error := INVALID_HANDLE;
        return true;
      }
      var rc;
      rc, alive := Read(packet.hndl, packet);
      if rc == -1 {
        packet.error := READ_FAILED;
      }
    }

    method HandleWrite(packet: Packet) returns (alive: bool)
      modifies this, packet
      ensures issued == old(issued)
      ensures var r := PutRequest(old(Value()), old(packet.Value()));
        && alive == r.Reply?
        && (alive ==> Value() == r.state && packet.Value() == r.msg)
      ensures old(packet.hndl) !in old(addrMap) ==> packet.error == 6
      ensures old(packet.hndl) in old(addrMap) && At(old(hndlNPages), old(packet.hndl)) <= old(packet.offset) ==> packet.error == 3
      ensures old(packet.hndl) in old(addrMap) && old(packet.offset) < At(old(hndlNPages), old(packet.hndl)) && alive ==>
        packet.error == old(packet.error)
    {
      if packet.hndl !in addrMap {
        packet.error := INVALID_HANDLE;
        return true;
      }
      var rc;
      rc, alive := Write(packet.hndl, packet);
      if rc == -1 {
        packet.error := WRITE_FAILED;
      }
    }

    method HandleFree(packet: Packet)
      modifies this, packet
      ensures issued == old(issued)
      ensures var r := FreeRequest(old(Value()), old(packet.Value()));
        r.Reply? && Value() == r.state && packet.Value() == r.msg
      ensures old(packet.hndl) !in old(addrMap) ==> packet.error == 6
      ensures old(packet.hndl) in old(addrMap) ==> packet.error == if packet.hndl in addrMap then 4 else old(packet.error)
    {
      if packet.hndl !in addrMap {
        packet.error := INVALID_HANDLE;
        return;
      }
      var m := packet.Value();
      var rc := Release(packet.hndl, packet.size);
      assert m.hndl == packet.hndl;
      if rc == -1 {
        packet.error := FREE_FAILED;
      }
    }
  }
}

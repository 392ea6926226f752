/**
 * What the page server is for: a table from handles to sequences of pages,
 * driven by packets.  The byte-addressed server is proved to implement it.
 */
module PageTable {
  import opened Words

  // Values of Packet.action
  const MAP: U32 := 0
  const GET: U32 := 1
  const PUT: U32 := 2
  const FREE: U32 := 3

  // Values of Packet.error
  const ALLOC_FAILED: U32 := 1
  const READ_FAILED: U32 := 2
  const WRITE_FAILED: U32 := 3
  const FREE_FAILED: U32 := 4
  const UNKNOWN_ACTION: U32 := 5
  const INVALID_HANDLE: U32 := 6

  /** The contents of one packet. */
  datatype Message = Message(
    hndl: int, npages: U32, size: U32, offset: U32, action: U32, data: Page, error: U32)

  /** `issued` counts the successful allocations; its low 32 bits are the next handle. */
  datatype Table = Table(issued: nat, pages: map<int, seq<Page>>)

  function NextHandle(t: Table): (h: int)
    ensures 0 <= h <= t.issued
    ensures t.issued < U32_LIMIT ==> h == t.issued
  {
    t.issued % U32_LIMIT
  }

  datatype Answer = Answer(table: Table, reply: Message)

  function ZeroPages(n: nat): (s: seq<Page>)
    ensures |s| == n && forall i :: 0 <= i < n ==> s[i] == ZeroPage()
  {
    seq(n, _ => ZeroPage())
  }

  function Replace(pages: seq<Page>, i: nat, data: Page): (r: seq<Page>)
    requires i < |pages|
    ensures |r| == |pages| && r[i] == data
    ensures forall j :: 0 <= j < |pages| && j != i ==> r[j] == pages[j]
  {
    var s: seq<Page> := pages[i := data];
    s
  }

  /** One request.  `granted` says whether the kernel found room for an allocation. */
  function Serve(t: Table, m: Message, granted: bool): Answer {
    if m.action == MAP then
      if granted then
        Answer(Table(t.issued + 1, t.pages[NextHandle(t) := ZeroPages(m.npages)]), m.(hndl := NextHandle(t)))
      else
        Answer(t, m.(error := ALLOC_FAILED))
    else if FREE < m.action then
      Answer(t, m.(error := UNKNOWN_ACTION))
    else if m.hndl !in t.pages then
      Answer(t, m.(error := INVALID_HANDLE))
    else if m.action == FREE then
      Answer(t.(pages := t.pages - {m.hndl}), m)
    else if |t.pages[m.hndl]| <= m.offset then
      Answer(t, m.(error := if m.action == GET then READ_FAILED else WRITE_FAILED))
    else if m.action == GET then
      Answer(t, m.(data := t.pages[m.hndl][m.offset]))
    else
      Answer(t.(pages := t.pages[m.hndl := Replace(t.pages[m.hndl], m.offset, m.data)]), m)
  }

  /** A request together with the kernel's yes or no to an allocation. */
  datatype Ask = Ask(msg: Message, granted: bool)

  datatype Session = Session(table: Table, replies: seq<Message>)

  function ServeAll(t: Table, asks: seq<Ask>): (r: Session)
    ensures |r.replies| == |asks|
  {
    if asks == [] then
      Session(t, [])
    else
      var before := ServeAll(t, asks[..|asks| - 1]);
      var a := Serve(before.table, asks[|asks| - 1].msg, asks[|asks| - 1].granted);
      Session(a.table, before.replies + [a.reply])
  }
}

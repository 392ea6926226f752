# rmpool: remote memory pages

The repository lends the memory of one machine to programs on another. A program
allocates a region of pages; the pages live on a *page server*. Locally the region
is empty address space watched by a page-fault handler. The handler keeps **at most
one page per region** resident and works by *off-by-one invalidation*: a fault first
evicts the page the previous fault of that region brought in (sending it to the server
only if a write brought it in), then fetches the faulting page (only if this fault is
a read), copies one buffer, shared by all regions, into the faulting page, and
records page and operation for next time.

This project models that system from the application's loads and stores down to the
bytes of the server process, and proves what a program may rely on.

## How the model is built

| layer | modules | form |
|---|---|---|
| page server | `ByteServer`, `RmpServer`, `ServerRuns` | the byte-addressed server with its u32 arithmetic; the class with the source's fields; whole packet sequences |
| what the server is for | `PageTable` | a table from handles to sequences of pages |
| client | `ClientModel`, `Runtime` | handle, descriptor and previous-page tables, shared buffer, resident pages; the classes that change them in place |
| what the client is for | `PageCache` | a one-line-per-region write-back cache of named pages |
| refinement | `ClientRefinement`, `EndToEnd` | client tables and packets implement the cache; its packets drive the byte server |
| properties of the cache | `FlatMemory`, `Transparency`, `BehindByOne`, `Residencies`, `Reliance`, `Traffic` | all runs, any number of regions |
| workloads | `ProgramTraces`, `SequentialFill`, `FillDiscipline`, `RandomOrder`, `RemoteBench` | the client program and the random benchmark, the latter on plain memory and with its array and both index vectors in remote memory |
| arithmetic | `Floats`, `Sums`, `PreloadMalloc` | rounding, sums, and the preloaded `malloc`'s binary32 page count |

The chain of refinements is: `Runtime` and `RmpServer` methods are equated with the functions of
`ClientModel` and `ByteServer`; `ByteServer` implements `PageTable`
(`HandleSimulates`, `BytesImplementPages`); `ClientModel` over `PageTable` implements
`PageCache` (`DoRefines`, `RunRefines`); so theorems about `PageCache` hold of the
whole system (`EndToEnd`).

Remote memory is **not** plain memory in general. A store to a page that a read
brought in raises no fault and is dropped at eviction (`StoreAfterReadIsLost`); a
page that is left after a write and written again starts from whatever is in the
shared buffer (`ReturningWriteLosesStores`). A region registered at the
address of an earlier, unregistered one keeps that one's handle, since `insert` never
overwrites, and so begins with its bytes and has only as many pages on the server
(`ReusedAddressIsNotFresh`, `OutgrownPageIsNeverSaved`, `ReusedAddressKeepsOldPages`).
`StepInSync` and `InSyncExactlyWhenSafe` say exactly when nothing is lost, in terms of
what could be checked before serving a fault or registering a region; `ValidLoadsAreFlat`
says for every run that a byte marked valid is right, and `ValidityMatchesTrace`, from the
list of accesses alone, which bytes those are (`ReliableOnServer`, `ReliableLocally`);
`DisciplinedRunsAreFlat` gives a discipline under which every load is right, and the
client program is proved to follow it from its start to its end. The random benchmark
is another matter: under the preloaded `malloc` its array and its two vectors of indices
are three regions sharing the buffer. Its sum is right for all random numbers exactly
if each of them fits one page (`RightExactly`); beyond that the swap inside a vector can
bring a page back as a copy of another one, and the sum comes out too large, as in
the recorded run at temp:1-9 (`MorePagesGoWrong`).

Words used: a page is *local* or *resident* if it is mapped in the client; it is
*write-faulted* or *read-faulted* by the fault that brought it in; a *residency* is a
maximal stretch of accesses of one region to one page.

## Assumptions

- One application thread, which waits while its fault is handled; requests reach the
  server one at a time (server/server.cpp:160-166). An exchange of packets is one call
  of the server's handler.
- Pages are 4096 bytes and the client's packets say so. The results on the server's
  two tables and on its handles (`TablesStayInStep`, `HandlesNeverReissued`) hold for
  packets of any size, given that a copy which strays outside its mapping misses the
  server's own tables and counter. No copy strays in runs of packets of at most page size
  (`TameRunsStayInside`), and no larger size is safe for every handle (`SafeSizesExactly`).
- Random numbers are idealised: each draw may be any number. The source reseeds from the
  clock at each draw (benchmarks/throughput_benchmark.cpp:46), so that draws within one
  second repeat one number; results for all draws cover that.
- `rmp_init` succeeded; kernel calls on registered regions succeed; the kernel's
  answers to `mmap` are page-aligned, unmapped and zero-filled, and none for length 0.
- In runs of the client the server granted every `rmp_alloc`; the client does not look at
  the error field (client/rmp_client.cpp:249-258), and `RefusedAllocKeepsTablesExactly` says
  what a refusal does. Allocations are of 1 to 2^20-1 pages (`PageCountLimit` shows
  what happens to the others), and fewer than 2^32 were granted before.
- `mmap` places a new region where no registered region lies. It may return the address
  of a region that was unregistered before.
- An access stays within one page of a registered region.
- Fields the client leaves unset in a packet and nobody reads are 0 in the model. Two
  are read when the server refuses a packet, and those are arbitrary: the data field
  of a get (`residue`) and the handle field of an allocation (`hndl`).

## Where code and documentation disagree

- server/rmp_test.cpp:93-106 expects an allocation of 10^12 pages to fail. The count
  is cut to 32 bits and its byte size wraps to 0x51000000, which `mmap` may grant;
  offsets accepted afterwards lie outside the mapping (`HugeRequestMayBeGranted`).
- uffdman/uffdman.cpp:86-105 says the server is behind by one page. That holds per
  region, and only as long as no store changes a read-faulted page and no address is
  registered again with more pages than before (`BehindByOneExactly`).
- benchmarks/throughput_benchmark.cpp:69 speaks of the values 1 to n; the code uses
  0 to n-1, and so does the model.

## Model

| member | source | states |
|---|---|---|
| ServerRuns.BytesImplementPages | server/rmp_server.cpp:72-170 | for every sequence of packets of size 4096 whose allocations ask for fewer than 2^20 pages or a multiple of 2^20, however many are granted, and any kernel answers: the byte server never crashes, replies to every packet as the page table does (data and errors), and ends with its contents |
| ServerRuns.AnswersInNumbers | include/rmp_types.hpp:6-11 | the error codes as the client reads them: 6 for a get, put or free of an unknown handle, 1 for a refused allocation, 2 and 3 for a get and a put past the end, 4 for a refused free, 5 for an action above 3; a refusal changes nothing but that field, an accepted request leaves it as it came |
| ServerRuns.MemoryInNumbers | server/rmp_server.cpp:94-170 | what an accepted packet of any size does to counter, tables and bytes: mapping, copy out, copy in and unmapping, with products modulo 2^32 |
| ServerRuns.KernelInNumbers | server/rmp_server.cpp:96-103 | the kernel may refuse any mapping, and grant one of positive length at any aligned address where it fits; nothing else |
| ServerRuns.KernelAllowsMore | server/rmp_server.cpp:72-92 | a run may go on with any packet and any answer the kernel may then give, and with nothing else |
| ByteServer.HandleSimulates | server/rmp_server.cpp:72-92 | one packet of size 4096 and any action (an allocation of fewer than 2^20 pages or a multiple of 2^20): reply, error code and abstract contents are those of the page table, and live mappings stay disjoint, even if the handle counter has gone round |
| ByteServer.MappingKeepsInv | server/rmp_server.cpp:94-112 | an allocation gives the next handle that many zero pages and disturbs no other |
| ByteServer.TargetIsPage | server/rmp_server.cpp:114-128 | the u32 address computation of an accepted offset hits exactly that page of the handle's own mapping |
| ByteServer.WritingChangesOnePage | server/rmp_server.cpp:130-145 | within its handle, a write replaces the one page addressed and no byte of another |
| ByteServer.WritingKeepsInv | server/rmp_server.cpp:130-145 | a write changes the pages of its own handle only |
| ByteServer.UnmappingKeepsInv | server/rmp_server.cpp:147-170 | a free removes one handle; every other handle keeps its pages |
| ServerRuns.HandlesCountUp | include/rmp_server.hpp:51-56 | over packets of any kind and size, stray copies missing the counter, the k-th handle given out is the counter's start plus k, modulo 2^32 |
| ServerRuns.HandlesNeverReissued | include/rmp_server.hpp:51-56 | handles given out are pairwise distinct, freed or not, if and only if there were at most 2^32 of them |
| ServerRuns.HandleKeepsTables | server/rmp_server.cpp:18-70 | any packet, of any size and offset, stray copies missing the tables, leaves the two tables with equal domains, issued handles and page counts of at least 1 |
| ServerRuns.TablesStayInStep | include/rmp_server.hpp:58-98 | the same over every packet sequence, even after the counter has gone round |
| ServerRuns.LiveHandlesBelowCounter | include/rmp_server.hpp:51-62 | until then, every live handle is below handle_count |
| ServerRuns.LookupsInsertNothing | include/rmp_server.hpp:64-86 | behind the guard for known handles, the inserting operator[] never inserts |
| ServerRuns.OffsetsInsideLimit | server/rmp_server.cpp:114-145 | all accepted offsets lie inside the mapping if and only if the handle has fewer than 2^20 pages |
| ServerRuns.OffsetsDisjointLimit | server/rmp_server.cpp:120-142 | accepted offsets address disjoint pages if and only if there are at most 2^20 pages |
| ServerRuns.PageCountLimit | server/rmp_server.cpp:94-126 | exactly the multiples of 2^20 pages are always refused; of the rest exactly those below 2^20 give every accepted offset its own page inside the mapping |
| ServerRuns.HugeRequestMayBeGranted | server/rmp_test.cpp:93-106 | a request for 10^12 pages wraps to a mappable length, with accepted offsets outside the mapping |
| ServerRuns.CopyInsideExactly | server/rmp_server.cpp:125-143 | an accepted get or put copies inside its handle's mapping if and only if the u32 product of size and offset is at most the start of the last page; for sizes up to a page it always does |
| ServerRuns.SafeSizesExactly | server/rmp_server.cpp:125-143 | a packet size keeps every accepted offset of every handle inside if and only if it is at most a page |
| ServerRuns.InsidePutKeepsOthers | server/rmp_server.cpp:130-145 | a put of any size that stays inside changes no other handle's pages |
| ServerRuns.TameRunsStayInside | server/rmp_server.cpp:72-170 | in a run of packets of at most page size (allocations of page-sized pages) the server never dies and no copy leaves its handle's mapping |
| RmpServer.Server.constructor | include/rmp_server.hpp:40-43 | a new server is in order and holds no pages |
| RmpServer.Server.GetNewHandle | include/rmp_server.hpp:51-56 | returns the counter and advances it with u32 wrap-around |
| RmpServer.Server.GetAddrMap | include/rmp_server.hpp:64-68 | operator[]: inserts 0 for a missing key |
| RmpServer.Server.GetHndlNPages | include/rmp_server.hpp:82-86 | operator[]: inserts 0 for a missing key |
| RmpServer.Server.Alloc | server/rmp_server.cpp:94-112 | failure changes nothing; success enters the new handle in both tables and maps the wrapped length |
| RmpServer.Server.Read | server/rmp_server.cpp:114-128 | for any handle, known or not: lookups (which insert an unknown one), offset check, copy of a whole page from the wrapped address |
| RmpServer.Server.Write | server/rmp_server.cpp:130-145 | for any handle, known or not: lookups, offset check, copy of a whole page to the wrapped address |
| RmpServer.Server.Release | server/rmp_server.cpp:147-170 | reply and state are those of a free request, including the refusals for no pages and wrapped length 0 |
| RmpServer.Server.Handle | server/rmp_server.cpp:72-92 | the server and the packet, changed in place, end as the byte server's Handle says; unknown actions are answered with error 5, not dropped, and unknown handles with error 6 |
| RmpServer.Server.HandleRead | server/rmp_server.cpp:18-34 | error 6 for an unknown handle, with nothing changed; error 2 for a refused offset; the packet's own error field on success |
| RmpServer.Server.HandleWrite | server/rmp_server.cpp:36-52 | error 6 for an unknown handle, with nothing changed; error 3 for a refused offset; the packet's own error field on success |
| RmpServer.Server.HandleFree | server/rmp_server.cpp:54-70 | error 6 for an unknown handle, with nothing changed; error 4 for a failed free; the packet's own error field on success |
| FlatMemory.StepSound | uffdman/uffdman.cpp:122-151 | every event keeps local and server bytes marked valid equal to plain memory (which bytes those are: Reliance.ValidityMatchesTrace) |
| FlatMemory.RunSound | uffdman/uffdman.cpp:183-294 | the same over every run |
| FlatMemory.ValidLoadsAreFlat | uffdman/uffdman.cpp:232-293 | in every run over any number of regions, registered once or several times, a load of bytes marked valid returns plain memory's value |
| Transparency.DisciplinedRunsAreFlat | uffdman/uffdman.cpp:159-297 | if stores avoid read-faulted pages, write-faulted pages are stored before loaded and completely stored before another page of their region evicts them, and regions are registered over zeros, every load returns the last value stored there |
| Transparency.LoadsOfDisciplinedRun | uffdman/uffdman.cpp:159-297 | the same for every load inside a disciplined run |
| Transparency.DisciplinedExactly | uffdman/uffdman.cpp:159-297 | the discipline asks for no more: from a state in which every page is current, an event meets it if and only if everything is current afterwards and, if it is a load, it reads current bytes |
| Transparency.StepInSync | uffdman/uffdman.cpp:122-294 | from a state in which every load would be right, an event leads to another such state if and only if: the page it drops is unchanged or write-faulted and, on a write fault, the buffer agrees with the server's page outside the stored bytes; a region registered is fresh |
| Transparency.RegisterStaysInSync | client/rmp_client.cpp:254-258 | a region registered, perhaps again, is in sync with plain memory if and only if its address is new or the pages kept for it are zero and at least as many |
| Transparency.InSyncExactlyWhenSafe | uffdman/uffdman.cpp:122-294 | nothing is lost at any point of a run if and only if that check holds at each of its faults and registrations |
| Transparency.StoreAfterReadIsLost | uffdman/uffdman.cpp:266-338 | MISSING-only registration and copy mode 0: a store to a page a read brought in is lost at the next fault |
| Transparency.ReturningWriteLosesStores | uffdman/uffdman.cpp:236-268 | write page 0, write page 1, write page 0 elsewhere: the first store is gone |
| Transparency.ReusedAddressIsNotFresh | client/rmp_client.cpp:256-257 | register, store x, unregister, register again: a load returns x, not 0 |
| Transparency.OutgrownPageIsNeverSaved | client/rmp_client.cpp:256-258 | registered again with one page more, that page is refused by the server: a load returns what its packet held |
| BehindByOne.StepStaysBehind | uffdman/uffdman.cpp:122-151 | if the server has every page and lags on at most the recorded write-faulted page of each region, it still does after an event if and only if the event neither changes a read-faulted page nor registers more pages than are kept |
| BehindByOne.LatestElsewhere | uffdman/uffdman.cpp:86-105 | an event changes the latest contents of no page but the one that is local after it |
| BehindByOne.BehindByOneExactly | uffdman/uffdman.cpp:86-105 | off by one: that holds throughout a run if and only if no event of the run does either |
| Residencies.RunMatchesTrace | uffdman/uffdman.cpp:122-294 | after any run, with registering and unregistering, the server's pages, the buffer and all local pages are a function of the trace alone |
| Residencies.ServerHoldsLastWriteResidency | uffdman/uffdman.cpp:142-149 | a page the server has is what its last ended write-faulted residency left: the page last fetched by a read fault of any region under that residency's stores |
| Residencies.ServerUntouchedOtherwise | uffdman/uffdman.cpp:142-149 | if none has ended the server still holds the initial page: read-faulted residencies leave no trace |
| Reliance.ValidityMatchesTrace | uffdman/uffdman.cpp:122-293 | in every run from nothing local, a byte is marked valid on the server or locally if and only if the list of accesses says so, going back to the residency that stored it |
| Reliance.ReliableOnServer | uffdman/uffdman.cpp:142-149 | a byte that the last ended write-faulted residency of its page stored, or a byte of a page for which none ended, can be relied on as long as no later read-faulted residency stores that very byte: dropping a read-faulted page takes nothing else |
| Reliance.ReliableLocally | uffdman/uffdman.cpp:229-293 | of a local page exactly the bytes its residency stored and, if a read brought it in, those that could be relied on then |
| Traffic.PacketsMatchFaults | uffdman/uffdman.cpp:142-147 | conservation over every run: read faults are gets sent; write faults are puts sent plus regions whose recorded page is write-faulted |
| Traffic.LineIsLastVisit | uffdman/uffdman.cpp:272-293 | in every run a region has a local page if and only if it was accessed since it was registered, and then it is the page accessed last |
| Traffic.FaultsAreBlocks | uffdman/uffdman.cpp:149-282 | the faults of any run number the maximal runs of accesses to one page between registering and unregistering, summed over the regions |
| Traffic.ScanFaultsOncePerPage | uffdman/uffdman.cpp:264-282 | a scan of n pages with nothing local costs exactly n faults |
| ClientRefinement.Offsets | client/rmp_client.cpp:149-152 | rounding down and dividing give the page index of an address, within the region's pages |
| ClientRefinement.PagesApart | client/rmp_client.cpp:149-167 | a page address belongs to one registered region only |
| ClientRefinement.SendIs | client/rmp_client.cpp:55-101 | a put packet for a page of a region replaces exactly that page of the server's table, or nothing if the server has no such page |
| ClientRefinement.FetchIs | client/rmp_client.cpp:103-147 | a get packet leaves the server as it is and fills the buffer with the page asked for, or with what the packet held if the server has no such page |
| ClientRefinement.PutKeepsTables | client/rmp_client.cpp:149-167 | a put in one region never changes what another region's pages hold on the server |
| ClientRefinement.InvalidateRefines | uffdman/uffdman.cpp:122-151 | invalidating is evicting the region's line: same server pages, same packets, only the recorded page dropped |
| ClientRefinement.FaultRefines | uffdman/uffdman.cpp:229-293 | one turn of the handler is the cache's fault, and keeps every table invariant |
| ClientRefinement.PresentIsResident | uffdman/uffdman.cpp:264-282 | an address is present exactly when the cache holds its page, with the same contents |
| ClientRefinement.LoadRefines | client/rmp_client.cpp:149-167 | a load at an address returns what the cache returns for that region and page |
| ClientRefinement.StoreRefines | uffdman/uffdman.cpp:229-293 | a store at an address is the cache's store |
| ClientRefinement.AllocRefines | client/rmp_client.cpp:222-261 | an allocation at a new address registers zero pages under a handle no other region has; at an address used before it keeps the old handle and pages |
| ClientRefinement.UnregisterRefines | uffdman/uffdman.cpp:360-373 | unregistering is the cache's unregistering |
| ClientRefinement.DoRefines | uffdman/uffdman.cpp:122-383 | every operation keeps the tables valid and is one event of the cache |
| ClientRefinement.RunRefines | uffdman/uffdman.cpp:122-383 | so is every run |
| EndToEnd.LoadIsDone | uffdman/uffdman.cpp:229-293 | every load inside one page of a registered region takes place: the page is brought in by a read unless it is there |
| EndToEnd.StoreIsDone | uffdman/uffdman.cpp:229-293 | so does every store: brought in by a write unless there, then overwritten with the bytes |
| EndToEnd.AllocIsDone | client/rmp_client.cpp:222-261 | so does every allocation of 1 to 2^20-1 pages at an aligned address clear of the registered regions, with an unused descriptor |
| EndToEnd.UnregisterIsDone | uffdman/uffdman.cpp:360-373 | so does every unregistering: evicted and gone |
| EndToEnd.ServerBytesFollowCache | server/rmp_server.cpp:72-170 | the packets of any client run, handled by the byte server, never crash it and leave it holding, byte for byte, the pages the cache says |
| EndToEnd.DisciplinedLoadsAreFlat | client/rmp_client.cpp:149-167 | at the level of addresses and packets: under the discipline every load returns plain memory's bytes |
| EndToEnd.SentPacketsMatchFaults | client/rmp_client.cpp:149-167 | the packets actually sent: gets are read faults, puts are write faults less those still owed |
| EndToEnd.ServerLagsOnlyOnRecordedPage | uffdman/uffdman.cpp:272-293 | if no store changes a read-faulted page and no address is reused for more pages, a page on which the server lags is the recorded one with operation write |
| EndToEnd.ResidentIsRecorded | uffdman/uffdman.cpp:272-293 | in every valid state a resident page of a registered region is its recorded page |
| EndToEnd.RunKeepsOnePagePerRegion | uffdman/uffdman.cpp:53-59 | after any run, addresses used again or not: one page per region at most, the recorded one; previous-page maps with equal domains among the registered descriptors; descriptor maps inverse |
| EndToEnd.TranslationIsInjective | client/rmp_client.cpp:149-167 | after any run two accesses go to one handle and offset if and only if they are to one page of one region; the offset is below the region's size, and names a page the server has if and only if it is below the count kept for the address |
| EndToEnd.OnlyOwnPageChanges | uffdman/uffdman.cpp:122-151 | after any run an operation changes what a page reads only by storing into it or by dropping it as a read-faulted page; no eviction in one region changes what any other page reads |
| EndToEnd.UnregisterSavesAndForgets | uffdman/uffdman.cpp:360-373 | the write-faulted page of the region is saved, nothing else on the server changes, no page of it stays resident, its entries and no others leave the four maps |
| EndToEnd.ReusedAddressKeepsOldPages | client/rmp_client.cpp:252-258 | after any unregistered region's address is allocated again: same handle, same pages on the server, and the handle just granted reaches no region |
| EndToEnd.NewRegionReadsZeroExactly | client/rmp_client.cpp:222-261 | right after an allocation every load returns zero, whatever the packets hold, if and only if the address is new or its kept pages are zero and at least as many |
| EndToEnd.RefusedAllocKeepsTablesExactly | client/rmp_client.cpp:249-258 | after an allocation the server refused, the client's tables are in order if and only if the address was used before or the handle left in the packet is one of as many pages that no region uses |
| EndToEnd.RunAccounts | client/rmp_client.cpp:149-261 | all packets of a run have size 4096, error 0 and action 0, 1 or 2, allocations ask for 1 to 2^20-1 pages, and served in order the packets lead to the server's table |
| Runtime.RmpClient.Exchange | client/rmp_client.cpp:239-250 | one packet to the live server object: the answer and the server's pages are the page table's |
| Runtime.RmpClient.WritePage | client/rmp_client.cpp:55-101 | sends one put packet with the page |
| Runtime.RmpClient.ReadPage | client/rmp_client.cpp:103-147 | sends one get packet and returns the page in the answer, whatever its error field says |
| Runtime.RmpClient.PagefaultResolver | client/rmp_client.cpp:149-167 | sends the page to, or fetches it from, the handle and offset of the address |
| Runtime.RmpClient.RmpAlloc | client/rmp_client.cpp:222-261 | asks the server, registers the region and enters it in both maps, granted or refused; if granted, the whole system stays in order |
| Runtime.RmpClient.RecordRegion | client/rmp_client.cpp:256-258 | enters handle and page count; an address used before keeps its old entries |
| Runtime.Uffdman.constructor | uffdman/uffdman.cpp:63-75 | a new handler has empty tables and a zero buffer, and the system is in order |
| Runtime.Uffdman.InvalidatePrevResolvedPage | uffdman/uffdman.cpp:122-151 | the state afterwards is that of the model's Invalidate |
| Runtime.Uffdman.FetchPage | uffdman/uffdman.cpp:236-241 | overwrites the shared buffer with the server's page |
| Runtime.Uffdman.InstallPage | uffdman/uffdman.cpp:256-293 | copies the buffer into the page and records page and operation |
| Runtime.Uffdman.HandleFault | uffdman/uffdman.cpp:229-293 | one page-fault event: invalidate, fetch if read, install |
| Runtime.Uffdman.RegisterRegion | uffdman/uffdman.cpp:354-356 | enters both descriptor maps without overwriting |
| Runtime.Uffdman.ForgetRegion | uffdman/uffdman.cpp:369-373 | erases the region from the four maps |
| Runtime.Uffdman.UnregisterRegion | uffdman/uffdman.cpp:360-373 | nothing for an unknown region; otherwise invalidate and forget, and the system stays in order |
| Runtime.Uffdman.Load | uffdman/uffdman.cpp:229-293 | an application load, faulting if the page is missing: state and bytes are the model's, and the system stays in order |
| Runtime.Uffdman.Store | uffdman/uffdman.cpp:229-293 | an application store, faulting if the page is missing: the state is the model's, and the system stays in order |
| SequentialFill.FillFault | client/client.cpp:39-42 | the store that enters a page: the page before it is sent complete and every element so far can still be found |
| SequentialFill.FillHit | client/client.cpp:39-42 | a store inside the local page keeps every element so far |
| SequentialFill.ReadStep | client/client.cpp:44-48 | each load of the second loop returns its element, including the one that evicts the page the fill left behind |
| SequentialFill.StoreElement | client/client.cpp:39-42 | the same on the whole system's tables and packets, one store |
| SequentialFill.LoadElement | client/client.cpp:44-48 | the same on the whole system's tables and packets, one load |
| SequentialFill.Fill | client/client.cpp:39-42 | the fill loop over k pages, any k, leaves every element in place and k-1 pages sent; the system ends where the cache's run of its stores does |
| SequentialFill.Sum | client/client.cpp:44-48 | the sum loop returns 0 + 1 + ... + (512k-1) added up in double precision; the system ends where the run of the stores and these loads does |
| SequentialFill.FillThenSum | client/client.cpp:39-48 | fill then sum on the live objects, any k and any region of at least k pages: every element, the sum (exact up to 2^27+1 elements), and exactly k gets and k puts (none for k at most 1), other regions untouched; the accesses made are those of the trace below |
| SequentialFill.ThreeSums | client/client.cpp:39-70 | three regions in turn: each sum is 5120 * 5119 / 2 |
| SequentialFill.Program | client/client.cpp:27-75 | from a new server and client, for any answers the kernels can give: three allocations of eleven pages, three fills and sums, each sum 5120 * 5119 / 2; its whole trace is the one that ProgramDisciplined is about |
| FillDiscipline.WorkloadDisciplined | client/client.cpp:39-48 | every access of fill then sum meets the discipline, whatever is local in other regions |
| FillDiscipline.ProgramDisciplined | client/client.cpp:31-70 | so does every event of the whole program from its start: any number of regions registered, then filled and summed in turn |
| FillDiscipline.ProgramLoadsAreFlat | client/client.cpp:31-70 | hence each of its loads returns plain memory's value |
| Sums.SumBelowIs | benchmarks/throughput_benchmark.cpp:14-24 | the sum of 0 to n-1 is n(n-1)/2 |
| Sums.AddDoubleRounds | client/client.cpp:44-48 | an addition in binary64, however large the numbers: a multiple of the spacing at most half a spacing away, the even one of two |
| Sums.DoubleSumExact | client/client.cpp:44-48 | added up in binary64 the sum of 0 to n-1 is exact for n up to 2^27+1 |
| Sums.DoubleSumLoses | client/client.cpp:44-48 | from 2^27 numbers on, while the sum is below 2^54, every second addition loses 1 |
| Sums.DoubleSumExactly | client/client.cpp:44-48 | over that range the double sum is exact if and only if n is at most 2^27+1 |
| RandomOrder.GetNum | benchmarks/throughput_benchmark.cpp:39-61 | returns the drawn element and removes it by moving the last one into its place |
| RandomOrder.GetIndexArray | benchmarks/throughput_benchmark.cpp:64-74 | a new vector 0, 1, ..., n-1 |
| RandomOrder.DrainedIsPermutation | benchmarks/throughput_benchmark.cpp:39-61 | draining any vector yields a permutation of it, whatever the random numbers |
| RandomOrder.EveryIndexOnce | benchmarks/throughput_benchmark.cpp:64-74 | so each of 0 to n-1 is drawn exactly once and nothing else is |
| RandomOrder.EveryOrderPossible | benchmarks/throughput_benchmark.cpp:39-61 | and every permutation can come out, with suitable random numbers |
| RandomOrder.FillRandomly | benchmarks/throughput_benchmark.cpp:175-183 | the fill loop terminates with element i equal to i everywhere |
| RandomOrder.SumRandomly | benchmarks/throughput_benchmark.cpp:184-191 | the sum loop terminates with the sum of all elements in int arithmetic, and overflows on the way if and only if that sum does not fit an int |
| RandomOrder.BenchForIntRandom | benchmarks/throughput_benchmark.cpp:169-191 | on plain memory, for any two random sequences: the sum is that of 0 to n-1 in int arithmetic, reported valid for n up to 46341 and, though right, invalid from there to 65536 |
| RandomOrder.IntSumCheck | benchmarks/throughput_benchmark.cpp:14-24 | the check's product fits a signed 32-bit int if and only if n is at most 46341, the sum itself up to 65536; in the former range the check accepts exactly the right sum |
| RandomOrder.WrappedSumCheck | benchmarks/throughput_benchmark.cpp:14-24 | where int arithmetic wraps, the check accepts the wrapped sum if and only if twice that sum fits an int |
| RandomOrder.IntSumExactly | benchmarks/throughput_benchmark.cpp:14-24 | for every count and every int: the check accepts a sum if and only if it lies in [-2^30, 2^30) and twice it is n(n-1) modulo 2^32 |
| RemoteBench.RightExactly | benchmarks/throughput_benchmark.cpp:169-191 | with the array and both index vectors in remote regions, from any buffer and any pages: the sum is right for all random numbers if and only if n is at most 1024, one page each |
| RemoteBench.RightFromTheStart | benchmarks/throughput_benchmark.cpp:169-191 | the same from before the three regions are registered, with any number of pages that hold the ints |
| RemoteBench.RightIntExactly | benchmarks/throughput_benchmark.cpp:169-191 | the same of the wrapped int sum for n up to 2^22 |
| RemoteBench.OnePageIsRight | benchmarks/throughput_benchmark.cpp:169-191 | up to 1024 ints the sum is right for every draw: each region keeps its written page local |
| RemoteBench.MorePagesGoWrong | benchmarks/throughput_benchmark.cpp:175-191 | for every n beyond, filling from the end and then drawing index 1 first makes the sum too large by a stated amount, whatever the start |
| RemoteBench.LastDrawsAreRight | benchmarks/throughput_benchmark.cpp:175-191 | draws that always take the last index give the right sum for any number of pages |
| RemoteBench.PassIs | benchmarks/throughput_benchmark.cpp:66-71 | a loop over a vector in remote memory leaves every element in place and takes the rest of each page from the buffer |
| RemoteBench.DrawIsSwap | benchmarks/throughput_benchmark.cpp:50-56 | in remote memory getNum's loads change no element and return the drawn and the last one; if these lie on two pages, the last one's page is in the buffer when the swap stores |
| RemoteBench.DrawExactly | benchmarks/throughput_benchmark.cpp:50-56 | every element of the vector after getNum in remote memory: drawn and last one exchanged and all others kept, unless they lie on two pages; then the rest of the drawn one's page is a copy of the last page |
| RemoteBench.DrawTrace | benchmarks/throughput_benchmark.cpp:50-56 | getNum's accesses: the drawn element is loaded twice and the last one once, then the last one is stored in its place and the drawn one in the last place |
| RemoteBench.FillTrace | benchmarks/throughput_benchmark.cpp:179-183 | a fill turn stores the index drawn at its own place in the array, and ends the run if there is no such place |
| RemoteBench.SumTrace | benchmarks/throughput_benchmark.cpp:187-191 | a sum turn adds what it loads from the array at the index drawn |
| RemoteBench.IndexArrayTrace | benchmarks/throughput_benchmark.cpp:64-74 | making a vector stores every element twice in order, first a zero, then its index |
| RemoteBench.CrossDraw | benchmarks/throughput_benchmark.cpp:50-57 | drawing index 1 of a longer vector leaves its first page a copy of its last one |
| RemoteBench.StoreElement | uffdman/uffdman.cpp:236-268 | a store puts its element in place and, if it faults, leaves the others of its page as the buffer holds them |
| RemoteBench.BenchForIntRandomAt | benchmarks/throughput_benchmark.cpp:169-191 | the benchmark's loops, turn by turn, come to the outcome the results above are about |
| PreloadMalloc.RoundsToNearest | preloadlib/preloadlib.cpp:192 | the conversion to float gives a nearest binary32 number, within half a unit in the last place |
| PreloadMalloc.RoundsToEven | preloadlib/preloadlib.cpp:192 | the result is a multiple of that unit, and of two nearest ones the even one |
| PreloadMalloc.ExactUpTo16M | preloadlib/preloadlib.cpp:192 | up to 2^24 bytes the page count is the exact ceiling |
| PreloadMalloc.FirstShortfall | preloadlib/preloadlib.cpp:192 | 2^24+1 is the smallest size whose pages do not cover it |
| PreloadMalloc.ShortfallBound | preloadlib/preloadlib.cpp:192 | the uncovered bytes never exceed half a unit in the last place of the size |
| PreloadMalloc.CoversExactly | preloadlib/preloadlib.cpp:192 | the pages cover the request if and only if the size is page-aligned or its last page is used by more than half a unit (units of 4096 and up: if and only if it is not rounded down) |
| PreloadMalloc.PagesExactly | preloadlib/preloadlib.cpp:192 | the page count for every size: one more than the whole pages if the rest exceeds half a unit; with units of 4096 and up, the rounded size in pages |
| PreloadMalloc.ExcessBound | preloadlib/preloadlib.cpp:192 | malloc never asks for a page too many, nor, with units of 4096 and up, for more than half a unit too much |

## Left out

- Sockets, connection set-up, delays and partial `send`/`recv` (client/rmp_client.cpp:175-220, server/server.cpp:102-250), and the unused `readn`/`writen`.
- Kernel failures, `poll`, thread creation and cancellation, and `addr_tid_map`: a page is present or missing, and the handler's endless loop is taken one event at a time.
- Several application threads racing with an eviction: saving and dropping the page are separate actions (uffdman/uffdman.cpp:146-149), so the theorems need the single thread.
- The application's access to a region after it was unregistered: its descriptor is neither closed nor unregistered with the kernel and its handler is cancelled (uffdman/uffdman.cpp:360-383), so a missing page blocks the access.
- The unmap event, which the handler ignores (uffdman/uffdman.cpp:208-212), and the client's `rmp_free`, which has no body (client/rmp_client.cpp:263-265).
- The client's direct `rmp_read`/`rmp_write` interface, which bypasses the handler.
- Runs after an `rmp_alloc` the server refused: RefusedAllocKeepsTablesExactly covers that one step, and ClientModel's runs continue from granted ones.
- Failures of the client's own `mmap` and a client that is not connected, when `rmp_alloc` returns early.
- Accesses that cross a page boundary: they are two accesses.
- Pointers: memory is a map from addresses to bytes on the server and from page addresses to pages on the client, so two names for one page cannot occur.
- SequentialFill.Sum: elements are the numbers stored, under any 8-byte encoding that can be decoded; the bit patterns of binary64 are not modelled.
- RandomOrder.BenchForIntRandom: int arithmetic wraps where C++ leaves overflow undefined; the overflow of the byte size `num * sizeof(int)` is not modelled.
- RemoteBench.RightExactly: adds up exactly, to separate lost elements from overflow (RightIntExactly wraps); every use of `operator new` is taken to reach the hook, a vector's zeros to be stored int by int, and each C++ statement to access memory as written.
- ByteServer.HandleSimulates: packets of a size other than 4096 are handled by the model but not claimed to implement the page table; nor are allocations of more than 2^20 pages whose size does not wrap to 0, for which PageCountLimit shows it false.
- PreloadMalloc.CoversExactly: sizes are unbounded naturals; the cut of the page count to 32 bits when it is passed to `rmp_alloc` (from 2^44 bytes on) is not modelled.
- The other preload hooks, the latency benchmark, timing and debug output, build files and scripts.

# Ownership protocols of an mlx5 driver, in Dafny

AppleMCX drives mlx5 adapters from macOS. Much of it is a set of ownership protocols: pages lent to
firmware, objects that depend on each other, slots of rings and queues, doorbell records, command
descriptors. Each is kept right by counters that wrap, bitmaps and flags under a lock, while
firmware and hardware answer as they please. This project models those protocols and proves what
they keep.

Firmware and hardware are oracles. To the core driver firmware is a script that fixes the answer to
every command after every history, and the theorems range over all scripts; to the Ethernet interface
firmware and host are a sequence of answers; elsewhere a command ends in success, an error or a timeout
at will, and an adapter writes to its rings whenever it likes within the rules of the ring. What
firmware may access is kept on firmware's side: `CommandChannel.Held` is a function of the log and the
answers, in which a GIVE hands pages over and only the reply to a TAKE, or a release-all event, gives
them up. A method that updates the driver's fields is a method of a class with those fields; a protocol
between threads is a state machine whose steps are the lock sections.

Where a theorem supposes firmware that plays along (`FwPages.Generous`, `PciDriver.Grants`),
`HonestFirmware.PlayingAlongIsPossible` shows that there is such firmware.

| part | modules |
|---|---|
| Pages lent to firmware, and the teardown gate in front of their final release | FwPageList, FwPages, CommandChannel, PciDriver, HonestFirmware |
| The runtime page worker at lock granularity, and its request ring | PageRequests, PageWorker, RequestRing |
| The Ethernet interface: object lifecycle, send and receive rings | FirmwareObjects, Ethernet, TxRing, TxWindow, TxCompletions, RxRing |
| Rings with an ownership bit: event queues, completion queues, the user library | PhaseRing, DeviceQueue |
| Event notifiers and callback quiescence | Notifiers, Quiescence |
| Doorbell slots and blue-flame registers | DoorbellBitmap, Uar |
| The command interface: slots, mailboxes, checksums | CmdSlots, MailboxFormat, Mailbox, Checksum |
| Memory translation and encoders | DmaSegments, MttPages, MemoryRegion, IfcBits, MkeyEncoding, ManagePagesEncoding, PinTable |

`dafny verify dfyconfig.toml` checks the whole project.

## What is false of the code

Four properties one would expect do not hold, and each has its exact condition here.

- Cleanup can free the buffers of a command that firmware never answered. The gate tests the
  quarantine, but FREE_UAR is sent behind it, and its timeout does not stop the release of the command
  interface (`PciDriver.Driver.Cleanup`: exactly if the gate of `PciDriver.ReleaseCondition` opens, a
  boot UAR is held and firmware does not answer; `PciDriver.CleanupFreesStuckCommand` is the run).
- A completion on an empty send ring walks the consumer past the producer, unless it names the entry
  just behind the producer (`TxRing.CompletionKeepsRing`, and `TxRing.SpuriousCompletion` for a concrete
  one). `TxCompletions` shows that an adapter that completes only posted entries never sends one.
- The drain loop of the page worker can wait for ever: the final section of a stopping worker drops its
  reschedule (`PageWorker.DrainCanStall`, `PageWorker.FinalSectionDecidesDrain`).
- A memory region that the mapper covers can still be rejected: if neighbouring virtual pages share a
  device page, because of the de-duplication, or if the 480th page fills the list before its last batch
  is asked for (`MemoryRegion.BuildPbl`, with an input for each in `MemoryRegion.RejectedRanges`).

Two smaller ones: reclaimAll's wrapping wait counter never reaches a timeout of 2^32-1
(`FwPages.WaitBudgetExpires`), and blue-flame offsets coincide for a register size of 2^31
(`Uar.BfOffsetsDistinct`).

## Model

| member | source | states |
|---|---|---|
| `PciDriver.Driver.Live` | Sources/core/MlxPCIDriver.cpp:60-310 | start, which may fail at any step also after the page worker is up and has served requests, any worker runs, commands, bad page events and fatal events at run time, then cleanup, with every firmware answer and host failure: at the end no page has ever been unmapped while firmware held it, and whatever firmware still holds is still mapped. What firmware holds is a function of the log and its answers, every logged command ended as firmware has it, and the release-alls in the log are exactly those of the requests served |
| `PciDriver.Driver.Cleanup` | Sources/core/MlxPCIDriver.cpp:223-310 | which commands cleanup sends, every field of its report and what it releases are determined by the state it starts from, firmware's answers and the page manager's fault; behind a closed gate it keeps the pages, the event-queue rings, the boot UAR and the PCI handle, past an open one none of them is left; it frees a command firmware never answered exactly if it releases, a boot UAR is held, and firmware does not answer the FREE_UAR sent next; with granting firmware that gives back at least one page whenever asked, a host that does not refuse and a drain whose requests succeed, the pages come back and it releases; a second call changes nothing |
| `PciDriver.ReleaseCondition` | Sources/core/MlxPCIDriver.cpp:262-273 | the gate in full: cleanup releases exactly if no command ever timed out, every DESTROY_EQ, TEARDOWN_HCA and DISABLE_HCA due succeeded, nothing had called for a quarantine, a page manager that ran has no fault, no page is left and bus mastering reads back off |
| `PciDriver.CleanupFreesStuckCommand` | Sources/core/MlxPCIDriver.cpp:289-296 | the claim that cleanup never frees a timed-out command's buffers is false: a run from a new driver through a successful start and a cleanup that ends with them freed |
| `PciDriver.SmoothRelease` | Sources/core/MlxPCIDriver.cpp:262-273 | with firmware that grants everything and no page lent, the gate opens |
| `PciDriver.OpenGate` | Sources/core/MlxPCIDriver.cpp:239-273 | with granting firmware, pages lent or not, a cleanup whose reclaim did not fail and that met no fault passes the gate |
| `PciDriver.Driver.CalmCloses` | Sources/core/MlxPCIDriver.cpp:248-273 | if also every TAKE brings back at least one page, and the host does not refuse, the reclaim does not fail and the gate opens |
| `PciDriver.HeardInCleanup` | Sources/core/MlxPCIDriver.cpp:235-253 | the release-alls that a cleanup leaves in the log are those its drain was asked for |
| `PciDriver.Driver.Shutdown` | Sources/core/MlxPCIDriver.cpp:228-265 | the commands before the gate and every field of the report, from the state and the answers; the page manager's fault stays if raised, and is raised only by a failing request of the drain or a failing reclaim; a reclaim that leaves pages has raised the fault, was refused memory or an answer, and only memory can be the cause if firmware gives back pages whenever asked |
| `PciDriver.Driver.StopFirmware` | Sources/core/MlxPCIDriver.cpp:239-247 | every valid event queue gets a DESTROY_EQ, an initialized HCA a TEARDOWN_HCA, and the flags say how they went |
| `PciDriver.Driver.ReclaimPages` | Sources/core/MlxPCIDriver.cpp:248-253 | pages are reclaimed exactly if there are any, no command has timed out and the teardown did not fail; only TAKE commands are sent; it succeeds exactly if none is left, and then leaves the fault alone |
| `PciDriver.Driver.DrainRuntime` | Sources/core/MlxPCIDriver.cpp:235-238 | the requests are served, run by run: their release-alls are those in the log, and requests are left undone only after a fault, a failed command or for want of pages; a raised fault means DMA quarantine before the gate, and a drain in which every request succeeds raises none |
| `PciDriver.Driver.ReleaseCommands` | Sources/core/MlxPCIDriver.cpp:289-296 | the UAR page goes with a FREE_UAR, and the command interface is freed whatever it answers |
| `PciDriver.Driver.ReleasePages` | Sources/core/MlxPCIDriver.cpp:274-278 | with nothing held the final release keeps every promise |
| `PciDriver.Driver.Start` | Sources/core/MlxPCIDriver.cpp:60-215 | a failed start has gone through cleanup; a successful one has pages, command interface, four event queues and worker up, the HCA enabled and initialized, and its commands went out in the order of fwInit, ALLOC_UAR, four CREATE_EQ; where the host's own resources are there, firmware grants every command and asks for at most n boot and n init pages that fit the 65536 together, and the host refuses no page, it succeeds |
| `PciDriver.Driver.StartRuntime` | Sources/core/MlxPCIDriver.cpp:160-200 | the page worker counts as started exactly if all four event queues were created, also if a late step then fails the start |
| `PciDriver.Driver.FwInit` | Sources/core/MlxPCIDriver.cpp:320-386 | ENABLE_HCA, ISSI, boot pages, capabilities, init pages, INIT_HCA, capabilities again: the commands go out in this order up to the first that fails, and all of them on success; the HCA is enabled or initialized exactly if firmware granted ENABLE_HCA or INIT_HCA |
| `PciDriver.Driver.CreateEqs` | Sources/core/MlxPCIDriver.cpp:165-173 | as many CREATE_EQ as there are queues afterwards, all granted, and at most one more, refused; success is four |
| `PciDriver.Driver.StartUar` | Sources/core/MlxUAR.cpp:175-228 | ALLOC_UAR; the boot UAR is held exactly if it was granted and could be mapped, and goes straight back if it could not |
| `PciDriver.Driver.RunEvents` | Sources/core/MlxFwPages.cpp:536-563 | over any events the log gains exactly the release-alls of the requests done, and requests are left undone only for a reason on record |
| `PciDriver.Driver.RunWorker` | Sources/core/MlxFwPages.cpp:536-563 | requests are served until one fails, which has a reason on record (fault, refusal by host or firmware, no pages to give); every function's account is as the requests done have it, but for the function of the one that failed; the release-alls heard are theirs; the device is in DMA quarantine afterwards exactly if it was or the fault is raised |
| `PciDriver.Driver.Handle` | Sources/core/MlxFwPages.cpp:512-563 | a page event that cannot be queued raises the fault, a fatal event and a worker run that meets the fault quarantine DMA and turn bus mastering off, and nothing turns it on again |
| `FwPages.Manager.ServeRequests` | Sources/core/MlxFwPages.cpp:541-550 | the worker's loop: conservation over any list of requests, per function, and the fault untouched if all succeed |
| `FwPages.Manager.GiveBatch` | Sources/core/MlxFwPages.cpp:193-230 | one GIVE with this batch of 1 to 512 pages, ended as firmware has it; it succeeds exactly if host and firmware grant it, and its pages end as firmware's, ambiguous or the host's exactly as the command succeeded, timed out or was refused; a refused batch changes nothing and firmware holds the batch otherwise |
| `FwPages.Manager.GivePages` | Sources/core/MlxFwPages.cpp:232-288 | across many batches: it succeeds exactly if the pages fit the 65536 that can be tracked, the host refused nothing asked of it and no GIVE failed; success adds exactly pageCount pages owned by firmware for the function, failure keeps only pages that may be firmware's and raises the fault exactly if any is kept; firmware is notified of a failure exactly where the caller asked for it; either way what firmware holds grows by exactly the pages that stay; earlier pages are untouched |
| `FwPages.Manager.TakePages` | Sources/core/MlxFwPages.cpp:321-384 | all or nothing: one TAKE, and on success exactly the pages its reply lists leave the list, are unmapped, once each, and leave what firmware holds; otherwise none is unmapped, and a timeout or malformed reply leaves every page of the function in doubt; it succeeds exactly if the command does and the reply is acceptable, and fails only for want of memory, by firmware's answer or with the fault raised |
| `FwPages.AcceptedIsReturned` | Sources/core/MlxFwPages.cpp:349-370 | a reply the driver accepts does give up, on firmware's side, exactly the pages it lists |
| `FwPages.ReturnedIsAccepted` | Sources/core/MlxFwPages.cpp:349-370 | with no page in doubt, a reply that gives pages back is accepted |
| `FwPages.Manager.ReleaseGiven` | Sources/core/MlxFwPages.cpp:371-374 | exactly the listed pages are unmapped, in the order of the list |
| `FwPages.Manager.ValidateReply` | Sources/core/MlxFwPages.cpp:352-370 | accepts a list exactly if it names, once each, aligned and non-zero addresses of pages that firmware owned for the function |
| `FwPages.Manager.ProcessRequest` | Sources/core/MlxFwPages.cpp:565-598 | conservation: a successful request changes the function's owned count by exactly numPages, positive or negative, and no other function's; a positive one succeeds exactly if its pages can be tracked and every GIVE and every ask of the host is granted, a negative one whenever firmware gives pages back and the function owns enough, unless memory was short; only a release-all request passes for a release-all, always succeeds and leaves the function nothing, on either side; a take request sends TAKEs only; a failure has a reason on record; a malformed request only raises the fault |
| `FwPages.Manager.TakeAll` | Sources/core/MlxFwPages.cpp:575-591 | over any number of batches, TAKE commands only, exactly the requested number of pages leave the list and what firmware holds, or the request fails; a short reply is followed by another TAKE, so firmware that gives back at least one page whenever asked makes it succeed, unless memory was short |
| `FwPages.Manager.ReclaimAll` | Sources/core/MlxFwPages.cpp:386-428 | it ends, by the pages left and the remaining wait budget, for every timeout but 2^32-1, for which the wait never expires; only TAKE commands are sent, so pages leave only by replies that list them; it succeeds exactly if the list is empty, and then firmware holds nothing; it gives up waiting only when the TAKEs that brought nothing since the last that did have used up the timeout; firmware that gives back at least one page whenever asked makes it succeed, unless the host lacks memory |
| `FwPages.Manager.ReclaimRounds` | Sources/core/MlxFwPages.cpp:386-422 | each round is one TAKE that shortens the list or uses up wait budget, and a TAKE that brings a page back restores the budget; on success firmware owns no page; only a timeout of 2^32-1 can leave it waiting |
| `FwPages.Manager.NextTakeReturns` | Sources/core/MlxFwPages.cpp:321-384 | with firmware that gives pages back when asked, an interface that carries commands and no fault, the next TAKE for a function that owns a page succeeds with at least one |
| `FwPages.WaitBudgetExpires` | Sources/core/MlxFwPages.cpp:386-422 | the wrapping 32-bit wait counter reaches every timeout except 2^32-1 |
| `FwPages.Manager.ReleaseAllForFunction` | Sources/core/MlxFwPages.cpp:430-442 | with firmware holding nothing for the function any more, exactly the pages the driver has down as firmware's for it are unmapped, in one pass, and no other |
| `FwPages.Manager.ReleaseAfterDmaBoundary` | Sources/core/MlxFwPages.cpp:465-475 | the unconditional final release is safe exactly if firmware holds nothing at that moment |
| `FwPages.Manager.MarkFunctionAmbiguous` | Sources/core/MlxFwPages.cpp:312-319 | exactly the pages firmware owned for the function become ambiguous |
| `FwPages.Manager.SatisfyStartupPages` | Sources/core/MlxFwPages.cpp:96-107 | the query's number of pages is given to the function it names, and the call succeeds exactly if the query did, the pages can be tracked and every GIVE and every ask of the host is granted; in any case what firmware holds grows by exactly the pages that stay |
| `FwPages.Manager.HasOutstandingPages` | Sources/core/MlxFwPages.cpp:444-453 | true exactly if some tracked page is firmware's, ambiguous or being given |
| `FwPages.Manager.HasAmbiguousPages` | Sources/core/MlxFwPages.cpp:455-463 | true exactly if some tracked page is ambiguous or being given |
| `FwPages.Manager.NothingLeft` | Sources/core/MlxFwPages.cpp:444-453 | between operations, no page in firmware's hands means an empty list and nothing held |
| `FwPages.Manager.AllocatePage` | Sources/core/MlxFwPages.cpp:109-163 | a new page is aligned, non-zero and at an address not in use, at the head of the list, and refused exactly as the host says |
| `FwPages.Manager.AllocateAll` | Sources/core/MlxFwPages.cpp:251-262 | all pages of a request are prepared or none stays |
| `FwPages.Manager.ReleasePage` | Sources/core/MlxFwPages.cpp:171-191 | exactly the named page leaves the list, and the log records whether firmware held it |
| `FwPages.Manager.constructor` | Sources/core/MlxFwPages.cpp:15-39 | a new manager tracks nothing and satisfies the invariants |
| `FwPageList.CountDropNamed` | Sources/core/MlxFwPages.cpp:321-384 | dropping the pages a valid reply names lowers the function's count by their number and no other count |
| `FwPageList.CountDoubted` | Sources/core/MlxFwPages.cpp:312-319 | doubting a function's pages takes its count to zero and keeps every other |
| `FwPageList.CountWithoutOwned` | Sources/core/MlxFwPages.cpp:430-442 | releasing a function's pages takes its count to zero and keeps every other |
| `FwPageList.GiveOutcome` | Sources/core/MlxFwPages.cpp:193-230 | each of the three outcomes of a GIVE keeps every page firmware holds on the list and every page down as firmware's held |
| `FwPageList.CoveredAfterDrop` | Sources/core/MlxFwPages.cpp:180-191 | removing pages that firmware does not hold keeps every held page mapped |
| `FwPageList.BackedAfterDrop` | Sources/core/MlxFwPages.cpp:371-374 | removing pages that firmware gave up keeps every other page that is down as firmware's held |
| `FwPageList.CoveredWhenDoubted` | Sources/core/MlxFwPages.cpp:312-319 | doubting a function's pages restores the account when some of them may have come back unseen |
| `FwPageList.DropOne` | Sources/core/MlxFwPages.cpp:171-178 | unlinking one page removes exactly its position and keeps the order |
| `CommandChannel.Channel.Exec` | Sources/core/MlxCmd.cpp:336-343 | while the interface is up and nothing has timed out, a command ends as firmware's script has it; after a timeout only TEARDOWN_HCA and DISABLE_HCA do, and any other is refused with NotReady, as all are once it is down; every command is logged, and what firmware holds moves by that command and its answer alone |
| `CommandChannel.Channel.Hear` | Sources/core/MlxFwPages.cpp:565-569 | a release-all event: firmware gives up everything it held for the function, and nothing else |
| `CommandChannel.GenuineNext` | Sources/core/MlxCmd.cpp:336-343 | the log stays the script's |
| `PageWorker.ReachableIsSafe` | Sources/core/MlxFwPages.cpp:483-563 | under every interleaving: scheduled and active are never both true, exactly one thread call is due if one is scheduled, a waiting request has a run due while not stopping, a fault has a run due that tests for it, the ring is a FIFO from which only a failed request discards |
| `PageWorker.StepKeepsSafe` | Sources/core/MlxFwPages.cpp:483-563 | every single lock section or action between sections keeps the protocol invariant |
| `PageWorker.RunKeepsSafe` | Sources/core/MlxFwPages.cpp:483-563 | every run keeps the protocol invariant |
| `PageWorker.DrainedIsQuiescent` | Sources/core/MlxFwPages.cpp:612-639 | if the drain loop returns, no call is pending and every accepted request has been served or discarded |
| `PageWorker.RestsDrainedIff` | Sources/core/MlxFwPages.cpp:624-633 | at rest, the drain loop's test holds exactly if the queue is empty |
| `PageWorker.FinalSectionDecidesDrain` | Sources/core/MlxFwPages.cpp:552-562 | a stopping worker's final section drops its reschedule; the drain loop then ends exactly if the queue was empty at that section |
| `PageWorker.DrainCanStall` | Sources/core/MlxFwPages.cpp:552-562 | a concrete run in which a request accepted during the final section leaves the drain loop waiting: in every continuation without a new caller its test keeps failing |
| `PageWorker.RestsForEver` | Sources/core/MlxFwPages.cpp:612-633 | a stopping worker at rest without callers never moves again |
| `PageWorker.WorkerKeepsQueue` | Sources/core/MlxFwPages.cpp:498-510 | accepted requests are the served and discarded ones followed by the waiting ones, in order |
| `PageWorker.RequestsAreTakenOrFault` | Sources/core/MlxFwPages.cpp:498-510 | a request is queued, behind the others, exactly if the ring accepts, the worker is not stopping and fewer than 64 wait; otherwise its handler is bound to raise the fault |
| `PageWorker.BadEventsRaiseFault` | Sources/core/MlxFwPages.cpp:646-662 | a malformed event, and a request that found no room, raise the fault to be tested anew and schedule the worker |
| `FwPages.Manager.RaiseFault` | Sources/core/MlxFwPages.cpp:641-662 | a page event that is malformed or finds no room in the ring raises the fault and touches nothing else |
| `RequestRing.Ring.Enqueue` | Sources/core/MlxFwPages.cpp:483-496 | the 64-entry ring appends to its FIFO exactly if it accepts and has room |
| `RequestRing.Ring.Dequeue` | Sources/core/MlxFwPages.cpp:498-510 | takes exactly the oldest request, if there is one |
| `RequestRing.Ring.Discard` | Sources/core/MlxFwPages.cpp:544-549 | empties the FIFO |
| `RequestRing.Ring.constructor` | Sources/core/MlxFwPages.cpp:15-39 | an empty ring |
| `Ethernet.Interface.Enable` | Sources/netif/MlxEthernet.cpp:320-413 | past its guard it starts from nothing, and succeeds exactly if rings, event queues, register and four doorbell pairs are there and neither firmware nor the host refused anything asked; success means enabled with every object live and both queues ready; a failed enable leaves nothing unless firmware refused a destroy; a call under way makes it Busy; it is called on completions exactly while enabled; other users' doorbell pairs are untouched |
| `Ethernet.Interface.Disable` | Sources/netif/MlxEthernet.cpp:415-449 | success returns every object, buffer, doorbell pair and the BF register; not busy, it fails exactly if firmware refused a destroy, and what is left can be disabled again; the notifier is off in any case |
| `Ethernet.Interface.BringUp` | Sources/netif/MlxEthernet.cpp:350-405 | from nothing to everything exactly if there is room and nothing asked was refused, otherwise back to nothing unless firmware refuses a destroy |
| `Ethernet.Interface.TearDown` | Sources/netif/MlxEthernet.cpp:391-402 | success leaves nothing of steering, receive and transmit side; it fails exactly if a destroy was refused; the notifier is off; other users' doorbell pairs are untouched |
| `Ethernet.Interface.ExecCreate` | Sources/netif/MlxEthernet.cpp:746-754 | callers must show that everything the object needs is live; success makes it live and keeps the device consistent |
| `Ethernet.Interface.ExecDestroy` | Sources/netif/MlxEthernet.cpp:746-754 | callers must show that no live object depends on it; a refusal changes nothing |
| `Ethernet.Interface.CreateQueue` | Sources/netif/MlxEthernet.cpp:801-830 | the doorbell pair is the queue's own, and goes back if the command is refused; it succeeds exactly if a pair was free and the command granted |
| `Ethernet.Interface.CmdCreateCq` | Sources/netif/MlxEthernet.cpp:772-840 | a refused CREATE_CQ leaves no buffer, pair or object behind; it succeeds exactly if a pair was free and memory and command were granted |
| `Ethernet.Interface.CreateSq` | Sources/netif/MlxEthernet.cpp:847-906 | the send queue is created only with its CQ, TIS, protection domain, key, mapped pool and ring in place, and exactly if the ring is there, a pair was free and firmware granted it |
| `Ethernet.Interface.CreateRq` | Sources/netif/MlxEthernet.cpp:908-957 | the receive queue likewise |
| `Ethernet.Interface.CreateTxResources` | Sources/netif/MlxEthernet.cpp:1204-1248 | it succeeds exactly if ring, register and two pairs are there and pool, mapping and every command were granted, and then the transmit side is complete; on failure the state is still consistent |
| `Ethernet.Interface.DestroyTxResources` | Sources/netif/MlxEthernet.cpp:1298-1361 | no pool, buffer, doorbell or register goes before its queue; success leaves none of the transmit side |
| `Ethernet.Interface.CreateRxResources` | Sources/netif/MlxEthernet.cpp:1250-1296 | it succeeds exactly if the ring and two pairs are there and pool, mapping and every command were granted, and then the receive side is complete; on failure the state is still consistent |
| `Ethernet.Interface.ModifyRqReady` | Sources/netif/MlxEthernet.cpp:1279-1290 | the receive queue is made ready only with all 256 descriptors posted |
| `Ethernet.Interface.DestroyRxResources` | Sources/netif/MlxEthernet.cpp:1363-1414 | the receive side goes only once no flow entry steers to the TIR; success leaves none of it |
| `Ethernet.Interface.CreateRxFlowSteering` | Sources/netif/MlxEthernet.cpp:1037-1100 | it succeeds exactly if firmware granted every command, and then the whole chain is live; each link is created only on top of those it needs |
| `Ethernet.Interface.DestroyRxFlowSteering` | Sources/netif/MlxEthernet.cpp:1102-1156 | success leaves none of the chain; no link goes while another needs it, and it fails only if firmware refused |
| `Ethernet.Interface.AllocGlobalResources` | Sources/netif/MlxEthernet.cpp:1158-1174 | it succeeds exactly if firmware granted the three, and domain, transport domain and key are then live; failure without a refused destroy leaves nothing |
| `Ethernet.Interface.DeallocGlobalResources` | Sources/netif/MlxEthernet.cpp:1176-1202 | success leaves nothing at all; it fails exactly if a destroy was refused |
| `Ethernet.Interface.NothingIsGone` | Sources/netif/MlxEthernet.cpp:337-346 | the guard's seven handles are all invalid exactly if nothing at all is left |
| `Ethernet.Interface.ReleaseResources` | Sources/netif/MlxEthernet.cpp:259-294 | the work-queue rings are freed only without the queue that reads them |
| `Ethernet.Interface.FreeTxPool` | Sources/netif/MlxEthernet.cpp:1314-1320 | the pool is freed only without its queue |
| `Ethernet.Interface.FreeTxDoorbell` | Sources/netif/MlxEthernet.cpp:1321-1328 | the pair goes back and no other user's pair changes |
| `Ethernet.Interface.FreeTxBfreg` | Sources/netif/MlxEthernet.cpp:1329-1333 | the register goes back |
| `Ethernet.Interface.constructor` | Sources/netif/MlxEthernet.cpp:125-188 | a new interface holds nothing |
| `Ethernet.RecordTaken` | Sources/netif/MlxEthernet.cpp:800-806 | taking a free pair keeps the interface's pairs distinct and every other user's pairs as they were |
| `Ethernet.RecordReturned` | Sources/netif/MlxEthernet.cpp:1321-1328 | returning a pair does too |
| `FirmwareObjects.PermissionsAreExact` | Sources/netif/MlxEthernet.cpp:1037-1414 | creating, destroying and freeing are allowed exactly when they leave no live object without what it needs |
| `FirmwareObjects.CreateKeepsConsistent` | Sources/netif/MlxEthernet.cpp:1158-1296 | a permitted creation keeps the lifecycle invariant |
| `FirmwareObjects.DestroyKeepsConsistent` | Sources/netif/MlxEthernet.cpp:1102-1202 | a permitted destruction keeps it, the protection domain only as the last object |
| `FirmwareObjects.NothingWithoutPd` | Sources/netif/MlxEthernet.cpp:1176-1202 | the protection domain is live exactly if anything is |
| `FirmwareObjects.LiveQueuesAreMapped` | Sources/netif/MlxEthernet.cpp:1204-1296 | in a consistent state a live send or receive queue has its ring, its doorbell record and its pool mapped, a live completion queue its buffer and record |
| `FirmwareObjects.LiveObjectsHaveTheirs` | Sources/netif/MlxEthernet.cpp:847-1100 | and every live object has live what it names |
| `Uar.FailsOnlyWhenFull` | Sources/core/MlxUAR.cpp:66-105 | over every run of pair allocations and matching frees, an allocation finds no room exactly if all 64 pairs are held |
| `Uar.NewPageIsUnfragmented` | Sources/core/MlxUAR.cpp:42-64 | a new page, with no slot taken, is a state those runs may start from |
| `Uar.RunKeepsUnfragmented` | Sources/core/MlxUAR.cpp:66-105 | held pairs are even-aligned, disjoint and exactly the marked ones, in every run |
| `Uar.FreeUndoesAlloc` | Sources/core/MlxUAR.cpp:66-105 | freeing the pair just allocated restores the state |
| `Uar.UarPage.AllocDbSlots` | Sources/core/MlxUAR.cpp:66-92 | first fit for one or two slots: the lowest run, its record words zeroed and no others, or failure exactly when there is no room |
| `Uar.UarPage.FreeDbSlots` | Sources/core/MlxUAR.cpp:94-105 | clears exactly the named slots if they are slots at all |
| `Uar.UarPage.AllocPair` | Sources/core/MlxUAR.cpp:66-92 | with pairs only: a pair that was free, exactly if the record page is there and fewer than 64 pairs are live |
| `Uar.UarPage.FreePair` | Sources/core/MlxUAR.cpp:94-105 | removes exactly that pair |
| `Uar.UarPage.AllocBfreg` | Sources/core/MlxUAR.cpp:247-268 | the lowest free register; any failure restores the bitmap, for want of a register exactly if all four are taken |
| `Uar.UarPage.FreeBfreg` | Sources/core/MlxUAR.cpp:270-281 | clears exactly the register whose offset is given |
| `Uar.BfOffsetsDistinct` | Sources/core/MlxUAR.cpp:258-259 | the four registers have different 32-bit offsets exactly if their size is at most 2^30 |
| `DoorbellBitmap.FreeRunUndoesTakeRun` | Sources/core/MlxUAR.cpp:66-105 | freeing a run that was free before restores both words bit for bit |
| `DoorbellBitmap.PairSearch` | Sources/core/MlxUAR.cpp:71-91 | if only pairs are taken, first fit finds the lowest free even-aligned pair, and there is room exactly if a pair is free |
| `DoorbellBitmap.FullIffCounted` | Sources/core/MlxUAR.cpp:66-92 | fewer than 64 live pairs means exactly that some pair is free |
| `TxRing.CompletionKeepsRing` | Sources/netif/MlxEthernet.cpp:1432-1444 | a completion keeps the send ring in order exactly if something is outstanding or it names the entry just behind the producer |
| `TxRing.SpuriousCompletion` | Sources/netif/MlxEthernet.cpp:1432-1444 | the empty ring that a completion of entry 5 breaks: the consumer ends six past the producer, with 65530 entries counted as outstanding |
| `TxRing.Ring.Complete` | Sources/netif/MlxEthernet.cpp:1432-1444 | frees exactly the slots from the consumer to the entry named or to the producer; every packet stays accounted for once; the ring stays in order exactly under the condition of CompletionKeepsRing |
| `TxRing.Ring.PollTxCq` | Sources/netif/MlxEthernet.cpp:1418-1449 | a poll whose completions name outstanding entries in order keeps the ring in order |
| `TxRing.Ring.FreeUpTo` | Sources/netif/MlxEthernet.cpp:1433-1444 | the loop, on any ring: it stops at the entry named or at the producer, testing only after the first slot |
| `TxRing.Ring.XmitPacket` | Sources/netif/MlxEthernet.cpp:503-602 | a packet is handed back only with an error and no change, Invalid first if resources are gone; otherwise it is freed at once or takes a slot that was free; at most 256 are outstanding |
| `TxRing.Ring.FreeAll` | Sources/netif/MlxEthernet.cpp:1307-1313 | after teardown every packet taken over has been freed, once |
| `TxRing.Ring.Post` | Sources/netif/MlxEthernet.cpp:535-585 | the producer's slot is free when it is taken |
| `TxRing.PostKeepsRing` | Sources/netif/MlxEthernet.cpp:528-585 | posting below the limit keeps slots and outstanding entries in step across 16-bit wrap |
| `TxRing.CompletionOfOutstanding` | Sources/netif/MlxEthernet.cpp:1432-1444 | on 16-bit counters, a completion of an outstanding entry frees exactly the entries up to it |
| `TxRing.HeldUpdate` | Sources/netif/MlxEthernet.cpp:104-121 | changing one slot changes the packets held by exactly that slot |
| `TxRing.Ring.constructor` | Sources/netif/MlxEthernet.cpp:1208-1213 | an empty ring |
| `TxCompletions.SendRingIsSafe` | Sources/netif/MlxEthernet.cpp:503-602 | over every run of sending, completing, polling and teardown: at most 256 entries outstanding, a slot in use exactly if it belongs to one of them and holding its packet, every packet freed or held once, and after teardown all freed |
| `TxCompletions.RunIsSound` | Sources/netif/MlxEthernet.cpp:1298-1313 | in every run the ring has exactly the shape its history gives it, and the first packets are freed in order, once |
| `TxCompletions.StepKeepsSound` | Sources/netif/MlxEthernet.cpp:1418-1452 | each lock section, completion and teardown keeps that shape |
| `TxWindow.FreeMany` | Sources/netif/MlxEthernet.cpp:1433-1444 | freeing k entries empties exactly their slots |
| `TxWindow.HeldInWindow` | Sources/netif/MlxEthernet.cpp:104-121 | the packets held are exactly those posted and not freed |
| `TxWindow.PostNewest` | Sources/netif/MlxEthernet.cpp:535-585 | posting fills the slot behind the newest entry |
| `TxWindow.WindowIsInOrder` | Sources/netif/MlxEthernet.cpp:528-535 | in that shape at most 256 entries are outstanding and exactly their slots are in use |
| `TxCompletions.CompletionQueueNeverOverrun` | Sources/netif/MlxEthernet.cpp:1418-1452 | in every run of sending, completing and polling, at most 256 completions are unreported |
| `TxCompletions.PollFreesExactly` | Sources/netif/MlxEthernet.cpp:1429-1449 | every completion read names an outstanding entry, so the 16-bit loop frees exactly up to it |
| `TxCompletions.ReportsNameOutstanding` | Sources/netif/MlxEthernet.cpp:1429-1449 | in every run the completions waiting to be read name outstanding entries one after the other, which is what the poll is promised |
| `TxCompletions.RoomTestIsExact` | Sources/netif/MlxEthernet.cpp:529-532 | the room test on 16-bit counters is the test on unbounded counts |
| `RxRing.Ring.HandleRxCqe` | Sources/netif/MlxEthernet.cpp:617-654 | a response of 1 to 2048 bytes is delivered exactly if there is an mbuf, with the bytes that arrived in its slot, and nothing else is; that slot, and no other, is posted again, so 256 descriptors are outstanding after every completion, errors included; over the run the packets delivered are the good ones of the completions handled, in order |
| `RxRing.OnlyGoodPackets` | Sources/netif/MlxEthernet.cpp:632-654 | over any run, the completions whose bytes go up the stack are exactly the responses of 1 to 2048 bytes that found an mbuf |
| `RxRing.GoodPacketsInOrder` | Sources/netif/MlxEthernet.cpp:617-654 | they go up in the order of arrival, each with the bytes that arrived |
| `RxRing.Ring.DeviceReceives` | Sources/netif/MlxEthernet.cpp:1280-1287 | the adapter finds a posted descriptor exactly if fewer than 256 arrivals are unhandled |
| `RxRing.Ring.constructor` | Sources/netif/MlxEthernet.cpp:1280-1287 | all 256 slots are posted before the queue is ready |
| `RxRing.CyclicOrderIsNeeded` | Sources/netif/MlxEthernet.cpp:643-651 | 256 stay outstanding exactly if the completion is for the oldest of them; then the slot posted is the slot consumed |
| `PhaseRing.ReadingLaw` | Sources/core/MlxEQ.cpp:405-412 | with the producer at most one ring ahead, the slot is new exactly if an event is pending, and then holds the oldest |
| `PhaseRing.OverrunHidesEvent` | Sources/core/MlxEQ.cpp:405-412 | one event more than the ring holds, and the law fails |
| `PhaseRing.ShowsNext` | Sources/core/MlxEQ.cpp:139-151 | writing the next event with its lap's bit keeps the picture the law needs |
| `PhaseRing.WrapInvisible` | Sources/core/MlxEQ.cpp:409-411 | the 32-bit index shows the same slot and lap as the unbounded count |
| `PhaseRing.DoorbellNamesCount` | Sources/core/MlxEQ.cpp:414-429 | 24 doorbell bits name the consumer's count uniquely for rings below 2^24 |
| `DeviceQueue.Queue.HandleEqes` | Sources/core/MlxEQ.cpp:431-484 | one interrupt delivers pending events in order, once each, whatever the adapter writes meanwhile; it finds none or goes round once; the report lags below 64 at each loop head and not at all at the end, when the queue is armed |
| `DeviceQueue.Queue.PollKernel` | Sources/netif/MlxEthernet.cpp:1418-1478 | the unbounded poll ends after at most one ring and leaves nothing undelivered |
| `DeviceQueue.Queue.PollUser` | usermode/libmlx/libmlx.c:672-696 | mlx_poll_cq copies out exactly the next completions in order, at most num; since the kernel refuses reports above twice the depth, a queue yields at most three rings in its life |
| `DeviceQueue.Queue.Peek` | Sources/core/MlxEQ.cpp:405-412 | the look at a slot tells exactly whether an event is pending, and which |
| `DeviceQueue.Queue.Dispatch` | Sources/core/MlxEQ.cpp:479-481 | the report interval keeps the lag below 64 |
| `DeviceQueue.Queue.DeviceWrites` | Sources/core/MlxEQ.cpp:139-151 | the adapter's side: the next event goes in exactly if the ring has room as far as it knows |
| `DeviceQueue.Queue.constructor` | Sources/core/MlxEQ.cpp:139-151 | owner bits 1 over whatever the memory held make a valid empty queue |
| `Quiescence.UnregisterThenSynchronize` | Sources/core/MlxEQ.cpp:379-403 | once a target is unregistered everywhere and the counter has been seen at zero, it is in no handler's snapshot in any later state until registered again |
| `Quiescence.RunKeepsCounted` | Sources/core/MlxEQ.cpp:447-478 | fActiveCallbacks always equals the callbacks snapshotted and not finished over all handlers; the registry stays duplicate-free and within four |
| `Quiescence.StepKeepsCounted` | Sources/core/MlxEQ.cpp:447-478 | every lock section keeps that count |
| `Quiescence.SynchronizedIffIdle` | Sources/core/MlxEQ.cpp:397-403 | the counter is zero exactly if no handler holds any callback |
| `Quiescence.ShutdownStaysIdle` | Sources/core/MlxEQ.cpp:42-48 | after shutdown has begun and the counter has reached zero, no callback starts |
| `Quiescence.UnregisterAloneDoesNotSuffice` | Sources/core/MlxEQ.cpp:379-395 | without the wait a handler may still hold the target |
| `Quiescence.RunKeepsUnlisted` | Sources/core/MlxEQ.cpp:379-395 | an unlisted target stays unlisted, and untouched if it was, until registered |
| `Notifiers.Registry.RegisterNotifier` | Sources/core/MlxEQ.cpp:356-377 | appends unless listed, full or shutting down; no other event type changes |
| `Notifiers.Registry.UnregisterNotifier` | Sources/core/MlxEQ.cpp:379-395 | removes exactly that notifier, keeps the order of the rest and every other event type |
| `Notifiers.Registry.Snapshot` | Sources/core/MlxEQ.cpp:447-463 | the snapshot is the listed notifiers that have an object, in order, each now among the unfinished callbacks that the counter counts |
| `Notifiers.Registry.CallbackDone` | Sources/core/MlxEQ.cpp:470-477 | a finished callback is no longer among the unfinished; the counter stays their number and never runs short, and waiters are woken exactly when none is left |
| `Notifiers.RegisteredKeepsOrder` | Sources/core/MlxEQ.cpp:365-375 | registration keeps the list duplicate-free and earlier positions; the notifier is in exactly if it was or there was room |
| `Notifiers.UnregisteredRemovesOne` | Sources/core/MlxEQ.cpp:384-393 | removal leaves every other notifier, once |
| `Notifiers.UnregisterUndoesRegister` | Sources/core/MlxEQ.cpp:356-395 | removal undoes a registration exactly |
| `Notifiers.CallableIsRegistered` | Sources/core/MlxEQ.cpp:452-462 | a handler may call exactly the listed notifiers that have an object, before shutdown |
| `Notifiers.CallableKeepsOrder` | Sources/core/MlxEQ.cpp:452-462 | the callbacks come in the order of registration, none twice |
| `CmdSlots.RunKeepsPartitioned` | Sources/core/MlxCmd.cpp:336-503 | over any interleaving, free bits, in-flight and timed-out slots partition the queue; the page slot is MANAGE_PAGES' alone; quarantine holds exactly if something timed out |
| `CmdSlots.StepKeepsPartitioned` | Sources/core/MlxCmd.cpp:336-503 | each issue, finish and timeout keeps the partition |
| `CmdSlots.TimedOutForever` | Sources/core/MlxCmd.cpp:419-430 | a timed-out command keeps slot and buffers in every later state |
| `CmdSlots.OnlyTeardownAfterTimeout` | Sources/core/MlxCmd.cpp:340-343 | after a timeout only TEARDOWN_HCA and DISABLE_HCA still take a slot |
| `CmdSlots.TeardownStillPasses` | Sources/core/MlxCmd.cpp:336-360 | those two do, timeouts or not, while a regular slot is free |
| `CmdSlots.AdmissionIsExact` | Sources/core/MlxCmd.cpp:336-360 | a command is refused as NotReady exactly if something timed out and it is neither of the two, as Busy or NoSpace only if its slot or all regular slots are taken |
| `CmdSlots.IssueTakesFreeSlot` | Sources/core/MlxCmd.cpp:349-360 | a new command takes a slot that firmware does not use |
| `CmdSlots.FinishUndoesIssue` | Sources/core/MlxCmd.cpp:496-503 | finishing the command just issued restores the slots |
| `CmdSlots.DescriptorsApart` | Sources/core/MlxCmd.cpp:107-125 | every accepted geometry has a page slot and another, and its descriptors lie apart inside the buffer and the 4096-byte page |
| `CmdSlots.GeometryIsExact` | Sources/core/MlxCmd.cpp:107-125 | of all the bytes firmware may declare, exactly those with 2 to 32 descriptors of at least 64 bytes that fit the page and the buffer are accepted, with the sizes declared |
| `CmdSlots.CommandQueue.Issue` | Sources/core/MlxCmd.cpp:336-389 | the concrete slots take the machine's issue step, with each of its refusals; quarantined, it refuses all but the two teardown commands with NotReady; a failed allocation gives the slot back |
| `CmdSlots.CommandQueue.Finish` | Sources/core/MlxCmd.cpp:496-503 | the machine's finish step |
| `CmdSlots.CommandQueue.TimeOut` | Sources/core/MlxCmd.cpp:419-430 | the machine's timeout step |
| `CmdSlots.CommandQueue.AllocIdx` | Sources/core/MlxCmd.cpp:172-184 | takes the lowest free slot, if there is one |
| `CmdSlots.CommandQueue.constructor` | Sources/core/MlxCmd.cpp:151-168 | all regular slots free |
| `CmdSlots.FirstSetIsLowest` | Sources/core/MlxCmd.cpp:176-179 | the slot found is set and every lower one is not |
| `MailboxFormat.CommandRoundTrip` | Sources/core/MlxCmd.cpp:271-320 | for every size up to 4112, following the chain from in_ptr and joining it to the inline bytes gives back the command |
| `MailboxFormat.ResponseRoundTrip` | Sources/core/MlxCmd.cpp:432-444 | what the host copies out is exactly the response firmware wrote inline and along the output chain |
| `MailboxFormat.DescriptorFields` | Sources/core/MlxCmd.cpp:275-320 | after signing, lengths, pointers, inline bytes and token are where firmware reads them |
| `MailboxFormat.BlockFields` | Sources/core/MlxCmd.cpp:283-296 | after signing, data, next pointer, number and token are where firmware reads them |
| `MailboxFormat.GatherFrom` | Sources/core/MlxCmd.cpp:283-296 | the chain from any block on holds the message from there on |
| `MailboxFormat.ScatterReachesAll` | Sources/core/MlxCmd.cpp:301-309 | writing along the chain reaches every block and changes nothing but data |
| `Mailbox.Entry.Submit` | Sources/core/MlxCmd.cpp:271-320 | fills every block and the descriptor with exactly the wire format |
| `Mailbox.Entry.CopyResponse` | Sources/core/MlxCmd.cpp:432-444 | collects the response from the descriptor and the mailboxes in order |
| `Mailbox.Entry.AllocMailbox` | Sources/core/MlxCmd.cpp:210-247 | zeroed, distinct mailboxes for both directions, or none; too large exactly above 4112 bytes |
| `Checksum.SignedBlock` | Sources/core/MlxCmd.cpp:201-208 | a signed block XORs to 0xFF as a whole and in its control part, and sig is the XOR of its 512 data bytes; nothing else changed |
| `Checksum.SignedDescriptor` | Sources/core/MlxCmd.cpp:193-199 | a signed descriptor XORs to 0xFF; only the signature byte changed |
| `Checksum.XorConcat` | Sources/core/MlxCmd.cpp:66-74 | the checksum of a concatenation is the XOR of the checksums |
| `Checksum.Xor8Buf` | Sources/core/MlxCmd.cpp:66-74 | the loop computes the XOR of the named region |
| `Checksum.SetMailboxSignature` | Sources/core/MlxCmd.cpp:201-208 | the in-place signing of a block |
| `Checksum.SetSignature` | Sources/core/MlxCmd.cpp:193-199 | the in-place signing of a descriptor |
| `MemoryRegion.BuildPbl` | Sources/ib/MlxMR.cpp:65-125 | success means the list is exactly the page table applied to each virtual page in order; for every covered range of at most 480 pages it succeeds exactly if no two neighbouring virtual pages share a device page and no batch is left over once the list is full, and the error tells which |
| `MemoryRegion.RejectedRanges` | Sources/ib/MlxMR.cpp:86-117 | a range rejected for each cause: the second half of the 480th page in a batch of its own, and one device page twice |
| `MemoryRegion.BelowCapIsNeverFull` | Sources/ib/MlxMR.cpp:86-86 | below 480 pages the list is never full early |
| `MemoryRegion.ProcessBatch` | Sources/ib/MlxMR.cpp:93-105 | one batch extends the list to the pages it covers, stopping at a segment that does not fit or when the list is full |
| `MemoryRegion.WholeList` | Sources/ib/MlxMR.cpp:109-117 | a list of the expected length is the whole translation, even if the loop stopped because it was full |
| `MemoryRegion.Aligned` | Sources/ib/MlxMR.cpp:94-98 | the alignment test never rejects a segment that agrees with the table |
| `MttPages.AppendSegment` | Sources/hw/MlxP0Encoding.hpp:155-178 | a segment that agrees with the table extends the list to the virtual pages it covers, however the range is cut |
| `MttPages.DedupedLength` | Sources/hw/MlxP0Encoding.hpp:163-168 | de-duplication shortens the list exactly if neighbouring pages coincide |
| `MttPages.AppendToEmpty` | Sources/hw/MlxP0Encoding.hpp:155-190 | on an empty list: the ascending run of pages covering the segment, as many as mlxMttPageCount says |
| `MttPages.AppendIsRun` | Sources/hw/MlxP0Encoding.hpp:162-176 | a segment adds each page it touches once, ascending |
| `MttPages.AppendMttPages` | Sources/hw/MlxP0Encoding.hpp:155-178 | succeeds exactly for a non-empty segment that does not wrap and fits; then the list is the old one with the segment's pages |
| `MttPages.ClosedForm` | Sources/hw/MlxP0Encoding.hpp:180-190 | the closed form counts the pages touched |
| `IfcBits.FieldRoundTrip` | Sources/hw/MlxIfcHelpers.hpp:10-36 | mlxGetBits after mlxSetBits gives the value modulo 2^width |
| `IfcBits.OtherBitsKept` | Sources/hw/MlxIfcHelpers.hpp:10-23 | every bit outside the field is as before, every bit inside is the value's |
| `IfcBits.OtherFieldsKept` | Sources/hw/MlxIfcHelpers.hpp:10-36 | fields that share no bit do not disturb each other |
| `IfcBits.EveryFieldDecodes` | Sources/hw/MlxP0Encoding.hpp:228-251 | any list of disjoint fields decodes field by field |
| `IfcBits.OutsideFieldsKept` | Sources/hw/MlxP0Encoding.hpp:228-251 | bits outside every field are as before |
| `IfcBits.SetBits` | Sources/hw/MlxIfcHelpers.hpp:10-23 | the bit loop overwrites exactly the field |
| `IfcBits.GetBits` | Sources/hw/MlxIfcHelpers.hpp:25-36 | the bit loop reads the field, below 2^width |
| `MkeyEncoding.DecodeEncode` | Sources/hw/MlxP0Encoding.hpp:204-255 | decoding an accepted CREATE_MKEY by the layout of the mkey context gives back the request: pages, range, access rights, domain and key variant |
| `MkeyEncoding.FlagsDecode` | Sources/hw/MlxP0Encoding.hpp:228-241 | each access bit lies where the layout has it, and the constant bits are set |
| `MkeyEncoding.NumbersDecode` | Sources/hw/MlxP0Encoding.hpp:239-248 | so do the numbers; both length fields hold the octword count |
| `MkeyEncoding.EncodingDecodes` | Sources/hw/MlxP0Encoding.hpp:204-255 | every field of an accepted CREATE_MKEY decodes to what was asked for |
| `MkeyEncoding.PagesDecode` | Sources/hw/MlxP0Encoding.hpp:250-251 | so does every page address |
| `MkeyEncoding.RestIsKept` | Sources/hw/MlxP0Encoding.hpp:213-217 | nothing beyond the command's size is written |
| `MkeyEncoding.EncodeCreateMkey` | Sources/hw/MlxP0Encoding.hpp:204-255 | accepted exactly under the checks; a rejected call changes nothing; the size is at most 4112 |
| `MkeyEncoding.FieldsApart` | Sources/hw/MlxP0Encoding.hpp:228-251 | no two fields overlap and all lie below the command's size |
| `MkeyEncoding.KeyRoundTrip` | Sources/hw/MlxP0Encoding.hpp:257-267 | a key leads back to its index exactly for 24-bit indices |
| `ManagePagesEncoding.DecodeEncode` | Sources/hw/MlxP1Encoding.hpp:199-221 | decoding an accepted GIVE gives back the function, the count and every page |
| `ManagePagesEncoding.EncodingDecodes` | Sources/hw/MlxP1Encoding.hpp:199-221 | every field of an accepted MANAGE_PAGES decodes, each page address included |
| `ManagePagesEncoding.EncodeManagePages` | Sources/hw/MlxP1Encoding.hpp:194-221 | accepted exactly under the checks; a rejected call changes nothing; an accepted one writes exactly the cleared command with its fields |
| `PinTable.Table.LookupPhys` | Sources/core/MlxDMA.cpp:208-237 | agrees with the flat byte map of the first record of the owner that contains the address; 0 if none does |
| `PinTable.Table.PinUserMemory` | Sources/core/MlxDMA.cpp:91-180 | a record is added exactly with segments that add up to its length; any failure leaves the table alone and says why: no range, no memory, 64 segments not enough, or a mapper that stops short; a range cut exactly into at most 64 segments is added if memory allows |
| `PinTable.Table.UnpinMemory` | Sources/core/MlxDMA.cpp:182-194 | drops the record of the descriptor, keeps the others in order |
| `PinTable.Table.Translate` | Sources/core/MlxDMA.cpp:223-232 | accumulating segment lengths finds the byte that the concatenation has at that offset |
| `DmaSegments.TotalAppend` | Sources/core/MlxDMA.cpp:126-140 | segment lengths accumulate over batches |
| `PinTable.FlatAt` | Sources/core/MlxDMA.cpp:223-232 | a byte of a segment lies at the lengths before it plus its offset |
| `PinTable.WithoutKeepsOthers` | Sources/core/MlxDMA.cpp:187-194 | unpinning removes that record and no other |

## Left out

- FwPages.Manager.ReclaimAll: with a timeout of 2^32-1 the loop may never end; the method then stops watching after a given number of fruitless rounds and says so.
- PciDriver.Driver.Start: which step of BAR mapping, interrupt setup, health polling, DMA service and publishing fails is not told apart.
- FwPages.Manager: a page is a value known by its DMA address and the list a sequence; pointers, the link field and the memory of a page are not modelled.
- FwPages.Manager.ReleaseAllForFunction: the event is taken as firmware's word, at the time it is processed, that it no longer uses the function's pages.
- FwPages.Manager.AllocatePage: the memory of a page, its descriptor and its mapping are one question to the host.
- PciDriver.Driver.RunWorker: a page event is queued and served in one step; PageWorker has the steps in between.
- PageWorker.DrainedIsQuiescent: says nothing about whether stopRuntimeAndDrain returns; FinalSectionDecidesDrain and DrainCanStall do.
- CmdSlots.CommandQueue.Finish: one step; the source frees the index before it clears the entry. Issue is one step too, from the quarantine test to the entry.
- CmdSlots: the polling loop, tokens, the doorbell, event mode and the mapping of firmware status codes.
- CommandChannel.Channel.Exec: PciDriver and FwPages use this interface instead of CmdSlots; a command there is one answer, and commands of different threads do not overlap.
- Ethernet.Oracle.Ask: firmware answers success or an error; what cmdCreateCq does after a timeout is not modelled.
- Ethernet.Interface.Enable: link state, the contents of the commands, and who holds the notifier while a queue is destroyed; Quiescence treats the notifier by itself.
- TxRing.Ring.XmitPacket: the bytes of the work-queue entry and of the bounce buffer; whether the queue is ready and the copy succeeds are parameters.
- RxRing.Ring.HandleRxCqe: completions come in cyclic order, and reposting a descriptor never fails; overrun of the receive completion queue as the device sees it.
- DeviceQueue.Queue.PollUser: byte swapping of the copied fields.
- Notifiers.Registry.Snapshot: retain and release of the notifier's object; which notifiers have one is a parameter.
- Quiescence: spurious wake-ups need no step of their own, since the test is made again under the lock.
- Uar.UarPage.FreeDbSlots: counts above the two that allocation accepts.
- DoorbellBitmap, IfcBits: a word or byte is given by its bits; setting and clearing a bit stand for the masks.
- Mailbox.Entry: DMA addresses are given as their big-endian bytes, and mapping one mailbox as taking an address.
- MemoryRegion.BuildPbl: the mapper's batches are given, and agree with a page table; the IODMACommand itself is not modelled. The exact condition for success is stated for mappers that never fail and cover the range.
- MkeyEncoding.EncodeCreateMkey, ManagePagesEncoding.EncodeManagePages: null pointers.
- The QPC encoders, mlxEncodeQueryPages and mlxP1SetEvent: they would repeat the field tables of the two encoders here.
- PinTable.Table.PinUserMemory: the owner's memory descriptor is a number that no record holds yet.
- IOKit plumbing, MMIO and PCI configuration space, memory barriers, sleeping, health polling.
- RoCE verbs, GID and address-handle tables, user-client dispatch, command-line tools and capability parsing.

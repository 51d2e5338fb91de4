# Verified model of usb-lib

This project models the parts of the `usb-lib` crate that keep state across calls, walk untrusted
bytes, or share state with another thread or with the kernel, and proves what callers rely on.

- `UsbBase.dfy`: bytes, little-endian words, results.
- `DescriptorChain.dfy`: the walk over length-prefixed descriptors as a tokeniser. It finds the unique
  maximal list of complete records; truncation, insertion and zero padding are proved once, here.
- `ConfigDescriptor.dfy`, `ConfigTree.dfy`, `ConfigLaws.dfy`: `ConfigDescriptor::from_bytes`. The in-place
  loop refines a fold over the records; the fold equals an independent reading that cuts the chain at
  interface and endpoint records; encoding and parsing are inverse exactly where `wTotalLength` covers
  the encoding.
- `BosDescriptor.dfy`: `BosDescriptor::from_bytes` with its exact round trip.
- `ConfigLongRecords.dfy`: both parsers on records that are longer than their standard form.
- `WinUsb.dfy`, `WinUsbLaws.dfy`, `WinUsbOutcomes.dfy`: claiming and releasing WinUSB interfaces, the endpoint cache,
  the ledger of handles, over all runs and all answers of the system; and the result and new state of each call, told
  from those answers alone.
- `Overlapped.dfy`: `overlapped_read` and `overlapped_write` against the kernel, as all interleavings of single
  system calls with the completion of the request.
- `IoKitLedger.dfy`, `IoKitInterfaces.dfy`, `IoKitPath.dfy`, `IoKitPathExact.dfy`: the macOS interface searches with
  their reference counts and pipe map, and the textual device path.
- `LinuxDevice.dfy`, `LinuxReads.dfy`, `LinuxSettings.dfy`, `LinuxIso.dfy`: the two-pass configuration read and the
  endpoint cache, the same from end to end, the cache against the selected alternate settings, the isochronous split.
- `HotplugLinux.dfy`, `HotplugMac.dfy`, `HotplugMacThreads.dfy`: the stop/join protocol of the Linux worker; the
  staged setup and teardown of the macOS worker, and its handshake with the owner over all interleavings.

Conventions. Bytes are integers below 256, so `x & 0x80` is a comparison with 128 and `x & 0x0f` a remainder.
What an operating system answers is always an argument (a reply list, a script, an `Answers` record), so each
theorem quantifies over every behaviour of the system that keeps the promises written at the type of the
answers. Error texts are kept as short labels.

Where the code falls short of what one might expect of it, the input and the exact condition are proved:

- the cached WinUSB lookup agrees with the plain scan on all runs if and only if no endpoint address
  occurs on two interfaces (`LookupAgreesExactlyOnDisjointLayouts`; runs in `OverlapWithPrimary` and
  `OverlapBetweenClaimed`);
- a configuration survives encoding and parsing if and only if its `wTotalLength` covers the encoding or it
  has no interfaces (`ConfigLaws.RoundTrip`), a BOS descriptor if and only if its total covers the encoding, or
  it has no entries, and no `Unknown` entry is a known capability in disguise (`BosDescriptor.RoundTrip`);
- an overlapped call leaves its event handle open if and only if the system reported a failure on one of its
  exits through `?` (`ReturnedIsSafe`; runs in `EventMayLeak`); it may report a timeout for a transfer that
  moved data if and only if the wait elapsed under a finite timeout or failed (`TimeoutHidesDataExactly`); and a
  timeout below one millisecond waits for ever (`WaitsForeverExactly`);
- the second descriptor pass on Linux ignores its byte count, which can add one zero-filled record and no
  more (`ShortSecondPass`, input in `PhantomInterface`); it makes no difference if and only if there is none or
  it has no effect, by a condition on that record (`ShortPassAgreesExactly`, `AttachChangesNothing`); with
  fewer than nine bytes an empty configuration is accepted (`TinySecondPass`);
- the comment at `usb-lib/src/backend/linux.rs:804` says that the endpoint cache follows the selected
  alternate setting, but the code caches all settings: input in `SettingsMayDisagree`, the exact condition in
  `FollowsExactlyWhenSettled` and, where interfaces share no address, in `FollowsExactlyWhenSettingsAgree`;
- dropping a macOS registration never hangs on a system that keeps a stop request made before the run loop runs
  (`KeptRunsNeverHang`); on one that loses it, the drop hangs if and only if it came that early
  (`HangsExactlyWhenDroppedEarly`, run in `EarlyStopMayHang`).

## Model

| member | source | states |
|---|---|---|
| DescriptorChain.RecordsAreTheMaximalTiling | usb-lib/src/core/descriptor.rs:80-124 | the records visited by the walk are the one and only list of consecutive complete records that tiles the front of the chain and cannot be continued |
| DescriptorChain.RecordsOfPrefix | usb-lib/src/core/descriptor.rs:78-86 | cutting the bytes keeps exactly the records that end before the cut |
| DescriptorChain.RecordsOfPadded | usb-lib/src/core/descriptor.rs:80-86 | zero padding behind a cut chain adds at most the one cut record, then the walk stops |
| DescriptorChain.RecordsOfInsertion | usb-lib/src/core/descriptor.rs:80-123 | a record written at a boundary appears in the list at that place and moves no other |
| ConfigDescriptor.ReadRecord | usb-lib/src/core/descriptor.rs:88-120 | the in-place update for one record does what `Attach` says, and the readers it calls never fail |
| ConfigDescriptor.WalkChain | usb-lib/src/core/descriptor.rs:75-124 | the loop with its last-element updates computes the fold over the tokenised chain, and terminates |
| ConfigDescriptor.FromBytes | usb-lib/src/core/descriptor.rs:61-135 | the parser returns header and fold for every buffer of nine bytes and type 2, and InvalidDescriptor for any other; it never panics |
| ConfigTree.BuildIsTree | usb-lib/src/core/descriptor.rs:88-120 | the result equals the tree read off by cutting the chain at interface and endpoint records, the last HID and the last companion of a piece counting |
| ConfigLaws.RoundTrip | usb-lib/src/core/descriptor.rs:61-135 | for every configuration, parsing its USB wire encoding gives it back iff wTotalLength covers the encoding or there are no interfaces |
| ConfigLaws.RoundTripBeforeJunk | usb-lib/src/core/descriptor.rs:76-86 | bytes behind a correctly announced encoding do not disturb the round trip |
| ConfigLongRecords.AttachLong | usb-lib/src/core/descriptor.rs:88-120 | bytes behind the standard fields of any record do not matter |
| ConfigLongRecords.LongRecordsRoundTrip | usb-lib/src/core/descriptor.rs:61-135 | every configuration written with any bytes behind the standard fields of its records, under a covering total, is read back as it is |
| ConfigLongRecords.AttachedFields | usb-lib/src/core/descriptor.rs:101-120 | which bytes of HID and companion records become which field |
| ConfigLongRecords.LongCapabilitiesRoundTrip | usb-lib/src/core/descriptor.rs:404-429 | the same for the capability records of a BOS descriptor, with any reserved byte |
| ConfigLaws.ReencodingIsStable | usb-lib/src/core/descriptor.rs:61-135 | whatever was parsed can be re-encoded within 16 bits, no longer than what was read, and parses to the same configuration |
| ConfigLaws.Truncation | usb-lib/src/core/descriptor.rs:76-124 | parsing a cut buffer yields a prefix tree built from the records that end before the cut; cuts behind the walked bytes change nothing |
| ConfigLaws.BytesBehindTotalLengthDoNotMatter | usb-lib/src/core/descriptor.rs:78-80 | bytes behind wTotalLength are never looked at |
| ConfigLaws.EndpointPlacement | usb-lib/src/core/descriptor.rs:93-100 | each endpoint record behind an interface is found under the nearest preceding interface, at its ordinal there, with the fields at their bytes |
| ConfigLaws.InterfacePlacement | usb-lib/src/core/descriptor.rs:88-92 | the interfaces are the accepted interface records, in order and in number, with the fields at their bytes |
| ConfigLaws.BuildCounts | usb-lib/src/core/descriptor.rs:88-100 | numbers of interfaces, of endpoints of the last one, and of endpoints in all, as counts of records |
| ConfigLaws.UnknownRecordsAreSkipped | usb-lib/src/core/descriptor.rs:80-124 | inserting an unknown or too short record at any record boundary, with wTotalLength raised, leaves the interfaces unchanged |
| BosDescriptor.WalkChain | usb-lib/src/core/descriptor.rs:384-432 | the skipping loop computes the capabilities of the tokenised chain, and terminates |
| BosDescriptor.FromBytes | usb-lib/src/core/descriptor.rs:376-435 | header and capabilities for every buffer of five bytes and type 0x0F, and a refusal of any other |
| BosDescriptor.CapabilityRoundTrip | usb-lib/src/core/descriptor.rs:404-429 | a capability record is read back as written iff it is not an Unknown entry the parser would recognise |
| BosDescriptor.RoundTrip | usb-lib/src/core/descriptor.rs:376-435 | a descriptor survives encoding and parsing iff its total covers the encoding or it has no entries, and all its entries are canonical |
| BosDescriptor.OtherRecordsAreSkipped | usb-lib/src/core/descriptor.rs:395-402 | a record of another type written into any accepted buffer at any boundary, with the total raised, changes no capability |
| WinUsb.WinUsbDevice.Open | usb-lib/src/backend/windows.rs:465-523 | success exactly when the file is granted, if need be without write access, and initialised; then the device holds its primary handle only, and a failure leaves nothing open |
| WinUsb.WinUsbDevice.FindPipe | usb-lib/src/backend/windows.rs:559-568 | the scan of one handle finds the first of 32 pipes with the address |
| WinUsb.WinUsbDevice.HandleForEndpoint | usb-lib/src/backend/windows.rs:547-571 | cache, then scan over primary and associated handles, then the primary handle |
| WinUsb.WinUsbDevice.BuildEndpointCache | usb-lib/src/backend/windows.rs:574-583 | the first 32 pipes of the handle are entered, nothing else changes |
| WinUsb.WinUsbDevice.TryCandidate | usb-lib/src/backend/windows.rs:767-794 | one round of the candidate loop: what the system grants is kept and cached if it is the interface, and freed otherwise |
| WinUsb.WinUsbDevice.SearchAssociated | usb-lib/src/backend/windows.rs:765-798 | the candidate loop: rejected candidates are freed, the first match is kept and cached, a refusal ends it |
| WinUsb.WinUsbDevice.ClaimInterface | usb-lib/src/backend/windows.rs:749-799 | the whole new state of device and handle ledger after a claim, for all answers of the system |
| WinUsb.WinUsbDevice.ReleaseInterface | usb-lib/src/backend/windows.rs:801-823 | the handle leaves list, cache and ledger; other interfaces stay |
| WinUsb.WinUsbDevice.GetPipeInfo | usb-lib/src/backend/windows.rs:930-960 | information of the first held handle that carries the endpoint, else an error |
| WinUsb.WinUsbDevice.FreeAssociated | usb-lib/src/backend/windows.rs:672-677 | associated handles are freed once each, newest first |
| WinUsb.WinUsbDevice.Drop | usb-lib/src/backend/windows.rs:669-687 | then the primary handle, and the file is closed after the last handle was freed |
| WinUsbOutcomes.ClaimSucceedsExactly | usb-lib/src/backend/windows.rs:749-799 | a claim succeeds iff the number is 0, or held, or that of a granted candidate among the first 32 with only granted ones before it |
| WinUsbOutcomes.ClaimOfNew | usb-lib/src/backend/windows.rs:765-799 | the whole result and new state of a claim of an interface that is not held: list, live handles, cache, frees and grants |
| WinUsbOutcomes.ClaimOfHeld | usb-lib/src/backend/windows.rs:750-760 | claiming a held number changes nothing; claiming 0 enters the first 32 pipes of the primary handle |
| WinUsbOutcomes.ReleaseOfHeld | usb-lib/src/backend/windows.rs:801-823 | releasing any held interface removes that entry, frees its handle, and drops exactly the cache entries for it |
| WinUsbOutcomes.LookupOrder | usb-lib/src/backend/windows.rs:547-571 | cache, else the first of primary and associated handles with the endpoint, else the primary handle |
| WinUsbOutcomes.PipeInfoIs | usb-lib/src/backend/windows.rs:930-960 | the information is all of the first pipe with the address on the first handle that has one; an error iff none has |
| WinUsbLaws.StepKeepsInv | usb-lib/src/backend/windows.rs:749-823 | every claim and release keeps numbers distinct and non-zero, live handles equal to held ones, the cache sound and the ledger balanced |
| WinUsbLaws.HandleConservation | usb-lib/src/backend/windows.rs:749-823 | after any run the live handles are the primary and the associated ones, and every grant is accounted for |
| WinUsbLaws.DropFreesEverythingOnce | usb-lib/src/backend/windows.rs:517-522 | open, any calls, drop: each handle is freed once per grant, rejected candidates included, associated ones newest first, then the primary one; the file, open until then, is closed after all of them |
| WinUsbLaws.DropOrder | usb-lib/src/backend/windows.rs:669-687 | the order of the frees by position: the associated handles from the last to the first, then the one opened |
| WinUsbLaws.LookupIsSound | usb-lib/src/backend/windows.rs:547-571 | on every run, even with shared addresses, the lookup names a live handle that carries the endpoint if any does, and get_pipe_info succeeds exactly then |
| WinUsbLaws.CacheIsExact | usb-lib/src/backend/windows.rs:574-583 | without shared addresses the cache holds exactly the first 32 pipes of the claimed handles |
| WinUsbLaws.LookupAgreesExactlyOnDisjointLayouts | usb-lib/src/backend/windows.rs:547-583 | lookup and plain scan agree on all runs iff no address occurs on two interfaces |
| WinUsbLaws.LookupNamesTheFinder | usb-lib/src/backend/windows.rs:547-571 | without shared addresses the lookup names the very handle on which get_pipe_info finds the endpoint |
| WinUsbLaws.OverlapWithPrimary | usb-lib/src/backend/windows.rs:549-551 | a run on which an interface sharing an address with the primary one hides it |
| WinUsbLaws.OverlapBetweenClaimed | usb-lib/src/backend/windows.rs:549-551 | a run on which the later of two associated interfaces hides the earlier one |
| WinUsbLaws.SettlesOnFirstMatch | usb-lib/src/backend/windows.rs:765-794 | a search settles iff some granted candidate matches with no refusal before it |
| WinUsbLaws.SearchOutcome | usb-lib/src/backend/windows.rs:765-798 | a claim succeeds iff the search settles; a failed claim leaves device and live handles as they were; exactly the rejected candidates are freed, in order |
| WinUsbLaws.ReleaseUndoesClaim | usb-lib/src/backend/windows.rs:801-823 | releasing what was just claimed restores list and live handles, and the cache but for the handle's addresses |
| Overlapped.WaitsForeverExactly | usb-lib/src/backend/windows.rs:1193-1194 | which timeouts become an infinite wait; all others wait their whole milliseconds |
| Overlapped.RunKeepsInv | usb-lib/src/backend/windows.rs:1165-1264 | every state of every interleaving has the outcome explained by what the system reported |
| Overlapped.ReturnedIsSafe | usb-lib/src/backend/windows.rs:1146-1264 | on return the kernel no longer touches OVERLAPPED or buffer, nor later; a byte count is the kernel's; Timeout follows a wait without the signal; the event stays open exactly on the failures reported on the `?` exits |
| Overlapped.OutcomesExactly | usb-lib/src/backend/windows.rs:1165-1264 | a call may return with an outcome, reports, request and event if and only if the table of explanations has them; error codes are those of the request |
| Overlapped.EventMayLeak | usb-lib/src/backend/windows.rs:1200-1207 | each of the three `?` exits is reached on some run and leaves the event open |
| Overlapped.TimeoutHidesDataExactly | usb-lib/src/backend/windows.rs:1193-1207 | for which timeouts and wait results a timeout may be reported for a completed transfer |
| Overlapped.BlockedExactly | usb-lib/src/backend/windows.rs:1165-1264 | the thread goes on alone until it returns, a finite wait ending in the cancellation, except exactly in an infinite wait or a drain on a request the kernel has not completed |
| Overlapped.EveryRunReturns | usb-lib/src/backend/windows.rs:1165-1264 | no run has more than seven steps; one that has not returned is continued by the thread, or by the completion it is blocked on |
| IoKitInterfaces.MacOsDevice.OpenService | usb-lib/src/backend/macos.rs:549-620 | service and plug-in are given back on every exit; an open interface is held iff all calls succeeded |
| IoKitInterfaces.MacOsDevice.DiscoverPipes | usb-lib/src/backend/macos.rs:637-671 | the pipe loop computes the address map or fails with the first failing query |
| IoKitInterfaces.MacOsDevice.InspectService | usb-lib/src/backend/macos.rs:549-671 | one round of the search, balanced on every failing exit |
| IoKitInterfaces.MacOsDevice.OpenInterfaceForEndpoint | usb-lib/src/backend/macos.rs:516-700 | exactly one open interface more on Ok, nothing more on Err, after any number of rounds; outcome and pipe map as the search says |
| IoKitInterfaces.MacOsDevice.FindInterface | usb-lib/src/backend/macos.rs:705-837 | the same balance for the search by number |
| IoKitInterfaces.MacOsDevice.OpenPipe | usb-lib/src/backend/macos.rs:997-1012 | after a successful search the map lookup cannot fail and names a pipe of the opened interface |
| IoKitInterfaces.MacOsDevice.BulkRead | usb-lib/src/backend/macos.rs:984-1037 | balanced on every path; one transfer, on the pipe that has the endpoint |
| IoKitInterfaces.MacOsDevice.BulkWrite | usb-lib/src/backend/macos.rs:1039-1092 | the same, a success reporting the full length |
| IoKitInterfaces.MacOsDevice.GetPipeInfo | usb-lib/src/backend/macos.rs:1145-1201 | balanced; one query, of the pipe that has the endpoint on the interface found, and its answer is reported field by field; the address is the one asked for if the system answers as in the scan |
| IoKitInterfaces.MacOsDevice.SetAlternateSetting | usb-lib/src/backend/macos.rs:1120-1143 | balanced; the setting is requested once, on the first interface with the number; the pipe map is emptied exactly on success |
| IoKitInterfaces.MacOsDevice.CloseAndRelease | usb-lib/src/backend/macos.rs:1222-1234 | the interface is closed and its reference given back |
| IoKitInterfaces.StaleMapIsHarmless | usb-lib/src/backend/macos.rs:637-690 | whatever the map held, a successful search leaves for the endpoint the last pipe of the interface handed out whose direction and number make that address |
| IoKitInterfaces.MapAfterSearch | usb-lib/src/backend/macos.rs:637-690 | every other entry of the map after a search: the last offer of an inspected interface, or what was there |
| IoKitInterfaces.OutcomeIgnoresMap | usb-lib/src/backend/macos.rs:673-690 | the outcome of a search does not depend on the map |
| IoKitInterfaces.EndpointFoundExactly | usb-lib/src/backend/macos.rs:549-699 | for each way a search can end: the first interface that offers the endpoint, or the first error before it, or not found |
| IoKitInterfaces.SearchEnds | usb-lib/src/backend/macos.rs:549-699 | a search always ends in one of these ways |
| IoKitInterfaces.NumberFoundIsFirst | usb-lib/src/backend/macos.rs:737-836 | the search by number hands out the first match, or fails with the first error before it, or with not found |
| IoKitInterfaces.ReservedBitsAreNeverFound | usb-lib/src/backend/macos.rs:669-673 | an address with a reserved bit set is never found |
| IoKitPath.ParseIoKitPath | usb-lib/src/backend/macos.rs:1252-1273 | the loop keeps the value of the last part with each key |
| IoKitPath.LastPartsDecide | usb-lib/src/backend/macos.rs:1257-1272 | the last bus and the last addr part decide, and the path is refused iff one is absent or no number below 256 |
| IoKitPath.RoundTrip | usb-lib/src/backend/macos.rs:1252-1273 | printed bus and address parts among any other parts are read back |
| IoKitPath.PrintedPathParses | usb-lib/src/hotplug.rs:408-414 | every path printed on enumeration and hotplug parses to its bus and address |
| IoKitPathExact.ParsesExactly | usb-lib/src/backend/macos.rs:1252-1273 | every path, with or without the prefix, is read as bus and address iff the last bus part and the last addr part say these numbers, character by character |
| IoKitPathExact.RefusesExactly | usb-lib/src/backend/macos.rs:1268-1271 | and is refused iff one of them says no number, the bus being missed first |
| IoKitPathExact.HexReadsBack | usb-lib/src/hotplug.rs:408-414 | the vendor and product numbers are printed as four hexadecimal digits of their value |
| LinuxDevice.UsbFs.RawControl | usb-lib/src/backend/linux.rs:448-471 | the kernel fills the front of the buffer and leaves the rest zero |
| LinuxDevice.Device.ReadConfigDescriptor | usb-lib/src/backend/linux.rs:490-507 | the two-pass read: outcome and number of requests |
| LinuxReads.ReadIs | usb-lib/src/backend/linux.rs:490-507 | the result of the read and the number of requests for every script, from the announced total and the delivered bytes alone |
| LinuxReads.ReadSucceedsExactly | usb-lib/src/backend/linux.rs:490-507 | the read succeeds iff both requests are answered, the first with a header announcing at least itself, the second with the type byte |
| LinuxReads.HonestDeviceIsRead | usb-lib/src/backend/linux.rs:490-507 | a device that delivers its configuration twice is read as it is after two requests |
| LinuxReads.CacheTellsLast | usb-lib/src/backend/linux.rs:511-525 | the cache tells, field by field, what the last endpoint with the address says over all interface descriptors |
| LinuxReads.LookUp | usb-lib/src/backend/linux.rs:811-832 | the first lookup on such a device, from end to end |
| LinuxDevice.EnterEndpoints | usb-lib/src/backend/linux.rs:514-524 | the inner loop enters the endpoints of one interface behind those before |
| LinuxDevice.Enter | usb-lib/src/backend/linux.rs:511-525 | the nested loops enter all endpoints in descriptor order |
| LinuxDevice.CacheHoldsLast | usb-lib/src/backend/linux.rs:513-525 | the map answers for an address exactly what the last endpoint with it says |
| LinuxDevice.Device.RefreshEndpointCache | usb-lib/src/backend/linux.rs:509-533 | the map is that of the configuration just parsed; a failed read leaves it alone |
| LinuxDevice.Device.GetPipeInfo | usb-lib/src/backend/linux.rs:811-832 | a hit asks nothing, a miss refreshes exactly once and answers from the new map |
| LinuxDevice.Device.SetAlternateSetting | usb-lib/src/backend/linux.rs:797-809 | the refresh afterwards may fail without the call failing |
| LinuxDevice.ShortSecondPass | usb-lib/src/backend/linux.rs:503-506 | a short second pass is parsed as its complete records plus at most one zero-filled one, whatever total it announces |
| LinuxDevice.ShortPassAgreesExactly | usb-lib/src/backend/linux.rs:503-506 | the zeros make no difference iff they complete no record or one without effect |
| ConfigLaws.AttachChangesNothing | usb-lib/src/core/descriptor.rs:88-120 | which records leave the tree as it is: unknown, with nothing to hang on, or repeated |
| LinuxDevice.TinySecondPass | usb-lib/src/backend/linux.rs:503-506 | with less than a header delivered the parser accepts an empty configuration iff the type byte came |
| LinuxDevice.PhantomInterface | usb-lib/src/backend/linux.rs:503-506 | an answer without interfaces from which an interface of zeros is parsed |
| LinuxSettings.FollowsExactlyWhenSettled | usb-lib/src/backend/linux.rs:509-533 | the cache answers for every selection of alternate settings as they do, iff every cached address is always offered and wrong settings are always overruled |
| LinuxSettings.FollowsExactlyWhenSettingsAgree | usb-lib/src/backend/linux.rs:509-533 | without shared addresses: iff all settings of an interface list the same addresses with the same information |
| LinuxSettings.SettingsMayDisagree | usb-lib/src/backend/linux.rs:804-807 | a configuration whose cache contradicts the selected setting |
| LinuxIso.CountIsLeast | usb-lib/src/backend/linux.rs:551-551 | the packet count is the least that holds the buffer |
| LinuxIso.SharesAreEven | usb-lib/src/backend/linux.rs:565-570 | the lengths sum up to the buffer, never increase and differ by at most one |
| LinuxIso.ShareBounds | usb-lib/src/backend/linux.rs:565-569 | no packet is empty or larger than the endpoint's packet size |
| LinuxIso.EvenSplitIsUnique | usb-lib/src/backend/linux.rs:565-570 | there is only one such split |
| LinuxIso.Split | usb-lib/src/backend/linux.rs:536-570 | accepted iff the buffer fits 256 packets; the filled table is the even split with the least count; the rounding sum fits 32 bits |
| HotplugLinux.DeliveredInOrderOnce | usb-lib/src/hotplug.rs:246-268 | on every interleaving the callbacks are the add and remove events of the consumed prefix, in order and once each, and the rest is still queued |
| HotplugLinux.CallbacksTellTheEvents | usb-lib/src/hotplug.rs:252-266 | one callback for each addition and removal consumed, an arrival for the former and a departure for the latter, with its path |
| HotplugLinux.BatchIsFinished | usb-lib/src/hotplug.rs:252-268 | a worker that has begun to take events takes all that were queued, even if the flag goes up meanwhile |
| HotplugLinux.QueueCanBeDelivered | usb-lib/src/hotplug.rs:238-268 | while the flag is down the worker can always get to deliver the whole queue |
| HotplugLinux.SilentAfterDrop | usb-lib/src/hotplug.rs:212-219 | drop returns only after the worker exited, and no callback follows |
| HotplugLinux.NextMeasure | usb-lib/src/hotplug.rs:246-268 | with the flag up, each worker step brings the exit nearer and only arrivals put it off |
| HotplugLinux.StopBoundsTheWorker | usb-lib/src/hotplug.rs:246-268 | bound on the worker steps behind the stop flag |
| HotplugLinux.WorkerReachesExit | usb-lib/src/hotplug.rs:246-268 | with the flag up, the worker alone gets to its exit within the measure |
| HotplugLinux.DropGetsThrough | usb-lib/src/hotplug.rs:214-217 | from the raised flag, worker and owner get drop to return without the kernel, within the bound |
| HotplugLinux.QuietExactlyWhenDropped | usb-lib/src/hotplug.rs:212-219 | a run that worker and owner cannot continue is exactly one on which drop has returned: no deadlock |
| HotplugLinux.JoinIsBounded | usb-lib/src/hotplug.rs:214-219 | moves of worker and owner behind the flag are bounded by the measure, the arrivals and the join |
| HotplugLinux.WorkerNeverBlocks | usb-lib/src/hotplug.rs:246-268 | until it has exited the worker has a step to take |
| HotplugMac.Worker.AddNotification | usb-lib/src/hotplug.rs:495-534 | one registration: the dictionary is consumed either way, the iterator held iff it succeeded |
| HotplugMac.Worker.DrainIterator | usb-lib/src/hotplug.rs:440-449 | every service drawn is given back |
| HotplugMac.Worker.Setup | usb-lib/src/hotplug.rs:462-592 | one message on every path, non-null iff all calls succeeded; on null nothing is held any more when it is sent |
| HotplugMac.Worker.Teardown | usb-lib/src/hotplug.rs:603-609 | all five resources are given back once |
| HotplugMacThreads.NextKeepsInv | usb-lib/src/hotplug.rs:451-629 | every step of worker or owner keeps what is held, freed and sent in balance |
| HotplugMacThreads.HandshakeIsSafe | usb-lib/src/hotplug.rs:361-629 | on every interleaving: one message; register fails only on null, joined, with nothing held; a registration holds all five resources; drop returns only after the worker; each resource freed once |
| HotplugMacThreads.RegisterMayFail | usb-lib/src/hotplug.rs:462-620 | each call of the setup may fail, and register then returns its error |
| HotplugMacThreads.DropMayReturn | usb-lib/src/hotplug.rs:361-372 | unless the stop request was lost, drop gets to return |
| HotplugMacThreads.RestsExactly | usb-lib/src/hotplug.rs:361-629 | every run ends, and rests exactly where register failed, drop returned, or the join hangs on a lost stop request |
| HotplugMacThreads.LostOnlyWhenEarly | usb-lib/src/hotplug.rs:591-600 | a request is lost only if made before the run loop ran |
| HotplugMacThreads.HangsExactlyWhenDroppedEarly | usb-lib/src/hotplug.rs:361-372 | on a system that loses early requests, a run at rest hangs iff the stop came before the run loop was entered |
| HotplugMacThreads.KeptRunsNeverHang | usb-lib/src/hotplug.rs:361-372 | on a system that keeps them no run hangs |
| HotplugMacThreads.EarlyStopMayHang | usb-lib/src/hotplug.rs:361-372 | a run on which a registration dropped before its run loop runs hangs, on a system that does not keep the request |

## Left out

- WinUsb.System.QueryPipe: does not fail for an index below the pipe count, because the cache theorems need a pipe list that stays fixed while a handle lives.
- Overlapped.ReturnedIsSafe: does not claim that the event handle is always closed, because the code leaves it open on its exits through `?`; the exact exits are stated.
- HotplugLinux.SilentAfterDrop: models the relaxed flag as read in one total order of steps; a delayed view of the flag would only add polling rounds.
- HotplugMacThreads.RestsExactly: leaves open whether a stop request before the run loop runs is kept, which CoreFoundation decides; both answers are steps, and a panicking worker, whose channel closes, is not modelled.
- HotplugMacThreads.NextKeepsInv: the two calls of one registration, with the dictionary they consume and the services drained, are one step; their own balance is `HotplugMac.Worker.AddNotification` and `DrainIterator`.
- LinuxSettings.FollowsExactlyWhenSettled: a selection names one descriptor for every interface number; two descriptors with the same number and the same alternate setting count as two choices.
- The overlapped helpers are modelled as a transition system rather than as methods, because the kernel acts between any two of their calls; the OVERLAPPED structure itself is reduced to the state of the request.
- Poisoned mutexes on Linux and macOS: assumed not to occur.
- Failing calls of the system hand out no reference: assumed for IOKit. `MacOsDevice::open`, which does not give back its device interface when opening fails, is not modelled.
- The error-code tables, device enumeration and property reads, string descriptors, the multi-string walk over hardware IDs, and the fixed-layout descriptors (device, qualifier, hub), which one branch settles.
- The submission and reaping of the isochronous request, and the Windows isochronous helpers.
- The Windows hotplug registration, the tokio wrappers, the mock backend and logging.

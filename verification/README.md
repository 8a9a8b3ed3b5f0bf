# MeneOS: a verified model of its services and kernel tables

MeneOS is a small microkernel whose drivers, file service and init run in user space. This project
models the parts whose correctness is not visible in any single function and proves what they promise,
for every input and every run:

- **Init** (`Text`, `BootConfig`, `BootFormat`, `BootRoundTrip`, `Masks`, `Graph`, `Reordering`, `Launch`,
  `Supervisor`, `Chronicle`, `Closure`, `Boot`): the boot configuration parser, the resolution of dependency names to bit masks, the
  multi-pass launcher and the tick-driven supervisor, from configuration text to the supervised system.
- **Block stack** (`BlkServer`, `BlkClient`, `Sectors`, `Disk`): the byte cursor of the file service over sectors,
  tagged calls over a shared endpoint, and the block service, composed into one system.
- **Control plane** (`SlotTable`, `Registries`, `ControlPlane`): the slot-array registries and the message
  handling of init while it waits for replies.
- **Kernel** (`Ipc`, `Processes`, `Scheduler`, `Share`, `UserStack`): message queues, process tables, the
  dependency graph, the contiguity check for shared buffers and the initial user stack.

`Bytes` holds little-endian encodings, `Services` the records of init, `Options` the optional value and
`Arithmetic` facts about division.

What the environment decides is a parameter: the outcome of every spawn and probe, what each receive runs
into, how far the block service has come, whether a send succeeds. Machine words are natural numbers with
their wrap-around, saturation or truncation written out. A buffer with a length field is its live prefix.
A long loop nest of the source is split into one method per loop.

## How the main results fit together

*Parsing.* `BootFormat` writes the configuration format down without the parser: lines with white space and comments
around keys, values and headers, quoted or bare values, repeated and unknown keys, comma-separated lists with blank
items, LF or CRLF or no line end at the very end. `BootFormat.ParsedIs` says what the parser makes of every such
text, and `BootRoundTrip.RoundTrip` that any text describing up to sixteen services is parsed to these services,
with masks that denote the services of the given names.

*Launching.* `Graph` defines, independently of any algorithm, the least set of services closed under "spawns
and has its dependencies up". `Launch.LaunchGraph` produces a log of attempts that respects dependencies,
starts nothing twice, stays within its pass and attempt bounds and leaves nothing startable;
`Launch.LaunchReachesLeast` shows that such a log with fixed outcomes ends at that least set, and that everything
is up exactly when every spawn succeeds and the dependencies have no cycle. Listing the services of a
configuration in another order changes nothing exactly when no name that is depended on is carried by two
services (`Reordering.OrderIrrelevantIff`, `Reordering.LaunchOrderIrrelevant`). The kernel's dependency graph
reaches the same set under every driver that starts only services it was told are ready, with starts and
completions overlapping in any way (`Scheduler.EveryDriverReachesLeast`).

*Supervising.* `Supervisor.RunInv` is the invariant of every run: counters equal what the event history says,
a restart follows a failed probe exactly when it is the third in a row (and, unless the policy is Always, the
service was healthy since its last restart), and probes, respawns and restarts keep their distances of 10, 10
and 31 or 41 ticks. `Chronicle.RunIsChronicle` is the converse of that: the events of every run are exactly those
that a rule on the histories alone prescribes, so the runtime table is no more than a summary of what happened.
Probes therefore do take place (`ProbedEveryTen`), a service that was healthy and then fails is restarted
(`FailureAfterHealth`), and a one-shot service is not tried twice (`OneShotOnce`). `DetectionBound` and `RecoveryBound` give the matching upper bounds. `Boot.Start` ties these
runs to the launch: its result is the launched world after n ticks. The launched world is closed under
dependencies whatever the spawns do (`Boot.LaunchedIsClosed`), but supervised runs do not stay so:
`Closure.RestartBreaksClosure` is a run from a launched world that loses closure in one tick, and
`Closure.ClosedAfterTickIff` says, by the guards before a tick, exactly when it does.

*Disk.* The contents seen by the file service are the disk after the block service has worked off its queue.
Against these contents every call of `blk_call` has the effect and the answer of its own request, never of
an earlier one that timed out, so every session of seek, read and write is a run of a flat byte array with a
cursor, including how far a failed transfer may have come.

*Sharing.* `share` compares the words that the VirtToPhys system call reports for the pages of a buffer. On a
buffer whose pages are all mapped its answer is always right, and so it is on every buffer if a missing page is
reported as all ones or zero. The system call reports an error code instead
(kernel/mene-syscall/src/lib.rs:342-370); then the answer is wrong exactly for the buffers that have a missing
page and nevertheless pass the comparison at every page start, and for every such code there are some.

## Model

| member | source | states |
|---|---|---|
| Masks.SubsetTest | apps/init/src/main.rs:513-513 | `deps & !started == 0` holds exactly when the set denoted by deps is included in the set denoted by started, at any word width |
| Masks.TestBit | apps/init/src/main.rs:509-509 | `mask & (1 << k) != 0` holds exactly when k is in the denoted set |
| Masks.SetBit | apps/init/src/main.rs:520-520 | `mask \|= 1 << k` adds exactly k to the denoted set and stays within the word |
| Masks.FullMask | apps/init/src/main.rs:502-502 | `(1 << n) - 1` denotes exactly the indices below n |
| Masks.BitsInjective | apps/init/src/main.rs:526-526 | distinct words denote distinct sets, so comparing masks compares sets |
| Graph.ExhaustedIsLeast | apps/init/src/main.rs:496-530 | any dependency-respecting launch order with fixed outcomes that leaves nothing startable reaches the least fixpoint of "spawns and has its dependencies up" |
| Graph.LeastReordered | apps/init/src/main.rs:496-530 | renaming the services of a graph renames the least fixpoint and changes nothing else |
| Reordering.OrderIrrelevantIff | apps/init/src/main.rs:247-267 | listing the services in any other order and resolving again gives the same dependencies, iff no name that is depended on is carried by two services |
| Reordering.AmbiguousDoesNotMove | apps/init/src/main.rs:254-261 | if a name depended on is carried twice, exchanging its first carrier with another makes the dependent wait for another service |
| Reordering.LaunchOrderIrrelevant | apps/init/src/main.rs:496-530 | launches of the same services listed in two orders, with the same outcome for each, start the same services |
| Graph.AllStartIff | apps/init/src/main.rs:526-528 | everything starts iff every spawn succeeds, no dependency dangles and no dependency walk returns to its start |
| Graph.StuckMeansCycle | apps/init/src/main.rs:513-516 | a nonempty set of services each waiting for a member of the set exposes a dependency cycle |
| Launch.LaunchPass | apps/init/src/main.rs:506-524 | one pass attempts only services that were down, keeps mask, log and runtime table in agreement, reports progress exactly when a service came up, and without progress leaves nothing startable |
| Launch.LaunchGraph | apps/init/src/main.rs:496-530 | for arbitrary varying outcomes: attempts respect dependencies, no service starts twice, runtime flags equal the log, the log falls into passes that each go through the table once and all but the last start something, every unstarted service lacks a dependency or failed in the last pass, at most max(1, count) passes and count(count+1)/2 attempts |
| Launch.TriangleClosed | apps/init/src/main.rs:505-529 | the attempt bound used by LaunchGraph is count(count+1)/2 |
| Launch.AllUp | apps/init/src/main.rs:526-526 | the stop test on the mask holds exactly when every service is up |
| Launch.LaunchReachesLeast | apps/init/src/main.rs:496-530 | with fixed outcomes the launcher starts exactly the least fixpoint, and everything iff spawns succeed and the graph is closed and acyclic |
| Supervisor.TakeSnapshot | apps/init/src/main.rs:539-546 | the snapshot mask denotes exactly the started services |
| Supervisor.StepService | apps/init/src/main.rs:549-601 | one round of the supervisor loop changes one runtime entry, as the step function says |
| Supervisor.SupervisorTick | apps/init/src/main.rs:532-602 | a tick steps every service against one snapshot taken at its start and touches no entry beyond count |
| Supervisor.StepKeepsInv | apps/init/src/main.rs:550-598 | a tick keeps the agreement of a runtime entry with the event history of its service, for any outcomes |
| Supervisor.RestartGap | apps/init/src/main.rs:578-592 | a restart comes at least 31 ticks after an earlier one under Always and 41 under OnFailure |
| Supervisor.RunInv | apps/init/src/main.rs:604-627 | in every run: fail streak and health flag equal what the probe history says (capped at 255), restarts happen exactly by the third-failure rule, Always or healthy implies streak at most 2 between ticks, and probes, respawns and restarts keep their minimum distances |
| Supervisor.DetectionBound | apps/init/src/main.rs:574-594 | a service that is up and fails its probes from some tick on is taken down within 30 ticks |
| Supervisor.RecoveryBound | apps/init/src/main.rs:550-565 | a service that is down, spawnable and has its dependencies up is spawned again within 10 ticks |
| Supervisor.Supervise | apps/init/src/main.rs:604-627 | the supervisor loop produces exactly the runs that the run lemmas speak about |
| Chronicle.RunIsChronicle | apps/init/src/main.rs:532-627 | in every run the events of every service are exactly those of a rule stated on event histories: spawn when down, due and dependencies up; probe when up and ten ticks passed since the last probe; restart at the third failure in a row when Always or healthy since the last restart |
| Chronicle.ProbedEveryTen | apps/init/src/main.rs:567-580 | a restartable service with a probe that is up throughout ten ticks is probed in them, with the outcome met |
| Chronicle.FailureAfterHealth | apps/init/src/main.rs:567-598 | a service that is up, answers its probes for ten ticks and then fails them is taken down within thirty more, whatever the supervisor's state was |
| Chronicle.OneShotOnce | apps/init/src/main.rs:550-565 | the supervisor spawns a one-shot service at most once, never if the launch attempted it, and does nothing else to it |
| Closure.ClosedAfterTickIff | apps/init/src/main.rs:550-594 | by the guards that hold before a tick: it keeps the started set closed under dependencies iff no service that stays or comes up depends on one that the tick takes down |
| Closure.RestartBreaksClosure | apps/init/src/main.rs:587-594 | some run from a launched world is closed under dependencies after one tick and not after the next |
| BootConfig.MaskDenotes | apps/init/src/main.rs:247-267 | bit j of a mask is set iff j is the lowest index whose name is one of the dependency names; masks are below 2^count and unknown names add nothing |
| BootConfig.FindService | apps/init/src/main.rs:254-261 | the search loop finds the lowest index with the name |
| BootConfig.MaskFor | apps/init/src/main.rs:250-263 | the loop over dependency names computes the denoted mask |
| BootConfig.ResolveDepMask | apps/init/src/main.rs:247-267 | every mask is the one its names denote in the table as given; no other field changes |
| BootConfig.FinishSpec | apps/init/src/main.rs:239-245 | a finished section is appended iff it is valid, named, has a binary and fits the table |
| BootConfig.ParseBootGraph | apps/init/src/main.rs:269-331 | the loop over lines yields the specs of the parser's state machine with masks resolved; later table entries stay |
| BootConfig.ParsedBounded | apps/init/src/main.rs:239-245 | no configuration text yields more than 16 services |
| BootConfig.FeedAllAppend | apps/init/src/main.rs:274-323 | parsing text piece by piece equals parsing it whole |
| Text.LinesCons | apps/init/src/main.rs:274-274 | a line ended by LF or CRLF comes out without its end and first, whatever follows |
| Text.TrimIff | apps/init/src/main.rs:174-180 | trimming yields t iff the text is t with white space around it and t neither begins nor ends with white space |
| Text.JoinSplit | apps/init/src/main.rs:211-211 | splitting at a separator gives parts without it that join to the text, for every text |
| Text.Utf8Injective | apps/init/src/main.rs:254-261 | different strings have different bytes, so comparing name bytes compares names |
| Text.SplitJoin | apps/init/src/main.rs:209-221 | joining parts with a separator they do not contain and splitting gives them back |
| BootFormat.PairParses | apps/init/src/main.rs:174-190 | a key-value line, with any white space around key and value, any trailing comment and the value quoted or bare, is read as its key and value |
| BootFormat.HeaderFeeds | apps/init/src/main.rs:192-201 | a section line, padded or commented, closes the service before it and opens the named one |
| BootFormat.DependencyNames | apps/init/src/main.rs:209-221 | the dependency names are the first four comma-separated items that are not blank, each without the white space around it and cut to 32 bytes |
| BootFormat.EveryTextLists | apps/init/src/main.rs:209-221 | every value text is such a list, so the law covers all of them |
| BootFormat.NoBinaryNoService | apps/init/src/main.rs:239-245 | a section without a binary yields no service and leaves the others alone |
| BootFormat.TextFeeds | apps/init/src/main.rs:274-276 | LF, CRLF or no line end at the very end make no difference |
| BootFormat.SectionFeeds | apps/init/src/main.rs:280-322 | the lines of one section, in any order and with repeats, give each field the last value of its key or its default |
| BootFormat.ParsedIs | apps/init/src/main.rs:269-331 | any text in the format is parsed to the first sixteen sections that name a binary |
| BootRoundTrip.RoundTrip | apps/init/src/main.rs:269-331 | any text that describes up to 16 services, in whatever layout, is parsed to these services in order, and mask bit j is set iff service j is the first with one of the dependency names |
| BootRoundTrip.PrintedComeBack | apps/boot.toml:1-31 | services printed in the layout of boot.toml are parsed back |
| Boot.ResolvedFits | apps/init/src/main.rs:247-267 | parsed masks fit 32 bits and denote only services of the table |
| Boot.EverythingUpIff | apps/init/src/main.rs:648-653 | for any configuration text with fixed outcomes, everything comes up iff every spawn succeeds and the named dependencies have no cycle |
| Boot.LaunchedIsClosed | apps/init/src/main.rs:496-530 | whatever the outcomes, the launched world has exactly the logged successes up and the logged attempts marked, no service up without its dependencies, and is one that supervised runs begin in |
| Boot.OneShotAfterLaunch | apps/init/src/main.rs:517-565 | a one-shot service that the launch attempted is never touched by the supervisor, in any run |
| Boot.Start | apps/init/src/main.rs:629-656 | from configuration text through launch and n supervisor rounds: the launch log is orderly and exhausted, the launched world is closed under dependencies, the final table and history are the run of that world for n ticks, and the run invariant holds for every service |
| BlkServer.BlkService.ReadBlocks | apps/virtio_blk/src/main.rs:113-134 | succeeds exactly for nonempty whole-sector ranges inside the disk, and returns exactly those bytes |
| BlkServer.BlkService.WriteBlocks | apps/virtio_blk/src/main.rs:136-157 | succeeds exactly for such ranges, and then replaces exactly those bytes |
| BlkServer.BlkService.Round | apps/virtio_blk/src/main.rs:262-381 | the request loop implements the protocol function on disk and reply; without a reply capability it does nothing |
| BlkServer.ControlServed | apps/virtio_blk/src/main.rs:262-307 | by bytes, tagged or not: PING gets PONG, GET_INFO the geometry, FLUSH OK, unknown opcodes and headers cut short EINVAL, messages without an opcode nothing; the disk stays |
| BlkServer.PingServed | apps/virtio_blk/src/main.rs:292-297 | the two-byte ping of init's probe is answered exactly "PONG" |
| BlkServer.FlushServed | apps/virtio_blk/src/main.rs:366-374 | a tagged flush is answered "OK" under its tag |
| BlkServer.RwServed | apps/virtio_blk/src/main.rs:308-365 | any tagged read or write, by its fields, is refused, fails or is done exactly in the stated cases, whatever its length |
| Bytes.LeDigit | apps/virtio_blk/src/main.rs:268-273 | byte i of an encoded integer is its i-th base-256 digit |
| BlkServer.ReadServed | apps/virtio_blk/src/main.rs:308-334 | a tagged read is answered under its own tag with the requested bytes, or EINVAL or EIO exactly in the stated cases; the disk stays |
| BlkServer.WriteServed | apps/virtio_blk/src/main.rs:335-365 | a tagged write is applied iff it is whole sectors, fits the 4110-byte buffer (so at most 4092 bytes; 4096 is refused) and the disk; otherwise EINVAL or EIO and no change |
| BlkServer.WriteThenRead | apps/fs/src/main.rs:70-94 | through framing, decoding and store, a read after an accepted write returns the data and disjoint reads are unaffected |
| BlkServer.InfoServed | apps/virtio_blk/src/main.rs:298-307 | a tagged GET_INFO is answered with the geometry |
| BlkClient.IdsCollideIff | apps/fs/src/main.rs:22-24 | request ids repeat exactly every 2^32 calls |
| BlkClient.ReplyEchoesTag | apps/virtio_blk/src/main.rs:279-289 | every reply to a tagged request starts with that request's tag |
| BlkClient.AwaitingServe | apps/virtio_blk/src/main.rs:262-289 | each request the service completes keeps the fact that a given tag can only lead to one reply |
| BlkClient.BlkLink.AwaitReply | apps/fs/src/main.rs:193-229 | the waiting loop returns the one reply its tag can lead to or nothing, answers each foreign request EAGAIN exactly once, makes at most 250 receives, and is answered iff, replies arriving in order, its own is reached within them |
| BlkClient.BlkLink.BlkCall | apps/fs/src/main.rs:178-229 | below 2^32 calls and for any delays, a returned answer is that of this very request, never of an earlier one; the contents change as this request says iff it was sent; it is answered iff its reply is reached in time behind everything already in flight |
| BlkClient.IdleAnswers | apps/fs/src/main.rs:196-229 | with nothing else in flight, a call is answered iff the service runs and then a reply gets through within the receives |
| BlkClient.Popped | apps/fs/src/main.rs:213-221 | the oldest reply carries the awaited tag exactly when it is all that is left, so every stale reply is recognised |
| BlkClient.BlkLink.ReadSector | apps/fs/src/main.rs:70-82 | true means exactly the sector's bytes at the time of the call; on a responsive idle link it succeeds iff the range is on the disk |
| BlkClient.BlkLink.WriteSector | apps/fs/src/main.rs:84-93 | true means written; after false the sectors hold the old or, if the answer was lost, the new bytes; nothing else changes |
| Sectors.TouchedBound | apps/fs/src/main.rs:104-119 | n bytes lie in at most (n + bs - 2) / bs + 1 sectors, wherever they start |
| Sectors.ChunkStep | apps/fs/src/main.rs:105-119 | a round of the transfer loop stays in one sector and the next round is in the next one |
| Disk.VirtioBlkDisk.ReadChunk | apps/fs/src/main.rs:105-115 | one sector read copies exactly the chunk into the buffer or leaves the buffer alone |
| Disk.VirtioBlkDisk.Read | apps/fs/src/main.rs:101-122 | success transfers exactly min(len, size - pos) bytes with one block call per sector touched; a failed sector leaves pos after a correctly transferred prefix and the rest of the buffer untouched |
| Disk.VirtioBlkDisk.WriteChunk | apps/fs/src/main.rs:130-143 | read-modify-write of one sector changes only the chunk, even mid-sector |
| Disk.VirtioBlkDisk.Write | apps/fs/src/main.rs:126-150 | success replaces exactly min(len, size - pos) bytes with two block calls per sector touched; after a failure pos stands after the bytes known to be written and at most the rest of pos's own sector landed as well |
| Disk.VirtioBlkDisk.Seek | apps/fs/src/main.rs:165-175 | lands at the target cut to the disk size, or fails without moving iff the target is not a u64; targets count from the start, the position before the call or the disk size |
| Disk.VirtioBlkDisk.Flush | apps/fs/src/main.rs:152-161 | changes nothing and succeeds on a responsive idle link |
| Disk.SeekThereAndBack | apps/fs/src/main.rs:168-168 | moving by a and by -a within the disk returns to the same position |
| Disk.SeekSpan | apps/fs/src/main.rs:167-169 | a position counted from the start and from the end is the same position |
| Disk.ReadTail | apps/fs/src/main.rs:100-176 | reading after a seek from the end yields the tail of the disk |
| Disk.ReadSkipRead | apps/fs/src/main.rs:100-176 | a relative seek between two reads skips exactly that many bytes |
| Disk.Open | apps/fs/src/main.rs:44-68 | a disk obtained from the service agrees with the device in block size and size, at position 0 |
| Disk.Session | apps/fs/src/main.rs:100-176 | every session, whatever the channel does, is a run of a flat byte array with a cursor; on a responsive link no operation fails |
| Disk.LastWriteWins | apps/fs/src/main.rs:100-176 | in every run each byte holds what the last write covering it put there, or its initial value |
| Disk.ReadBack | apps/fs/src/main.rs:100-176 | write, seek back and read return the written bytes |
| SlotTable.Bind | kernel/mene-kernel/src/service/registry.rs:70-87 | filling a free slot or rebinding the name's slot binds that name and no other, and keeps names unique |
| SlotTable.Unbind | kernel/mene-kernel/src/service/registry.rs:100-108 | clearing a slot unbinds its name and no other |
| SlotTable.FullIff | kernel/mene-kernel/src/service/registry.rs:78-89 | as many names as slots iff every slot is in use |
| SlotTable.Store | apps/init/src/main.rs:144-163 | the two search loops rebind a known name in place even when full, else take a hole, and fail iff the name is new and no slot is free |
| Registries.InitRegistry.Register | apps/init/src/main.rs:139-164 | registering is registering in a finite map of at most 16 names; fails iff the arguments are invalid or the name is new and the table full |
| Registries.InitRegistry.Lookup | apps/init/src/main.rs:166-171 | lookup is lookup in that map |
| Registries.InitRegistry.Perform | apps/init/src/main.rs:139-171 | every sequence of registrations and lookups answers and ends as the bounded map does |
| Registries.KernelRegistry.Register | kernel/mene-kernel/src/service/registry.rs:62-90 | each outcome, including every error, is that of the map of at most 32 names |
| Registries.KernelRegistry.Lookup | kernel/mene-kernel/src/service/registry.rs:92-98 | lookup is lookup in that map |
| Registries.KernelRegistry.Unregister | kernel/mene-kernel/src/service/registry.rs:100-108 | unregister removes exactly that name |
| Registries.KernelRegistry.Perform | kernel/mene-kernel/src/service/registry.rs:55-109 | every sequence of operations answers and ends as the bounded map does |
| Registries.AnswersFollowHistory | kernel/mene-kernel/src/service/registry.rs:62-108 | for either capacity, every answer by what happened before: a lookup yields the handle of the last accepted registration of that name unless it was unregistered since, else nothing; refusals happen exactly for bad names, null handles and new names in a full table |
| Registries.OthersUntouched | kernel/mene-kernel/src/service/registry.rs:62-108 | what is done to one name leaves the handles of the others alone |
| Registries.MapRunBounded | kernel/mene-kernel/src/service/registry.rs:23-24 | no sequence of operations makes the map outgrow its capacity |
| Registries.HoleIsReused | kernel/mene-kernel/src/service/registry.rs:78-87 | after an unregister any valid new name is accepted, even if the table was full |
| ControlPlane.ParseFrame | apps/init/src/main.rs:333-346 | a framed control request parses back exactly when the registry would accept its name |
| ControlPlane.ParsesIff | apps/init/src/main.rs:333-346 | a byte string is a request exactly if it begins with the frame of an acceptable name |
| ControlPlane.Handle | apps/init/src/main.rs:361-405 | a message changes the registry iff it is a registration with a capability, and is answered from the directory exactly when it asks and says where |
| ControlPlane.RegisterThenLookup | apps/init/src/main.rs:371-389 | after an accepted registration and any traffic that does not register that name, a lookup is sent exactly one message, "OK", passing the registered capability |
| ControlPlane.NeverRegistered | apps/init/src/main.rs:377-389 | a lookup of a name nobody registered is answered "ENOENT" |
| ControlPlane.DeviceAnswers | apps/init/src/main.rs:348-359 | each device key is answered "OK" and its own 64-bit value, every other key "ENOENT" |
| ControlPlane.WaitForReply | apps/init/src/main.rs:407-431 | at most `tries` receives; every message before the accepted reply is handled as control traffic, in order, and the reply is not |
| ControlPlane.OnlyRegistrationsMatter | apps/init/src/main.rs:361-431 | the registry after a wait is the old one with exactly the consumed registrations applied in order |
| Ipc.Conservation | kernel/mene-ipc/src/manager.rs:16-64 | in every interleaving an endpoint exists exactly between init and cleanup, and accepted sends equal received payloads followed by the queue, with senders, unaffected by other endpoints |
| Ipc.OutcomesExact | kernel/mene-ipc/src/manager.rs:26-53 | a send succeeds iff the endpoint exists, a receive iff an accepted payload is undelivered, and it yields the oldest such payload |
| Ipc.IpcManager.InitProcess | kernel/mene-ipc/src/manager.rs:16-24 | gives the process a fresh, empty endpoint |
| Ipc.IpcManager.SendMsg | kernel/mene-ipc/src/manager.rs:26-37 | appends message and sender to the target's queue or fails without effect |
| Ipc.IpcManager.RecvMsg | kernel/mene-ipc/src/manager.rs:39-53 | takes the oldest payload and copies as much as fits, leaving the rest of the buffer alone |
| Ipc.IpcManager.CleanupProcess | kernel/mene-ipc/src/manager.rs:59-64 | removes exactly that endpoint |
| Processes.ProcessTables.SpawnApp | kernel/mene-syscall/src/lib.rs:18-54 | a spawn allocates one pid and updates the three tables together; reports 0 when no task was created |
| Processes.ProcessTables.ExitProcess | kernel/mene-syscall/src/lib.rs:465-474 | an exit removes the process from all three tables |
| Processes.ProcessTables.AllocatePid | kernel/mene-kernel/src/process/lifecycle.rs:62-64 | hands out the counter and advances it with wrap-around |
| Processes.ProcessTables.TransitionState | kernel/mene-kernel/src/process/lifecycle.rs:71-75 | changes the state of a known pid only |
| Processes.TablesAgree | kernel/mene-syscall/src/lib.rs:18-54 | in every run below pid overflow lifecycle and endpoint tables have the same keys, a pid is listed iff it is Ready, and Created marks exactly the failed spawns |
| Processes.NeverReused | kernel/mene-kernel/src/process/lifecycle.rs:62-64 | a pid once handed out is never handed out again |
| Processes.ExitedIsUnreachable | kernel/mene-syscall/src/lib.rs:465-474 | after a process exited, sends to its pid fail in every continuation |
| Processes.QueuesConserved | kernel/mene-syscall/src/lib.rs:18-54 | queue conservation holds for every process from spawn to exit |
| Scheduler.SomethingIsReady | kernel/mene-kernel/src/service/scheduler.rs:59-74 | without cycles and with nothing starting or failed, some pending service is ready |
| Scheduler.DriverReachesLeast | kernel/mene-kernel/src/service/scheduler.rs:59-92 | when nothing is ready and nothing is starting any more the running set is the least fixpoint |
| Scheduler.EveryDriverReachesLeast | kernel/mene-kernel/src/service/scheduler.rs:59-92 | in every interleaving of queries, starts of services a query listed and completions of started ones, a driver with nothing left to do has reached the least fixpoint |
| Scheduler.MarksBounded | kernel/mene-kernel/src/service/scheduler.rs:76-92 | such a driver makes at most two marks per service |
| Scheduler.DriverAgreesWithLauncher | apps/init/src/main.rs:505-529 | kernel graph and init launcher end with the same services on the same graph and outcomes |
| Scheduler.DependencyGraph.AddService | kernel/mene-kernel/src/service/scheduler.rs:47-51 | appends a pending node whose id is its position |
| Scheduler.DependencyGraph.AddDependency | kernel/mene-kernel/src/service/scheduler.rs:53-57 | adds the edge iff both ids exist |
| Scheduler.DependencyGraph.GetReadyServices | kernel/mene-kernel/src/service/scheduler.rs:59-74 | lists exactly the ready services, each once, in order |
| Scheduler.DependencyGraph.Mark | kernel/mene-kernel/src/service/scheduler.rs:76-92 | changes the state of an existing node only |
| Scheduler.CompletedIff | kernel/mene-kernel/src/service/scheduler.rs:94-98 | once nothing is left to do, `all_completed` holds iff the graph has no cycle and every service that another depends on can be spawned |
| Scheduler.DependencyGraph.Drive | kernel/mene-kernel/src/service/scheduler.rs:59-98 | a running driver with overlapping starts and completions, ordered by arbitrary choices, terminates at the least fixpoint and reports whether all completed, which says the graph has no cycle and every needed service spawned |
| Share.SamePage | kernel/mene-memory/src/mmap.rs:108-115 | translation preserves offsets within a page |
| Share.ShareBuffer | apps/virtio_blk/src/main.rs:66-93 | for mapped buffers, and for all buffers if missing pages are reported as all ones or zero, the result is q != 0 iff every byte k translates to q + k; in general it is right iff the buffer is mapped or its reported words fail the page comparison |
| Share.RightIff | apps/virtio_blk/src/main.rs:79-91 | accepting exactly the plausible words is right iff the buffer is mapped or implausible |
| Share.OtherReportsFail | kernel/mene-syscall/src/lib.rs:342-370 | every reported word other than zero and all ones makes some unmapped buffer pass |
| UserStack.InitUserStack | kernel/mene-task/src/task.rs:83-130 | 16-aligned stack pointer within 159 bytes of the top, disjoint word and string areas, nothing else written, and a reader finds argc 1, the name cut to 63 bytes, no environment, page size 4096 and the entry point |
| UserStack.ReadBack | kernel/mene-task/src/task.rs:105-129 | the reader recovers exactly argc, argv, envp and auxv from the two areas |
| UserStack.NoNul | kernel/mene-task/src/task.rs:95-99 | a NUL-free name is read back whole |

## Left out

- FAT file operations and the request loop of the file service above the block layer: they rest on `axfatfs`.
- Real virtio backends, PCI and device-tree code, DMA and mmap wrappers: hardware and foreign crates; only the mock arm of the block backend is modelled.
- The block protocol is composed with an abstract channel (message, optional reply capability, delay), not with the kernel's manager, which at present ignores capabilities.
- Replies of the block service are delayed but not lost or reordered in the channel; a call that gives up earlier covers a loss.
- Interleavings in which a new task exits before its spawner has listed it: a spawn is one step.
- `tick` within 10 of the largest machine word: the code adds without saturation there (apps/init/src/main.rs:592).
- Pid counters and request ids beyond wrap-around: runs have fewer than 2^64 - 1 spawns and at most 2^32 block calls (one per sector read, two per sector written); `BlkClient.IdsCollideIff` says what happens beyond.
- The 2048-byte limit on the configuration read at boot, and its UTF-8 check.
- ELF loading, task creation, wait queues and the Linux compatibility calls.
- `Handle`, `IpcHeader` and system call number conversions: finite round trips.
- Build tooling, constants, demos and logging.

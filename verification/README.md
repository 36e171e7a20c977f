# Verified models of the seL4 support libraries

This project models six pieces of the support libraries that carry real protocols, heap structures,
tree transformations or codecs, and proves what they promise. Code that the libraries write with loops and
fields that change is written here as classes and methods; each method is proved against a function on
values, and the theorems are proved about those functions and about whole runs.

* **Tegra IVC** (`Ivc*.dfy`): two endpoints over shared memory, a SYNC/ACK/ESTABLISHED reset handshake, two rings
  with free-running 32-bit counters, notifications on edges. A run is any interleaving of atomic sub-steps of both
  ends: reading the peer's state, clearing counters and publishing are three steps of the notification
  handler, advancing a counter and looking at the count are two. Proved: safety of resets, in-order delivery
  across counter wrap-around, no lost wakeup; and, whenever resets come, no deadlock, and both ends ESTABLISHED after
  six rounds of handler calls in any interleaving; and exactly when a reset is safe.
* **Jansson's hash table** (`Hashtable*.dfy`): one circular list of nodes in which every bucket is a stretch,
  rehashed in place. Every operation is proved to be the corresponding operation on a map.
* **The virtqueue** (`Virtqueue*.dfy`): descriptor table, available ring and used ring between a driver and a
  device. Proved over every run: descriptors are conserved, chains arrive complete and in order in both
  directions, whatever the other side does while a chain is gathered, and when a publication or a return gets lost.
* **fdtgen** (`Fdt*.dfy`): which nodes of a device tree are kept, with the references they follow, and the
  trimming that starts over after each change. Proved: exactly what can be reached from the listed nodes over
  parents and references, as the bytes of the properties spell them, is kept, references still lead to the same
  nodes, every flagged node is disabled once, and all of it ends.
* **Jansson's JSON text** (`Json*.dfy`): UTF-8, the printer over a graph of values on the heap, the stream with
  one byte of push-back, the lexer and the parser. Proved: the parser inverts the printer for every
  combination of flags, except for the values that the load flags exclude, which it refuses; it accepts exactly the
  texts of a grammar that is written down apart from it, and returns what the grammar says they mean; a dump is laid
  out exactly as the flags ask, and two values are equal exactly if their sorted dumps are; every value that is
  accepted holds UTF-8 strings only and survives being printed and read again; the printer fails exactly on cycles
  and on strings that are not UTF-8; exactly which printed graphs are read back as they were; the buffers of the
  lexer are never overrun.
* **The EHCI periodic schedule** (`Ehci*.dfy`): a list of queue heads and a table of 1024 frames. Proved: when the
  controller visits in every frame exactly the queue heads that are due.

`Arithmetic.dfy` holds the facts about remainders and powers of two that the rings, the hash table and the
schedule share.

## Where the code does not do what one expects

Four results say under which exact condition the code behaves, and prove that it does not otherwise.

* A reset of an IVC endpoint is safe if and only if its peer is not, at that moment, between reading the endpoint's
  state and publishing ESTABLISHED (`IvcRace.ResetIsSafeIffGuarded`). Otherwise a run exists in which the peer
  clears its counters after a frame has been received in the new epoch: its write count is then 0 and the
  reader's count is 1, the full test and the empty test both hold, and nothing can be written or read in that direction
  again before another reset. The end that wants to reset cannot see where its peer is, but it can read the two
  published states. It is safe to reset in SYNC, with an ESTABLISHED peer, or from ESTABLISHED with a peer in SYNC;
  for every other pair of states a run without resets leads to an unsafe moment (`IvcRace.SafeWordsIsExact`).
* Publishing on a virtqueue reports success whenever a descriptor is free, but the device sees the chain if and only if
  fewer than `queue_len` chains wait, the new one included. A driver that keeps the chains it has published and not
  yet fetched back below `queue_len` is safe (`VirtqueueTheorems.PublishedIsVisibleIff`); `queue_len` publications in a
  row lose all of them (`VirtqueueTheorems.OverflowReachable`). It is the same on the way back
  (`VirtqueueTheorems.ReturnIsVisibleIff`): a driver that only counts the chains waiting to be taken can lose
  returns (`VirtqueueTheorems.ReturnsLost`).
* Adding a queue head to the periodic schedule keeps the schedule right if and only if the list is empty, the queue head
  is on it already, or it is polled at least as often as the head of the list, because nothing is ever
  inserted before the head (`Ehci.Host.Add`). Otherwise it is visited in frames in which it is not due, as happens
  with rates 1 and 2 added in this order (`Ehci.SlowerAfterFaster`).
* `do_dump` ignores what `dump_string` says about a key (libjansson/jansson-2.7/src/dump.c:349 and 387), and a key can be
  set without a check (libjansson/jansson-2.7/src/value.c:104). What was printed with success is read back as an equal
  value if and only if every object that can be reached has keys in UTF-8, and the load flags admit the value
  (`JsonKeys.PrintedReadsIff`, without reals). Otherwise the text has a key that is never closed. It may be refused
  (`JsonCycles.BadKeyIsPrinted`), or read as another object without any error: the keys 0xFF and 0xFE with the
  values 1 and 2 print as `{":1,":2}`, which has the one key `:1,` (`JsonKeys.BadKeysAreMisread`).

Three more results are about behaviour that a reader of the interface would not expect.

* A byte that the JSON lexer reads behind a number or one of the words `true`, `false` and `null` is pushed back,
  unless it is a NUL: that one is skipped, and `json_loadb` reads on as if it were not there (`JsonNul.NulIsSkipped`).
  A NUL that a token would begin with is refused (`JsonNul.NulIsNoToken`).
* `do_dump` fails if and only if a loop, or a string that is not UTF-8, can be reached from the value
  (`JsonCycles.FailsIff`). The failure at a loop itself clears a mark that an enclosing
  call still relies on; that is harmless only because every enclosing call fails too.
* `keep_node_and_parents` stores the offset of the parent in a new entry (libfdtgen/fdtgen.c:120), not that of the
  node. The table is complete all the same, because the node's own references were registered when it was entered
  (`FdtResolve.OffsetIsNeeded`, `Fdtgen.Context.ResolveAllDependencies`).

## Model

| member | source | states |
|---|---|---|
| IvcChannel.Endpoint.constructor | libtx2bpmp/src/ivc.c:484-507 | `tegra_ivc_init`: positions start at zero, the state and the counters in shared memory are left alone |
| IvcChannel.Endpoint.ChannelEmpty | libtx2bpmp/src/ivc.c:109-134 | the emptiness test answers false exactly if at least one frame is outstanding and no more than the ring holds: every difference above `nframes` counts as empty |
| IvcChannel.Endpoint.DoCheckRead | libtx2bpmp/src/ivc.c:169-192 | the answer is -ECONNRESET if and only if the own published state is not ESTABLISHED; otherwise -ENOMEM exactly when nothing is outstanding or more than the ring holds |
| IvcChannel.Endpoint.DoCheckWrite | libtx2bpmp/src/ivc.c:194-203 | the answer is -ECONNRESET if and only if the own published state is not ESTABLISHED; otherwise -ENOMEM exactly when `nframes` frames or more are outstanding |
| IvcChannel.Endpoint.ReadGetNextFrame | libtx2bpmp/src/ivc.c:217-232 | the frame offered exists and is the one at the read position; nothing changes |
| IvcChannel.Endpoint.WriteGetNextFrame | libtx2bpmp/src/ivc.c:261-270 | the frame offered exists and is the one at the write position; nothing changes |
| IvcChannel.Endpoint.ReadAdvance | libtx2bpmp/src/ivc.c:234-259 | one frame is consumed and the writer is notified exactly when the channel stops being full |
| IvcChannel.Endpoint.WriteAdvance | libtx2bpmp/src/ivc.c:272-296 | one frame is sent and the reader is notified exactly when the channel stops being empty |
| IvcChannel.Endpoint.ChannelNotified | libtx2bpmp/src/ivc.c:317-427 | one call of the handler is the state machine step `Notified` on both headers, with the notifications it sends |
| IvcChannel.Endpoint.ChannelReset | libtx2bpmp/src/ivc.c:429-433 | only the own state changes, to SYNC, and the peer is notified |
| IvcChannel.CheckReadMeans | libtx2bpmp/src/ivc.c:109-192 | what a read is answered, in terms of the own state and of the number of outstanding frames, for all values of the counters |
| IvcChannel.CheckWriteMeans | libtx2bpmp/src/ivc.c:136-203 | what a write is answered, in the same terms |
| IvcProtocol.HandlerRefinesCall | libtx2bpmp/src/ivc.c:317-427 | the three atomic steps of the handler, run without interference, are one call of it |
| IvcProtocol.AdvancesRefineCalls | libtx2bpmp/src/ivc.c:234-296 | the two atomic steps of an advance, run without interference, are one call of it |
| IvcSafety.NextPosFollows | libtx2bpmp/src/ivc.c:147-167 | the stepped ring position is that of the frame number modulo the ring size, also when `nframes` does not divide 2^32 |
| IvcSafety.SubIsDifference | libtx2bpmp/src/ivc.c:109-145 | the 32-bit difference of wrapped counters is the true number of frames outstanding |
| IvcSafety.OpenSlotIsFree | libtx2bpmp/src/ivc.c:272-296 | the slot written next holds no outstanding frame |
| IvcSafety.ChecksAreExact | libtx2bpmp/src/ivc.c:169-203 | on a coherent channel the read and write checks refuse exactly when nothing is outstanding or everything is |
| IvcSafety.StepKeepsInv | libtx2bpmp/src/ivc.c:234-433 | every atomic step of either end keeps the invariant |
| IvcSafety.ResetSafety | libtx2bpmp/src/ivc.c:298-433 | over every interleaving an end in ACK owns only zeros, and with both ends in ACK or ESTABLISHED no count from before a reset is mixed in |
| IvcSafety.ResetUntilOpened | libtx2bpmp/src/ivc.c:169-203 | from a moment at which its state is not ESTABLISHED, every read and write of an end is answered -ECONNRESET until it publishes ESTABLISHED itself, and from then on with success or -ENOMEM only, over every run |
| IvcSafety.OnlyHandlerOpens | libtx2bpmp/src/ivc.c:357-408 | the only steps that publish ESTABLISHED are the two of the own handler, from ACK with a peer seen out of SYNC, and from SYNC after clearing the counters |
| IvcSafety.InOrderDelivery | libtx2bpmp/src/ivc.c:109-296 | what was read is a prefix of what was written in this epoch, at most `nframes` frames are outstanding, the frame offered is the next one sent |
| IvcLiveness.NoLostWakeup | libtx2bpmp/src/ivc.c:234-296 | a client asleep although there is data (or room) has a notification pending, or its peer is about to send one |
| IvcLiveness.QuiescentIsEstablished | libtx2bpmp/src/ivc.c:298-433 | with nobody inside a call and no notification pending both ends are ESTABLISHED, whenever resets have come; and after guarded resets sleepers sleep rightly |
| IvcLiveness.StepKeepsAware | libtx2bpmp/src/ivc.c:298-433 | after every atomic step, resets at any moment included, an end with no notification pending knows where its peer stands |
| IvcLiveness.StepPotential | libtx2bpmp/src/ivc.c:317-427 | every prompted handler step lowers a potential of the pair of states, every other step raises it by at most six |
| IvcLiveness.PromptedStepsEnd | libtx2bpmp/src/ivc.c:298-433 | after the last reset, whenever the resets have come, at most 26 handler steps are prompted by notifications, plus six for every unprompted step, and when the run comes to rest both ends are ESTABLISHED |
| IvcRounds.StepRank | libtx2bpmp/src/ivc.c:317-427 | from every pair of states that the code can leave the ends in, no atomic step but a reset raises the number of rounds still to go, and the step that completes a round lowers it |
| IvcRounds.RunRank | libtx2bpmp/src/ivc.c:298-433 | until both ends have settled in ESTABLISHED, every round of a run lowers what is to go, however the sub-steps interleave and whoever asked for the calls |
| IvcRounds.HandshakeConverges | libtx2bpmp/src/ivc.c:298-433 | once both ends have each completed a handler call six times over since the last reset, whenever the resets before it have come, both are ESTABLISHED in every continuation without a reset |
| IvcRounds.Establish | libtx2bpmp/src/ivc.c:317-427 | every run can be continued without a reset until both ends are ESTABLISHED and between calls |
| IvcLiveness.TwoRoundsEstablish | libtx2bpmp/src/ivc.c:317-427 | two rounds of one uninterrupted call per end establish any pair of states |
| IvcRace.StuckIsWedged | libtx2bpmp/src/ivc.c:109-203 | with a cleared write count and a reader that has counted one frame, no continuation without a reset lets a frame be written or read in that direction |
| IvcRace.UnguardedResetRaces | libtx2bpmp/src/ivc.c:322-408 | a reset between the peer reading the state and publishing ESTABLISHED can leave a direction with counts that do not fit, dead until the next reset |
| IvcRace.ResetIsSafeIffGuarded | libtx2bpmp/src/ivc.c:322-433 | after a reset some run without further resets leads to counts that do not fit, and some run kills a direction for good, if and only if the peer was on its way to ESTABLISHED |
| IvcRace.SafeWordsStay | libtx2bpmp/src/ivc.c:298-433 | what an end reads off the two published states stays good while it makes no call of its own, unless the peer resets and it is in ACK |
| IvcRace.ExposedReachable | libtx2bpmp/src/ivc.c:322-408 | for every other pair of published states, a run after both ends have reset leads to a peer on its way to ESTABLISHED |
| IvcRace.SafeWordsIsExact | libtx2bpmp/src/ivc.c:322-433 | the test of the two published states passes exactly the pairs with which no guarded run meets a peer on its way to ESTABLISHED |
| HashtableChain.Link.constructor | libjansson/jansson-2.7/src/hashtable.c:35-39 | a new node is its own list |
| HashtableChain.ListInsert | libjansson/jansson-2.7/src/hashtable.c:41-47 | inserting a node before a position of the circular list inserts it there in the sequence of nodes |
| HashtableChain.ListRemove | libjansson/jansson-2.7/src/hashtable.c:49-53 | removing a node removes it from the sequence of nodes |
| HashtableChain.InsertionFitted | libjansson/jansson-2.7/src/hashtable.c:60-73 | inserting at the end of a bucket keeps every bucket a contiguous stretch that holds its hash class |
| HashtableChain.RemovalFitted | libjansson/jansson-2.7/src/hashtable.c:101-131 | taking a pair out and mending its bucket keeps every bucket a contiguous stretch |
| HashtableSegments.InsertKeepsSegmented | libjansson/jansson-2.7/src/hashtable.c:60-73 | the stretches of a chain after an insertion: one grows, the later ones move |
| HashtableSegments.RemoveKeepsSegmented | libjansson/jansson-2.7/src/hashtable.c:101-131 | the stretches of a chain after a removal |
| Hashtable.Table.constructor | libjansson/jansson-2.7/src/hashtable.c:182-201 | an empty table is the empty map |
| Hashtable.Table.InsertToBucket | libjansson/jansson-2.7/src/hashtable.c:60-73 | the node enters its bucket, everything else stays in its stretch |
| Hashtable.Table.FindPair | libjansson/jansson-2.7/src/hashtable.c:75-98 | the walk over a bucket finds the pair with the key, or there is none in the hash class of that bucket |
| Hashtable.Table.RelinkNext | libjansson/jansson-2.7/src/hashtable.c:164-176 | one turn of the rehash loop relinks the next old node into its new bucket while the rest of the old chain can still be walked |
| Hashtable.Table.Rehash | libjansson/jansson-2.7/src/hashtable.c:147-179 | the in-place rehash keeps all pairs, each once, in twice as many buckets |
| Hashtable.Table.Get | libjansson/jansson-2.7/src/hashtable.c:261-275 | lookup is lookup in the map |
| Hashtable.Table.Set | libjansson/jansson-2.7/src/hashtable.c:209-259 | setting is update of the map, an old value is given up, a serial is kept, the load stays at most one |
| Hashtable.Table.Del | libjansson/jansson-2.7/src/hashtable.c:277-281 | deletion is removal from the map and says whether the key was there |
| Hashtable.Table.RemovePair | libjansson/jansson-2.7/src/hashtable.c:101-131 | the pair leaves its bucket, the list and the count |
| Hashtable.Table.DoClear | libjansson/jansson-2.7/src/hashtable.c:133-145 | every value is given up once, in list order |
| Hashtable.Table.Clear | libjansson/jansson-2.7/src/hashtable.c:283-297 | the map is empty afterwards |
| Hashtable.Table.IterNext | libjansson/jansson-2.7/src/hashtable.c:299-326 | the iterator goes to the next node, from the last one to the end |
| Hashtable.Table.CollectKeys | libjansson/jansson-2.7/src/dump.c:323-331 | iterating over the table delivers every key once |
| Hashtable.Table.ClassesAreContiguous | libjansson/jansson-2.7/src/hashtable.c:75-98 | pairs of one hash class are neighbours in the list, with nothing in between |
| Virtqueue.Driver.constructor | libvirtqueue/src/virtqueue.c:10-29 | the driver initialises the shared memory to the empty virtqueue |
| Virtqueue.Driver.DoAddDesc | libvirtqueue/src/virtqueue.c:70-96 | a descriptor leaves the free list and is linked behind the last one; a full table is reported |
| Virtqueue.Driver.AddAvailableBuf | libvirtqueue/src/virtqueue.c:115-133 | it succeeds exactly if a descriptor is free; the first buffer of a chain is published, a further one is chained and leaves the ring and the head alone |
| Virtqueue.Driver.GetUsedBuf | libvirtqueue/src/virtqueue.c:135-147 | the next returned handle and its length are fetched; with none, nothing changes (VirtqueueProtocol.IdleCall) |
| Virtqueue.Driver.GatherUsedBuf | libvirtqueue/src/virtqueue.c:209-217 | one buffer is gathered and its descriptor goes back to the free list |
| Virtqueue.Device.constructor | libvirtqueue/src/virtqueue.c:31-45 | the device starts at index zero and leaves the shared memory alone |
| Virtqueue.Device.GetAvailableBuf | libvirtqueue/src/virtqueue.c:159-170 | the next published handle is taken; with none, nothing changes (VirtqueueProtocol.IdleCall) |
| Virtqueue.Device.AddUsedBuf | libvirtqueue/src/virtqueue.c:149-157 | the head of the handle is returned with the length |
| VirtqueueSpec.ReturnedIsHead | libvirtqueue/src/virtqueue.c:149-157 | what is returned is the head, wherever the handle stands after gathering |
| Virtqueue.Device.GatherAvailableBuf | libvirtqueue/src/virtqueue.c:190-207 | one buffer of the chain is read, nothing is changed |
| Virtqueue.Device.ScatteredAvailableSize | libvirtqueue/src/virtqueue.c:178-188 | the size is the sum of the lengths that the driver chained, modulo 2^32 |
| Arithmetic.MaskStep | libvirtqueue/src/virtqueue.c:115-170 | stepping an index with the mask `queue_len - 1` is stepping it around a ring of a power of two |
| VirtqueueProtocol.StepKeepsInv | libvirtqueue/src/virtqueue.c:70-217 | every call of either side keeps the invariant, and one that finds nothing or no room changes neither the virtqueue nor its history |
| VirtqueueProtocol.IdleCall | libvirtqueue/src/virtqueue.c:115-217 | a poll of an empty ring, a buffer for a full table and gathering at the end of a chain report it and leave the whole virtqueue and the handle as they were |
| VirtqueueProtocol.TakeOutput | libvirtqueue/src/virtqueue.c:159-170 | the handle that the device takes is the head of the next chain published |
| VirtqueueProtocol.FetchOutput | libvirtqueue/src/virtqueue.c:135-147 | the handle that the driver fetches is that of the chain returned next, with its length |
| VirtqueueParts.MoveToChain | libvirtqueue/src/virtqueue.c:70-96 | taking a descriptor from the free list keeps every descriptor in exactly one place |
| VirtqueueParts.MoveToFree | libvirtqueue/src/virtqueue.c:98-113 | freeing the first descriptor of a chain keeps every descriptor in exactly one place |
| VirtqueueTheorems.DescriptorsConserved | libvirtqueue/src/virtqueue.c:47-217 | in every state reachable from what the driver initialises, whatever the rings held, the free list and the chains are acyclic, disjoint and cover all descriptors |
| VirtqueueTheorems.HeldChainGathers | libvirtqueue/src/virtqueue.c:190-207 | while the device holds a chain, whatever either side does between its calls, gathering goes from one buffer of the chain to the next and ends behind the last |
| VirtqueueTheorems.ChainsArriveInOrder | libvirtqueue/src/virtqueue.c:115-207 | the device takes chains in publication order, as long as there is one, a poll when there is none leaves virtqueue and handle unchanged, and at any time before the driver has the chain back gathers exactly the buffers that were chained |
| VirtqueueTheorems.ReturnsArriveInOrder | libvirtqueue/src/virtqueue.c:135-217 | the driver fetches chains in the order of their return with their lengths, nothing exactly when none is left, which leaves virtqueue and handle unchanged, and gathering one frees all of it |
| VirtqueueTheorems.PublishedIsVisibleIff | libvirtqueue/src/virtqueue.c:115-170 | publishing succeeds if and only if a descriptor is free, changes nothing otherwise, and is visible if and only if fewer than `queue_len` chains wait, for which it suffices that fewer than `queue_len` are published and not fetched back |
| VirtqueueTheorems.ContinuedIff | libvirtqueue/src/virtqueue.c:115-133 | a buffer is chained to an open handle if and only if a descriptor is free; otherwise virtqueue and handle are unchanged, and the available ring is in either case |
| VirtqueueTheorems.OverflowReachable | libvirtqueue/src/virtqueue.c:115-170 | from the initial state, `queue_len` publications in a row all succeed, and the device sees none of them |
| VirtqueueTheorems.ReturnIsVisibleIff | libvirtqueue/src/virtqueue.c:135-157 | a return is visible if and only if fewer than `queue_len` returned chains wait, the new one included |
| VirtqueueTheorems.AllowedReturnIsVisible | libvirtqueue/src/virtqueue.c:135-157 | with fewer than `queue_len` chains published and not fetched back, every return is visible |
| VirtqueueTheorems.ReturnsLost | libvirtqueue/src/virtqueue.c:115-170 | with two descriptors, two chains published and taken in turn and then both returned are lost to the driver |
| FdtTree.PathsAreNodes | libfdtgen/fdtgen.c:95-140 | with distinct sibling names the paths of the tree are exactly those at which looking up finds a node |
| FdtTree.NeededIsClosed | libfdtgen/fdtgen.c:95-260 | the nodes to keep are closed under ancestors and followed references and hold the listed ones |
| FdtTree.NeededIsReachable | libfdtgen/fdtgen.c:95-260 | a node is needed if and only if a way over parents and references leads to it from a listed node |
| FdtCells.GetPropMeans | libfdtgen/fdtgen.c:176-196 | the value of a property is that of the first one with its name |
| FdtCells.ResolveMeans | libfdtgen/fdtgen.c:86-149 | following a reference leads to a node if and only if its four bytes are the phandle property of that node, of none before it in the order of the tree, and neither all zeros nor all ones |
| FdtCells.ListMeans | libfdtgen/fdtgen.c:165-206 | a list refers to some nodes, in order, if and only if its value is made of groups, each the phandle of the next node and then as many cells as the property of that node spells, or none where the property is absent and optional |
| FdtCells.PropTargetsMean | libfdtgen/fdtgen.c:31-233 | what each of the six properties refers to, in bytes: `clocks` and `power-domains` are lists, of the others the first cell counts |
| FdtCells.RefsMean | libfdtgen/fdtgen.c:208-252 | a node refers to another if and only if one of its properties spells that |
| FdtCells.NeededIsCalled | libfdtgen/fdtgen.c:95-260 | a node is needed if and only if a way over parents and spelled references leads to it from a listed node |
| FdtTables.ListStepDone | libfdtgen/fdtgen.c:165-206 | after each reference of a list the rest of the list is what is still to be recorded |
| Fdtgen.Context.constructor | libfdtgen/fdtgen.c:506-519 | an empty context |
| Fdtgen.Context.InitKeepNode | libfdtgen/fdtgen.c:61-76 | the paths are in the table with the flag; the others are as before |
| Fdtgen.Context.FindNodesToKeep | libfdtgen/fdtgen.c:266-305 | the ancestors of the listed nodes, and only they, enter the table, every entry with the offset of its node |
| Fdtgen.Context.KeepNodeAndParents | libfdtgen/fdtgen.c:95-140 | the nodes on the way to the target are kept and registered; it ends although registering comes back to it |
| Fdtgen.Context.RegisterNodeDependencies | libfdtgen/fdtgen.c:235-252 | afterwards every reference of the node is recorded |
| Fdtgen.Context.RegisterNodeDependency | libfdtgen/fdtgen.c:208-233 | afterwards every reference of the property is recorded |
| Fdtgen.Context.RegisterListDependency | libfdtgen/fdtgen.c:165-206 | all references of a list with argument cells are recorded; FdtCells.ListMeans says which they are |
| Fdtgen.Context.RegisterSingleDependency | libfdtgen/fdtgen.c:142-163 | the reference is recorded, its target kept and registered; the set of unrecorded pairs shrinks |
| Fdtgen.Context.ResolveAllDependencies | libfdtgen/fdtgen.c:254-260 | iterating over the growing table leaves exactly the least closed set in it |
| FdtResolve.OffsetIsNeeded | libfdtgen/fdtgen.c:119-124 | the node whose offset an entry stores is a needed node or the root |
| FdtClosure.CompleteIsNeeded | libfdtgen/fdtgen.c:95-260 | when no call is running any more the table holds exactly the needed nodes |
| FdtClosure.RecordShrinks | libfdtgen/fdtgen.c:142-163 | recording a reference strictly shrinks the set of unrecorded pairs, which ends cycles |
| Fdtgen.Context.TrimTree | libfdtgen/fdtgen.c:307-344 | the trimming that restarts after each deletion and each disabling yields the tree with exactly the kept children, and ends |
| FdtWork.DeleteWorks | libfdtgen/fdtgen.c:320-328 | deleting a child does not change the outcome of trimming its parent, and makes the tree smaller |
| FdtWork.DisableWorks | libfdtgen/fdtgen.c:329-338 | disabling a child on its first visit does not change the outcome, and there is less to disable |
| FdtWork.DescendWorks | libfdtgen/fdtgen.c:338-343 | trimming a child completes it and leaves the other children to do |
| Fdtgen.Context.Generate | libfdtgen/fdtgen.c:465-504 | the output holds the root and exactly the nodes that a way over parents and references leads to, the references read off the bytes of the properties; every node is as it was but for the status of a flagged one, and each flagged node is disabled exactly once |
| FdtOutcome.TrimmedAt | libfdtgen/fdtgen.c:307-344 | a node is left if and only if it and its ancestors are kept; its properties are unchanged but for the status |
| FdtCells.DisabledMeans | libfdtgen/fdtgen.c:329-338 | disabling replaces the first status property in place, or puts one in front, with the bytes of "disabled"; nothing else changes |
| FdtCells.TrimmedProps | libfdtgen/fdtgen.c:307-344 | every node that is left has the name and the properties that it had, a flagged one is disabled |
| FdtCells.OutputMeans | libfdtgen/fdtgen.c:465-504 | the outcome of the tables and the trimming, said in paths and bytes |
| FdtOutcome.TrimmedByPhandle | libfdtgen/fdtgen.c:148-149 | a phandle of a kept node is found at the same path in the trimmed tree |
| FdtOutcome.OutputNodes | libfdtgen/fdtgen.c:307-344 | the nodes of the trimmed tree are the root and the kept ones |
| FdtOutcome.OutputReferences | libfdtgen/fdtgen.c:142-344 | every reference of a kept node can be followed in the trimmed tree and leads to the same node |
| JsonUtf8.CheckFull | libjansson/jansson-2.7/src/utf.c:83-137 | a sequence is accepted exactly if it spells a code point in range, that is no surrogate half and not overlong |
| JsonUtf8.CheckString | libjansson/jansson-2.7/src/utf.c:165-187 | a string is accepted exactly if it is code point after code point to the end |
| JsonUtf8.IterateIffEncode | libjansson/jansson-2.7/src/utf.c:11-163 | what is recognized at the front of a buffer is a scalar value in the one encoding that `utf8_encode` gives it |
| JsonUtf8.DecodeEncode | libjansson/jansson-2.7/src/utf.c:11-163 | what was encoded is decoded, whatever follows |
| JsonUtf8.ValidIffEncoded | libjansson/jansson-2.7/src/utf.c:11-187 | accepted strings are exactly the concatenations of encodings of scalar values |
| JsonUtf8.DecodedEncodes | libjansson/jansson-2.7/src/utf.c:139-163 | encoding the code points delivered one by one gives the string back |
| JsonUtf8.EncodedDecodes | libjansson/jansson-2.7/src/utf.c:139-163 | decoding an encoded sequence of code points gives them back in order |
| JsonUtf8.ValidBytes | libjansson/jansson-2.7/src/load.c:24-26 | no byte of valid UTF-8 reads as -1 or -2 as a signed char |
| JsonString.BodyReads | libjansson/jansson-2.7/src/dump.c:71-162 | the escaped text of a string ends where the scanner says and decodes to the string |
| JsonString.TextReads | libjansson/jansson-2.7/src/dump.c:93-152 | each code point, escaped or not, alone or as a surrogate pair, is read back |
| JsonString.StringRoundTrip | libjansson/jansson-2.7/src/load.c:316-468 | scanning the output of `dump_string` returns the string and leaves the rest, for all flags |
| JsonString.DecodeIsValid | libjansson/jansson-2.7/src/load.c:371-376 | text decoded from valid UTF-8 is valid UTF-8 and not longer than it; JsonAccepted.ScannedIsValid supplies the validity |
| JsonValue.SortHolds | libjansson/jansson-2.7/src/dump.c:312-338 | sorting the keys loses and doubles none |
| JsonValue.KeyBelowIff | libjansson/jansson-2.7/src/dump.c:164-168 | one key is below another if and only if it is a proper prefix, or has the smaller byte at the first place where they differ |
| JsonValue.SortInOrder | libjansson/jansson-2.7/src/dump.c:312-338 | the sorted fields are in the order of the comparison |
| JsonValue.OrderedAsAsked | libjansson/jansson-2.7/src/dump.c:312-388 | with JSON_SORT_KEYS the keys that are written ascend byte by byte, with JSON_PRESERVE_ORDER alone the serial numbers do, otherwise the order is that of the iteration |
| JsonStream.RetreatUndoes | libjansson/jansson-2.7/src/load.c:192-230 | pushing back the last byte restores line, column and position |
| JsonStream.PlaceAfter | libjansson/jansson-2.7/src/load.c:192-204 | after a text the line is one more than its line ends, the column is the number of characters, not bytes, since the last one, and the position is the number of bytes |
| JsonStream.Stream.constructor | libjansson/jansson-2.7/src/load.c:137-149 | a new stream delivers the decodable part of its input |
| JsonStream.Stream.Get | libjansson/jansson-2.7/src/load.c:151-212 | the next byte is delivered, or the end, or the error at a byte that cannot be decoded; the place advances |
| JsonStream.Stream.Unget | libjansson/jansson-2.7/src/load.c:214-230 | the byte is delivered again, but a NUL is not; the place goes back |
| JsonLexer.Lexer.constructor | libjansson/jansson-2.7/src/load.c:657-665 | a new lexer |
| JsonLexer.Lexer.GetSave | libjansson/jansson-2.7/src/load.c:243-249 | a byte is read and saved, the end is not |
| JsonLexer.Lexer.UngetUnsave | libjansson/jansson-2.7/src/load.c:256-273 | a byte is pushed back and removed from the saved text |
| JsonLexer.Lexer.FindStringEnd | libjansson/jansson-2.7/src/load.c:326-369 | the first pass stops exactly at the closing quote or fails |
| JsonLexer.Lexer.DecodeSaved | libjansson/jansson-2.7/src/load.c:371-464 | the second pass decodes the saved text within a buffer of its length and one byte |
| JsonLexer.Lexer.DecodeUnicode | libjansson/jansson-2.7/src/load.c:293-441 | an escape and the second half of a surrogate pair become one code point, half a pair is refused; JsonTokens.StringReads says which, for digits in any mix of cases |
| JsonLexer.Lexer.ScanStringRest | libjansson/jansson-2.7/src/load.c:316-468 | a string token is the decoded string, or the token is invalid |
| JsonLexer.Lexer.ScanNumberRest | libjansson/jansson-2.7/src/load.c:482-575 | a number token is the integer of its digits within 64 bits, a real, or invalid |
| JsonLexer.Lexer.LexScan | libjansson/jansson-2.7/src/load.c:577-643 | the loops over the stream deliver the token and the rest that `JsonParser.Scan` says |
| JsonLexer.Lexer.ReadArray | libjansson/jansson-2.7/src/load.c:758-796 | the loop over elements computes what `JsonParser.ParseArray` says, and ends |
| JsonLexer.Lexer.ReadObject | libjansson/jansson-2.7/src/load.c:679-756 | the loop over members computes what `JsonParser.ParseObject` says: NUL in keys, duplicates, replacement of values |
| JsonLexer.Lexer.ReadValue | libjansson/jansson-2.7/src/load.c:798-874 | a value is read as `JsonParser.ParseValue` says, strings with NUL only if allowed |
| JsonLexer.Lexer.ReadJson | libjansson/jansson-2.7/src/load.c:876-907 | the whole text is one value, with the checks that the flags ask for |
| JsonLexer.LoadBuffer | libjansson/jansson-2.7/src/load.c:973-997 | `json_loadb`, with its stream, lexer and loops, computes what the functions of `JsonParser` say of the whole input |
| JsonRoundTrip.ScanInteger | libjansson/jansson-2.7/src/load.c:482-532 | the decimal text of a 64-bit integer is scanned to that integer |
| JsonRoundTrip.ValueReads | libjansson/jansson-2.7/src/load.c:679-874 | the dump of a value followed by a delimiter is parsed to that value and leaves the delimiter |
| JsonTokens.StringReads | libjansson/jansson-2.7/src/load.c:293-468 | a string put together of plain bytes, two-letter escapes, `\u` escapes and surrogate pairs, the hexadecimal digits in any mix of cases, is scanned to the bytes that these stand for, whatever follows |
| JsonTokens.ScannedString | libjansson/jansson-2.7/src/load.c:293-468 | whatever is scanned as a string is put together in this way, and its value is what the pieces stand for |
| JsonNumbers.DigitsAreWorth | libjansson/jansson-2.7/src/dump.c:181-192 | the decimal text of a number is worth that number, digit by digit, and has no needless zero in front |
| JsonNumbers.NumeralReads | libjansson/jansson-2.7/src/load.c:482-575 | every number of the grammar that ends there is read: an integer as what its digits are worth, a real with its text; an integer beyond 64 bits is refused |
| JsonNumbers.ScannedNumber | libjansson/jansson-2.7/src/load.c:482-575 | whatever is scanned as a number is a number of the grammar with that worth, as far as it goes |
| JsonFields.SetFieldMeans | libjansson/jansson-2.7/src/load.c:679-756 | of a repeated key the last value counts, at the place and with the serial number of its first occurrence |
| JsonFields.FoundIff | libjansson/jansson-2.7/src/load.c:704-712 | a key is found to be a duplicate exactly if it came before |
| JsonFields.FieldsUnique | libjansson/jansson-2.7/src/load.c:679-756 | keys and values in an order come to one object only |
| JsonPhrases.PhraseReads | libjansson/jansson-2.7/src/load.c:679-874 | every value of the grammar, with any spaces in it, is read as what the grammar says it means, and what follows is left |
| JsonPhrases.RealReads | libjansson/jansson-2.7/src/load.c:482-575 | a real that is kept as its text is read back from that text |
| JsonExact.ValueSpelled | libjansson/jansson-2.7/src/load.c:679-874 | whatever is read as a value is a value of the grammar with that meaning |
| JsonExact.ParsedIff | libjansson/jansson-2.7/src/load.c:876-907 | the parser accepts a text without NUL, under every combination of flags, if and only if the grammar derives it, and returns what it means: duplicates refused exactly by JSON_REJECT_DUPLICATES, a scalar at the top only with JSON_DECODE_ANY, NUL in strings only with JSON_ALLOW_NUL |
| JsonExact.DecodableIff | libjansson/jansson-2.7/src/load.c:151-190 | the stream delivers all of a valid input, and otherwise everything up to the first malformed sequence |
| JsonExact.LoadedIff | libjansson/jansson-2.7/src/load.c:909-997 | `json_loads` accepts a C string if and only if it is valid UTF-8 and a text of the grammar with nothing but spaces around the value; with JSON_DISABLE_EOF_CHECK anything may follow that does not go on with the value |
| JsonRefused.ValueRefused | libjansson/jansson-2.7/src/load.c:679-874 | without JSON_ALLOW_NUL the dump of a value with a NUL in a string, however deep, is refused |
| JsonTheorems.NormalIsEqual | libjansson/jansson-2.7/src/value.c:955-983 | the value read, with its keys in the order of the text, is `json_equal` to the one written |
| JsonTheorems.DumpClean | libjansson/jansson-2.7/src/dump.c:191-421 | a dump is valid UTF-8 without NUL bytes |
| JsonLayout.DumpedString | libjansson/jansson-2.7/src/dump.c:71-162 | a string is written with escapes only where they are needed or asked for, in their shortest form, with digits in upper case, and otherwise as it is |
| JsonLayout.DumpLaid | libjansson/jansson-2.7/src/dump.c:49-421 | a dump is a value of the grammar laid out as the flags ask: where new lines, indentation in proportion to the depth and single spaces are, and in which order the members |
| JsonLayout.DumpAscii | libjansson/jansson-2.7/src/dump.c:71-162 | with JSON_ENSURE_ASCII a dump has only bytes below 0x80 |
| JsonEqual.EqualSymmetric | libjansson/jansson-2.7/src/value.c:955-983 | `json_equal` is symmetric on values with distinct keys |
| JsonEqual.EqualTransitive | libjansson/jansson-2.7/src/value.c:955-983 | `json_equal` is transitive |
| JsonEqual.EqualSameDump | libjansson/jansson-2.7/src/value.c:955-983 | equal values have the same sorted dump |
| JsonEqual.EqualIffSameDump | libjansson/jansson-2.7/src/value.c:955-983 | values without reals are `json_equal` if and only if their dumps with JSON_SORT_KEYS are the same text, and values with the same dump under any flags are equal |
| JsonTheorems.JsonRoundTrips | libjansson/jansson-2.7/src/dump.c:191-438 | loading a dump gives a `json_equal` value for every combination of dump flags if the load flags admit the value, and fails otherwise |
| JsonAccepted.ScannedIsValid | libjansson/jansson-2.7/src/load.c:316-468 | in valid text a string token is valid UTF-8, and so is what follows it |
| JsonAccepted.LoadedIsAccepted | libjansson/jansson-2.7/src/load.c:679-997 | whatever `json_loadb` returns has valid UTF-8 strings, distinct UTF-8 keys without NUL, 64-bit integers, and NUL in strings or a scalar at the top only if the flags allow it |
| JsonAccepted.ReadsBackIff | libjansson/jansson-2.7/src/dump.c:191-438 | a value without reals and with distinct keys is read back as an equal one if and only if it has 64-bit integers, UTF-8 strings and C string keys in UTF-8, and the load flags admit it |
| JsonAccepted.ReorderedReadsBack | libjansson/jansson-2.7/src/load.c:679-997 | the same load, dump, load law with the members of every object in any order, as hash tables are iterated over |
| JsonAccepted.LoadDumpLoad | libjansson/jansson-2.7/src/load.c:679-997 | every accepted input without reals, printed with any flags in the order in which it was read, and read again with load flags that allow no less, gives a `json_equal` value |
| JsonNul.NulIsSkipped | libjansson/jansson-2.7/src/load.c:151-230 | a NUL behind a number or a word is skipped: the token is the same, and what follows the NUL is what remains |
| JsonNul.NulIsNoToken | libjansson/jansson-2.7/src/load.c:577-643 | a NUL at which a token would begin, after spaces or at once, makes an invalid token |
| JsonDump.Printer.WriteIndent | libjansson/jansson-2.7/src/dump.c:49-69 | indentation |
| JsonDump.Printer.WriteString | libjansson/jansson-2.7/src/dump.c:71-162 | the loops write the string escape by escape; they fail exactly on what is not UTF-8 |
| JsonDump.Printer.DumpMembers | libjansson/jansson-2.7/src/dump.c:312-407 | members are written in the order that the flags ask for, looked up by their sorted keys |
| JsonDump.Printer.DumpElements | libjansson/jansson-2.7/src/dump.c:253-269 | the loop over an array writes every element, shared ones each time |
| JsonDump.Printer.DoDump | libjansson/jansson-2.7/src/dump.c:191-421 | the dump of the tree that the graph unfolds to, marks as before; it ends on every graph |
| JsonDump.SortTreeFields | libjansson/jansson-2.7/src/dump.c:323-346 | sorting the members of an object and sorting the fields they stand for is the same |
| JsonCycles.LoopFails | libjansson/jansson-2.7/src/dump.c:236-240 | printing a value from which a loop can be reached fails |
| JsonCycles.FailureLoops | libjansson/jansson-2.7/src/dump.c:230-415 | if all strings are UTF-8, printing fails only if a loop can be reached |
| JsonCycles.FailsIff | libjansson/jansson-2.7/src/dump.c:191-421 | printing fails if and only if a loop, or a string that is not UTF-8, can be reached from the value |
| JsonCycles.Dumps | libjansson/jansson-2.7/src/dump.c:423-438 | all marks are clear on every exit, and the text is the dump of the tree |
| JsonCycles.PrintedReads | libjansson/jansson-2.7/src/dump.c:191-438 | what is printed of a graph is read back as a value equal to its tree |
| JsonCycles.BadKeyIsPrinted | libjansson/jansson-2.7/src/dump.c:340-395 | an object with one member, whose key does not begin with a character and whose value is a scalar without a quote in its text, is printed with success and refused by the loader |
| JsonKeys.ProperIff | libjansson/jansson-2.7/src/dump.c:340-395 | the tree that a graph of integers and UTF-8 strings unfolds to is one of API values if and only if every object that can be reached has good keys |
| JsonKeys.PrintedReadsIff | libjansson/jansson-2.7/src/dump.c:191-438 | what was printed with success is read back as an equal value if and only if every object that can be reached has keys in UTF-8 without NUL, and the load flags admit the value |
| JsonKeys.BadKeysAreMisread | libjansson/jansson-2.7/src/dump.c:340-395 | an object with two keys that do not begin with a character is printed with success and read back as another object, whatever the load flags |
| EhciSchedule.ComputedRate | libusbdrivers/src/ehci/hcd.c:125-147 | for every interval of one byte (below 32 where it is a shift count, see under Left out) the polling rate is a power of two up to 1024: the exact period at high speed and for isochronous endpoints within these bounds, otherwise the largest power of two not above the interval |
| EhciSchedule.DueIsSuffix | libusbdrivers/src/ehci/periodic.c:56-85 | in a sorted list what is due in a frame is everything from the first due member on |
| EhciSchedule.AddedFirst | libusbdrivers/src/ehci/periodic.c:78-85 | the update of the table on adding gives every frame its first due member |
| EhciSchedule.RemovedFirst | libusbdrivers/src/ehci/periodic.c:122-137 | the update of the table on deleting gives every frame its first due member |
| EhciSchedule.MisplacedIsNotDue | libusbdrivers/src/ehci/periodic.c:56-85 | a queue head polled more seldom than the list head is reached in a frame in which it is not due |
| Ehci.VisitsRest | libusbdrivers/src/ehci/periodic.c:66-76 | following the links from a member visits the rest of the list and stops |
| Ehci.Host.GoodIsRight | libusbdrivers/src/ehci/periodic.c:16-148 | with a sorted list and its first due members in the table, every frame visits exactly what is due |
| Ehci.Host.RightIsGood | libusbdrivers/src/ehci/periodic.c:16-148 | a schedule in which every frame visits exactly what is due, and none starts off the list, has a sorted list and its first due members in the table |
| Ehci.Host.LinkIn | libusbdrivers/src/ehci/periodic.c:56-76 | the queue head is linked in behind everything polled no more often, both links alike |
| Ehci.Host.UpdateTable | libusbdrivers/src/ehci/periodic.c:78-85 | the table is updated at the multiples of the rate and nowhere else |
| Ehci.Host.Add | libusbdrivers/src/ehci/periodic.c:16-88 | a right schedule, in which no frame starts off the list, stays right if and only if the queue head fits behind the head of the list |
| Ehci.SlowerAfterFaster | libusbdrivers/src/ehci/periodic.c:16-88 | a queue head of rate 1 and then one of rate 2 make a schedule that is not right |
| Ehci.Host.Del | libusbdrivers/src/ehci/periodic.c:97-148 | deleting keeps a right schedule right |

## Left out

- IvcSafety.StepKeepsInv: does not cover a reset while the peer is on its way to ESTABLISHED, because the code does not keep the invariant there; IvcRace.ResetIsSafeIffGuarded proves that exactly these resets do harm.
- IvcSafety.ResetSafety: covers the runs without such a reset, for the same reason.
- IvcSafety.InOrderDelivery: covers the runs without such a reset, for the same reason.
- IvcLiveness.NoLostWakeup: covers the runs without such a reset, for the same reason.
- IvcLiveness.QuiescentIsEstablished: what it says of sleeping clients covers the runs without such a reset, for the same reason; what it says of the handshake covers all.
- IvcRounds.HandshakeConverges: needs both ends to go on calling the handler; that a pending notification is eventually handled is up to the scheduler.
- IvcRace.ResetIsSafeIffGuarded: the ring has at least one frame and fewer than 2^32 - 1; `check_ivc_params` keeps it below 2^26 for frames that are not empty.
- IVC memory barriers, cache maintenance and the contents of the notify callback: a notification is a flag at the peer.
- `check_ivc_params` (libtx2bpmp/src/ivc.c:435-482): the two channels are taken to be disjoint.
- Hashtable.Table.Set: the hash function is a parameter of the table, and `order` does not overflow; failing allocations are left out.
- `hashtable_iter_at`, `hashtable_iter_set`, `hashtable_close`: they would only add easy members.
- VirtqueueTheorems.DescriptorsConserved: at most `queue_len - 1` chains are in flight, which VirtqueueTheorems.PublishedIsVisibleIff shows to be needed; a chain is complete before the device takes it, which the interface leaves to its users.
- Virtqueue memory barriers and the notification of the other side. Queue lengths are powers of two up to 0x8000, as 16-bit fields require.
- Fdtgen.Context.Generate: listed nodes exist and every reference below the root can be followed; the code reads uninitialised offsets or stray memory otherwise. A count of argument cells whose bytes do not fit an int counts as a reference that cannot be followed.
- FdtTree.NeededIsReachable: a phandle is the property `phandle`; libfdt also accepts `linux,phandle`.
- fdtgen works on libfdt's flattened format and on `string_buf`; here a tree is a value, an offset is the path of its node, and a buffer position that libfdt invalidates does not exist. libfdt and uthash are not part of this model; a new property is taken to become the first one.
- `fdtgen_keep_node_subtree` and its variants: they list the nodes of a subtree one by one, as `InitKeepNode` does.
- JsonTheorems.JsonRoundTrips: reals are left out; a real is read as a token with its text, and conversion to and from binary is not part of this model. Keys are distinct C strings in UTF-8.
- JsonExact.ParsedIff: texts without NUL, which is what `json_loads` passes on; JsonNul.NulIsSkipped and JsonNul.NulIsNoToken say what `json_loadb` does with a NUL between tokens. The fields of an object that is read are in the order of the text; that of the hash table is an order of them, which JsonAccepted.ReorderedReadsBack allows for.
- JsonLayout.DumpLaid: values without reals, whose text the printer computes from a binary number; the same holds of JsonLayout.DumpAscii and JsonEqual.EqualIffSameDump.
- FdtCells.ListMeans: the argument cells of the last reference of a list may be cut short, because the code does not look at them.
- JSON_DECODE_INT_AS_REAL, JSON_NATURAL, error messages and the saving of cached bytes for them (libjansson/jansson-2.7/src/load.c:275-283), input from files and callbacks.
- JsonDump.Printer.DumpMembers: `qsort` is a function that sorts, and the order in which the hash table is iterated over is given with the object; the callback never fails.
- JSON value operations other than those that the parser uses (`json_deep_copy`, array editing), reference counts.
- EhciSchedule.ComputedRate: the interval is not 0, for which the C shift and `ilogb` are undefined; `1 << (interval - 1)` on a C int is undefined from interval 32 on, where the model counts the number it stands for.
- Ehci.Host.Add: the frame list exists from the start instead of from the first call on; registers, DMA and the freeing of memory are left out.
- The asynchronous EHCI schedule, MessagePack, `hashlittle`, the SDHC command queue and the ring buffer are not part of this model.
- The calls of one endpoint, driver, device or parser are not interleaved with each other: the libraries do not lock, and one caller at a time is what they ask for.

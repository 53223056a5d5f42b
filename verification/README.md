# A verified model of the VCA driver core

This project models five parts of the Intel Visual Compute Accelerator driver stack and proves what
they are there to guarantee. Every main result holds for all inputs, all runs or all reachable states.

**Split virtqueue** (`VirtqueueSpec`, `Virtqueue`, `VirtqueueRuns`, `VirtqueueProtocol`,
`VirtqueueAccess`, `VirtqueueWakeup`). `VirtqueueSpec` describes the queue by its free stack, its chains
and its ring positions. `Virtqueue` holds the driver code on the real arrays (descriptor table, available
ring, token table), proved against that description. `VirtqueueRuns` follows arbitrary sequences of calls
with an arbitrary device. `VirtqueueProtocol` interleaves the driver with a device that takes heads from
the available ring and returns each once, one operation at a time. `VirtqueueAccess` takes the operations
apart into single accesses of slots and indices and shows that their runs are runs of the former.
`VirtqueueWakeup` splits `enable_cb` and `enable_cb_delayed` into single accesses.

**A-LUT** (`AlutManager`, `AddressLut`). The manager hands out runs of aperture segments, reuses a group
that covers a request and evicts unused groups. `AddressLut` adds the translation registers, which are
written only for new groups, and proves that every live mapping is translated correctly until its unmap.

**DMA ring** (`DmaCopy`, `DmaRing`, `DmaChannel`, `DmaRefinement`). `DmaCopy` gives the meaning of
descriptors as memory copies. `DmaRing` is a three-party state machine of submitter, engine and cleanup,
one shared access per step. `DmaChannel` is the channel's own code on its ring. `DmaRefinement` shows that
each of its calls is a run of the state machine, so that what holds of runs holds of the channel.

**EEPROM and ramdisk** (`BitXor`, `EepromCrc`, `EepromUpdate`, `Transfer`, `Ramdisk`). The CRC and what an
accepted image protects against; the write-and-verify loop over an unreliable device; and the chunked
transfer of an image through map, DMA and unmap. `Transfer` joins the DMA engine to the translation
registers: it says where the bytes of executed descriptors end up.

**FIFO reader** (`LineSplit`, `FifoReader`). Reassembly of command lines from reads of any size, compared
with a plain split of the whole stream.

`Bits` and `Wrappers` hold the shared arithmetic and the optional value.

Integers are unbounded in Dafny, so every width that matters is written out: 16-bit ring indices,
counters and EEPROM offsets, the 13-bit EEPROM block number, 32-bit words, 48-bit and 64-bit addresses,
the `int` descriptor count and the 31-bit cookies. Decisions of hardware, allocators and user space are
parameters or free choices, and the contracts hold for each of them.

Five promises do not hold of the code on all inputs. Each is stated with its exact condition, and with
inputs that the code receives and fails on:

- A request keeps the A-LUT table well-formed unless it overflows the 16-bit counter of the group it
  reuses (`AlutManager.AddKeepsWellFormed`). From an empty table, 65535 requests for one range get there
  (`AlutManager.CounterOverflows`).
- A descriptor gives both addresses back exactly when they fit in 48 bits (`DmaCopy.DescriptorRoundTrip`),
  and the descriptor count is the number needed exactly up to 2^31 - 1 descriptors
  (`DmaCopy.CountFitsInt`, with a request whose count becomes 0 in `DmaCopy.CountCanVanish`).
- An accepted EEPROM image with damage inside one region is still accepted exactly when the damage is in
  the flags byte, which no check reads (`EepromCrc.DamageIsDetected`); every accepted image has such a twin
  (`EepromCrc.FlagsCanChange`).
- The EEPROM write loop ends for every accepted size except the largest, 65540 bytes, where its 16-bit
  offset wraps first and only a device error ends it (`EepromUpdate.EndsExactly`,
  `EepromUpdate.EndlessImageExists`).
- Images above 32768 bytes overwrite their own beginning, because block numbers have 13 bits. After a
  successful update the EEPROM reads back as the image exactly when every byte equals the one 32768 bytes
  further on and the device kept the half-word beside a trailing one (`EepromUpdate.ReadsBackExactly`).
  Every accepted size above 32768 has images without that property (`EepromUpdate.OverwrittenImageExists`).

## Model

| member | source | states |
|---|---|---|
| `VirtqueueSpec.PartitionMeaning` | modules/vca/vca_virtio/vca_virtio_ring.c:201-344 | The invariant in plain terms: free stack and chains have no repetitions, are pairwise disjoint and together are exactly {0..num-1}; only the first descriptor of a chain holds a token |
| `VirtqueueSpec.FreshInv` | modules/vca/vca_virtio/vca_virtio_ring.c:847-857 | A new queue over zeroed memory satisfies the invariant |
| `VirtqueueSpec.AddKeepsInv` | modules/vca/vca_virtio/vca_virtio_ring.c:201-344 | Direct and indirect additions, with or without the forced kick, keep the partition and leave room for another addition |
| `VirtqueueSpec.DetachKeepsPartition` | modules/vca/vca_virtio/vca_virtio_ring.c:519-547 | Splicing a chain in front of the free list keeps the partition |
| `VirtqueueSpec.GetKeepsInv` | modules/vca/vca_virtio/vca_virtio_ring.c:570-624 | Taking a used buffer keeps the invariant for any used index and any id the device wrote |
| `VirtqueueSpec.GetIsSafe` | modules/vca/vca_virtio/vca_virtio_ring.c:570-624 | A token is returned exactly for the id of an outstanding head, and exactly its chain is freed: none of it was free, none of it is in another buffer, and num_free grows by its length; otherwise nothing is freed, and a bad id breaks the queue |
| `VirtqueueSpec.OutstandingFits` | modules/vca/vca_virtio/vca_virtio_ring.c:269-279 | Outstanding buffers plus free descriptors never exceed num |
| `VirtqueueSpec.AllFree` | modules/vca/vca_virtio/vca_virtio_ring.c:777-778 | With no token left, num_free equals num |
| `Virtqueue.DeviceReadsBuffer` | modules/vca/vca_virtio/vca_virtio_ring.c:201-344 | A device that follows flags and next links from an outstanding head, directly or through its indirect table, reads exactly the added pieces in order |
| `Virtqueue.Fill` | modules/vca/vca_virtio/vca_virtio_ring.c:289-313 | The two scatter-list loops write the pieces along the next links, end the chain at the last one, change no link and no other descriptor |
| `Virtqueue.VirtQueue.constructor` | modules/vca/vca_virtio/vca_virtio_ring.c:805-860 | The new queue represents the fresh abstract queue: not broken, all descriptors free and linked in order, all indices 0, interrupts off exactly without a callback, features as given |
| `Virtqueue.VirtQueue.WriteDirect` | modules/vca/vca_virtio/vca_virtio_ring.c:262-319 | The descriptor table after a direct addition represents the queue with the new chain |
| `Virtqueue.VirtQueue.WriteIndirect` | modules/vca/vca_virtio/vca_virtio_ring.c:250-319 | The same for an indirect addition: one descriptor that points at a table of its own and gives its length in bytes |
| `Virtqueue.VirtQueue.Publish` | modules/vca/vca_virtio/vca_virtio_ring.c:321-333 | Token, available slot and index make the new chain visible: the whole concrete state represents the attached queue |
| `Virtqueue.VirtQueue.AddBuf` | modules/vca/vca_virtio/vca_virtio_ring.c:201-344 | The return code in every case; a table is used exactly for several pieces, with the feature, a free descriptor and an allocation, and then one descriptor is enough; otherwise there is no space exactly when fewer descriptors than pieces are free; no change on failure; on success the available ring shows a head behind which the device reads exactly the pieces, and num_added counts up to the forced kick |
| `Virtqueue.VirtQueue.KickPrepare` | modules/vca/vca_virtio/vca_virtio_ring.c:434-465 | Resets num_added and answers whether the device asked to be notified: by its event index or, without that feature, unless it set NO_NOTIFY |
| `Virtqueue.VirtQueue.Notify` | modules/vca/vca_virtio/vca_virtio_ring.c:476-489 | A failed notification breaks the queue; a broken queue is not notified |
| `Virtqueue.VirtQueue.KickDevice` | modules/vca/vca_virtio/vca_virtio_ring.c:504-509 | Prepare, then notify when needed; the result is false exactly when a notification was needed and the queue was broken or the notification failed, and only a failed notification breaks the queue |
| `Virtqueue.VirtQueue.DetachBuf` | modules/vca/vca_virtio/vca_virtio_ring.c:519-547 | Clears the token, frees the indirect table and puts the chain in front of the free list: the state represents the detached queue |
| `Virtqueue.VirtQueue.GetBuf` | modules/vca/vca_virtio/vca_virtio_ring.c:570-624 | Refines the abstract step for arbitrary used-ring contents: the token of the id the device wrote and its length, a broken queue exactly for an id without token, and the event index moved on exactly while interrupts are on |
| `Virtqueue.VirtQueue.DisableCb` | modules/vca/vca_virtio/vca_virtio_ring.c:636-641 | Sets the no-interrupt flag and nothing else |
| `Virtqueue.VirtQueue.EnableCb` | modules/vca/vca_virtio/vca_virtio_ring.c:656-708 | Clears the flag, puts the event index at the driver's position, and reports whether the used ring is empty |
| `Virtqueue.VirtQueue.EnableCbDelayed` | modules/vca/vca_virtio/vca_virtio_ring.c:724-748 | Puts the event index three quarters of the outstanding buffers ahead and reports whether more are already used |
| `Virtqueue.VirtQueue.DetachUnusedBuf` | modules/vca/vca_virtio/vca_virtio_ring.c:759-782 | Releases the first buffer in the token table and takes the available index back by one; when there is none, every descriptor is free, so the BUG_ON cannot fire |
| `Virtqueue.SizePasses` | modules/vca/vca_virtio/vca_virtio_ring.c:818-822 | The size test lets through exactly the powers of two, and 0 |
| `Virtqueue.NewVirtqueue` | modules/vca/vca_virtio/vca_virtio_ring.c:805-862 | A size is refused exactly when it is not a power of two; the new queue is as the constructor states |
| `Virtqueue.FirstBufferComesBack` | modules/vca/vca_virtio/vca_virtio_ring.c:201-624 | A new queue takes any buffer of 1 to num pieces and hands its token and length back once the device has used it |
| `Virtqueue.TransportFeatures` | modules/vca/vca_virtio/vca_virtio_ring.c:873-899 | Exactly the understood bits survive, and indirect descriptors never together with DMA mapping |
| `VirtqueueRuns.ApplyKeepsLedger` | modules/vca/vca_virtio/vca_virtio_ring.c:201-782 | Every driver call, with any device behaviour, keeps the partition and the account of where each added buffer is |
| `VirtqueueRuns.RunCalls` | modules/vca/vca_virtio/vca_virtio_ring.c:201-782 | Every state reached by any sequence of calls satisfies that invariant |
| `VirtqueueRuns.Opening` | modules/vca/vca_virtio/vca_virtio_ring.c:805-862 | The account of a new queue balances |
| `VirtqueueRuns.BuffersAreConserved` | modules/vca/vca_virtio/vca_virtio_ring.c:570-624 | Over all runs with any device: no buffer is handed back twice, what comes back is the token that was added, and every added buffer is outstanding or was handed back |
| `VirtqueueRuns.CallsTakeEffect` | modules/vca/vca_virtio/vca_virtio_ring.c:201-782 | A buffer that fits goes in, the token of an outstanding head comes back, and any other id breaks the queue |
| `VirtqueueRuns.NewQueueAccepts` | modules/vca/vca_virtio/vca_virtio_ring.c:805-862 | A new queue takes every buffer of 1 to num pieces |
| `VirtqueueRuns.BrokenForGood` | modules/vca/vca_virtio/vca_virtio_ring.c:570-624 | Over all later calls a broken queue stays broken, takes no buffer, and hands none back except by detach_unused_buf |
| `VirtqueueRuns.DrainReleasesEverything` | modules/vca/vca_virtio/vca_virtio_ring.c:759-782 | Repeated detach_unused_buf ends, releases each outstanding head exactly once and frees all num descriptors |
| `VirtqueueRuns.DrainRetracts` | modules/vca/vca_virtio/vca_virtio_ring.c:759-782 | Each released buffer takes the available index back by one, in 16 bits |
| `VirtqueueRuns.DrainMeetsUsed` | modules/vca/vca_virtio/vca_virtio_ring.c:759-782 | With a protocol-following device, draining ends with the available index at the driver's used position |
| `VirtqueueProtocol.NextKeepsSys` | modules/vca/vca_virtio/vca_virtio_ring.c:201-624 | Each operation of driver or device keeps the joint invariant on indices, slots and the stage of every buffer |
| `VirtqueueProtocol.Run` | modules/vca/vca_virtio/vca_virtio_ring.c:201-624 | Every interleaving of operations of the two sides ends in a state that satisfies it |
| `VirtqueueProtocol.Boot` | modules/vca/vca_virtio/vca_virtio_ring.c:805-862 | The joint invariant holds for a new queue |
| `VirtqueueProtocol.BootAccepts` | modules/vca/vca_virtio/vca_virtio_ring.c:201-279 | Every buffer of 1 to num pieces can be added to a new queue |
| `VirtqueueProtocol.BufferComesBack` | modules/vca/vca_virtio/vca_virtio_ring.c:201-624 | Over idle rings a buffer goes all the way round: added, taken by the device, used, and taken back with its token |
| `VirtqueueProtocol.DeviceReadsInOrder` | modules/vca/vca_virtio/vca_virtio_ring.c:321-333 | In every interleaving of operations the device reads the added heads in order, each once, and every unread head is still in its slot, across wrap-around of the 16-bit indices |
| `VirtqueueAccess.AccessKeeps` | modules/vca/vca_virtio/vca_virtio_ring.c:321-333 | Each access of its own (slot, index, element) keeps the agreement of memory and protocol state, and leaves that state alone or completes one operation |
| `VirtqueueAccess.AccessesAreSteps` | modules/vca/vca_virtio/vca_virtio_ring.c:201-624 | Every run of single accesses publishes what some run of whole operations does, so what holds of those holds here |
| `VirtqueueAccess.ReadsInOrder` | modules/vca/vca_virtio/vca_virtio_ring.c:321-333 | In every interleaving of single accesses, with slots written before indices and indices read before slots, the device reads the added heads and the driver the used ones in order, each once, and all that is published and unread is still in its slot |
| `VirtqueueAccess.BufferGoesRound` | modules/vca/vca_virtio/vca_virtio_ring.c:201-624 | The same access by access, from any idle state to an idle state |
| `VirtqueueProtocol.RingHasRoom` | modules/vca/vca_virtio/vca_virtio_ring.c:269-279 | Neither ring can overflow while a descriptor is free |
| `VirtqueueProtocol.GetTakesUsed` | modules/vca/vca_virtio/vca_virtio_ring.c:570-624 | With a protocol-following device, get_buf returns a token exactly when something is used and unread, in used order, and never breaks the queue |
| `VirtqueueProtocol.DelayedEnableExactly` | modules/vca/vca_virtio/vca_virtio_ring.c:724-748 | (u16)(avail.idx - last_used_idx) is the number of outstanding buffers, and enable_cb_delayed reports work exactly when more than floor(3/4) of them are used and unread |
| `VirtqueueProtocol.DelayedEventFires` | modules/vca/vca_virtio/vca_virtio_ring.c:724-748 | After enable_cb_delayed, a device that moves its used position asks for an interrupt exactly when it passes floor(3/4) of the outstanding buffers, across index wrap |
| `VirtqueueProtocol.KickExactly` | modules/vca/vca_virtio/vca_virtio_ring.c:434-465 | (u16)(avail.idx - num_added) is the index at the last kick, and a kick is needed exactly when the device's event index is among those published since |
| `VirtqueueProtocol.EventWindow` | modules/vca/vca_virtio/uapi/vca_virtio_ring.h:164-172 | The wrapping event test answers exactly whether the event lies in the published window |
| `VirtqueueWakeup.NextKeepsInv` | modules/vca/vca_virtio/vca_virtio_ring.c:656-748 | Each single access of enable_cb, enable_cb_delayed and the device keeps the wake-up invariant |
| `VirtqueueWakeup.NoLostWakeup` | modules/vca/vca_virtio/vca_virtio_ring.c:656-748 | In every order of accesses, a driver that either enable has told to sleep has interrupts on and the event index at the wanted position; a device that has passed it and decided has its interrupt pending, and using all outstanding buffers always passes it |
| `VirtqueueWakeup.WantedPosition` | modules/vca/vca_virtio/vca_virtio_ring.c:656-748 | Whenever an enable writes the event index, in every run, the wanted position is the driver's own or, when delayed, floor(3/4) of the outstanding buffers further |
| `VirtqueueWakeup.PollKeepsInv` | modules/vca/vca_virtio/vca_virtio_ring.c:684-748 | The poll keeps the invariant, and the driver sleeps exactly when the device has not passed the wanted position, across index wrap |
| `VirtqueueWakeup.EnableSleeps` | modules/vca/vca_virtio/vca_virtio_ring.c:656-748 | Either enable, undisturbed, turns interrupts on and sleeps exactly when the wanted position is not passed |
| `VirtqueueWakeup.DeviceWakes` | modules/vca/vca_virtio/vca_virtio_ring.c:656-748 | A device that passes the wanted position and decides wakes the driver, with and without event indices |
| `VirtqueueWakeup.EnablesMatchQueue` | modules/vca/vca_virtio/vca_virtio_ring.c:656-748 | The event index of this model is the one that the queue's own functions compute |
| `VirtqueueWakeup.PollsMatchQueue` | modules/vca/vca_virtio/vca_virtio_ring.c:684-748 | So is the answer of the polls |
| `VirtqueueWakeup.TakeBackMatchesQueue` | modules/vca/vca_virtio/vca_virtio_ring.c:570-624 | So is what get_buf does to positions and event index |
| `AlutManager.FreeMeansUncovered` | modules/vca/plx87xx/plx_alm.h:39-57 | An entry is free exactly when no group covers it |
| `AlutManager.AddKeepsWellFormed` | modules/vca/plx87xx/plx_alm.c:268-371 | A request keeps the table well-formed exactly when it does not overflow the counter of the group it reuses |
| `AlutManager.RepeatCounts` | modules/vca/plx87xx/plx_alm.c:330-349 | k more requests for a range only move the counter of its group, by k, while 16 bits suffice |
| `AlutManager.CounterOverflows` | modules/vca/plx87xx/plx_alm.c:268-371 | From an empty table, 65534 requests for any range that fits leave a well-formed table and the next one an ill-formed table |
| `AlutManager.NoMemoryExactly` | modules/vca/plx87xx/plx_alm.c:268-371 | A request fails exactly when its size is 0 or exceeds the aperture, or when no group covers it and no long enough run is free once unused groups count as free |
| `AlutManager.SegmentsExactly` | modules/vca/plx87xx/plx_alm.c:276-279 | The segments of a request are aligned and the fewest that cover its bytes |
| `AlutManager.ReusedExactly` | modules/vca/plx87xx/plx_alm.c:308-325 | A request is served by an existing group exactly when the addresses of some group include all its bytes |
| `AlutManager.ReusedBy` | modules/vca/plx87xx/plx_alm.c:308-366 | The first such group gets one more user, and the segment handed out is the one that translates the first byte |
| `AlutManager.FirstFit` | modules/vca/plx87xx/plx_alm.c:293-363 | A new group goes to the first free run and changes no other entry; only without one are unused groups dropped, and it goes to the first run that this frees |
| `AlutManager.FailedRequest` | modules/vca/plx87xx/plx_alm.c:351-366 | A failed request hands out nothing and drops exactly the unused groups, none if its size was wrong |
| `AlutManager.UnusedAccepts` | modules/vca/plx87xx/plx_alm.c:268-371 | When no group has users, a request succeeds exactly when its size is not 0 and its segments fit |
| `AlutManager.NewGroupTakesNothingLive` | modules/vca/plx87xx/plx_alm.c:268-371 | A new group is made only when none covers the range, from segments without live users; every used group keeps its translation, extent and counter |
| `AlutManager.ReclaimFrees` | modules/vca/plx87xx/plx_alm.c:232-249 | Eviction frees exactly the groups with counter 1 |
| `AlutManager.ReclaimWellFormed` | modules/vca/plx87xx/plx_alm.c:232-249 | Eviction keeps the table well-formed, leaves nothing to evict, and is the identity when nothing was unused |
| `AlutManager.SecondTry` | modules/vca/plx87xx/plx_alm.c:351-363 | The nested call after an eviction computes the result of the original request |
| `AlutManager.DelKeepsWellFormed` | modules/vca/plx87xx/plx_alm.c:385-403 | Deleting by any covered segment finds its own group, touches no other, and keeps the table well-formed |
| `AlutManager.Manager.constructor` | modules/vca/plx87xx/plx_alm.c:148-175 | The segments times their size are the aperture, and the table is empty |
| `AlutManager.Manager.Reset` | modules/vca/plx87xx/plx_alm.c:201-218 | Every entry becomes blank |
| `AlutManager.Manager.Scan` | modules/vca/plx87xx/plx_alm.c:293-328 | The scanning loop finds the first group that embeds the request, else the first run of free entries that is long enough |
| `AlutManager.Manager.CleanupUnused` | modules/vca/plx87xx/plx_alm.c:232-249 | The in-place loop evicts exactly the unused groups and returns their number |
| `AlutManager.Manager.Occupy` | modules/vca/plx87xx/plx_alm.c:330-349 | New groups are written whole and counted at 2, reused ones only counted |
| `AlutManager.Manager.AddEntry` | modules/vca/plx87xx/plx_alm.c:268-371 | Refines the abstract request; at most one nested call, and only after an eviction |
| `AlutManager.Manager.DelEntry` | modules/vca/plx87xx/plx_alm.c:385-403 | Refines the abstract release and reports the cleared range |
| `AlutManager.Manager.Check` | modules/vca/plx87xx/plx_alm.c:81-135 | The debug check accepts exactly the well-formed tables |
| `AddressLut.EntryOffsetInjective` | modules/vca/plx87xx/plx_hw.c:254-258 | No two of the 256 entries share a register in any of the three sub-arrays |
| `AddressLut.ProgramEffect` | modules/vca/plx87xx/plx_hw.c:561-590 | Programming a group gives each of its entries its own address and permission and changes no other entry |
| `AddressLut.ProgramRegisters` | modules/vca/plx87xx/plx_hw.c:561-590 | The registers at their addresses: high and low word of each segment's address, and both permission bits |
| `AddressLut.RevokeEffect` | modules/vca/plx87xx/plx_hw.c:640-663 | Revoking clears exactly the permission registers of the group's entries and no address |
| `AddressLut.MapKeepsInv` | modules/vca/plx87xx/plx_hw.c:536-615 | Every map, whether it makes, reuses or evicts groups or fails, keeps the invariant: the registers of every group hold its addresses and each counter is 1 plus its live mappings |
| `AddressLut.UnmapKeepsInv` | modules/vca/plx87xx/plx_hw.c:629-663 | Unmapping a live mapping finds its own group, the BUG_ON of the manager cannot fire, and the invariant is kept |
| `AddressLut.FewLiveNoOverflow` | modules/vca/plx87xx/plx_alm.c:330-349 | With fewer than 65534 live mappings no counter overflows |
| `AddressLut.LookupCorrect` | modules/vca/plx87xx/plx_hw.c:536-615 | In every reachable state, each byte of each live mapping is translated to its own address |
| `AddressLut.SwitchCorrect` | modules/vca/plx87xx/plx_hw.c:536-615 | The same read off the registers, for ranges that do not wrap |
| `AddressLut.NoLiveAccepts` | modules/vca/plx87xx/plx_alm.c:268-371 | Without live mappings a map succeeds exactly when its size is not 0 and its segments fit in the aperture, whatever groups are still cached |
| `AddressLut.ReuseWritesNothing` | modules/vca/plx87xx/plx_hw.c:550-590 | A request whose bytes a group already translates is accepted without a register write, in every reachable state |
| `AddressLut.MappingSurvives` | modules/vca/plx87xx/plx_hw.c:536-663 | A live mapping stays in place through every sequence of maps and unmaps without its own |
| `AddressLut.MappedBytesStayMapped` | modules/vca/plx87xx/plx_hw.c:536-663 | Over all sequences of maps and unmaps: from its map until its unmap, offset + d is translated to addr + d for every d below the length |
| `AddressLut.Device.AddAlutEntry` | modules/vca/plx87xx/plx_hw.c:536-615 | Refines the map step and returns the mapping's aperture offset |
| `AddressLut.Device.DelAlutEntry` | modules/vca/plx87xx/plx_hw.c:629-663 | Offsets outside the aperture change nothing; otherwise one reference is dropped, and permissions are revoked exactly for a group that goes away |
| `AddressLut.Device.Ioremap` | modules/vca/plx87xx/plx_hw.c:855-879 | With translation a map step, without it the address itself |
| `AddressLut.Device.Iounmap` | modules/vca/plx87xx/plx_hw.c:888-897 | Releases exactly the given mapping and leaves the registers alone |
| `DmaCopy.DescriptorRoundTrip` | modules/vca/plx87xx_dma/plx_dma.c:507-541 | Decoding an encoded descriptor gives both addresses back if and only if they fit in 48 bits |
| `DmaCopy.EncodeWords` | modules/vca/plx87xx_dma/plx_dma.c:507-541 | The three address words of a descriptor, half by half |
| `DmaCopy.ChunkCount` | modules/vca/plx87xx_dma/plx_dma.c:549-562 | The 64-bit rounding gives the number of descriptors needed exactly until its sum wraps |
| `DmaCopy.CountFitsInt` | modules/vca/plx87xx_dma/plx_dma.c:549-565 | Rounding and conversion to int give the number of descriptors needed exactly for requests of at most 2^31 - 1 descriptors |
| `DmaCopy.CountCanVanish` | modules/vca/plx87xx_dma/plx_dma.c:549-565 | A concrete request whose count becomes 0 |
| `DmaCopy.ChunksNeeded` | modules/vca/plx87xx_dma/plx_dma.c:549-562 | The number of descriptors a request needs, at 2^27 - 1 bytes each |
| `DmaCopy.ChunkAt` | modules/vca/plx87xx_dma/plx_dma.c:570-597 | Each descriptor of a request: full ones one after the other, and the rest last |
| `DmaCopy.SplitIsCopy` | modules/vca/plx87xx_dma/plx_dma.c:549-599 | For disjoint ranges, running the descriptors of a request in order is one memcpy |
| `DmaCopy.RequestsAreMemcpys` | modules/vca/plx87xx_dma/plx_dma.c:549-599 | The same for any sequence of requests |
| `DmaRing.RingIncIsNext` | modules/vca/plx87xx_dma/plx_dma.c:75-78 | The masked increment moves to the next slot, round the ring |
| `DmaRing.RingCountExact` | modules/vca/plx87xx_dma/plx_dma.h:217-226 | The computed count is exactly the free slots less the one kept empty |
| `DmaRing.NextKeeps` | modules/vca/plx87xx_dma/plx_dma.c:249-634 | Each step of submitter, engine or cleanup keeps the invariant on valid bits, contents, transactions, cookies and callbacks |
| `DmaRing.Boot` | modules/vca/plx87xx_dma/plx_dma.c:96-122 | The invariant holds for a cleared ring |
| `DmaRing.SlotIsFree` | modules/vca/plx87xx_dma/plx_dma.c:507-541 | The slot about to be programmed is not valid and carries no transaction, and every transaction that ever ended in it is written back and has had its callback run: the in-use branch is unreachable |
| `DmaRing.ValidSlotsAreInUse` | modules/vca/plx87xx_dma/plx_dma.c:483-541 | Valid slots lie between tail and head, or are the one being published; at most 2047 slots are in use |
| `DmaRing.CompletedMeansWrittenBack` | modules/vca/plx87xx_dma/plx_dma.c:249-327 | A transaction's cookie is the completed one only after its last descriptor is written back |
| `DmaRing.IsCompleteExactly` | modules/vca/plx87xx_dma/plx_dma.c:434-450 | The interval test on cookies compares submissions, wherever the cookies wrap, for the last 2^31 - 1 of them |
| `DmaRing.StatusExactly` | modules/vca/plx87xx_dma/plx_dma.c:434-450 | In every reachable state the status test answers exactly whether a transaction, one of the last 2^31 - 1, has been completed |
| `DmaRing.StatusIsSafe` | modules/vca/plx87xx_dma/plx_dma.c:434-450 | In every interleaving, whatever happens between its two unlocked reads, a transaction that the test calls complete has been written back |
| `DmaRing.CallbacksExactlyOnce` | modules/vca/plx87xx_dma/plx_dma.c:249-327 | In every interleaving the callbacks that have run are those of the completed transactions, once each and in submission order; the completed cookie is that of the last one; and a cookie that the status test calls complete implies write-back |
| `DmaRing.ExecutedIs` | modules/vca/plx87xx_dma/plx_dma.c:549-621 | What the engine has executed up to the end of a transaction are the descriptors of all requests so far, in order |
| `DmaRing.EngineDoesMemcpys` | modules/vca/plx87xx_dma/plx_dma.c:549-621 | For disjoint ranges, executing these is the memcpy of each request in submission order |
| `DmaChannel.SweepStops` | modules/vca/plx87xx_dma/plx_dma.c:249-327 | A cleanup stops at the first slot that is valid or is the head, no earlier and no later |
| `DmaChannel.SweepRuns` | modules/vca/plx87xx_dma/plx_dma.c:249-327 | It runs exactly the callbacks of the slots it passes, in ring order |
| `DmaChannel.SweepBlanks` | modules/vca/plx87xx_dma/plx_dma.c:249-327 | It blanks, cookie and callback, exactly the entries it passes that carry a transaction |
| `DmaChannel.Channel.Cleanup` | modules/vca/plx87xx_dma/plx_dma.c:249-327 | The in-place loop is that sweep: end, callbacks, completed cookie and every entry of tx_array |
| `DmaChannel.Channel.IsTxComplete` | modules/vca/plx87xx_dma/plx_dma.c:452-463 | The status test, after one cleanup if it did not hold at first, and what that cleanup leaves |
| `DmaChannel.Channel.AvailSpace` | modules/vca/plx87xx_dma/plx_dma.c:483-504 | Answers whether the request fits, after one cleanup if it did not at first, and leaves what that cleanup leaves; a request that fits at first changes nothing |
| `DmaChannel.Channel.ProgMemcpyDesc` | modules/vca/plx87xx_dma/plx_dma.c:549-599 | Success is fixed by the state before; without room the ring is untouched, otherwise the slots from the head on decode to the chunks of the request, with valid and interrupt bits as submission needs them, and all other slots are unchanged |
| `DmaChannel.ProgrammedBits` | modules/vca/plx87xx_dma/plx_dma.c:570-597 | Only the last descriptor of a request with flags waits for its valid bit and interrupts |
| `DmaChannel.Channel.MemcpyDesc` | modules/vca/plx87xx_dma/plx_dma.c:507-541 | The descriptor decodes to the copy asked for; a fence descriptor is not yet valid and interrupts |
| `DmaChannel.Channel.Submit` | modules/vca/plx87xx_dma/plx_dma.c:601-634 | The next cookie in the transaction's entry and, with flags, the valid bit of the last descriptor and the head; nothing else |
| `DmaRefinement.LeadsIsRun` | modules/vca/plx87xx_dma/plx_dma.c:249-621 | Steps taken one by one are a legal run and keep the invariant |
| `DmaRefinement.SweepSteps` | modules/vca/plx87xx_dma/plx_dma.c:249-327 | The cleanup loop is a run of protocol steps with the sweep's result |
| `DmaRefinement.WriteSteps` | modules/vca/plx87xx_dma/plx_dma.c:570-597 | The programming loop is a run of protocol steps that writes the descriptors in order |
| `DmaRefinement.RingsAgree` | modules/vca/plx87xx_dma/plx_dma.c:570-597 | The slots written by the code are, decoded, those of the protocol |
| `DmaRefinement.Create` | modules/vca/plx87xx_dma/plx_dma.c:359-384 | A new channel mirrors the initial protocol state |
| `DmaRefinement.CallCleanup` | modules/vca/plx87xx_dma/plx_dma.c:249-327 | plx_dma_cleanup refines a protocol run and completes everything that the engine has finished |
| `DmaRefinement.CallPrepare` | modules/vca/plx87xx_dma/plx_dma.c:636-661 | Preparing a memcpy, with its cleanup if needed, refines a protocol run; it succeeds exactly when the request fits beside what the engine has not finished |
| `DmaRefinement.CallSetCallback` | modules/vca/plx87xx_dma/plx_dma.c:624-634 | The client's callback, put into the entry that allocate_tx hands out, refines its protocol step |
| `DmaRefinement.CallSubmit` | modules/vca/plx87xx_dma/plx_dma.c:601-621 | Submission refines cookie, valid bit and release, and adds the prepared request with its callback to the submissions |
| `DmaRefinement.CallTxStatus` | modules/vca/plx87xx_dma/plx_dma.c:452-463 | The status call refines a protocol run, and its answer is exact: true if and only if the engine has finished the transaction, one of the last 2^31 - 1 submitted |
| `DmaRefinement.EngineWriteBack` | modules/vca/plx87xx_dma/plx_dma.c:249-327 | A write-back between calls refines the engine's step |
| `DmaRefinement.ChannelIsSafe` | modules/vca/plx87xx_dma/plx_dma.c:249-634 | A channel that mirrors a reachable state has run the callbacks of the completed transactions once each and in submission order, and its status test calls a cookie complete only after write-back |
| `DmaRefinement.UseChannel` | modules/vca/plx87xx_dma/plx_dma.c:249-661 | For every sequence of cleanups, preparations, callbacks, submissions, status calls and write-backs on a new channel: each has its effect and answer in turn, and the channel ends safe in that sense |
| `EepromCrc.UnshiftShift` | modules/vca/plx87xx/plx_hw.c:1524-1534 | One step of the inner loop can be undone, because the constant is odd |
| `EepromCrc.ShiftUnshift` | modules/vca/plx87xx/plx_hw.c:1524-1534 | Every value is reached by one step, so the step is a bijection |
| `EepromCrc.ShiftsInjective` | modules/vca/plx87xx/plx_hw.c:1524-1534 | Any number of steps keeps different values apart |
| `EepromCrc.CrcSeesOneWord` | modules/vca/plx87xx/plx_hw.c:1505-1545 | Word sequences of any equal length that differ in exactly one word have different CRCs |
| `EepromCrc.OneWordChangesCrc` | modules/vca/plx87xx/plx_hw.c:1505-1545 | The same for images whose bytes differ only inside one word under the CRC, the trailing half-word included |
| `EepromCrc.WordsAt` | modules/vca/plx87xx/plx_hw.c:1517-1522 | The loop reads exactly the words in front of the stored CRC, in order, low byte first, with a half-word at the end if two bytes are left |
| `EepromCrc.Absorb` | modules/vca/plx87xx/plx_hw.c:1524-1534 | Shifting crc and word separately, as the code does, is shifting their exclusive or |
| `EepromCrc.CheckCrc` | modules/vca/plx87xx/plx_hw.c:1505-1545 | Accepts exactly the images whose computed CRC is the stored one |
| `EepromCrc.Validate` | modules/vca/plx87xx/plx_hw.c:1547-1590 | Accepts exactly the images with consistent sizes, the signature and a correct CRC |
| `EepromCrc.AcceptedHeader` | modules/vca/plx87xx/plx_hw.c:1547-1590 | Acceptance byte by byte: size, signature 0x5A, the configuration size with its low byte first and a multiple of 6, and the CRC |
| `EepromCrc.StoredLowFirst` | modules/vca/plx87xx/plx_hw.c:1536-1542 | The CRC, started from all ones, is compared with the last four bytes, low byte first |
| `EepromCrc.KnownCrcs` | modules/vca/plx87xx/plx_hw.c:1524-1534 | Two known values of the CRC: 0, and the polynomial for a single bit shifted out |
| `EepromCrc.SealExactly` | modules/vca/plx87xx/plx_hw.c:1505-1545 | Exactly one stored CRC completes an image |
| `EepromCrc.AcceptedExists` | modules/vca/plx87xx/plx_hw.c:1547-1590 | Every configuration of 6 to 65532 bytes, a multiple of 6, has an accepted image, with the header written out |
| `EepromCrc.DamageIsDetected` | modules/vca/plx87xx/plx_hw.c:1547-1590 | An accepted image damaged inside one region is still accepted if and only if that region is the flags byte |
| `EepromCrc.FlagsCanChange` | modules/vca/plx87xx/plx_hw.c:1547-1590 | Every accepted image has an accepted twin with another flags byte |
| `EepromUpdate.Device.Read32` | modules/vca/plx87xx/plx_hw.c:1372-1404 | On success the value of the addressed block; the EEPROM is unchanged |
| `EepromUpdate.Device.Read16` | modules/vca/plx87xx/plx_hw.c:1406-1428 | The half of the block that the offset selects |
| `EepromUpdate.Device.Write32` | modules/vca/plx87xx/plx_hw.c:1430-1473 | Changes at most the addressed block, and a reliable device stores the value |
| `EepromUpdate.Device.Write16` | modules/vca/plx87xx/plx_hw.c:1475-1503 | Changes at most the addressed block, and with a reliable device only its selected half |
| `EepromUpdate.Device.WriteAndVerify` | modules/vca/plx87xx/plx_hw.c:1634-1686 | OK only if the block was read back equal to the image, whatever the device stored |
| `EepromUpdate.Device.Update` | modules/vca/plx87xx/plx_hw.c:1608-1691 | Rejected images leave the EEPROM alone; OK means every block still standing for an image word holds it; a reliable device always gets to OK and keeps the other half of the last block; blocks past the image are kept; after OK the image reads back exactly when it repeats itself after 32768 bytes and the half-word beside a trailing one was kept, as it is with a reliable device or an image of whole words |
| `EepromUpdate.UpdatedBytes` | modules/vca/plx87xx/plx_hw.c:1608-1691 | After OK, every byte of the last 8192 words of the image is in its place, the trailing half-word included, whatever the device did to other bytes |
| `EepromUpdate.OverwrittenBytes` | modules/vca/plx87xx/plx_hw.c:1608-1691 | After OK, a byte with a successor 32768 bytes further on holds that successor |
| `EepromUpdate.ByteAfter` | modules/vca/plx87xx/plx_hw.c:1608-1691 | After OK, each byte holds its successor 32768 bytes further on if there is one and else itself, provided the half-word beside a trailing one was kept |
| `EepromUpdate.ReadsBackExactly` | modules/vca/plx87xx/plx_hw.c:1608-1691 | After OK with any device, the EEPROM reads back as the image if and only if every byte equals the one 32768 bytes further on and the half-word beside a trailing one was kept |
| `EepromUpdate.OverwrittenImageExists` | modules/vca/plx87xx/plx_hw.c:1608-1691 | Every accepted size above 32768 has accepted images that do not repeat themselves |
| `EepromUpdate.UpdatedImage` | modules/vca/plx87xx/plx_hw.c:1608-1691 | An image of at most 32768 bytes reads back whole, with any device |
| `EepromUpdate.EndsExactly` | modules/vca/plx87xx/plx_hw.c:1631-1686 | Of the sizes that pass validation, the loop ends without a device error for all but 65540 |
| `EepromUpdate.EndlessImageExists` | modules/vca/plx87xx/plx_hw.c:1631-1686 | An accepted image on which the loop never ends without a device error |
| `Transfer.RequestArrives` | modules/vca/plx87xx_dma/plx_dma.c:549-599 | However a request is split, its descriptors bring exactly its bytes to the memory behind the aperture and touch nothing else |
| `Transfer.CompletedRequestArrived` | modules/vca/plx87xx/plx_lbp.c:393-427 | When the status test calls a request complete, even with an old count of submissions, the engine has brought its bytes through the translation to the card, so waiting for that test is enough |
| `Ramdisk.ExecuteRequest` | modules/vca/plx87xx/plx_lbp.c:393-427 | Success is the effect of all descriptors of the request, a failure changes nothing outside its range, and a sound link succeeds |
| `Ramdisk.SyncDma` | modules/vca/plx87xx/plx_lbp.c:393-427 | Success means that the engine has executed all descriptors of the request and the data is behind the aperture; nothing else changes, even on failure |
| `Ramdisk.Remap` | modules/vca/plx87xx/plx_lbp.c:523-529 | After a successful map every byte of the chunk is reached through the translation registers, and removing the new mapping gives the old set of mappings; with nothing mapped before, it succeeds exactly when the chunk fits |
| `Ramdisk.SendChunk` | modules/vca/plx87xx/plx_lbp.c:523-555 | Success means the chunk is in place; on every exit only its range has changed and its mapping is released; a sound link succeeds exactly when the chunk fits, with nothing else mapped |
| `Ramdisk.SendChunks` | modules/vca/plx87xx/plx_lbp.c:514-559 | The chunk loop ends, and on success the card holds the image; a sound link succeeds exactly when every chunk fits |
| `Ramdisk.PlanIs` | modules/vca/plx87xx/plx_lbp.c:514-559 | The chunks follow each other without a gap, all of the buffer's size but the last |
| `Ramdisk.FirstPart` | modules/vca/plx87xx/plx_lbp.c:460-514 | The first chunk is a huge page or, failing that, a page, or the whole of a smaller image |
| `Ramdisk.SendImage` | modules/vca/plx87xx/plx_lbp.c:510-559 | The same with the first chunk cut to the image size |
| `Ramdisk.SendRamdisk` | modules/vca/plx87xx/plx_lbp.c:430-576 | OK means the image is at [ramdisk_ph, ramdisk_ph + img_size); nothing else changes and all mappings are released on all exits; the timeout is reported exactly when a ready card does not reply, so all other failures are internal errors; a sound link to a ready card, with nothing else mapped, succeeds exactly when every chunk fits the aperture |
| `Ramdisk.SmallChunksFit` | modules/vca/plx87xx/plx_lbp.c:510-559 | Chunks one segment smaller than the aperture always fit |
| `LineSplit.SplitJoins` | apps/src/vcassd.c:621-674 | Lines and tail of a text give the text back and contain no newline |
| `LineSplit.SplitUnique` | apps/src/vcassd.c:621-674 | There is only one such split, so the reference is the newline split |
| `FifoReader.StrCut` | apps/src/vcassd.c:625-631 | Overwriting a newline with NUL cuts the string there and leaves the rest behind it intact |
| `FifoReader.Reader.FinishLine` | apps/src/vcassd.c:632-656 | A completed line is passed on exactly when all of it, remainder included, is shorter than MAX_COMMAND_SIZE |
| `FifoReader.Reader.KeepRest` | apps/src/vcassd.c:662-673 | The unfinished line is kept whole while it fits, else it is marked for skipping |
| `FifoReader.Reader.ParseFifoMsg` | apps/src/vcassd.c:621-674 | After every read, remainder and flag stand for the unfinished line, the remainder is within its buffer, and the commands are the short complete lines of everything received |
| `FifoReader.KeptExactly` | apps/src/vcassd.c:640-656 | All lines are kept if and only if each is below 8192 characters, and no longer one ever is |
| `FifoReader.KeptParts` | apps/src/vcassd.c:625-656 | What is kept of a stream is what is kept of its parts, in order |
| `FifoReader.FifoMgr` | apps/src/vcassd.c:238-289 | For every way of cutting a stream into reads shorter than PIPE_BUF, the commands are its newline split without the lines of 8192 characters or more; a read with a NUL counts up to the NUL |

## Left out

- Register access, PCI, sysfs, ioctl and module plumbing, which move values in and out of the modelled state.
- Memory barriers: shared accesses are sequentially consistent. They are single steps in VirtqueueAccess, VirtqueueWakeup and DmaRing; VirtqueueProtocol takes whole operations.
- `dma_async_is_complete` and `dma_sync_wait` belong to the Linux DMA engine; the test follows its definition in include/linux/dmaengine.h, and the wait is a caller that repeats the status call until it holds.
- Scatter-list walking and DMA mapping of scatter lists: lists are sequences of pieces, and the outcome of mapping is an input.
- `vring_init` in modules/vca/vca_virtio/uapi/vca_virtio_ring.h: the three areas of a ring are separate arrays, so their addresses and alignment are not modelled. The device's use of the event index follows section 2.6.7 of VIRTIO 1.1.
- Virtqueue.NewVirtqueue: sizes 0 and above 32768 pass the source's size test, as Virtqueue.SizePasses states, but are no valid queue sizes and are excluded here, as is indirect together with DMA mapping, which Virtqueue.TransportFeatures rules out.
- Virtqueue.VirtQueue.AddBuf: allocation addresses of indirect tables are inputs, assumed different from those of tables in use.
- VirtqueueProtocol.NextKeepsSys: stops before shutdown; detach_unused_buf is covered by VirtqueueRuns, where the device is arbitrary.
- AlutManager.Manager.constructor: allocation failure and the rejection of bad arguments are not modelled.
- AddressLut.UnmapKeepsInv: says nothing about unmapped segments becoming inaccessible, because eviction leaves the permission registers of dropped groups set until they are reused.
- DmaRing.NextKeeps: covers transactions with nonzero flags; without flags the descriptors become visible before the cookie is set, and exactly-once completion is not what the code gives.
- DmaRing.NextKeeps: ring slots hold the decoded copy, which DmaCopy.DescriptorRoundTrip justifies for 48-bit addresses; hang detection, prefetch limits and channel reset are not modelled.
- DmaChannel.Channel.Cleanup: runs without interference, as do the calls of DmaRefinement; the engine moves between calls there, and the finer interleavings are those of DmaRing.
- DmaChannel.Channel.ProgMemcpyDesc: ranges below 2^48 only, beyond which DmaCopy.DescriptorRoundTrip shows that descriptors lose address bits.
- DmaRefinement.CallPrepare: transactions with flags and ranges below 2^48 only, and so the same for DmaRefinement.UseChannel.
- EepromUpdate.Device.Update: accepted images of 65540 bytes are excluded, because on them the source returns only after a device error; EepromUpdate.EndsExactly describes them.
- EepromUpdate.Device.Send: the bit fields of the status register, the polling intervals and the third address byte register are not modelled; a command completes or times out.
- Ramdisk.SendRamdisk: the scratchpad handshake with the card is reduced to its reply, a missing DMA channel or buffer counts as a card that is not ready, fewer than 65534 mappings are live, and the card is assumed to return an area below 2^64; with other mappings live, success of a sound link is not characterised.
- FifoReader.FifoMgr: poll, signals and the commands themselves; characters stand for bytes.
- `plx_lbp_get_state`, `plx_intr.c`, `make_config.py`, `vca_config_parser.cpp` and `vcactrl.cpp`: boot state tables, interrupt callback lists, configuration files and the command line.

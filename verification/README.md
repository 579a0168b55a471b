# Verified models of the controller firmware and of the Circle drivers it uses

The repository is a bare-metal game controller (`src/`) on top of the Circle framework (`circle/lib`).
This project models the algorithms and the interrupt and hardware protocols that are hard to get
right there, and proves what they promise. Devices are abstract states: a driver step and a device step
may come in any order, and every claim about a protocol holds after every run, that is after every
sequence of such steps. `dafny verify dfyconfig.toml` checks the whole project.

Most components come in two files. The first one describes the values and the atomic steps as
functions, states an invariant, and proves that every step keeps it and what follows from it after any
run. The second one is the code in its own form: a class with the fields and arrays of the original,
whose methods have the loops of the original. Their contracts give the new state as a function of the
old one, or the whole effect (for every pixel, every byte, every shadow byte). What callers rely on is stated
without those functions as well: the bytes of the frames, the size in a block header, the code returned, the
bits of a byte. Where other parties go on between the accesses of a method, its body lets them take any
number of steps there.

| files | component |
|---|---|
| `genet_tx.dfy`, `genet_tx_driver.dfy`, `genet_tx_runs.dfy` | transmit rings of the GENET Ethernet controller |
| `genet_rx.dfy`, `genet_rx_driver.dfy`, `genet_rx_runs.dfy` | receive ring of the same controller |
| `heap.dfy`, `heap_allocator.dfy` | heap: bump allocation and segregated free lists |
| `kasan.dfy`, `kasan_shadow.dfy`, `kasan_hooks.dfy`, `kasan_runs.dfy` | shadow memory of the address sanitizer, its hooks on top of the heap |
| `raster.dfy`, `oled.dfy`, `oled_display.dfy` | lines, the packed frame buffer of the OLED display |
| `kernel.dfy`, `kernel_runs.dfy` | the picture the main loop keeps on the display, and what gets on the wire |
| `graphics2d.dfy`, `graphics2d_frame.dfy` | circles, lines and rectangles on a frame |
| `serial.dfy`, `serial_device.dfy` | interrupt-driven serial device |
| `cxa_guard.dfy`, `cxa_guard_runtime.dfy` | once-only initialisation of static objects on several cores |
| `devicetree.dfy`, `devicetree_blob.dfy` | walk over flattened device trees (section 5.4 of the Devicetree Specification v0.3) |
| `display.dfy`, `i2c_async.dfy` | display transfer: main loop, asynchronous I2C master, interrupt |
| `rp1_i2c.dfy`, `rp1_i2c_master.dfy` | polled transfers of the I2C master of the RP1 |
| `usb_endpoint.dfy` | double buffering of the USB reports |
| `pll.dfy`, `division.dfy` | dividers of the audio PLL, division by shifting and subtracting |
| `basics.dfy` | integer types and arithmetic facts |

## Where the code does less than it seems to promise

Each of these is proved next to the property it limits: the exact condition for all inputs, and where the
failing input is not obvious from it, such an input.

- `DrawCircleOutline` sets the rightmost pixel twice and the leftmost pixel never
  (`CircleSpec.OnlyLeftmostMissing`). Its entry guard keeps the circle inside the frame exactly if the
  centre is inside, because the sums of the guard wrap (`CircleSpec.GuardSufficesIffCentreInside`).
- The loop of `DrawCircle` visits every pixel of the disc if and only if the radius is below 32768
  (`Graphics2D.LoopCoversDiscIff`). From there on the method draws nothing where the arithmetic does not
  overflow (`Graphics2D.LargeDiscInput`).
- `DrawFillRect` of the display is exact if and only if neither of its sums wraps and the width is not 0, or
  the height is 0 or what goes wrong is not visible: rows that wrap are not painted at all, a width of 0
  paints two columns, and columns that wrap are painted backwards (`OledSpec.ExactCall` in
  `OledSpec.FillRectIsExactIff`, `OledSpec.InexactInputs`). This is about calls with rows shorter than 2^30;
  a longer row does not reach its end before its error term overflows (`OledSpec.LongRowOverflows`), for
  example one of width 0 at the left edge. So a button is drawn if its square crosses neither the top edge
  nor a side; across the top edge nothing is drawn, across the left edge its rows are too long
  (`OledSpec.ButtonFitsIff`).
- `DoAllocate` gives a payload of the requested size if and only if the size computation does not wrap;
  otherwise it hands out a header without a payload (`HeapSpec.CoversRequestExactly`,
  `HeapSpec.HugeRequest`). The heap stays in order, and a later move by `DoReAllocate` stays inside of the
  blocks if and only if neither block came from such a request (`HeapSpec.MoveStaysInsideIff`). A move
  copies the whole payload if and only if its size fits the 32-bit field of the header. The comment on
  `Setup` asks for a base that is aligned to 16 bytes; the first payload meets the assertion of
  `DoAllocate` if and only if the base is aligned to HEAP_BLOCK_ALIGN (`HeapSpec.FirstPayloadAlignedIff`,
  `HeapSpec.SixteenIsNotEnough`).
- The allocation hook of the sanitizer gets a block for all that it marks if and only if neither its own
  sums nor the one in the heap wrap (`KasanHooks.HookCoversIff`, `KasanHooks.WrappedHook`). The free hook
  poisons the whole payload if and only if the aligned size fits 32 bits. After any sequence of such calls a
  byte can be used if it belongs to a payload in use, but also if the hook has never marked it, since the
  shadow starts out open (`KasanRuns.RunIsExact`, `KasanRuns.FreshByte`). Poisoning an empty area writes
  nothing, except at address 0, where its length is that of the whole shadow
  (`KasanSpec.ShadowLengthIff`).
- `SendFrame` copies any length into a buffer of 1536 bytes. It stays inside if and only if the frame is
  not longer; a caller may have up to 1600 bytes (`GenetTxSpec.FitsBufferIff`).
- `CSerialDevice::Write` without interrupts sends a newline that it does not count if and only if the ring
  is full right behind a newline of the text (`SerialSpec.NewlineSplitIff`, `SerialSpec.NewlineSplitInput`).
  A text that fits the ring is always taken and counted as a whole.
- The device tree walker compares the next component with the node that has just matched, so `/a/a`
  finds `/a`, and it finds a component at any depth below. It goes on from the first node with the name of a
  component and never comes back to look for another one (`DeviceTreeSpec.SearchCommits`). If all names are
  distinct it finds a node exactly if a descending chain of the path ends there. A trailing slash changes
  nothing, two slashes in a row find nothing.
- An object that enters its own static initialisation again trips an assertion.

## Model

| member | source | states |
|---|---|---|
| GenetTxSpec.SendKeeps | circle/lib/bcm54213.cpp:712-771 | queuing a frame keeps the ring invariant: the slot used was empty, the buffer is the next of the sent history, no control block outside of the ring changes |
| GenetTxSpec.SendQueues | circle/lib/bcm54213.cpp:729-769 | with room for it a call queues exactly the bytes of its caller, zeros behind them up to 60, in the control block the ring stands on; without room it changes nothing; other rings stay as they are |
| GenetTxSpec.TransmitKeeps | circle/lib/bcm54213.cpp:712-771 | a step of the engine keeps the invariant and finds in the descriptor exactly the next frame sent |
| GenetTxSpec.TransmitTakesNext | circle/lib/bcm54213.cpp:755-769 | on the whole device the engine takes the oldest frame of the ring that is not on the wire yet |
| GenetTxSpec.ReclaimKeeps | circle/lib/bcm54213.cpp:1382-1419 | reclaiming keeps the invariant and frees exactly the buffers between the old and the new consumer index, through the wrap at 16 bits |
| GenetTxSpec.ReclaimSomeFrees | circle/lib/bcm54213.cpp:1597-1616 | of the priority rings exactly those in the status are reclaimed, and in each of them every frame on the wire is freed |
| GenetTxSpec.ReclaimedCount | circle/lib/bcm54213.cpp:1382-1409 | the loop count from the masked index difference is the number of frames sent by the engine and not yet freed |
| GenetTxSpec.OneLap | circle/lib/bcm54213.cpp:1368-1380 | a pointer that has gone at most once around the ring stands on a slot of its own |
| GenetTxSpec.Partition | circle/lib/bcm54213.cpp:1266-1298 | each of the 256 control blocks belongs to exactly one of the five rings, in every state |
| GenetTxSpec.InitRings | circle/lib/bcm54213.cpp:1266-1347 | the bounds of the five rings as numbers: four of 32 descriptors, then one of 128 |
| GenetTxSpec.OtherRingUntouched | circle/lib/bcm54213.cpp:1266-1347 | a step that changes control blocks of one ring only keeps the invariant of every other ring |
| GenetTxSpec.FitsBufferIff | circle/lib/bcm54213.cpp:742-748 | the copy and the padding stay inside the transmit buffer if and only if the frame is not longer than 1536 bytes, which a full frame buffer of a caller violates |
| GenetTxRuns.StepKeeps | circle/lib/bcm54213.cpp:1382-1419 | every step keeps the invariant of the whole device: a send, a transmission by an engine at any time, the start, a round and the end of a reclaim loop |
| GenetTxRuns.Run | circle/lib/bcm54213.cpp:712-1419 | the invariant holds after every interleaving of sends, engines and reclaim loops, also with transmissions between the rounds of a loop |
| GenetTxRuns.RunAccounts | circle/lib/bcm54213.cpp:729-771 | after every run outstanding = size - free_bds = (prod_index - c_index) mod 2^16 = write_ptr - clean_ptr around the ring, and write_ptr stands on an empty slot; inside of a reclaim loop so with the descriptors freed so far |
| GenetTxRuns.RunFreesOnce | circle/lib/bcm54213.cpp:1382-1419 | after every run buffers were freed in send order, at most once on the whole device, and only after the engine sent the frame unchanged |
| GenetTxRuns.StepSends | circle/lib/bcm54213.cpp:712-771 | of all events only a call of SendFrame with room on its ring adds a frame, which has its bytes |
| GenetTxRuns.RunSends | circle/lib/bcm54213.cpp:712-771 | after every run the frames queued on a ring are the data of the calls that found room, one for one in their order, padded with zeros |
| GenetTxRuns.RunTransmits | circle/lib/bcm54213.cpp:712-771 | after every run the k-th frame on the wire of a ring carries the bytes of the k-th such call |
| GenetTxRuns.RunFrameSizes | circle/lib/bcm54213.cpp:742-748 | after every run each frame in the rings has at least the minimum length and fits its buffer |
| GenetTxRuns.RoundsAreReclaim | circle/lib/bcm54213.cpp:1382-1409 | without a transmission in between the rounds are the reclaim that the driver class computes |
| GenetTxRuns.DrainedRingIsEmpty | circle/lib/bcm54213.cpp:1577-1616 | after every run, when the engine has caught up with a ring, a reclaim frees all of its buffers and gives back all descriptors |
| GenetTxDriver.TxRing.TxReclaim | circle/lib/bcm54213.cpp:1382-1409 | the reclaim loop on the fields yields the state of the specification and returns the number of buffers freed |
| GenetTxDriver.TxRing.GetTxcb | circle/lib/bcm54213.cpp:1368-1380 | returns the slot and advances write_ptr around the ring |
| GenetTxDriver.Bcm54213Tx.FillBuffer | circle/lib/bcm54213.cpp:742-748 | the new buffer holds the frame, padded with zeros to the minimum length |
| GenetTxDriver.Bcm54213Tx.SendFrame | circle/lib/bcm54213.cpp:712-771 | for frames that fit the buffer: true exactly if two descriptors are without a frame; then the ring has one more frame with the bytes of the caller and zeros up to 60 behind them, in the control block write_ptr stood on; otherwise nothing changes, and never another ring |
| GenetTxDriver.Bcm54213Tx.InterruptHandler0 | circle/lib/bcm54213.cpp:1577-1594 | reclaims the default ring if the transmit interrupt is set: every frame on its wire is freed, no other ring changes |
| GenetTxDriver.Bcm54213Tx.InterruptHandler1 | circle/lib/bcm54213.cpp:1597-1616 | reclaims exactly the rings whose interrupt is set: there every frame on the wire is freed, the others do not change |
| GenetTxDriver.Bcm54213Tx.constructor | circle/lib/bcm54213.cpp:1266-1347 | sets up five rings in the initial state of the specification, with the bounds 0-31, 32-63, 64-95, 96-127 and 128-255 |
| GenetRxSpec.ArriveKeeps | circle/lib/bcm54213.cpp:804-882 | a frame written by the engine keeps the invariant: it lands in the buffer owned by the next descriptor |
| GenetRxSpec.ReceiveKeeps | circle/lib/bcm54213.cpp:804-882 | a receive call keeps the invariant for every status and for a failed allocation |
| GenetRxSpec.OwnershipStep | circle/lib/bcm54213.cpp:1516-1546 | every descriptor owns exactly one buffer before and after a refill, and the buffer taken out is none of them |
| GenetRxSpec.ReadyContents | circle/lib/bcm54213.cpp:808-862 | in every reachable state the control block at read_ptr has a buffer, which holds the frame the status describes, and a good frame has a length between 1 and the size of the caller's buffer, as the assertions ask |
| GenetRxSpec.ExpectedInOrder | circle/lib/bcm54213.cpp:829-866 | the frames to deliver are the bytes of the arrivals behind the two bytes of padding, without the checksum if that is forwarded, for exactly the arrivals with SOP and EOP, no error and a new buffer, in their order |
| GenetRxRuns.ArriveCommutes | circle/lib/bcm54213.cpp:804-882 | a frame stored while a call is between its accesses ends up as if it had been stored after the call |
| GenetRxRuns.StepKeeps | circle/lib/bcm54213.cpp:804-882 | every step keeps the invariant: an arrival at any time, the exchange of the buffer, the look at the frame, the end of the call |
| GenetRxRuns.Run | circle/lib/bcm54213.cpp:776-885 | the invariant holds after every interleaving of arrivals and the accesses of receive calls |
| GenetRxRuns.RunAccounts | circle/lib/bcm54213.cpp:804-882 | after every run read_ptr and c_index follow the number of consumed descriptors through the 16-bit wrap and no buffer is lost or shared |
| GenetRxRuns.RunDelivers | circle/lib/bcm54213.cpp:804-882 | after every run the frames delivered are exactly the bodies of the arrivals with SOP and EOP, no error and a successful allocation, in order of arrival |
| GenetRxRuns.RunFrameSizes | circle/lib/bcm54213.cpp:855-866 | after every run each frame delivered has between 1 and 1600 bytes |
| GenetRxDriver.Bcm54213Rx.RxRefill | circle/lib/bcm54213.cpp:1516-1535 | replaces the buffer of a descriptor, or leaves everything as it is when no memory is left |
| GenetRxDriver.Bcm54213Rx.ReceiveFrame | circle/lib/bcm54213.cpp:776-885 | consumes the oldest arrival; returns a frame exactly if there is one with SOP and EOP and no error and a new buffer could be allocated, and then bytes 2 and up of it, without the checksum if that is forwarded; with the engine storing frames between its accesses, the new state is that of the call alone followed by those frames |
| HeapSpec.AllocateKeeps | circle/lib/heapallocator.cpp:72-154 | every request, also one that wraps the size computation, keeps the tiling, the free lists and the headers |
| HeapSpec.AllocateFrame | circle/lib/heapallocator.cpp:72-154 | allocation hands out one block that was not live and touches no other block and no payload; a failure only gives up the reserve |
| HeapSpec.AllocateTakes | circle/lib/heapallocator.cpp:102-106 | if the list of the smallest bucket that fits is not empty its first block is taken, and otherwise a new one |
| HeapSpec.AllocateRecords | circle/lib/heapallocator.cpp:83-143 | whichever way the block was found, its header records the smallest bucket size that fits and the block holds that many bytes; above all buckets the header records the request modulo 2^32 |
| HeapSpec.NewBlockIff | circle/lib/heapallocator.cpp:107-143 | a new block is handed out exactly if a header and the size of the bucket, rounded up to the alignment, end below the limit and the reserve, and m_pNext moves exactly there |
| HeapSpec.WrappedBlockIff | circle/lib/heapallocator.cpp:107-143 | the exact condition for a request that wraps the size computation to be answered with a pointer |
| HeapSpec.CoversRequestExactly | circle/lib/heapallocator.cpp:107-114 | the payload is as large as requested if and only if the size computation does not wrap, else it is empty |
| HeapSpec.HugeRequest | circle/lib/heapallocator.cpp:107-114 | a concrete request for which the payload is empty |
| HeapSpec.FirstPayloadAlignedIff | circle/lib/heapallocator.cpp:51-153 | on a region with any base the first payload is aligned to HEAP_BLOCK_ALIGN if and only if the base is |
| HeapSpec.SixteenIsNotEnough | circle/include/circle/heapallocator.h:76-88 | a base aligned to 16 bytes whose first payload violates the assertion |
| HeapSpec.LivePayload | circle/lib/heapallocator.cpp:107-153 | a live payload is aligned and ends below the limit minus the reserve; it holds the request if and only if the size recorded in the header does |
| HeapSpec.BlocksDisjoint | circle/lib/heapallocator.cpp:107-143 | two blocks do not overlap |
| HeapSpec.BlocksCover | circle/lib/heapallocator.cpp:107-143 | every byte below m_pNext belongs to a block |
| HeapSpec.ReleaseKeeps | circle/lib/heapallocator.cpp:209-246 | freeing keeps the invariant and puts the block on the list of its size, or on none if there is no such list |
| HeapSpec.ReleasePushes | circle/lib/heapallocator.cpp:209-246 | the freed block becomes the first of the list for its recorded size, the other lists stay as they are |
| HeapSpec.FreedComesBack | circle/lib/heapallocator.cpp:72-246 | a block allocated for any request that fits a bucket and then freed is what the next request of that bucket gets |
| HeapSpec.FreedBlockIsReused | circle/lib/heapallocator.cpp:72-246 | a freed block is the next one handed out for its size, which restores all lists and blocks |
| HeapSpec.FreeUndoesReuse | circle/lib/heapallocator.cpp:72-246 | freeing a block taken from a free list restores lists, headers and blocks exactly |
| HeapSpec.ReallocateKeeps | circle/lib/heapallocator.cpp:165-198 | reallocation keeps the invariant in all of its cases in which no byte is moved outside of the blocks |
| HeapSpec.MoveStaysInsideIff | circle/lib/heapallocator.cpp:182-197 | a move stays inside of both blocks if and only if neither of the two requests wraps the size computation |
| HeapSpec.ReallocateCopies | circle/lib/heapallocator.cpp:165-198 | reallocation returns the same block, or a different one that starts with the old payload, and changes no other byte |
| HeapSpec.ReallocateOutcome | circle/lib/heapallocator.cpp:165-198 | all outcomes of a call for a live block: freed, nothing but the reserve given up, the same block, or a new block with the old bytes and the old block free; no other block changes its use |
| HeapSpec.WholePayloadExactly | circle/lib/heapallocator.cpp:182-197 | the copied size covers the old payload if and only if that is smaller than 2^32 bytes |
| HeapSpec.Run | circle/lib/heapallocator.cpp:51-238 | the invariant holds after every sequence of allocations of any size, reallocations, frees and writes to live payloads |
| HeapSpec.RunTiles | circle/lib/heapallocator.cpp:72-238 | after every run each byte between the base and m_pNext belongs to exactly one block |
| HeapSpec.RunLivePayloads | circle/lib/heapallocator.cpp:72-238 | after every run live payloads are aligned, below the limit and clear of the headers of other live blocks, and hold their request exactly if the header does not record more than the block has |
| HeapSpec.RunHoldsRequests | circle/lib/heapallocator.cpp:72-238 | after every run without a request that wraps the size computation all live payloads hold their requests |
| HeapSpec.RunFreeLists | circle/lib/heapallocator.cpp:209-238 | after every run a block is on the list of its size exactly if it is not live, on no other list, and the lists are the chains of next pointers |
| HeapAllocator.CHeapAllocator.constructor | circle/lib/heapallocator.cpp:27-56 | an empty heap over the region in the initial state of the specification, with empty lists |
| HeapAllocator.CHeapAllocator.DoAllocate | circle/lib/heapallocator.cpp:72-154 | fields, headers and result are those of the specification for every request, the heap stays in order, and a block that is returned has the size of its bucket in the header and room for it |
| HeapAllocator.CHeapAllocator.DoFree | circle/lib/heapallocator.cpp:209-246 | fields and headers are those of the specification; the block is first on the list of its recorded size, if there is one, and not live |
| HeapAllocator.CHeapAllocator.DoReAllocate | circle/lib/heapallocator.cpp:165-198 | fields, headers, memory and result are those of the specification, unless bytes would be moved outside of the blocks; a moved block has the old bytes and its old place is free |
| HeapAllocator.CHeapAllocator.MemCpy | circle/lib/heapallocator.cpp:193 | copies the bytes between two payloads that do not overlap and nothing else |
| KasanSpec.UnpoisonMarks | circle/lib/kasan.cpp:138-149 | of the granules of an area exactly its bytes become addressable, other granules do not change |
| KasanSpec.ShadowLengthIff | circle/lib/kasan.cpp:125-136 | the computed number of shadow bytes is that of the area if and only if the area is not empty at address 0 |
| KasanSpec.AllocationMarksExactly | circle/lib/kasan.cpp:303-337 | after the allocation hook exactly the requested bytes between the redzones are addressable |
| KasanSpec.AllocatedBytes | circle/lib/kasan.cpp:303-337 | each shadow byte after the allocation hook as a number: 0xfa, 0 or the number of bytes in use, 0xfb, else the old one |
| KasanHooks.TotalSizeIff | circle/lib/kasan.cpp:303-310 | the hook asks for as much as it marks if and only if its sums do not wrap, otherwise for no more than the redzones |
| KasanHooks.HookCoversIff | circle/lib/kasan.cpp:303-337 | the block from the heap holds all that the hook marks if and only if neither the sums of the hook nor the one of the heap wrap |
| KasanHooks.HookMarksExactly | circle/lib/kasan.cpp:312-337 | hook and heap together: exactly the requested bytes of an aligned live block become addressable, the shadow of everything else and the order of the heap are kept |
| KasanHooks.HookAsks | circle/lib/kasan.cpp:303-337 | the hook asks the heap for the size rounded up to eight and both redzones, and returns the address behind the first one, or nothing exactly if the heap does |
| KasanHooks.WrappedHook | circle/lib/kasan.cpp:303-337 | a request for which the hook marks more than its block |
| KasanRuns.AllocatedKeeps | circle/lib/kasan.cpp:312-337 | an allocation keeps the account of the addressable bytes and of the blocks in use |
| KasanRuns.AllocatedRecords | circle/lib/kasan.cpp:312-337 | an allocation adds exactly one payload of the size asked for, unless the heap has none to give |
| KasanRuns.FreedKeeps | circle/lib/kasan.cpp:339-352 | so does a free |
| KasanRuns.RunIsExact | circle/lib/kasan.cpp:312-352 | after every sequence of allocations and frees exactly the requested bytes of the payloads in use and the bytes that were never marked are addressable |
| KasanRuns.RunFindsUseAfterFree | circle/lib/kasan.cpp:339-352 | after every run a free poisons every byte of the payload |
| KasanRuns.RunTracksBlocks | circle/lib/kasan.cpp:312-352 | the payloads in use are those of the live blocks of the heap |
| KasanRuns.FreshByte | circle/lib/kasan.cpp:463-480 | a byte that can be used although no one has asked for it |
| KasanSpec.FreeMarksExactly | circle/lib/kasan.cpp:339-352 | after allocation and free no byte of the block is addressable if and only if the aligned size is below 2^32 |
| KasanSpec.ShadowFreedBytes | circle/lib/kasan.cpp:339-352 | each shadow byte after the free hook: 0xfd for the granules that the header records, else the old one |
| KasanSpec.UnpoisonBytes | circle/lib/kasan.cpp:138-149 | each shadow byte after opening an area: 0, or the number of bytes for the last granule, else the old one |
| KasanSpec.TransitionBytes | circle/lib/kasan.cpp:174-210 | each shadow byte after moving the end of a container: open in front of the new end, 0xfc behind it up to the old one |
| KasanSpec.TransitionAt | circle/lib/kasan.cpp:174-210 | the shadow byte of every granule after moving the end of a container |
| KasanSpec.TransitionMarksExactly | circle/lib/kasan.cpp:174-210 | an exactly marked container stays exactly marked, for growth and shrink and every misalignment |
| KasanShadow.ShadowMemory.GetPoisonedShadowAddress | circle/lib/kasan.cpp:85-123 | returns 0 if and only if every byte of the access is addressable, else the shadow address of the first granule with a byte that is not |
| KasanShadow.ShadowMemory.PoisonShadow | circle/lib/kasan.cpp:125-136 | fills exactly the shadow bytes of the area |
| KasanShadow.ShadowMemory.UnpoisonShadow | circle/lib/kasan.cpp:138-149 | the shadow is that of the specification: zeros for the full granules of the area and the rest in the last one |
| KasanShadow.ShadowMemory.AnnotateRangeTransition | circle/lib/kasan.cpp:174-210 | the shadow is that of the specification, byte by byte |
| KasanShadow.ShadowMemory.AllocateHook | circle/lib/kasan.cpp:303-337 | marks the block the heap returned, byte by byte, and records its aligned size in 32 bits; leaves all as it is without a block |
| KasanShadow.ShadowMemory.FreeHook | circle/lib/kasan.cpp:339-352 | poisons as many bytes as the header records, with the tag 0xfd |
| Raster.OnePixelPerStep | src/oled.cpp:208-235 | each line algorithm draws one pixel per step along the longer axis, from end point to end point |
| Raster.HalfPixel | src/oled.cpp:208-235 | every pixel drawn is within half a pixel of the ideal line |
| Raster.NearIdealLine | src/oled.cpp:208-235 | in coordinates: the pixels of either line are those between the end points at most half a pixel beside the ideal line, and both lines have all that are nearer than that |
| Raster.AlgorithmsDifferExactlyOnTies | circle/lib/2dgraphics.cpp:293-341 | the two line algorithms of the system differ exactly where the ideal line is half way between two pixels |
| OledSpec.SetPixelRefinesGrid | src/oled.cpp:195-206 | setting a bit of the packed buffer sets that pixel of the grid and no other, and not the control byte |
| OledSpec.LitIsBit | src/oled.cpp:195-206 | a pixel is the bit 1 << (y mod 8) of byte 1 + y / 8 * 128 + x |
| OledSpec.SetPixelIsOneBit | src/oled.cpp:195-206 | setting a pixel changes this bit of this byte and no other |
| OledSpec.RoundSteps | src/oled.cpp:222-234 | a round of the loop steps along the longer axis, never stalls, and stays on the nearest pixel |
| OledSpec.ShortLinesDoNotOverflow | src/oled.cpp:217-233 | no round of a line with bounded distances overflows the error term or its double |
| OledSpec.AxisLineOverflowsIff | src/oled.cpp:217-233 | for horizontal and vertical lines the bound is exact |
| OledSpec.SmallLinesAreShort | src/oled.cpp:208-235 | coordinate differences below 2^29 are within the bound |
| OledSpec.FillRectIsExactIff | src/oled.cpp:237-241 | for all arguments with which no row overflows, sums that wrap included: the pixels painted are those of the rectangle clipped to the display if and only if the caller's condition holds |
| OledSpec.InexactInputs | src/oled.cpp:237-241 | a width of 0, rows that wrap and columns that wrap, each with a pixel that is wrong |
| OledSpec.RowFitsIff | src/oled.cpp:208-241 | a row overflows its error term if and only if its columns are 2^30 or more apart |
| OledSpec.LongRowOverflows | src/oled.cpp:208-241 | such a row does not reach its end before the overflow, which comes after at most 2^30 rounds |
| OledSpec.EmptyRowAtLeftEdgeOverflows | src/oled.cpp:208-241 | with width 0 at the left edge it takes exactly 2^30 rounds, in which x does not move |
| OledSpec.ButtonFitsIff | src/oled.cpp:243-247 | the rows of a button do not overflow if and only if its square crosses no side, or there is no row |
| OledDisplay.COLED.constructor | src/oled.cpp:158-164 | control byte and a dark display |
| OledDisplay.COLED.Clear | src/oled.cpp:179-182 | every byte is 0, so every pixel is off, and the control byte stays |
| OledDisplay.COLED.DrawPixel | src/oled.cpp:195-206 | sets the bit 1 << (y mod 8) of byte 1 + y / 8 * 128 + x if the pixel is on the display, and changes nothing else |
| OledDisplay.COLED.DrawLine | src/oled.cpp:208-235 | for every line that does not overflow the error term the loop ends after max(dx, dy) steps and has set exactly the pixels nearest to the ideal line |
| OledDisplay.COLED.DrawFillRect | src/oled.cpp:237-241 | paints exactly the columns between the two that it passes on, whether or not the sum has wrapped, in all rows of the rectangle or in none if their sum wraps; without wraps exactly the rectangle |
| OledDisplay.COLED.DrawButton | src/oled.cpp:243-247 | lights exactly the square around the centre, or nothing if it crosses the top edge or the last row |
| Kernel.CKernel.DrawOLEDButtons | src/kernel.cpp:29-57 | whatever was on the display, afterwards exactly the eight edges and the squares at the eight corners are lit, each larger exactly if its key is pressed, all in coordinates |
| Kernel.CKernel.Round | src/kernel.cpp:97-115 | the buffer always shows the state drawn last, changes only while no transfer runs, and then becomes the picture of the current state |
| Kernel.ProbeShowsButton | src/kernel.cpp:16-57 | one pixel outside of the octagon is lit exactly if its button is pressed |
| Kernel.ButtonsOfPicture | src/kernel.cpp:16-54 | which key belongs to the square around which centre |
| Kernel.EdgesOfPicture | src/kernel.cpp:16-50 | the end points of the eight edges |
| Kernel.KeysOfSquares | src/kernel.cpp:16-57 | for each key a pixel that is lit exactly if it is pressed |
| Kernel.PictureDeterminesState | src/kernel.cpp:29-57 | different button states have different pictures |
| KernelRuns.StepKeeps | src/kernel.cpp:97-115 | every poll of the loop and every step of handler and controller keeps the invariant: the k-th frame drawn is a picture of the k-th state |
| KernelRuns.PollDraws | src/kernel.cpp:97-110 | a poll begins to draw the state it has read exactly if no transfer runs and the state is a new one |
| KernelRuns.RunShowsStates | src/kernel.cpp:97-115 | in every run the transfers put the pictures of the states drawn on the wire, in order, no state twice in a row and a prefix after an error; in the idle loop the last one was that of prevState |
| KernelRuns.PictureOfOneState | src/kernel.cpp:29-57 | the bytes of a picture determine the state of all buttons |
| CircleSpec.NextPoint | circle/lib/2dgraphics.cpp:389-401 | p = (y+1)^2 + x^2 - x - r^2 and x^2 - x <= r^2 - y^2 < x^2 + x hold again after a round that plots |
| CircleSpec.NearUnique | circle/lib/2dgraphics.cpp:389-403 | the plotted x is the only integer that near to the root of r^2 - y^2 |
| CircleSpec.CircleDeviation | circle/lib/2dgraphics.cpp:386-420 | in coordinates: a pixel is on the circle if and only if dx^2 + dy^2 - r^2 is in (-m, m] for its larger coordinate m |
| CircleSpec.EndsByBreak | circle/lib/2dgraphics.cpp:403-406 | when the loop breaks no further row of the octant has a pixel |
| CircleSpec.EndsOnDiagonal | circle/lib/2dgraphics.cpp:389-420 | nor when it ends on the diagonal |
| CircleSpec.DecisionFits | circle/lib/2dgraphics.cpp:386-401 | the decision term stays between -2r and 2y + 1 |
| CircleSpec.GuardKeepsInside | circle/lib/2dgraphics.cpp:370-373 | with the centre in the frame the guard keeps the circle in it, also for a radius above 2^31 |
| CircleSpec.GuardIff | circle/lib/2dgraphics.cpp:370-373 | for a centre in the frame, and for small radii with any centre, the guard passes if and only if the circle stays inside of the frame |
| CircleSpec.GuardSufficesIffCentreInside | circle/lib/2dgraphics.cpp:370-373 | given the guard every pixel written is in the frame if and only if the centre is |
| CircleSpec.GuardCounterexample | circle/lib/2dgraphics.cpp:370-383 | an input that passes the guard and writes outside of the frame |
| CircleSpec.OnlyLeftmostMissing | circle/lib/2dgraphics.cpp:377-384 | the leftmost pixel is on the circle and the only one that is not set |
| Graphics2D.SamePixel | circle/include/circle/2dgraphics.h:222-242 | different pixels of the frame have different places in the buffer |
| Graphics2D.C2DGraphics.SetPixel | circle/include/circle/2dgraphics.h:222-242 | writes the colour at width * y + x of the buffer and nowhere else |
| Graphics2D.C2DGraphics.DrawCircleOutline | circle/lib/2dgraphics.cpp:368-421 | sets exactly the pixels of the digital circle except the leftmost, or nothing if the guard fails, which for radii below 2^31 is if the circle leaves the frame |
| Graphics2D.C2DGraphics.DrawCircle | circle/lib/2dgraphics.cpp:343-366 | sets exactly the pixels nearer to the centre than the radius if that is below 32768 and the circle is inside of the frame, else none |
| Graphics2D.LoopCoversDiscIff | circle/lib/2dgraphics.cpp:352-365 | the loop visits the candidates of all pixels of the disc if and only if the radius is below 32768 |
| Graphics2D.DiscPixelBeyondLoop | circle/lib/2dgraphics.cpp:352-365 | for every larger radius the pixel below the top of the disc is never visited |
| Graphics2D.LargeDiscInput | circle/lib/2dgraphics.cpp:343-366 | a disc that passes the guard and of which nothing is drawn |
| Graphics2D.C2DGraphics.DrawLine | circle/lib/2dgraphics.cpp:293-341 | sets exactly the pixels of the line (ties rounded up), or nothing if an end point is outside |
| Graphics2D.C2DGraphics.DrawRect | circle/lib/2dgraphics.cpp:262-278 | for all inputs sets exactly the rectangle if it is inside the frame, else nothing, in spite of the wrapping sums |
| SerialSpec.PutAppends | circle/lib/serial.cpp:849-853 | storing a byte appends it to the queue the ring stands for |
| SerialSpec.TakeRemovesFirst | circle/lib/serial.cpp:966-970 | taking a byte removes the oldest one |
| SerialSpec.StepKeeps | circle/lib/serial.cpp:505-577 | every access of a writer or of the handler and every step of the UART keeps conservation, locking and the wake-up invariant, also between the look at the FIFO and enabling the interrupt |
| SerialSpec.Run | circle/lib/serial.cpp:505-577 | the invariant holds after every interleaving of any number of writers, interrupts and the UART |
| SerialSpec.RunConserves | circle/lib/serial.cpp:547-574 | after every run wire ++ FIFO ++ ring is the sequence of accepted bytes, and the FIFO has not overrun |
| SerialSpec.StepKeepsLines | circle/lib/serial.cpp:516-545 | because a writer stores bytes only while it owns the line lock, each byte belongs to the last call that has begun |
| SerialSpec.StepRecordsCalls | circle/lib/serial.cpp:505-545 | only the start of a call adds a call, with its text; a byte is accepted only from the text of its writer, the next one, and not exactly if the ring is full |
| SerialSpec.RunKeepsLinesTogether | circle/lib/serial.cpp:505-577 | after every run the accepted bytes are, call by call, a prefix of the text of the call, which is complete unless the ring was found full: no byte of another writer comes between |
| SerialSpec.NewlineSplitIff | circle/lib/serial.cpp:505-545 | without interrupts a newline is sent but not counted if and only if the room ends right behind a newline of the text |
| SerialSpec.NewlineSplitInput | circle/lib/serial.cpp:505-545 | a newline as the whole text and one free place: count 0 and the newline sent |
| SerialSpec.TranslatedInOrder | circle/lib/serial.cpp:516-541 | what is sent for a text has its characters one behind the other, each newline followed by a carriage return exactly with the option, and nothing else |
| SerialSpec.OutcomeUnique | circle/lib/serial.cpp:505-545 | without interrupts text and room determine the count and the bytes sent |
| SerialSpec.RunNeverLosesWakeUp | circle/lib/serial.cpp:547-574 | after every run a non-empty ring means that INT_TX is enabled or a writer has yet to finish its drain section |
| SerialSpec.Settle | circle/lib/serial.cpp:964-977 | from every reachable state without a writer, interrupts and shifting alone put every accepted byte on the wire |
| SerialSpec.ReceiveKeeps | circle/lib/serial.cpp:891-962 | a received word is stored in order, or dropped with an error pending exactly if the ring is full |
| SerialSpec.ReceiveAllRecords | circle/lib/serial.cpp:891-962 | an interrupt puts every word on record and does not replace a pending error |
| SerialSpec.StatusOfFirstFault | circle/lib/serial.cpp:891-962 | the status is 0 exactly if no word since the last report was dropped or faulty; else it is the code of the first one: break, overrun, framing, parity in this order, and overrun for a full ring |
| SerialSpec.NoSilentLoss | circle/lib/serial.cpp:579-620 | while no error has been reported or is pending, the bytes returned and those waiting are all bytes received |
| SerialDriver.CSerialDevice.Write | circle/lib/serial.cpp:505-577 | a text that fits the ring is taken as a whole; otherwise a translated prefix up to the full ring, whose last newline may be uncounted; no byte is left without a wake-up, with interrupts in between |
| SerialDriver.CSerialDevice.PutChar | circle/lib/serial.cpp:841-857 | appends the character to the ring unless that holds 2047 |
| SerialDriver.CSerialDevice.Drain | circle/lib/serial.cpp:547-574 | while the UART goes on, empties the ring or fills the FIFO and enables the interrupt, and leaves no byte without a wake-up |
| SerialDriver.CSerialDevice.InterruptHandler | circle/lib/serial.cpp:878-983 | receives all of the words as specified, keeps conservation and the wake-up |
| SerialDriver.CSerialDevice.Read | circle/lib/serial.cpp:579-620 | reports the code of the first faulty or dropped word since the last report alone, else returns the oldest bytes in order |
| SerialDriver.CSerialDevice.AvailableForWrite | circle/lib/serial.cpp:767-787 | exactly the room of the ring |
| SerialDriver.CSerialDevice.AvailableForRead | circle/lib/serial.cpp:789-809 | exactly the number of bytes waiting |
| CxaGuardSpec.StepKeeps | circle/lib/cxa_guard.cpp:89-146 | every access of any core keeps the invariant |
| CxaGuardSpec.InvImpliesAssertions | circle/lib/cxa_guard.cpp:104-146 | the assertions of the code hold in every state of the invariant |
| CxaGuardSpec.Run | circle/lib/cxa_guard.cpp:89-146 | the invariant holds after every interleaving of any number of cores with nested initialisations |
| CxaGuardSpec.RunExcludes | circle/lib/cxa_guard.cpp:89-111 | after every run at most one core holds the lock, a free lock has acquire count 0, and no assertion fails |
| CxaGuardSpec.RunInitialisesOnce | circle/lib/cxa_guard.cpp:115-146 | after every run each constructor was started at most once, and who was told to skip relies on a set flag and a constructor that was started and is finished |
| CxaGuardSpec.FlagsStay | circle/lib/cxa_guard.cpp:115-146 | flags stay set in every continuation of a run |
| CxaGuardSpec.NoDeadlock | circle/lib/cxa_guard.cpp:89-111 | while a call is open some core can go on |
| CxaGuardSpec.ReentryTripsAssertion | circle/lib/cxa_guard.cpp:115-137 | an object that enters its own initialisation violates an assertion |
| CxaGuardRuntime.Guards.GuardAcquire | circle/lib/cxa_guard.cpp:89-102 | the spin loop, with the other cores going on between all accesses: it ends with the first exchange that finds the lock free or its own, then the lock is held and counted; it gives no answer only as long as every exchange has found it with another core, the last one too |
| CxaGuardRuntime.Guards.CxaGuardAcquire | circle/lib/cxa_guard.cpp:115-137 | result 0 means that the flag is set and the constructor was started, result 1 that the lock is held and the constructor was not started before; with the flag set at the call it is 0 without the lock, and the call waits only while another core holds the lock |
| CxaGuardRuntime.Guards.CxaGuardRelease | circle/lib/cxa_guard.cpp:139-146 | sets the flag and gives the lock back, for good exactly after the outermost call |
| CxaGuardRuntime.Guards.GuardRelease | circle/lib/cxa_guard.cpp:104-111 | counts down, and the last one frees the lock; the assertion on the count holds |
| CxaGuardRuntime.Guards.Initialise | circle/lib/cxa_guard.cpp:115-146 | a caller with nested initialisations that gets through finds its object constructed, one that does not has found the lock with another core, and a core with the lock never waits |
| DeviceTreeSpec.FoundIsChain | circle/lib/devicetreeblob.cpp:128-261 | a node found ends a descending chain whose names are the components in order |
| DeviceTreeSpec.FoundIffChain | circle/lib/devicetreeblob.cpp:128-261 | with distinct names a node is found if and only if such a chain ends there |
| DeviceTreeSpec.ExistingPathFound | circle/lib/devicetreeblob.cpp:128-261 | with distinct names a path that exists returns exactly its node |
| DeviceTreeSpec.SearchCommits | circle/lib/devicetreeblob.cpp:128-261 | for all trees and all paths that do not begin with an empty component: the search goes on from the first node in preorder with the name of the first component and never looks for another one; without such a node it misses |
| DeviceTreeSpec.RootFound | circle/lib/devicetreeblob.cpp:164-167 | the empty path behind the leading slash finds the root |
| DeviceTreeSpec.TrailingSlash | circle/lib/devicetreeblob.cpp:164-207 | a trailing slash changes nothing |
| DeviceTreeSpec.DoubleSlashFindsNothing | circle/lib/devicetreeblob.cpp:169-186 | a path with two slashes in a row finds nothing |
| DeviceTreeSpec.SplitIsInverse | circle/lib/devicetreeblob.cpp:169-186 | the components are the pieces of the path between its slashes |
| DeviceTreeSpec.JoinIsInverse | circle/lib/devicetreeblob.cpp:169-186 | and the only such pieces |
| DeviceTreeSpec.AbsentMissed | circle/lib/devicetreeblob.cpp:209-258 | a component that names no node of a subtree is missed there, so the search goes on behind it |
| DeviceTreeSpec.RepeatedComponent | circle/lib/devicetreeblob.cpp:193-207 | a repeated component finds the same node although the path does not exist |
| DeviceTreeSpec.WordRoundTrip | circle/lib/devicetreeblob.cpp:31-66 | reading a big endian word yields the word that was written |
| DeviceTreeSpec.WordIsBigEndian | circle/lib/devicetreeblob.cpp:31-66 | a word is stored with its most significant byte first |
| DeviceTreeBlob.NodeLayout | circle/lib/devicetreeblob.cpp:45-72 | the offsets of token, name and contents of an encoded node |
| DeviceTreeBlob.PropertyLayout | circle/lib/devicetreeblob.cpp:52-72 | the offsets of the fields of an encoded property, with its padding |
| DeviceTreeBlob.ChainEndsAtNode | circle/lib/devicetreeblob.cpp:128-207 | where a chain ends the bytes begin a node with the last name |
| DeviceTreeBlob.CDeviceTreeBlob.FindNodeInternal | circle/lib/devicetreeblob.cpp:128-261 | on every encoded tree the walk over the bytes ends with the outcome of the search on the tree; after a miss the next pointer is exactly behind FDT_END_NODE |
| DeviceTreeBlob.CDeviceTreeBlob.FindNode | circle/lib/devicetreeblob.cpp:122-126 | the node found by the search, or nothing; the bytes there begin a node with the last component as its name, and the path / gives the root |
| DeviceTreeBlob.CDeviceTreeBlob.SkipProperties | circle/lib/devicetreeblob.cpp:209-228 | the loop over the properties ends at the first child |
| DeviceTreeBlob.CDeviceTreeBlob.FindProperty | circle/lib/devicetreeblob.cpp:264-316 | returns the place of the first property with the name, where the bytes are its token, length, name offset and data, and nothing if and only if there is none |
| DisplaySpec.StepKeeps | src/i2cmasterasync.cpp:101-157 | every step of the main loop, of the handler and of the controller keeps the invariant |
| DisplaySpec.Run | src/i2cmasterasync.cpp:101-157 | the invariant holds after every interleaving of drawing, showing, interrupts and the controller |
| DisplaySpec.RunConserves | src/i2cmasterasync.cpp:101-157 | after every run enabled interrupts mean busy, and wire ++ FIFO ++ rest of the buffer is the submitted frame |
| DisplaySpec.RunSendsWholeFrames | src/kernel.cpp:97-115 | the k-th transfer to end is of the k-th frame drawn, each once; without an error it has sent exactly that frame, else a prefix; at most one drawn frame is not sent yet |
| DisplaySpec.RunNeverSkipsFrame | src/oled.cpp:184-193 | a frame drawn in the main loop is also sent |
| DisplaySpec.Settle | src/i2cmasterasync.cpp:101-157 | from every state of a transfer without an error, task, controller and handler bring it to its end, with all of the frame sent |
| DisplaySpec.FailureEnds | src/i2cmasterasync.cpp:135-147 | after an error the next interrupt ends the transfer |
| I2cMasterAsync.CI2CMasterAsync.AwaitInactive | src/i2cmasterasync.cpp:109-111 | ends when no transfer is active any more |
| I2cMasterAsync.CI2CMasterAsync.WriteAsync | src/i2cmasterasync.cpp:101-124 | after an earlier transfer has ended starts a new one of the length of the buffer, with its first 16 bytes or all of it in the FIFO |
| I2cMasterAsync.CI2CMasterAsync.FillFIFO | src/i2cmasterasync.cpp:126-133 | moves bytes in order until the FIFO is full or nothing is left, while the controller sends |
| I2cMasterAsync.CI2CMasterAsync.IRQHandler | src/i2cmasterasync.cpp:135-157 | ends the transfer exactly on DONE or an error in the status it has read first, with all of the buffer on the wire or a prefix, and does so if one of them was set before; fills the FIFO when asked to |
| I2cMasterAsync.CI2CMasterAsync.Write | src/i2cmasterasync.cpp:69-97 | ends with all of the buffer on the wire, or after an error with a prefix |
| Rp1I2cSpec.IssueKeeps | circle/lib/i2cmaster-rp1.cpp:568-595 | a command may be issued with room in the FIFO and fewer than 32 reads outstanding |
| Rp1I2cSpec.ExecuteKeeps | circle/lib/i2cmaster-rp1.cpp:524-610 | execution keeps the account of outstanding reads and executes a prefix of the transfer |
| Rp1I2cSpec.FetchKeeps | circle/lib/i2cmaster-rp1.cpp:524-547 | fetching a byte keeps the order of the bytes and the account |
| Rp1I2cSpec.NoOverrunAndPrefix | circle/lib/i2cmaster-rp1.cpp:549-610 | neither FIFO overruns, outstanding is issued minus read and at most 32, STOP is on the last command only, no quick command for a non-zero count |
| Rp1I2cSpec.StopMeansAll | circle/lib/i2cmaster-rp1.cpp:393-398 | a STOP condition without an abort means that all commands were executed |
| Rp1I2cMaster.CI2CMaster.Transfer | circle/lib/i2cmaster-rp1.cpp:342-420 | the count is returned exactly if a poll has ended the transfer without an abort, the NACK code exactly if with an abort, the timeout code exactly if none of the polls has ended it, the busy code exactly if the bus was busy; the commands on the bus are those of the first bytes in order, of all on success |
| Rp1I2cMaster.CI2CMaster.Poll | circle/lib/i2cmaster-rp1.cpp:359-399 | a round ends the transfer after an abort with the NACK code, or with everything executed and fetched; it does so whenever STOP or an abort is pending |
| Rp1I2cMaster.CI2CMaster.Read | circle/lib/i2cmaster-rp1.cpp:524-547 | fetches what has arrived and leaves nothing outstanding once all is executed |
| Rp1I2cMaster.CI2CMaster.IssueAll | circle/lib/i2cmaster-rp1.cpp:568-595 | issues exactly as many commands as the room read before and the limit of outstanding reads allow |
| Rp1I2cMaster.CI2CMaster.XferMsg | circle/lib/i2cmaster-rp1.cpp:549-610 | issues as many commands as the FIFOs allow and no more, and leaves the interrupt enabled exactly while commands remain |
| Rp1I2cMaster.CI2CMaster.ReadClearIntrbits | circle/lib/i2cmaster-rp1.cpp:473-522 | a STOP seen without an abort means that all is executed; it stays pending exactly if bytes are outstanding and none has arrived |
| UsbEndpointSpec.StepKeeps | src/usbds4gadgetendpoint.cpp:23-45 | every step of staging, sending and of the callbacks keeps the invariant |
| UsbEndpointSpec.DmaConstantInFlight | src/usbds4gadgetendpoint.cpp:23-45 | no step changes the DMA buffer while a transfer is in flight |
| UsbEndpointSpec.Run | src/usbds4gadgetendpoint.cpp:23-45 | the invariant holds after every interleaving of staging, sending, completion, activation and deactivation |
| UsbEndpointSpec.RunDelivers | src/usbds4gadgetendpoint.cpp:35-45 | after every run each delivery is one whole staged or neutral report, never older than the one before |
| UsbEndpointSpec.ArmedWithLatest | src/usbds4gadgetendpoint.cpp:35-45 | the next transfer carries the report staged last |
| UsbEndpoint.CUSBDS4GadgetEndpoint.InitDS4Report | src/usbds4gadgetendpoint.cpp:66-75 | writes the neutral report: 1, four times 128, 8 and zeros |
| UsbEndpoint.CUSBDS4GadgetEndpoint.SendReport | src/usbds4gadgetendpoint.cpp:104-109 | with the handler and the controller going on between all accesses, stages the report as the next one; the endpoint stays in a state of a run |
| UsbEndpoint.CUSBDS4GadgetEndpoint.AwaitLock | src/usbds4gadgetendpoint.cpp:35-45 | the spin lock becomes free, since the other side that holds it goes on with its copy |
| UsbEndpoint.CUSBDS4GadgetEndpoint.OnTransferComplete | src/usbds4gadgetendpoint.cpp:35-45 | with the task going on, records the delivery and arms the next transfer exactly if the endpoint is active, with a whole report that is not older than any staged before the call |
| PllDividers.GetPLLCoreDivider | circle/lib/gpioclock-rp1.cpp:458-481 | the fields are the rounded factor, carry included, the rate returned is that of the fields to the nearest integer, and within (2^23 + P/2 + P/512) / 2^24 of the target |
| PllDividers.FactorError | circle/lib/gpioclock-rp1.cpp:465-473 | both roundings together |
| PllDividers.ProductFits | circle/lib/gpioclock-rp1.cpp:475 | the product for the resulting rate fits 64 bits |
| PllDividers.OneHertz | circle/lib/gpioclock-rp1.cpp:475-480 | at most 1 Hz off with a crystal of 50 MHz |
| PllDividers.GetPLLDividers | circle/lib/gpioclock-rp1.cpp:483-512 | for no pair of 1..7 x 1..7 is the integer nearest to the parent rate over the product closer to the target rate |
| PllDividers.RateBehindUnique | circle/lib/gpioclock-rp1.cpp:488-495 | the rounded division gives the only integer nearest to the quotient, a tie upwards |
| Division.Divide | circle/lib/libhelper.cpp:27-64 | exact quotient and remainder in at most 33 rounds, the shifted divisor stays below 2^33 |
| Division.DivideInteger | circle/lib/libhelper.cpp:66-90 | truncates towards zero: the quotient of the magnitudes with the sign of both operands |
| Division.TruncatesUnique | circle/lib/libhelper.cpp:66-90 | truncation determines the quotient |

## Left out

- Registers, memory barriers, cache maintenance, delays and clocks: a device is an abstract state, time is the freedom of its steps. Assumptions about a device are guards of its steps: the BSC controller reports DONE only after DLEN bytes, the DesignWare controller raises STOP only after a command with the STOP flag or after an abort, a transfer of the USB controller completes only after all of its bytes.
- GenetTxDriver.Bcm54213Tx.InterruptHandler1: the methods of the class run without a step of the engine in between; the interleaving is that of GenetTxRuns, where a reclaim is one event per round and the handler reclaims one ring after the other. The engine's consumer index is read once per loop, as in the code.
- GenetTxDriver.Bcm54213Tx.SendFrame: takes the ring as a parameter, the code always chooses the first priority ring. Requires a frame that fits the buffer, because the code writes behind it otherwise.
- GENET: the receive-discard counter, PHY, MDIO, link and multicast code; a failed allocation while the receive ring is set up.
- HeapSpec.RunTiles: runs do not contain calls before Setup, calls with pointers that are not live, or stores and moves to places outside of a block. The debug build of the heap is left out.
- HeapSpec.ReallocateKeeps: requires that a move stays inside of both blocks, which is exactly the condition of HeapSpec.MoveStaysInsideIff, because the code overwrites other memory otherwise.
- KasanSpec.AllocationMarksExactly: requires that all that is marked lies in the memory; when the heap provides for that is stated by KasanHooks.HookCoversIff. HEAP_BLOCK_ALIGN is any multiple of a granule. The reallocation hook, the annotation of both ends of a container, the address ranges that bypass the check, and the error report are left out. Shadow bytes are compared as signed bytes, as the build option for plain char makes them.
- KasanRuns.RunIsExact: runs do not contain allocations of which the sums wrap, or frees of payloads of 2^32 bytes and more, see KasanHooks.HookCoversIff and KasanSpec.FreeMarksExactly.
- KasanShadow.ShadowMemory.UnpoisonShadow: requires an address above 0 if the size is less than a granule, because the code fills the whole shadow otherwise, see KasanSpec.ShadowLengthIff.
- OledDisplay.COLED.DrawLine: requires a line of which no round overflows the 32-bit error term, since signed overflow is undefined. That condition is exact; a bound on the distances alone is sufficient, and exact for horizontal and vertical lines.
- OledDisplay.COLED.DrawFillRect: requires that no row overflows the error term, which is exactly the condition of OledSpec.RowFitsIff, or that there is no row; characters and text are left out.
- Graphics2D.C2DGraphics.DrawCircleOutline: requires the centre in the frame when the guard passes, and frames have at most 2^30 pixels in each direction; images, text and colour formats are left out.
- Graphics2D.C2DGraphics.DrawCircle: requires, when the guard passes, a radius for which the signed coordinates of the candidates do not overflow, which includes all radii up to 32768 (Graphics2D.SmallDiscFits, Graphics2D.LargeDiscInput). Left shifts and conversions of unsigned values wrap.
- SerialDriver.CSerialDevice.Write: the class has one writer, other writers are steps of the runs in SerialSpec. The ring size is the default of 2048. The mode without interrupts, the callback for received characters and the magic string scanner are left out.
- CxaGuardSpec.RunInitialisesOnce: the claims are about objects that do not enter their own initialisation; __cxa_guard_abort does not return and is left out.
- CxaGuardRuntime.Guards.GuardAcquire: the number of rounds of the loop is a parameter, since a constructor on another core may never return.
- DeviceTreeBlob.CDeviceTreeBlob.FindNodeInternal: is about blobs that encode a tree without FDT_NOP tokens; reading malformed blobs is left out, as the code does not check bounds.
- DisplaySpec.RunSendsWholeFrames: is about transfers started in the main loop; the first draw before it may overlap the transfer started by the initialisation.
- Kernel.CKernel.Round: one round of the endless loop of CKernel::Run; reading the buttons, sending the report and the delay are left out, and whether a transfer runs is a parameter. The interleaving with the transfer is that of KernelRuns, where the bytes of a picture are drawn one by one in any order.
- I2cMasterAsync.CI2CMasterAsync.WriteAsync: an earlier transfer that is still active has the bytes it needs to end; otherwise the wait of the code does not end.
- I2cMasterAsync.CI2CMasterAsync.Write: requires a controller that reports DONE also after an error, since the loop of the code looks for nothing else; the interrupt-driven transfer does not.
- Rp1I2cMaster.CI2CMaster.Transfer: the time limit is a number of polls; bus timing and set-up are left out.
- UsbEndpointSpec.StepKeeps: the callbacks come from one interrupt handler and do not interleave with each other, and one task sends reports; BeginTransfer and CancelTransfer of the base class only start and stop the transfer. The conversion of buttons to a report is left out.
- PllDividers.GetPLLCoreDivider: a parent rate of at least 2 and 32-bit rates; the limits of the fields of the hardware are left out.
- Division.DivideInteger: the most negative number is excluded, its negation is undefined behaviour.
- Not modelled because they would only add easier relatives of the above: logger ring, pointer list, page and class allocators, number pool, DMA channel bitmaps, constant tables, decimal parsing, PCIe, MMU, interrupt controllers, GPIO, PWM, mailbox, multicore start and assembler.

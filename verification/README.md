# Proofs about a small 32-bit kernel

This Dafny project models the memory management and the network send and receive paths of a small
x86 kernel and proves what they keep over every run. `dafny verify dfyconfig.toml` checks it.

## What is modelled

Code that works on state in place is modelled in place, as classes over an array of words or bytes
with the source's fields, loops and recursion; pure macros are functions. Each such method is proved
against predicates and functions over the memory before and after, and lemmas say what those mean.

* **Memory** (`Memory`, `Division`). One array is all of the kernel's memory; `m[a]` is the 32-bit
  word at byte address `a`, and only word-aligned addresses are used. Pages, block headers, page
  tables and their contents all live in this one array, so that aliasing between them is something
  to be excluded by proof.
* **The kernel heap** (`HeapSpec` to `HeapTotals`, `Heap`). `add`, `find`, `del`, `unite`, `clean`,
  `malloc` and `free` on headers at addresses, with `root` as the back pointer. Two views must agree
  after every call: each page is tiled by blocks, and the sorted list behind the sentinel holds
  exactly the free ones. A header that was swallowed by its neighbour stays in memory and stays
  readable; `clean` does read one. It is safe because everything left of the cursor has been grown
  as far as it goes, so that a swallowed predecessor is always the last block swallowed and its link
  still names the node behind the cursor (`HeapClean.Cursor`, `UniteKeepsCursor`).
* **Frames and paging** (`Frames`, `PageWalk`, `PagingSpec`, `SharingSpec`, `Paging`). The two frame
  allocators, the identity map, `put_page`, demand faults and `create_mm`, with the
  processor's two-level walk as the meaning of the tables (Intel SDM volume 3A, section 4.3).
  A fresh frame holds arbitrary words.
* **Both together** (`Ownership`, `Clients`, `Kernel`). One memory and one frame map under mixed
  runs of allocations, releases, client stores and faults.
* **The NE2000 driver** (`Ring`, `Messages`, `Command`, `SendQueue`, `NeRecv`, `NeSend`, `Ne2kSpec`,
  `Ne2k`). The receive ring with the adapter as producer, transmission by gathering a chain, the
  command register that `neSend` tests and every transfer writes, and the queue behind it. `Ne2kSpec`
  says what this looks like from outside, as queues and a last command without RAM or nodes; the
  driver refines it over every interleaving of clients, arrivals, completions and interrupts, and
  conservation and order are proved there.
* **Checksum, byte order and the send stack** (`ByteOrder`, `Checksum`, `Stack`, `Encapsulation`).

## Where the code does something other than expected

Each of these is proved; where it depends on the input, with the exact condition.

* A chain whose total is 0x600 and whose last piece is odd writes its pad byte into the first
  receive page. Sending stays clear of the ring exactly when the total plus the parity of the last
  piece is at most 0x600 (`Messages.ExtentExact`, `Messages.SpillExample`).
* `memset` in `ipSend` has its last two arguments exchanged, so the header is not cleared. The
  checksum is taken over whatever the checksum word held, and the header verifies exactly when that
  word was 0 or 0xFFFF (`Encapsulation.HeaderChecks`). The three flag bits are not assigned either, and
  on the wire they are bits 8 to 10 of the fragment offset (`Encapsulation.HeaderAccepted`).
* `udpSend` counts the first piece of the payload only. A receiver gets the first piece and no more,
  exactly when the leftover in the header is harmless; one that wants the UDP length to cover the whole
  IP payload, which RFC 768 does not ask for, accepts exactly the payloads of one piece among those
  (`Encapsulation.RoundTrip`).
* `neSend` takes the adapter for busy when the command register reads 0x26. Reading a packet leaves
  0x0A there, or 0x0E while a transmission is under way, so the next message is written over the one
  under way. Messages are conserved exactly in the runs that do not do this (`Ne2kSpec.RunConserves`),
  and what is lost otherwise are exactly the messages written over (`RunAccounts`, `ReadThenSubmit`).
* Messages can overtake each other, in `neSend` when the adapter is idle and others wait, and in the
  handler when it turns a queue of different messages. A step keeps the order of submission exactly
  when the guard of its branch holds, and a run keeps it throughout exactly when all its steps do
  (`Ne2kSpec.SubmitInLine`, `AdvanceInLine`, `RunInLineExact`).
* A packet longer than 0x600 empties the ring. Packets are delivered in order without loss exactly in
  the runs without such a reset (`Ne2kSpec.RunDelivers`).
* After a packet that ended on page 0x7F the driver writes boundary 0x45, a page outside the ring
  (`NeRecv.Receiver.Consume`).
  An adapter that compares page numbers with the register then guards nothing
  (`Ring.RawGuardExact`); the ring proofs take the rule of the register documentation, which speaks
  of the page read last.
* The table in slot KMEM>>22 is only filled up to KMEM; the rest of it is what the frame held, and
  is present or not by chance (`PagingSpec.TopLeftover` in `Paging.AddressSpace.OpenPagination`).
  That slot is open to the kernel only, so pages served by faults there are closed to user code
  (`PagingSpec.DemandWalk`).
* `put_page` never clears the table that it hangs in for a fault. Another page of the slot keeps its
  translation exactly if the slot had a table or the leftover entry is not present
  (`PagingSpec.OtherWalkKept`); otherwise it translates by what the frame held, and that may lead user
  code to the directory itself (`PagingSpec.LeftoverReachesDirectory`). Translations that were there
  are safe from this (`PagingSpec.MappedStays`).
* `create_mm` copies 1024 bytes of the directory, which are 256 of its 1024 entries; the entries of
  the new directory from 1 GB on are what the frame held (`SharingSpec.SharedWalk`). Its marking pass
  starts at slot KMEM>>22, so the identity-mapped pages of a partial last slot lose their write
  permission as well (`SharingSpec.MarkedWalk`).
* `put_page` does not look at the address: the identity map survives exactly if the page is refused or
  not below KMEM (`Paging.AddressSpace.PutPage`).
* A request for 0 bytes finds the sentinel (`HeapLive.ZeroFindsSentinel`), and a request for more
  than 4080 takes every free frame of the kernel area in vain (`Heap.KernelHeap.Malloc`).
* The checksum is right for up to 65537 words and not for 65538 (`Checksum.BoundIsTight`).
* A comment at net/ne2k/ne2k.c:224 calls the 4 bytes it takes off the length a CRC. In the model they
  are the length of the header in front of the packet, which is what makes the rest come out right.

## Model

| member | source | states |
|---|---|---|
| `HeapSpec.LinkedKeepsChain` | kernel/malloc.c:11-27 | Inserting a header at any position keeps `next` and `root` inverse of each other along the whole list. |
| `HeapSpec.UnlinkKeepsChain` | kernel/malloc.c:38-45 | Taking a header out keeps `next` and `root` inverse of each other along the rest. |
| `HeapSpec.LinkedStep` | kernel/malloc.c:22-25 | The recursion of `add`: inserting into the tail and rejoining it is inserting into the whole list. |
| `HeapInv.LinkKeepsInv` | kernel/malloc.c:11-27 | A free block put back by `add` at the place of the first fit: pages stay tiled, the list stays exact, sorted and never gets in front of the sentinel. |
| `HeapInv.UnlinkKeepsInv` | kernel/malloc.c:38-45 | After `del` the list holds exactly the free blocks but the one taken out, and no size or state changed. |
| `HeapInv.SamePage` | kernel/malloc.c:50-51 | The address comparison of `unite` is true exactly when the block does not end its page, and then a block starts there. |
| `HeapInv.SwallowKeepsInv` | kernel/malloc.c:52-55 | Swallowing an unlisted right neighbour keeps tiling and list; the swallowed header is no block any more. |
| `HeapRuns.MergeKeepsRunCap` | kernel/malloc.c:47-58 | Uniting two neighbours leaves the capacity of every run of free blocks as it was. |
| `HeapRuns.MergeKeepsFits` | kernel/malloc.c:47-58 | Uniting neither makes nor destroys the room for a request of any size. |
| `HeapRuns.UniteEffect` | kernel/malloc.c:47-58 | One call of `unite` on a block with a free right neighbour: invariant, absorbed size, live blocks, and the stale link of the swallowed header all as stated by `United`. |
| `HeapRuns.UniteKeepsStaleNext` | kernel/malloc.c:52-55 | The swallowed header still reads as the link it had when it was listed. |
| `HeapRuns.NeighbourListed` | kernel/malloc.c:52-53 | A free right neighbour is on the list behind the sentinel, so `del` may be applied to it. |
| `HeapClean.UniteKeepsCursor` | kernel/malloc.c:65-69 | Absorbing during the walk: what is left of the cursor stays without free right neighbours, and the remembered predecessor, even when it is the block just swallowed, still names the node behind the cursor. |
| `HeapClean.NextAfterPutBack` | kernel/malloc.c:70-74 | After reinsertion the remembered predecessor leads to the rest of the list directly or through the reinserted block, swallowed or not. |
| `HeapClean.StaleUntouched` | kernel/malloc.c:70-72 | Reinsertion writes no word of a swallowed header. |
| `HeapClean.StepProgress` | kernel/malloc.c:62-75 | The termination measure: each iteration shortens the list or moves the cursor on, though merged blocks go back ahead of the cursor and equal ones behind it. |
| `HeapClean.StepFinish` | kernel/malloc.c:62-75 | One whole iteration: the walk continues at the node behind the cursor, everything passed has no free right neighbour, and the heap is only coalesced. |
| `HeapClean.AllPassed` | kernel/malloc.c:59-77 | When the cursor has reached the end, no free block of any page has a free right neighbour. |
| `HeapSteps.SplitEffect` | kernel/malloc.c:102-109 | Linking the rest before shrinking the block yields a well-tiled heap with the rest as an exact, sorted list member. |
| `HeapSteps.SplitCommutes` | kernel/malloc.c:102-109 | The order of the two writes in `malloc` is immaterial: the same memory as shrinking first. |
| `HeapLive.HeadersMissPayload` | kernel/malloc.c:11-122 | Writes to headers of the old or the new tiling never fall into the payload of a block that both have. |
| `HeapLive.FirstFitIsBest` | kernel/malloc.c:29-36 | The first adequate block of the sorted list is a smallest adequate free block of the whole heap. |
| `HeapLive.FitsListed` | kernel/malloc.c:83-89 | When no free blocks touch, the list has an adequate block exactly when some run of adjacent free blocks could hold the request; in general only one half holds. |
| `HeapLive.CarvedWaste` | kernel/malloc.c:101-110 | The allocation has at least the rounded size and at most 16 bytes more. |
| `HeapLive.GrownIsFound` | kernel/malloc.c:90-99 | After one page more, the search finds that very page, so that the heap grows once per request. |
| `HeapLive.OversizeUnlisted` | kernel/malloc.c:89-99 | No heap of any shape has a listed block for more than 4080 bytes: growing never helps such a request. |
| `HeapLive.ZeroFindsSentinel` | kernel/malloc.c:85-101 | A request for 0 bytes is answered with the sentinel, which is no block: `malloc` must not be asked for it. |
| `HeapLive.MallocEffect` | kernel/malloc.c:83-112 | A successful `malloc` as a whole: best fit, bounded waste, one live block more, all other payloads kept. |
| `HeapLive.FreeEffect` | kernel/malloc.c:114-122 | `free` as a whole: one live block less, joined with a free right neighbour, all other payloads kept. |
| `HeapTotals.WalkAddsUp` | kernel/malloc.c:47-58 | From any block to the end of its page, headers and payloads add up to exactly the bytes that are left. |
| `HeapTotals.BlocksFillPages` | kernel/malloc.c:90-111 | Blocks with their headers total 4096 times the pages taken. |
| `HeapTotals.LivePlusFree` | kernel/malloc.c:11-122 | Bytes in live blocks plus bytes on the list make up all the pages: nothing is lost or counted twice. |
| `Heap.KernelHeap.constructor` | kernel/malloc.c:81-82 | The heap starts as the sentinel alone, without pages or blocks. |
| `Heap.KernelHeap.Add` | kernel/malloc.c:11-27 | Recursive insertion in place: the memory is that of the list with the block linked in front of the first entry that is not smaller. |
| `Heap.KernelHeap.Find` | kernel/malloc.c:29-36 | Finds the first listed block of at least the size, or NULL when there is none. |
| `Heap.KernelHeap.Del` | kernel/malloc.c:38-45 | Only the two neighbours are relinked; NULL changes nothing. |
| `Heap.KernelHeap.Unite` | kernel/malloc.c:47-58 | Absorbs exactly one right neighbour if it is free and in the page, else changes nothing. |
| `Heap.KernelHeap.Absorb` | kernel/malloc.c:65-69 | The inner loop ends, and then the block has no free right neighbour. |
| `Heap.KernelHeap.CleanStep` | kernel/malloc.c:62-75 | One iteration keeps the loop invariant and lowers the measure, reading on through a possibly swallowed predecessor. |
| `Heap.KernelHeap.Clean` | kernel/malloc.c:59-77 | Terminates; then no free block has a free successor in its page, the list is exact and sorted, the sentinel is first, live blocks are untouched, and the room for every size is the same. |
| `Heap.KernelHeap.AddPage` | kernel/malloc.c:94-98 | A fresh page becomes one free block of 4080 bytes on the list. |
| `Heap.KernelHeap.Grow` | kernel/malloc.c:91-98 | Takes the lowest free frame of the kernel area, one that was not taken; without one nothing changes and the result 0 stands for the endless scan. |
| `Heap.KernelHeap.Carve` | kernel/malloc.c:101-110 | The chosen block leaves the list, is cut if the rest can hold a block, and is the only block whose state changes. |
| `Heap.KernelHeap.Enlarge` | kernel/malloc.c:89-99 | Grows by exactly one page when a page can hold the request, and never when the list already answers; 0 stands for the endless scan of `get_free_page`. |
| `Heap.KernelHeap.Search` | kernel/malloc.c:87-99 | No needless growth: if any run of free blocks fits, no page is taken; if none does and a frame is free, exactly one is; 0 stands for the endless scan. |
| `Heap.KernelHeap.Malloc` | kernel/malloc.c:83-112 | The answer is other than NULL exactly when the rounded request fits a page and a run of free blocks or a frame is there; NULL stands for the endless scan, before which a request for more than 4080 has taken all free frames. Otherwise the pointer is right behind the four header words, best fit among the blocks then free, waste of at most 16, word-aligned, all other live payloads kept, growth only when no run fits and then by one page. |
| `Heap.KernelHeap.PutBack` | kernel/malloc.c:119-120 | The block is marked free and listed in order; nothing else of any block changes. |
| `Heap.KernelHeap.Free` | kernel/malloc.c:114-122 | The block in front of the pointer by 16 bytes is free and joined with a free right neighbour; no other block and no live payload changes; NULL changes nothing. |
| `Clients.HandlesDisjoint` | kernel/malloc.c:83-122 | Two allocations that are held never overlap, and each is word-aligned. |
| `Clients.AllocClients` | kernel/malloc.c:83-112 | A new allocation is a pointer nobody holds; what is stored in the others is still there. |
| `Clients.FreeClients` | kernel/malloc.c:114-122 | Giving one allocation back leaves all others valid with their contents. |
| `Ownership.HeapMoveKeepsSpace` | kernel/mm.c:25-36 | No heap operation changes the translation of any address; heap pages, table frames and demand-mapped frames stay apart. |
| `Ownership.FaultKeepsHeap` | kernel/mm.c:170-174 | Serving a fault leaves the heap with all its live payloads alone and takes none of its pages. |
| `Ownership.StoreKeepsSpace` | kernel/malloc.c:83-112 | A store through an allocation reaches neither the directory nor a table and changes no translation. |
| `Ownership.StoreKeepsHeap` | kernel/malloc.c:83-112 | A store inside an allocation changes no header: the whole heap invariant survives it. |
| `Kernel.Machine.DoAlloc` | kernel/malloc.c:83-112 | In the mixed system an allocation succeeds exactly when the request fits a page and a run of free blocks or a frame can hold it, where the source otherwise scans for ever; heap, address space and clients stay sound. |
| `Kernel.Boot` | kernel/mm.c:66-87 | Boot: open_pagination and an empty heap on the same memory and frame map yield a sound system, whatever counts the frames below 4 MB have. |
| `Kernel.Machine.DoRelease` | kernel/malloc.c:114-122 | A release forgets the one allocation and nothing else. |
| `Kernel.Machine.DoTouch` | kernel/mm.c:170-174 | A fault serves its page, leaves heap and clients alone and every other translation as it was, but for a new table: there the other pages of the slot translate as the leftover entries of its frame say. |
| `Kernel.Machine.Step` | kernel/malloc.c:83-122 | One operation has its effect whenever its condition holds, and keeps everything that it does not name. |
| `Kernel.Machine.Run` | kernel/malloc.c:83-122 | Over every run of allocations, releases, stores and faults: held allocations stay held, stored words stay stored, every translation that was there stays as it was unless its page faults, and every invariant holds throughout. |
| `Frames.FirstFree` | kernel/mm.c:27-32 | The least frame of a range whose count is 0, or the end of the range when all are taken. |
| `Frames.FreeCountTake` | kernel/mm.c:28-30 | Taking a free frame lowers the number of free frames by one in every range that has it. |
| `Frames.FreeCountZero` | kernel/mm.c:27-33 | The scan finds nothing exactly when no frame is free. |
| `Frames.FrameMap.GetFreePage` | kernel/mm.c:25-36 | Hands out the lowest frame of the kernel area whose count was 0, and sets that count only; 0 stands for the endless scan when there is none. |
| `Frames.FrameMap.UGetFreePage` | kernel/mm.c:38-50 | User memory first, the kernel area only when that is full; only a frame with count 0; 0 stands for the endless scan when both are full. |
| `PageWalk.IdentityWalk` | kernel/mm.c:66-79 | Where the tables are an identity map, the page walk returns the address itself, writable, for the kernel only. |
| `PageWalk.WalkByAddress` | kernel/mm.c:66-108 | The walk by the address bits 31 to 22, 21 to 12 and 11 to 0 and the entry bits 0, 1 and 2, as the processor does it. |
| `PageWalk.WalkFrame` | kernel/mm.c:66-108 | The walk depends on nothing but the directory and the tables it names. |
| `PagingSpec.FilledBuilt` | kernel/mm.c:72-76 | Filling a table in a frame that was free damages neither the directory nor an earlier table, and extends the identity map. |
| `PagingSpec.ClearedBuilt` | kernel/mm.c:77-78 | Clearing a slot beyond KMEM keeps what was built. |
| `PagingSpec.OpenedInv` | kernel/mm.c:66-79 | The finished directory: tables in distinct taken kernel frames, identity below KMEM, slots above it absent. |
| `PagingSpec.OpenedByAddress` | kernel/mm.c:66-79 | The same as the processor sees it: which addresses translate to themselves, which slots are the kernel's, which are absent, which entries are left over. |
| `PagingSpec.FilledFresh` | kernel/mm.c:72-76 | Only frames that were free are written, and entries beyond KMEM keep what the frame held before. |
| `PagingSpec.PutKeepsTables` | kernel/mm.c:89-108 | Mapping a page keeps identity map, table frames and their separation exactly when the page is not below KMEM, with or without a new table. |
| `PagingSpec.FaultsFromKmem` | kernel/mm.c:170-174 | A walk that faults starts at an address that is not below KMEM. |
| `PagingSpec.PutKeepsPte` | kernel/mm.c:105-106 | In slots that had a table, no entry but that of the mapped page changes. |
| `PagingSpec.PutOtherWalk` | kernel/mm.c:102-106 | What every other address translates to afterwards: the same as before, or, where a new table was hung in uncleared, what its frame held. |
| `PagingSpec.OtherWalkKept` | kernel/mm.c:102-106 | Another page keeps its translation exactly when the slot had a table, the page is of another slot, or the leftover entry is not present. |
| `PagingSpec.LeftoverReachesDirectory` | kernel/mm.c:102-106 | In every state that needs a new table, one leftover word makes another page of the slot lead to the directory itself, writable for user code. |
| `PagingSpec.MappedStays` | kernel/mm.c:102-106 | A translation that was there survives the mapping of any other page. |
| `PagingSpec.PutMaps` | kernel/mm.c:102-106 | The mapped page has a present directory entry and the entry `pd | 7`. |
| `PagingSpec.FaultKeepsDemand` | kernel/mm.c:170-174 | After a fault every page served so far still leads to its own frame, and the frames are pairwise different and no tables. |
| `PagingSpec.FaultEffect` | kernel/mm.c:170-174 | A fault as a whole: all served pages keep or get their own frames, no taken frame outside the tables is written or becomes a table, and no frame is given back. |
| `PagingSpec.DemandWalk` | kernel/mm.c:102-106 | A served page translates to its frame, writable; for user code only from the slot behind the identity map on, because slot KMEM>>22 was opened with flags 3. |
| `Paging.AddressSpace.FillSlot` | kernel/mm.c:72-76 | One table of the identity map, hung into its slot, with exactly the entries below KMEM set. |
| `Paging.AddressSpace.OpenPagination` | kernel/mm.c:66-87 | With enough free frames, of which it takes exactly the needed number: identity map below KMEM, nothing above its last slot, tables in distinct frames, nothing written but kernel frames that were free; what lies in the last table beyond KMEM is left over. |
| `Paging.AddressSpace.OpenSlots` | kernel/mm.c:70-79 | The loop over the directory takes one frame for each slot up to KMEM>>22 and keeps what was built. |
| `Paging.AddressSpace.DemandableExact` | kernel/mm.c:170-174 | A fault can be served exactly when the scan for the page finds a frame, and after it the scan for a table if the slot has none. |
| `Paging.AddressSpace.PutPage` | kernel/mm.c:89-108 | For any address: refuses a frame with count 0 without any change; otherwise sets the one entry and takes a frame for a table only if there was none. The identity map survives exactly if the page was refused or is not below KMEM. |
| `Paging.AddressSpace.DoNoPage` | kernel/mm.c:170-174 | The page gets the lowest free frame, user memory first, and if it needs a table the lowest free kernel frame; every earlier page keeps its frame, every other address translates as before or by a leftover entry of a new table, and no taken frame outside the tables is written. |
| `Paging.AddressSpace.CreateMm` | kernel/mm.c:112-134 | A new directory in a frame whose count was 0, beside the marking of the old one: its first 256 entries are those of the old, and nothing else of memory changes after the marking. |
| `SharingSpec.SharedWalk` | kernel/mm.c:112-134 | Below 1 GB the new directory translates every address as the old one does, and as before but for the write permission; above, its entries are what the frame held. |
| `Paging.AddressSpace.MarkTable` | kernel/mm.c:121-126 | Exactly the present entries lose the write bit; the count of each frame rises by the number of present entries naming it, modulo 256. |
| `Paging.AddressSpace.MarkShared` | kernel/mm.c:118-130 | The same for all slots from KMEM>>22 on, tables included, and nothing else is written. |
| `SharingSpec.MarkedWalk` | kernel/mm.c:118-130 | The pass changes no translation but for the write permission from slot KMEM>>22 on. |
| `SharingSpec.SlotStepCounts` | kernel/mm.c:119-129 | One slot raises each count by the references its table and the slot itself hold to that frame. |
| `SharingSpec.DirRefsCount` | kernel/mm.c:118-130 | What a frame's count rises by is the number of present directory entries plus the number of present entries of their tables that name it. |
| `SharingSpec.SlotInPlace` | kernel/mm.c:120-121 | A slot not yet reached is as it was, and masking with ~0x3ff finds its table although two flag bits are left in. |
| `ByteOrder.SwappedShortOnWire` | include/net/in.h:5-9 | The swapped word as this machine stores it reads on the wire as the word; swapping twice is nothing. |
| `ByteOrder.SwappedLongOnWire` | include/net/in.h:11-22 | The same for 32 bits, through the shifts and half-swaps of the macro. |
| `Checksum.CheckSum` | net/ip.c:9-16 | The 32-bit loop with its two folds computes the checksum of RFC 1071 for up to 65537 words, and for any number the residue of the wrapped sum. |
| `Checksum.OnesSumIsResidue` | net/ip.c:11-15 | Adding with end-around carry word by word equals the residue of the plain sum, 0 only for the sum 0. |
| `Checksum.FoldsSuffice` | net/ip.c:13-15 | Two folds reduce every 32-bit sum completely. |
| `Checksum.WrapExact` | net/ip.c:10-12 | Exactly which sums survive the wrap of the accumulator. |
| `Checksum.BoundIsTight` | net/ip.c:10-12 | 65538 words of 0xFFFF give a wrong checksum: the bound of 65537 cannot be raised. |
| `Checksum.SwapAdd` | net/ip.c:12 | One's-complement addition commutes with swapping bytes. |
| `Checksum.ByteOrderIndependent` | net/ip.c:9-16 | Swapping every input word swaps the result, for a list of any length (RFC 1071, section 2(B)). |
| `Checksum.Verifies` | net/ip.c:48 | Which value of a word makes the whole header check out: the checksum taken with that word 0, and 0xFFFF beside 0. |
| `Checksum.StoredVerifies` | net/ip.c:48 | A checksum stored in a word that was 0 makes the whole header check out, wherever the word is. |
| `Checksum.StoredOverLeftover` | net/ip.c:38-48 | Taken over a leftover word, it does so exactly when the leftover was 0 or 0xFFFF. |
| `Ring.LaidShift` | net/ne2k/ne2k.c:237 | Moving the reader on changes where the remaining packets are counted from and nothing else, across the end of the ring. |
| `Ring.LaidAppend` | doc/ne2kReg:49-57 | A packet stored behind the others is read after them. |
| `Ring.LaidFrame` | doc/ne2kReg:49-57 | Writes outside the pages in use disturb no packet that waits. |
| `Ring.RawGuardExact` | net/ne2k/ne2k.c:237 | The adapter's comparison with the raw boundary register guards the unread pages exactly in those states where the register lies in the ring; after a packet that ended on the last page it does not. |
| `NeRecv.Receiver.constructor` | net/ne2k/ne2k.c:125-127 | An empty ring with boundary 0x46 and current page 0x47. |
| `NeRecv.Receiver.NICtoPC` | net/ne2k/ne2k.c:86-99 | Reads the bytes in order, going round at the end of the ring, rounded up to whole words, and leaves a remote read in the command register. |
| `NeRecv.Receiver.Deposit` | doc/ne2kReg:49-57 | The packet joins those that wait, or is refused exactly when it does not fit before the reader; every waiting packet stays intact. |
| `NeRecv.Receiver.ReadHeader` | net/ne2k/ne2k.c:220-225 | Decodes the next page and the length from the four bytes in the ring; they are those of the oldest packet. |
| `NeRecv.Receiver.Consume` | net/ne2k/ne2k.c:232-237 | Returns the oldest packet byte for byte and sets the boundary to one less than the page its header names, 0x45 for page 0x46. |
| `NeRecv.Receiver.Reset` | net/ne2k/ne2k.c:227-230 | The error branch leaves an empty ring with boundary 0x7F and current page 0x46, and a command register that reads ready. |
| `NeRecv.Receiver.Recv` | net/ne2k/ne2k.c:207-242 | First in, first out: nothing, the reset, or exactly the oldest packet byte for byte; the command register keeps a remote read exactly when a header was read and the ring not reset. |
| `NeRecv.Receiver.GetCurrent` | include/net/ne2k/ne2k.h:200-206 | Reads CURR by way of register page 1 and leaves the command register ready, a transmission untouched. |
| `NeRecv.Receiver.RingKept` | net/ne2k/ne2k.c:193-199 | Writing below the receive pages leaves the ring as it is. |
| `NeRecv.ConsumeLaid` | net/ne2k/ne2k.c:237 | The boundary value `next - 1` decodes to `next` again, and the rest of the ring is laid out from there. |
| `Messages.ExtentExact` | net/ne2k/ne2k.c:194-198 | Sending stays within a room of any size exactly when the chain does, unless it fills the room to the last byte and ends in an odd piece. |
| `Messages.SpillExample` | net/ne2k/ne2k.c:101-103 | For every room there is a chain of just that length whose pad byte spills over. |
| `Messages.ConcatLength` | net/ne2k/ne2k.c:194-198 | A chain sends the sum of its lengths, and touches at most one byte more. |
| `SendQueue.Add` | net/ne2k/ne2k.c:67-75 | Recursive append: one new node at the end, all other nodes and messages as before. |
| `SendQueue.Del` | net/ne2k/ne2k.c:79-85 | What is left is a sound list of all messages but the oldest, in order. |
| `NeSend.Transmitter.PCtoNIC` | net/ne2k/ne2k.c:100-114 | Writes the bytes in order, rounded up to whole words, and nothing else, and leaves a remote write in the command register. |
| `NeSend.Transmitter.Gather` | net/ne2k/ne2k.c:193-198 | Transmit RAM holds exactly the concatenation of the pieces although odd ones are padded in between; only the last pad byte remains, and nothing beyond the extent is written. |
| `NeSend.Transmitter.Send` | net/ne2k/ne2k.c:183-203 | The chain waits at the end of the queue exactly when the command register reads 0x26; otherwise it goes to the adapter as a whole, and a message that was still being transmitted is overwritten. |
| `NeSend.Transmitter.Start` | net/ne2k/ne2k.c:193-199 | RAM from 0x4000 on, page, byte count and command are those of the new message; what was under way is recorded as lost. |
| `NeSend.Transmitter.Complete` | net/ne2k/ne2k.c:199 | The bytes that the count register makes the adapter send are exactly the concatenation of the pieces of the message under way, and the queue stays. |
| `NeSend.Transmitter.Next` | net/ne2k/ne2k.c:256-262 | The front of the queue goes to its end, before it leaves the front, when the register reads 0x26, and out otherwise, over whatever is under way; nobody else moves. |
| `NeSend.GatherPiece` | net/ne2k/ne2k.c:194-198 | Each piece overwrites the pad byte of the one before and continues where that ended. |
| `Ne2kSpec.LaidPages` | doc/ne2kReg:49-57 | The pages in use are those of the packets that wait, so that room depends on them alone and not on where the ring stands. |
| `Ne2kSpec.FitsExact` | net/ne2k/ne2k.c:193-199 | The messages that runs submit are all chains of at most 0x600 bytes, an odd last piece counted with its pad byte. |
| `Ne2kSpec.ReceptionFirst` | net/ne2k/ne2k.c:251-256 | A status with both bits set starts and turns no message. |
| `Ne2kSpec.StepAccounts` | net/ne2k/ne2k.c:183-263 | Every event keeps the multiset of messages that wait, are under way, sent or overwritten, or adds the one submitted. |
| `Ne2kSpec.RunAccounts` | net/ne2k/ne2k.c:183-263 | The same over every interleaving, and the messages lost are exactly those overwritten under way, in order. |
| `Ne2kSpec.RunConserves` | net/ne2k/ne2k.c:183-263 | Waiting plus under way plus sent equals what was there plus what was submitted, as multisets, exactly for the runs that overwrite nothing under way. |
| `Ne2kSpec.ReadsApartConserve` | net/ne2k/ne2k.c:188 | Runs in which no packet is read while a message is under way overwrite nothing. |
| `Ne2kSpec.ReadThenSubmit` | net/ne2k/ne2k.c:188 | In every state with a message under way and a packet that can be read, reading it and then submitting loses the message. |
| `Ne2kSpec.SubmitInLine` | net/ne2k/ne2k.c:187-200 | A submitted message comes behind all others exactly when it waits, or the adapter is idle and none but equal ones wait. |
| `Ne2kSpec.AdvanceInLine` | net/ne2k/ne2k.c:259-262 | The handler keeps the order exactly when nothing waits, the adapter is idle, or it reads busy and all that wait are equal. |
| `Ne2kSpec.StepInLine` | net/ne2k/ne2k.c:183-263 | A step keeps the order of submission exactly when the guard of its branch holds. |
| `Ne2kSpec.RunInLineExact` | net/ne2k/ne2k.c:183-263 | A run keeps the order of submission after each of its events exactly when every step meets its guard. |
| `Ne2kSpec.RunInLine` | net/ne2k/ne2k.c:183-263 | Runs whose every step meets its guard keep the order of submission. |
| `Ne2kSpec.SentInLine` | net/ne2k/ne2k.c:183-263 | What such a run has sent is a prefix of what was in line and what was submitted, in order. |
| `Ne2kSpec.OvertakingExample` | net/ne2k/ne2k.c:188-199 | In any state that reads busy with an empty queue, the next message submitted can be overtaken by the one after it. |
| `Ne2kSpec.RotationsCancel` | net/ne2k/ne2k.c:259-262 | Two turns of a queue of two restore it, so that a run in order at its end only need not meet the guards. |
| `Ne2kSpec.RunDelivers` | net/ne2k/ne2k.c:207-242 | Packets handed on and packets left are, in order, those that were there and those stored, exactly for the runs that never reset the ring. |
| `Ne2kSpec.RunKeepsOrder` | net/ne2k/ne2k.c:207-242 | What was received since the last reset is a prefix of what was stored since, and the end of all that was handed to the kernel. |
| `Ne2k.Driver.DoSubmit` | net/ne2k/ne2k.c:183-203 | A client's call does what the outside view says, and leaves the receive ring alone. |
| `Ne2k.Driver.DoArrive` | doc/ne2kReg:49-57 | An arriving packet is stored exactly when there is room, and leaves the message under way in transmit RAM alone. |
| `Ne2k.Driver.DoInterrupt` | net/ne2k/ne2k.c:243-263 | The handler serves the reception, or else the completion, or nothing, as the outside view says, and the message that a reception returns has the bytes of the oldest packet. |
| `Ne2k.Driver.Step` | net/ne2k/ne2k.c:183-263 | RAM, registers and list nodes refine the outside view for every event, and a message is returned exactly when a packet is handed on, with its bytes. |
| `Ne2k.Driver.RunEvents` | net/ne2k/ne2k.c:183-263 | Refinement over every interleaving; the messages returned by `neRecv` are, one for one and byte for byte, the packets handed on. |
| `Ne2k.Driver.Run` | net/ne2k/ne2k.c:183-263 | Over every interleaving: messages returned are the packets handed on byte for byte, bytes on the wire are those of the messages sent, messages are conserved exactly when none was overwritten under way, packets exactly when the ring was never reset, in order. |
| `Ne2k.NeInit` | net/ne2k/ne2k.c:115-143 | Initialisation yields a sound driver with nothing in it. |
| `Stack.ChainLength` | net/ip.c:31-35 | The 16-bit counter holds the length of the datagram modulo 65536. |
| `Stack.IpPiece` | net/ip.c:24-48 | The header piece in network order, with its flags and its checksum word as the allocation held them, and the checksum taken over them. |
| `Stack.UdpPiece` | net/udp.c:10-18 | The UDP header in front of the payload; its length counts the first piece only. |
| `Stack.EthSend` | net/ethernet.c:15-27 | The Ethernet header in front of the chain, its type in network order. |
| `Encapsulation.UdpSend` | net/udp.c:7-21 | The chain handed to the driver is 42 bytes longer than the payload and flattens to the three headers, their lengths modulo 65536, and the payload. |
| `Encapsulation.SendDatagram` | net/udp.c:7-21 | The whole way from `udpSend` over an adapter that does not read busy to the wire: what a receiver makes of the bytes that went out. |
| `Encapsulation.RoundTrip` | net/udp.c:7-21 | A receiver that checks the header checksum and takes no fragments gets back addresses, identification, time to live, ports and the first piece exactly when the leftover in the header is harmless; one that wants the UDP length to cover the IP payload exactly when in addition the payload is one piece. |
| `Encapsulation.GatheredRoundTrip` | net/ne2k/ne2k.c:193-199 | The same from the bytes that the driver has gathered in the adapter, as many as the message is long. |
| `Encapsulation.DecodeFrame` | net/udp.c:14-17 | Once kinds and lengths are right, there is time to live and no UDP checksum, acceptance depends on fragmentation, header checksum and, for a strict receiver, the UDP length. |
| `Encapsulation.HeaderAccepted` | net/ip.c:38-48 | The header is taken for a whole datagram with a right checksum exactly when the leftover flag bits are 0 and the leftover checksum word is 0 or 0xFFFF. |
| `Encapsulation.IpHeaderReads` | net/ip.c:37-48 | Storing the checksum leaves version, service, length, identification, fragment word, time to live, protocol and both addresses readable in place. |
| `Encapsulation.HeaderChecks` | net/ip.c:38-48 | The header passes a receiver's check exactly when its checksum word held 0 or 0xFFFF before, if the zero-length clearing of the header writes nothing. |

## Left out

- Heap.KernelHeap.Malloc: does not cover requests for 0 bytes, which would take the sentinel off its own list, or above 0xFFFFFFFC, where rounding wraps to 0; the result NULL stands for the endless scan of `get_free_page`; re-entry from the interrupt handler is not modelled.
- Heap.KernelHeap.Free: is given a live pointer or NULL, as the source demands without looking.
- Frames.FrameMap.GetFreePage: a scan that finds nothing is repeated for ever in the source; here it ends with the result 0, which stands for that.
- Frames.FrameMap.UGetFreePage: the same when both areas are full.
- Heap.KernelHeap.Grow: the result 0 stands for the endless scan of `get_free_page`.
- Heap.KernelHeap.Enlarge: the result 0 stands for the endless scan of `get_free_page`.
- Heap.KernelHeap.Search: the result 0 stands for the endless scan of `get_free_page`.
- Kernel.Machine.DoAlloc: the result 0 stands for the endless scan of `get_free_page`.
- Paging.AddressSpace.OpenPagination: has enough free frames, and KMEM is at most 1 GB; the switch of CR0 is not modelled. A last page that KMEM cuts off is not mapped, as in the source.
- Kernel.Machine.Run: has no operation for a direct call of `put_page`, whose one caller is the fault handler, or of `create_mm`, which nothing calls.
- The accessed and dirty bits that the processor sets in directory and table entries are not modelled; entries are as the kernel wrote them.
- Paging.AddressSpace.CreateMm: the reload of CR3 is not modelled, and no claim is made that the address space is still sound for further faults, because the pass may take the write permission from identity-mapped pages.
- Paging.AddressSpace.DoNoPage: is called for an address not below KMEM, since no other faults (`PagingSpec.FaultsFromKmem`), and with frames to serve it, since the source would scan for ever without.
- NeSend.Transmitter.Gather: takes chains whose pieces are not empty and that end within the adapter's RAM; the allocation of an odd piece reaches over its pad byte, as the rounding of `malloc` sees to.
- NeSend.Transmitter.Complete: stands for the adapter, which reads its RAM in one go; its timing, errors and the bits of the transmit status are not modelled. Nothing is said of what goes over the wire for a message that was overwritten under way, and the adapter is taken to finish once for both.
- NeRecv.Receiver.Deposit: stands for the adapter; packets have at least one byte, and it refuses a packet that would reach the page the driver reads next. Page 0x7F, the value written to PSTOP, belongs to the ring and remote DMA goes round behind it, as the register notes say (CURR exceeds PSTOP); on an adapter that takes PSTOP for the first page outside, the ring is one page shorter and the reset value of the boundary lies outside it.
- NeRecv.Receiver.Recv: the branch for a next page outside the ring is never taken here, because every stored header is right.
- NeRecv.Receiver.Reset: stopping the adapter for the moment in which CURR is written does not end a transmission.
- Ne2k.Driver.Step: every call of the driver is one step; a completion or a deposit in the middle of a gather or of `neRecv` is not an interleaving of the model.
- Ne2k.Driver.DoSubmit: takes messages that cannot reach the receive pages. Whether a message is ever sent is not claimed: a status with both bits set serves the receive side only.
- SendQueue.Add: the node's allocation is an object creation, and `free` of a dropped node is not modelled.
- Encapsulation.UdpSend: addresses from `hostIp`, `ipToMac` and `hostMac` are parameters, and so is what the allocation of the IP header held; a failed allocation is not modelled.
- Stack.IpPiece: the call of `memset` with length 0 is taken to write nothing, as a compiler that knows `memset` makes it; the body in c/string.c:13-21 would run its `loop` 2^32 times.
- Encapsulation.Decode: takes no frame with a UDP checksum, since no sum over the payload is modelled; `udpSend` sends none.
- Encapsulation.HeaderChecks: rests on the same reading of the call of `memset`.
- Chains of message pieces are values, not nodes: sharing of a piece between two chains is not captured. None of the modelled code writes to a chain it was given.
- Words at addresses that are not multiples of 4, and single bytes of kernel memory, are not modelled; headers, tables and rounded sizes never need them.
- `free_page`, copy-on-write (`un_wpte_page`, `un_wp_page`, `do_wp_page`) and the switch between address spaces.
- Boot-time memory detection (`mmap_init`, `mm_init`): KMEM, HMEM and the first frame map are parameters.
- The ARP cache, the receiving half of the stack beyond `neRecv`, and the console.
- Register and port I/O but for the command, count and ring registers; delays, waiting for remote DMA, `cli` and `sti`, the interrupt controller.
- `neInit` apart from the state of the ring and of the command register that it leaves.

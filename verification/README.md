# Paging simulator with FIFO page replacement, in Dafny

This project models `MemoryManagement.cpp`, a small paging simulator. The
simulator has 16 logical pages and 8 physical frames of 1024 bytes each. It
reads logical addresses one at a time and splits each one into a page number
and an offset. When the page has no frame (a page fault), it takes the frame
that was assigned longest ago from its owner and gives it to the page. It then
prints the physical address.

The modules follow the parts of the program:

- `Config` holds the four constants of the configuration.
- `Search` covers `numInVector`. `IndexOf` is the specification of the
  first-index search. `NumInVector` is its loop, proved against it.
- `FifoTable` holds the page/frame table as a value: the page table
  (`pages`, where `UNMAPPED` = -1 means no frame) and the queue of allocated
  frames. It defines `Rotate` (cycleFrame) and `Allocate` (allocateFrame), the
  FIFO invariant `Inv`, and the lemmas about them.
- `PageFrames.PageFrameTable` is the class. It has the two vectors as `seq`
  fields that its methods update in place. Each method is proved against the
  value-level operation of `FifoTable`.
- `Translation` models one iteration of the main loop, without the console,
  as the function `Translate`. It takes a state (table, secondary-storage
  record) and a logical address, and returns the report (`StepResult`) and the
  next state. `Run` feeds a finite sequence of addresses through it.
- `Simulator.Session` is the main loop's state as an object. Its `Step` method
  mirrors the body of the loop and is proved to compute `Translate`.
- `Format` covers `leadingZeros`, the zero padding of the printed
  hexadecimal fields.
- `Scenarios` holds concrete runs with the fixed configuration.

Two behaviours of the source are kept as written:

- `allocateFrame` writes the page's entry before it clears the old owner's
  entry. Allocating the front frame to the page that already owns it
  therefore leaves that page unmapped (`FifoTable.AllocateToOwnerUnmaps`). The
  main loop only allocates to unmapped pages, and the invariant lemmas require
  exactly that.
- The bounds check in the main loop rejects addresses *greater than*
  `PAGE_SIZE * NUM_PAGES`. The address 0x4000 itself passes the check and is
  reported as invalid page 16, and the session goes on
  (`Translation.TranslateInvalidPage`).

On a fault the main loop has two branches. If the page is already in the
secondary-storage record, it allocates the page number stored at the found
position. Otherwise it records the page and allocates it. Both branches
allocate the faulting page itself (`Translation.TranslateFaultAllocatesPage`).

## Model

| member | source | states |
|---|---|---|
| `Search.IndexOf` | MemoryManagement.cpp:13-20 | the result is the first index holding the value, or -1 exactly when the value does not occur; it lies in [-1, length) |
| `Search.NumInVector` | MemoryManagement.cpp:13-20 | the loop returns the first index holding `num`, or -1 when `num` is absent, always within [-1, length) |
| `PageFrames.PageFrameTable.constructor` | MemoryManagement.cpp:29-37 | the page table has NUM_PAGES entries; entry p is p for p < NUM_FRAMES and -1 otherwise; the queue is 0, 1, …, NUM_FRAMES-1; the table satisfies the FIFO invariant |
| `FifoTable.FrameIdsMembers` | MemoryManagement.cpp:33-36 | the queued frame numbers 0, 1, … are exactly the numbers below the frame count |
| `FifoTable.Initial` | MemoryManagement.cpp:29-37 | the initial table has one entry per page and one queued frame per frame; a page is mapped iff its number is below the frame count, and then to the frame of the same number; the queue holds exactly the frames 0 .. numFrames-1 |
| `FifoTable.InitialInv` | MemoryManagement.cpp:29-37 | for any 0 < numFrames <= numPages the initial table satisfies the FIFO invariant |
| `PageFrames.PageFrameTable.GetFrameNumber` | MemoryManagement.cpp:39-42 | returns the page's entry; under the invariant that entry is -1 or one of the allocated frames |
| `FifoTable.Rotate` | MemoryManagement.cpp:45-52 | rotating the queue keeps its length and multiset of frames, moves every frame one place forward and puts the front frame last |
| `PageFrames.PageFrameTable.CycleFrame` | MemoryManagement.cpp:45-52 | the shifting loop plus pop/push leaves the queue rotated by one (`Rotate`) and the page table unchanged |
| `PageFrames.PageFrameTable.AllocateFrame` | MemoryManagement.cpp:55-63 | the new table is `Allocate` of the old one; on an unmapped page the FIFO invariant is kept |
| `FifoTable.Allocate` | MemoryManagement.cpp:55-63 | allocation keeps the length of the page table and of the queue; its behaviour is stated by the lemmas below |
| `FifoTable.AllocateReplaces` | MemoryManagement.cpp:55-63 | on an unmapped page whose front frame f has an owner: the page gets f, the owner becomes unmapped, every other entry is unchanged, the queue is rotated once |
| `FifoTable.AllocateWithoutOwner` | MemoryManagement.cpp:55-63 | when no page holds the front frame, neither vector changes |
| `FifoTable.AllocateToOwnerUnmaps` | MemoryManagement.cpp:59-61 | allocating the front frame to its own owner leaves that page unmapped and still rotates the queue |
| `FifoTable.AllocateIsFifo` | MemoryManagement.cpp:44-63 | the frame handed out is the former front of the queue and becomes its last element; the other frames keep their order |
| `FifoTable.AllocatePreservesInv` | MemoryManagement.cpp:23-63 | allocating to an unmapped page keeps the invariant: the queue is a permutation of 0..NUM_FRAMES-1, no two pages share a frame, a frame is mapped iff it is queued, exactly NUM_FRAMES pages are mapped |
| `FifoTable.QueueIsFrameRange` | MemoryManagement.cpp:23-37 | under the invariant a frame is queued iff it lies in 0..numFrames-1 |
| `FifoTable.EntryIsFrame` | MemoryManagement.cpp:39-42 | under the invariant every page-table entry is -1 or a frame number in range |
| `FifoTable.MappedFramesAreQueued` | MemoryManagement.cpp:23-63 | under the invariant the set of mapped frames equals the set of queued frames, which equals {0..numFrames-1} |
| `FifoTable.MappedCountUpdate` | MemoryManagement.cpp:59-60 | overwriting one page-table entry changes the number of mapped pages by the difference of the new and old entries |
| `Format.LeadingZeros` | MemoryManagement.cpp:67-80 | the padding consists only of '0' characters and is at most three long |
| `Format.LeadingZerosPadsToFour` | MemoryManagement.cpp:67-80 | for 0 <= address <= 0xFFFF the padding plus the hexadecimal digits of the address are exactly four characters |
| `Format.LeadingZerosWideAddress` | MemoryManagement.cpp:77-79 | above 0xFFFF there is no padding and the address has more than four hexadecimal digits |
| `Format.HexDigitCount` | MemoryManagement.cpp:126-128 | every number has at least one hexadecimal digit |
| `Translation.SplitAddress` | MemoryManagement.cpp:102-103 | page number times PAGE_SIZE plus offset gives back the address, the offset is below PAGE_SIZE, and the page number is valid iff the address is below PAGE_SIZE * NUM_PAGES |
| `Translation.PhysicalAddress` | MemoryManagement.cpp:123 | frame times FRAME_SIZE plus an offset below FRAME_SIZE decomposes back into that frame and offset by division and remainder |
| `Translation.PhysicalAddressInMemory` | MemoryManagement.cpp:123 | a physical address built from a frame in range and an offset below FRAME_SIZE is below physical memory's size |
| `Translation.Translate` | MemoryManagement.cpp:96-134 | one iteration keeps the table's shape: NUM_PAGES entries and a queue of unchanged length |
| `Translation.TranslateEndsSession` | MemoryManagement.cpp:96-99 | the session ends exactly on -1 and on addresses above PAGE_SIZE * NUM_PAGES, with the state unchanged |
| `Translation.TranslateInvalidPage` | MemoryManagement.cpp:96-106 | an invalid page is reported exactly for the address PAGE_SIZE * NUM_PAGES, as page NUM_PAGES, with the state unchanged |
| `Translation.TranslateHitKeepsState` | MemoryManagement.cpp:106-123 | a mapped page translates to its frame times FRAME_SIZE plus the offset, and the table and storage record do not change, so the frame's place in the queue is not refreshed |
| `Translation.TranslateFaultAllocatesPage` | MemoryManagement.cpp:109-118 | on a fault both branches allocate the faulting page itself, and the page is appended to the storage record iff it is not in it yet |
| `Translation.TranslateFaultRequeries` | MemoryManagement.cpp:120-123 | after a fault the physical address is computed from the page's entry in the new table |
| `Translation.TranslateFaultInRange` | MemoryManagement.cpp:109-123 | a fault on a valid state maps the page to a frame in range, yields a physical address inside physical memory, and keeps the session invariant |
| `Translation.TranslateInRange` | MemoryManagement.cpp:102-123 | every address below PAGE_SIZE * NUM_PAGES is translated: page and offset recombine to the address, the page ends up on a frame in range, and the physical address lies inside physical memory; the session invariant is kept |
| `Translation.TranslateKeepsValid` | MemoryManagement.cpp:90-134 | every iteration keeps the session invariant (FIFO invariant of the table, storage record without duplicates and of valid page numbers) |
| `Translation.Start` | MemoryManagement.cpp:85-86 | a session starts with the constructor's table and an empty storage record, and that state satisfies the session invariant |
| `Translation.Run` | MemoryManagement.cpp:90-135 | a finite run reports at most one result per address and keeps the table's shape; how its reports line up with the addresses is stated by `Translation.RunReportsInOrder` |
| `Translation.RunReportsInOrder` | MemoryManagement.cpp:89-99 | report k answers addresses[k] (a translation carries addresses[k] as its logical address); report k ends the session iff addresses[k] is -1 or above PAGE_SIZE * NUM_PAGES; only the last report can end the session, and a run shorter than its input ends with it |
| `Translation.RunKeepsValid` | MemoryManagement.cpp:90-135 | over any finite run from a valid state, every translated address recombines from its page and offset and lies inside physical memory, and the final state is valid |
| `Simulator.Session.constructor` | MemoryManagement.cpp:85-86 | a new session holds the initial table and an empty storage record, and satisfies the session invariant |
| `Simulator.Session.Step` | MemoryManagement.cpp:96-134 | the in-place iteration reports and leaves exactly what `Translate` gives for the old state, and keeps the session invariant |
| `Scenarios.StartSpelledOut` | MemoryManagement.cpp:29-37 | the start state is pages 0..7 on frames 0..7, pages 8..15 unmapped, queue 0..7, empty storage record |
| `Scenarios.IdentityMappedHit` | MemoryManagement.cpp:102-123 | from the start state 0x1234 is page 4, offset 0x234, and translates to 0x1234 without changing the state |
| `Scenarios.StartVictimOwner` | MemoryManagement.cpp:56-57 | in the start table the front frame 0 is owned by page 0 |
| `Scenarios.AllocateFromStart` | MemoryManagement.cpp:55-63 | from the start table, allocating to page 8 takes frame 0 from page 0 and moves frame 0 to the back of the queue |
| `Scenarios.SecondVictimOwner` | MemoryManagement.cpp:56-57 | after that allocation the front frame 1 is owned by page 1 |
| `Scenarios.AllocateAfterPage8` | MemoryManagement.cpp:55-63 | next, allocating to page 0 takes frame 1 from page 1 and moves frame 1 to the back of the queue |

## Left out

- Console I/O is not modelled: the prompt, `std::cin >> std::hex` parsing, the behaviour of a failed parse, and the printed report lines. An iteration returns a `StepResult` value instead. `Format.LeadingZeros` models only the padding, not the stream formatting.
- Negative logical addresses other than the sentinel -1 are excluded by precondition. C++ division truncates toward zero, so -1023..-2 would give page 0 with a negative offset. -1024 and below would give a negative page number. That page number passes the page check at MemoryManagement.cpp:106, and `getFrameNumber` would then index the page table out of bounds (line 41), which is undefined behaviour.
- `PageFrames.PageFrameTable.CycleFrame` requires a non-empty queue. On an empty queue the source's `size() - 1` wraps around as an unsigned value, and the table never has an empty queue.
- `PageFrames.PageFrameTable.AllocateFrame`, `FifoTable.Allocate` and `Translation.WellFormed` (and so `Translation.Translate`, `Translation.Run` and `Simulator.Session.Step`) also require a non-empty queue. `allocateFrame` reads the queue's `front()`, which is undefined on an empty vector. The queue always holds NUM_FRAMES frames under the invariant.
- Process exit and the loop over standard input are not modelled. `Translation.Run` models the loop over a finite sequence of addresses, and it stops at the first report that ends the session.
- The fixed-width `int` of the source is not modelled. Addresses that end the session may be any `int`, but they only enter the comparisons of the bounds check. The values that reach the arithmetic are small: the address is at most 0x4000, the page number at most 16, the offset at most 0x3FF, and the physical address is below 0x2000 under the invariant (`Translation.TranslateInRange`). None of these is near a 32-bit overflow.
- `FifoTable.Allocate`: its own contract only states that the lengths are kept. Its behaviour is stated by `FifoTable.AllocateReplaces`, `FifoTable.AllocateWithoutOwner`, `FifoTable.AllocateToOwnerUnmaps`, `FifoTable.AllocateIsFifo` and `FifoTable.AllocatePreservesInv`.
- `Translation.Translate`: its own contract only states that the table's shape is kept. Its behaviour is stated by the lemmas listed after it in the table.

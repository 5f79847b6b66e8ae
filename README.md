# sim_mem: a verified model of a demand-paging simulator

The simulator gives one process a logical address space made of four segments
(text, data, bss, heap and stack). It keeps a page table with one descriptor per
logical page and 256 bytes of physical memory. `load(address)` and
`store(address, value)` check the address against `MEMORY_SIZE` and split it
into a page number and an offset. If the page's descriptor is not valid, a page
fault reads one page of the executable image into the frame of the same number
and marks the descriptor valid. The access then goes to
`frame * page_size + offset`.

The model has these modules:

- `PageTable` (`page_table.dfy`): `MEMORY_SIZE` (256), the `NO_SWAP` sentinel (-1),
  the `PageDescriptor` record (`valid`, `frame`, `dirty`, `swapIndex`), and the
  table the constructor builds.
- `Layout` (`layout.dfy`): page counts per segment and in total.
- `Translation` (`translation.dfy`): splitting an address and translating it back,
  the file offset of a faulting page, and the positioned read from the image.
- `MemoryModel` (`memory_model.dfy`): the state (physical memory and page table)
  as a value, and the effect of the page-fault path, `load` and `store` on it.
- `Properties` (`properties.dfy`): lemmas relating several calls.
- `SimMem` (`sim_mem.dfy`): the class `SimMem`. It has an `array<char>` of 256
  bytes for physical memory and an `array<PageDescriptor>` for the page table.
  `Load`, `Store` and the page-fault path update these arrays in place, and are
  each proved to change them exactly as `MemoryModel.Load`, `MemoryModel.Store`
  and `MemoryModel.PageFault` say. The constructor is proved to zero all 256
  bytes and to build a table equal to `PageTable.InitialTable`.
- `Driver` (`driver.dfy`): a client in the demo driver's configuration.

Modelling decisions:

- **Page table.** The source indexes the table as
  `page_table[page_number / num_of_pages][page_number % num_of_pages]`.
  Each `page_table[j]` points to a single descriptor allocated on its own
  (sim_mem.cpp:54), so `page_table[0][p]` reads past that descriptor for every
  page 1 <= p < num_of_pages, and a page that is a multiple of num_of_pages
  reaches descriptor p / num_of_pages instead of its own. The model indexes a
  flat table by page number instead.
- **Page-table bound.** The source never checks that the page number is inside
  the table. The model makes this a precondition of `Load` and `Store`
  (`MemoryModel.Accessible`); it is not a failure result. The precondition
  applies only to addresses that pass the source's own `MEMORY_SIZE` check.
  Out-of-range addresses are still handled as the source handles them.
- **Fault-path precondition.** The same precondition requires that a page which
  faults has its whole frame inside the 256 bytes of physical memory. `read` is
  given a buffer of `page_size` bytes at `page_number * page_size`.
- **Physical memory ownership.** Physical memory is a global array in the source.
  Here each `SimMem` object owns its own array.
- **Executable image.** The image is a `seq<char>` given to the constructor. The
  source likewise opens the file once there. `read` after `lseek` returns the bytes
  from that offset up to the page size, or fewer at end of file. Bytes it did
  read stay in memory even when the read is short.
- **Read-only fields.** `page_size`, `num_of_pages` and the segment sizes are
  `const` fields. Dafny lets only the constructor assign them, matching the
  source, where no method other than the constructor writes them.
- **Object invariant.** `SimMem.Valid()` asks for the two array lengths, a
  positive page size, and that every valid descriptor maps its page to the frame
  of the same number. Both the constructor and the fault path set frames this way,
  so every reachable state satisfies it. That is why the physical address of an
  accepted address equals the address itself.

The model follows the code as written:

- Addresses are bounded by `MEMORY_SIZE` (sim_mem.cpp:109, 151), not by the total size of the segments.
- `store` never sets the dirty bit (sim_mem.cpp:184-187).
- There is no eviction and no swap traffic: `swap_index` is only ever set to -1 (sim_mem.cpp:58, 138, 180).
- Pages of every segment, bss and heap included, are read from the executable image (sim_mem.cpp:123-127).
- The demo driver's `store(98, 'X')` (main.cpp:7) is on page 6 of a six-entry
  table. It lies outside the page table, so the model's precondition does not
  admit it. In the source it reaches descriptor 6 / 6 = 1 through the
  two-dimensional index and writes physical address 1 * 16 + 2 = 18.

With the flat page table, the constructor marks every page valid in frame i,
and neither `load` nor `store` ever clears a valid bit. So from a constructed
simulator the fault path is never taken: `Properties.ConstructedTableNeverFaults`
proves this. An address nothing has stored to reads as `'\0'`, not as the image
byte (`Driver.Demo`). In the source as written, the validity bit tested for a
page 1 <= p < num_of_pages lies past the descriptor the constructor allocated,
so whether its fault path runs is undefined.

## Model

| member | source | states |
|---|---|---|
| PageTable.InitialTable | sim_mem.cpp:50-90 | the constructed table has one entry per page; entry i is valid, in frame i, clean, with swap index -1; frames are pairwise distinct; the table is identity-mapped and clean |
| Layout.PageCount | sim_mem.cpp:38-41 | `(size + page_size - 1) / page_size` is the ceiling of size / page_size: `size <= n * page_size < size + page_size` |
| Layout.TotalPages | sim_mem.cpp:43-44 | the sum of the four page counts covers all four segments, with less than four pages of slack in all |
| Translation.Split | sim_mem.cpp:114-116 | page number and offset of a non-negative address: `0 <= offset < page_size` and `page * page_size + offset == address` |
| Translation.Translate | sim_mem.cpp:141-142 | `frame * page_size + offset` is non-negative, and splitting it gives back the frame and the offset (the inverse of Split) |
| Translation.ExeOffset | sim_mem.cpp:122-123 | the image offset `(page * page_size) % MEMORY_SIZE` lies in `[0, MEMORY_SIZE)` and equals `page * page_size` for any page that starts inside memory |
| Translation.ReadImage | sim_mem.cpp:125-127 | a positioned read returns `page_size` bytes, or what is left of the image, or nothing past its end; byte k is the image byte at offset + k |
| Translation.CopyInto | sim_mem.cpp:127 | writing the read bytes into memory at a base offset changes exactly those positions and keeps the length |
| MemoryModel.PageFault | sim_mem.cpp:120-138 | a fault succeeds iff the image holds the whole page; memory then holds the image bytes at the page's own addresses, the rest unchanged; on success the entry becomes valid, frame = page, clean, swap -1, and on a short read the table is unchanged |
| MemoryModel.EnsureResident | sim_mem.cpp:118-139 | a resident page is left as it is, and when the outcome reports success the page is resident; the invariant and table size are kept |
| MemoryModel.Load | sim_mem.cpp:106-146 | out-of-range addresses give '\0' and change nothing; on a resident page load returns the byte at the address itself and changes nothing; the invariant and table size are kept |
| MemoryModel.Store | sim_mem.cpp:148-188 | out-of-range addresses change nothing; on a resident page store writes exactly that one byte of memory and leaves the table unchanged; the invariant and table size are kept |
| Properties.StoreThenLoad | sim_mem.cpp:141-145 | once store has the page resident (it was resident, or the image holds the whole page), a following load returns the stored value and changes nothing |
| Properties.StoreLeavesOtherAddresses | sim_mem.cpp:184-187 | a store on a resident page leaves the byte a load returns from any other address as it was, whether that load faults or not; a load from another resident address returns its old byte and changes nothing further |
| Properties.LoadIsIdempotent | sim_mem.cpp:106-146 | loading the same address twice returns the same byte and state as loading once, short reads included |
| Properties.StoreIsIdempotent | sim_mem.cpp:148-188 | storing the same value twice at one address has the effect of storing it once |
| Properties.RefaultChangesNothing | sim_mem.cpp:123-132 | repeating a fault after a short read reads the same bytes again and changes nothing |
| Properties.FaultLoadsFromImage | sim_mem.cpp:123-145 | a successful fault installs page p in frame p, clean, swap -1; load then returns the image byte at the address |
| Properties.FaultShortRead | sim_mem.cpp:127-132 | a short read leaves the table unchanged; load returns '\0'; store writes only the bytes the read brought in, not the value |
| Properties.AccessesKeepTableClean | sim_mem.cpp:134-138 | for every entry, whatever the table holds: neither load nor store sets a clear dirty bit or replaces a -1 swap index; a clean table stays clean |
| Properties.FaultThenStore | sim_mem.cpp:165-187 | a store whose fault read succeeds installs page p in frame p, clean, swap -1; byte a becomes the value, the rest of the page holds the image bytes, every other byte is unchanged |
| Properties.ConstructedTableNeverFaults | sim_mem.cpp:50-90 | on the constructed page table no accepted address faults: load returns the byte at the address, store writes exactly it, and the table never changes |
| SimMem.SimMem.constructor | sim_mem.cpp:11-91 | the fields hold the given sizes; num_of_pages is the total page count; all 256 bytes of memory are zero; the page table is the constructed one |
| SimMem.SimMem.InitSegment | sim_mem.cpp:53-60 | one segment's loop fills the next `count` entries with page i in frame i, advances the frame index by `count`, and leaves the other entries alone |
| SimMem.SimMem.HandlePageFault | sim_mem.cpp:120-138 | the in-place fault path changes memory and table exactly as PageFault says |
| SimMem.SimMem.Load | sim_mem.cpp:106-146 | the result and new state are those of MemoryModel.Load; out of range gives '\0' with nothing changed; a resident page gives the byte at the address with nothing changed |
| SimMem.SimMem.Store | sim_mem.cpp:148-188 | the new state is that of MemoryModel.Store; out of range changes nothing; on a resident page exactly that byte is written and the table is unchanged |
| Driver.Demo | main.cpp:6-9 | in the driver's configuration, storing 'X' at 20 then loading 20 gives 'X', and loading 8 gives '\0' |

## Left out

- Opening and closing the executable and swap files, and the `exit(1)` on failure, are left out. This is operating-system I/O. The image is a sequence given to the constructor.
- The swap file is left out. Only the printing routine reads it, and nothing ever writes it.
- The destructor is left out. It frees memory, which has no behaviour to specify.
- `print_memory`, `print_swap` and `print_page_table` are left out. They only format output. The error messages written to `std::cerr` are left out too.
- The two-dimensional page-table index `page_table[p / num_of_pages][p % num_of_pages]` is left out. Each `page_table[j]` points to one descriptor of its own (sim_mem.cpp:54), so the index reads past it for every page 1 <= p < num_of_pages (undefined behaviour), and makes a page that is a multiple of num_of_pages alias descriptor p / num_of_pages. The `num_of_proc` field, read only by the printing routine (sim_mem.cpp:224), is never initialised and is left out too.
- `read` failing with -1, or returning fewer bytes than the file holds, is not modelled. A positioned read of the image always returns what the image has at that offset.
- Negative segment sizes, a page size of 0 or less, and 32-bit overflow in the constructor's arithmetic are excluded by the constructor's preconditions. In the source a page size of 0 divides by zero and overflow is undefined. A slightly negative size gives 0 pages, because C++ division truncates toward zero; a more negative one makes the loops of sim_mem.cpp:53-90 write past the table, or makes `new[]` at sim_mem.cpp:47 throw. The arithmetic of `load` and `store` stays below 256, so it cannot overflow.
- Memory bytes, image bytes and stored values are Dafny `char`, which stands for the source's one-byte `char`. A Dafny `char` can be any Unicode scalar value, so the model accepts a wider range of values than the source.
- Sharing one global physical memory between several simulator objects is not modelled. Each object owns its memory.

# Nekonix kernel: models and proofs

Nekonix is a small x86_64 kernel. This project models the parts of it whose correctness is hard to see
from the code and proves what those parts promise, in Dafny. `dafny verify dfyconfig.toml` checks it all.

| modules | what they model |
|---|---|
| `Bits`, `PageWords` | 64-bit words with and, or and shifts bit by bit; table indices, entry words, rights |
| `Pmm` | the frame allocator: a stack of free frames carved out of the boot memory map |
| `AddressSpaces`, `Paging`, `Vmm` | address spaces as plain maps; four-level tables in frames; the proof that `vmm_map`, `vmm_unmap`, `vmm_new_pagemap` and `virt_to_phys` on tables are operations on plain maps |
| `Mappings`, `VmmInit` | lists of mappings, and the kernel address space that `vmm_init` builds |
| `FrameBytes`, `Elf`, `ElfFiles` | bytes of frames, `elf_load`, the memory image and the rights a program finds; ELF files written field by field and read back, and files built to show where the loader differs from what was asked for |
| `HeapLayout`, `HeapWiring`, `Heap`, `HeapRuns` | the kernel heap: where chunks lie, how headers are linked, `kmalloc`, `kfree`, `krealloc`, and runs in which callers store into their payloads |
| `Scheduler` | the process table and the runs of the round-robin scheduler |
| `CStrings`, `Numerals` | `strspn`, `strcspn`, `strcmp`, `strtol` and the stateful `strtok`; numerals written in any base and read back |
| `Vfs`, `Initrd`, `Ramfs`, `Archives` | the node tree, what an archive means as a file system, the USTAR parser that builds the tree, and archives written member by member and read back |

Classes stand for the kernel's global state (`FrameAllocator`, `PageMapper`, `Heap`, `RoundRobin`,
`Tokenizer`, `FileSystem`). Each of their methods follows the C function step by step and is proved
against an operation on a simple value (a plain map of pages, a list of blocks with chunks, a sequence of
processes, a map from paths to files); the theorems about whole runs are then lemmas about those values.
Pointers are addresses into maps, with 0 for NULL. Sizes and addresses are unbounded numbers; 32-bit and
64-bit wrap-around is written out where the code can meet it.

## How the parts fit

* **Frames.** `pmm_init` counts the usable pages, carves its stack out of one entry and pushes exactly the
  frames left over, each once. Held and free frames stay disjoint and add up to the same total for ever.
* **Paging.** `Paging.Implements` says that every word of every table is what the address spaces call
  for. Adding a table keeps it only because the new frame is zeroed, aligned and not yet a table.
  Windows (top-level entries) are owned by the pagemap that opened them and may be shared by clones.
* **Heap.** `HeapLayout` knows only blocks and chunks as values; `HeapWiring` ties the doubly linked
  headers and the back-offset bytes in memory to them; `Heap` adds the hint and the counters; `HeapRuns`
  shows that over whole runs the heap is a set of separate memories, one for each live pointer.
* **Initrd.** `Ramfs.Parse` cuts up the archive's name fields with `strtok` while it builds the tree. The
  tree always represents a map from paths to files; `Initrd` says what that map is for a whole archive, and
  `Archives` that an archive written from members gives exactly those members.

## Where the code does less than it seems to

* `vmm_init` does not always leave kernel data writable. A table keeps the rights of the first mapping made
  in its zone, so data that shares a 2 MiB zone with code or read-only data is read-only unless the boot
  requests lie there too (`VmmInit.DataWritable` gives the exact condition over all three levels,
  `VmmInit.ReadOnlyData` an image the linker script produces).
* The same happens in `elf_load`: a page has the rights its segment asks for if and only if the first pages
  loaded in its three zones grant them (`Elf.RightsExactly`). Code followed by data on the next page
  leaves the data read-only (`ElfFiles.ReadOnlyDataSegment`).
* `elf_load` places a segment's file bytes at the start of its first page, not at `p_vaddr`. The image is
  right in every load of every file exactly when the segment is page aligned or empty
  (`ElfFiles.AlignmentNeeded`; `ElfFiles.UnalignedFile` is a file that shows it).
* A pagemap made by `vmm_new_pagemap` misses every kernel mapping in a top-level window that was not open
  when it was made (`AddressSpaces.CloneTracksKernel`).
* A failed `krealloc` copies the old payload to address 0 and frees the old chunk; C says it stays live
  (`Heap.Heap.Grow`, which also says exactly when it fails; `Heap.FailedGrowth` is a caller it happens to).
* After an exit, the next timer switch saves the dead process's frame into the process that took its
  slot, unless that process had never been dispatched (`Scheduler.ExitThenTick`). Every other process stays
  transparent through exits (`Scheduler.TransparentWithExits`).
* Exits also break bounded waiting: an exit may make a slot the current one, and the next switch moves past it.
  A process in such a slot can wait for ever (`Scheduler.Starves`); any other is dispatched within 256
  switches (`Scheduler.BoundedWaitWithExits`).
* `ramfs_parse` does not advance for the 512 sizes from 2^32 - 1023 to 2^32 - 512 (`Ramfs.StuckSizes`; `Ramfs.StuckHeader` is such a header), and puts
  a file whose directory is missing in the place of the first missing directory (`Initrd.MisplacedFile`;
  `Ramfs.MemberFoundExactly` says exactly which listed files are found, `Ramfs.DirMemberExactly` which listed
  directories are directories, and `Initrd.UnorderedArchive` is an archive in which both go wrong).
* `kfree` compares free bytes as signed numbers, so its hint can move to the smaller of two blocks when one has
  2 GiB free and the other has not (`Heap.FreeHintLarger` gives the exact condition).
* `vfs_remove` frees a directory node but leaves everything below it allocated and unreachable
  (`Vfs.OrphansUnreachable`).
* `strtok` leaves its cursor where it was when it finds no token (`CStrings.Tokenizer.Strtok`).
* The NULL checks after `HIGHER_HALF` in `vmm_init`, `vmm_new_pagemap` and `process_create` cannot fail, so
  running out of frames there is a precondition here.

## Model

| member | source | states |
|---|---|---|
| Pmm.CountFree | kernel/src/mm/pmm.c:13-20 | the first pass counts exactly the frames the usable entries describe |
| Pmm.FindHolder | kernel/src/mm/pmm.c:24-35 | the stack goes into the first usable entry large enough, and no earlier one would do |
| Pmm.FrameAllocator.Init | kernel/src/mm/pmm.c:7-55 | for disjoint, aligned, non-zero usable entries with n frames in all: the array is the least number of whole pages with eight bytes a frame, the stack holds `n - (n * 8 + 4095) / 4096` frames, each once, namely the frames of the map outside the array; nothing is held yet |
| Pmm.ArraySizeLeast | kernel/src/mm/pmm.c:22 | the array takes the least multiple of 4096 bytes with eight bytes for every usable frame |
| Pmm.FramesExactly | kernel/src/mm/pmm.c:37-47 | an address is a frame of the map if and only if it is page aligned and inside a usable entry |
| Pmm.CarvedExactly | kernel/src/mm/pmm.c:27-33 | carving takes away the frames under the array and no others |
| Pmm.FrameAllocator.FillStack | kernel/src/mm/pmm.c:37-47 | the third pass writes all frames in order and never past the array |
| Pmm.ShrinkCount | kernel/src/mm/pmm.c:22-33 | carving an array of whole pages off an entry removes exactly that many frames |
| Pmm.FramesDistinct | kernel/src/mm/pmm.c:37-47 | no frame is listed twice |
| Pmm.ShrinkAvoidsArray | kernel/src/mm/pmm.c:27-33 | no frame left overlaps the bytes of the stack itself |
| Pmm.CarvedFrames | kernel/src/mm/pmm.c:24-49 | the pushed frames are distinct, avoid the array, and are frames of the original map |
| Pmm.PopConserved | kernel/src/mm/pmm.c:59-65 | a pop moves one frame from free to held; the two stay disjoint and add up to `max` |
| Pmm.PushConserved | kernel/src/mm/pmm.c:78-84 | returning a held frame keeps the balance and there is always room for it |
| Pmm.FrameAllocator.RequestPage | kernel/src/mm/pmm.c:57-68 | NULL exactly on an empty stack; otherwise the top frame, not held before, zeroed, and no other frame changed |
| Pmm.FrameAllocator.FreePage | kernel/src/mm/pmm.c:70-85 | for every argument: NULL and a full stack change nothing, anything else goes on top; frames stay conserved if and only if the frame was held or nothing was pushed, and a held frame always finds room |
| Pmm.PushForeign | kernel/src/mm/pmm.c:78-84 | returning a frame that nobody holds breaks the balance |
| PageWords.IndexExpressions | kernel/src/mm/vmm.c:11-14 | the four mask-and-shift expressions are `(v / 2^k) % 512` for k = 12, 21, 30, 39 |
| PageWords.PageIndices | kernel/src/mm/vmm.c:11-14 | bits 12..47 of an address and the four indices determine each other |
| PageWords.AddressFixed | kernel/src/mm/vmm.c:21-34 | the address mask fixes exactly the page-aligned addresses below 2^52 |
| PageWords.MakeEntry | kernel/src/mm/vmm.c:46-64 | the OR of address and flags reads back as that address, present, with the rights of the flags |
| PageWords.EntryIsSum | kernel/src/mm/vmm.c:46-64 | address and flags share no bit: the entry word is their sum |
| AddressSpaces.MapChangesOnePage | kernel/src/mm/vmm.c:39-65 | a mapping shows at its page only, in the pagemaps that share its window only; every other page of every pagemap keeps its word and its rights |
| AddressSpaces.MappedRights | kernel/src/mm/vmm.c:46-64 | the rights of a mapped page are those asked for, cut down by what existing upper levels impose |
| AddressSpaces.UnmapChangesOnePage | kernel/src/mm/vmm.c:67-97 | an unmapped page reads 0 in all pagemaps sharing its window; nothing else changes |
| AddressSpaces.CloneView | kernel/src/mm/vmm.c:136-153 | a new pagemap maps nothing in the lower half, agrees with the kernel on the upper half, and nobody else notices |
| AddressSpaces.RunOk | kernel/src/mm/vmm.c:39-153 | every run of map, unmap and clone keeps windows owned and levels nested |
| AddressSpaces.SpaceIsPlainMap | kernel/src/mm/vmm.c:39-97 | over every run a pagemap's translations are those of a plain map from page to word driven by its own operations alone; for the lower half the others may do anything |
| AddressSpaces.LowerHalfIsolated | kernel/src/mm/vmm.c:136-153 | over every run, a lower-half page not mapped or unmapped in this pagemap keeps its word and its rights |
| AddressSpaces.SharedForever | kernel/src/mm/vmm.c:145-149 | two pagemaps that share a window show the same words and rights there after every run, whoever makes the changes |
| AddressSpaces.CloneTracksKernel | kernel/src/mm/vmm.c:145-149 | a clone agrees with the kernel on an upper-half page after every later run if and only if the kernel's window was open when the clone was made |
| Paging.AddTable | kernel/src/mm/vmm.c:46-61 | hanging a zeroed, unused frame under an absent entry keeps the tables an implementation of the spaces, with one more region open |
| Paging.WriteLeaf | kernel/src/mm/vmm.c:63-64 | writing a last-level entry implements writing one page of the space |
| Paging.EraseLeaf | kernel/src/mm/vmm.c:94-95 | clearing a last-level entry implements removing one page |
| Paging.EraseAbsent | kernel/src/mm/vmm.c:74-92 | clearing an entry that was not present changes nothing |
| Paging.AddClone | kernel/src/mm/vmm.c:144-149 | a table with the kernel's upper half copied implements the cloned space |
| Paging.OtherFrame | kernel/src/mm/pmm.c:57-68 | a frame that is no table may change freely |
| Vmm.PageMapper.constructor | kernel/src/mm/vmm.c:168-175 | a zeroed frame is an empty kernel pagemap |
| Vmm.PageMapper.EnsureTable | kernel/src/mm/vmm.c:46-51 | afterwards the entry leads to a table of the right region; a frame is used only if it did not before |
| Vmm.PageMapper.EnsurePath | kernel/src/mm/vmm.c:46-63 | the three levels above a page exist, at the exact number of new frames |
| Vmm.PageMapper.Map | kernel/src/mm/vmm.c:39-65 | the tables afterwards implement the spaces with that one page mapped; client frames are untouched |
| Vmm.PageMapper.ClearAbsent | kernel/src/mm/vmm.c:74-92 | clearing an absent entry on the way changes no space |
| Vmm.PageMapper.Unmap | kernel/src/mm/vmm.c:67-97 | the tables afterwards implement the spaces without that page, whichever level was absent |
| Vmm.PageMapper.CopyUpperHalf | kernel/src/mm/vmm.c:144-149 | entries 256 to 511 are the kernel's, the others 0, no other frame changes |
| Vmm.PageMapper.NewPagemap | kernel/src/mm/vmm.c:136-153 | a new root whose space is the clone of the kernel's |
| Vmm.PageMapper.VirtToPhys | kernel/src/mm/vmm.c:9-37 | the walk returns the frame the plain map has for the page, 0 if it has none |
| Vmm.Walk | kernel/src/mm/vmm.c:9-37 | what the hardware finds at the end of the four levels is the plain map's word |
| Vmm.RightsAgree | kernel/src/mm/vmm.c:39-65 | the rights combined over the four entries on the way are the ones the space records |
| Vmm.RightsBits | kernel/src/mm/vmm.c:46-64 | bit by bit over the four entries: bit 1 in all for writing, bit 2 in all for users, bit 63 in any against execution |
| Vmm.MissingLevel | kernel/src/mm/vmm.c:16-31 | a missing level means an unmapped page, and unmapping it changes nothing |
| Mappings.MapAllView | kernel/src/mm/vmm.c:39-65 | after any list of mappings each page shows its last mapping, and unlisted pages what they showed |
| Mappings.MapAllRights | kernel/src/mm/vmm.c:46-64 | in a part of a pagemap that was empty, a page's rights are those of its last mapping met with those of the first mapping in each of its three zones |
| Mappings.TouchedIs | kernel/src/mm/vmm.c:46-61 | the table budget of a stretch of pages is the number of zones it touches on the three levels |
| Mappings.NeighbourIsCheap | kernel/src/mm/vmm.c:46-61 | the page after a mapped one needs only the tables of zones that begin there |
| Mappings.MissingIgnoresFrames | kernel/src/mm/vmm.c:46-61 | which tables a list adds does not depend on the frames it maps |
| VmmInit.MapSection | kernel/src/mm/vmm.c:177-198 | a section's loop maps exactly its pages from ALIGN_DOWN(start) to ALIGN_UP(end), within its table budget |
| VmmInit.MapDirect | kernel/src/mm/vmm.c:201-205 | the last loop maps each page of the first 4 GiB twice, within its table budget |
| VmmInit.Initialize | kernel/src/mm/vmm.c:166-211 | with the frames of a computable budget, every page of the kernel space has exactly the intended word |
| VmmInit.InitExact | kernel/src/mm/vmm.c:177-205 | the list of mappings made gives every canonical page its intended word and leaves every other page unmapped, even when windows overlap |
| VmmInit.InitTranslates | kernel/src/mm/vmm.c:177-205 | with disjoint windows: low memory to itself, the direct map to the same frames, sections to `v - virt_base + phys_base` with their own flags, nothing else |
| VmmInit.SpanExactly | kernel/src/mm/vmm.c:177-198 | the pages of a section are exactly those with an address between its two ends |
| VmmInit.InitNumbers | kernel/src/mm/vmm.c:177-205 | the same in plain numbers: each page below 2^32 has the word v + 3, each of the direct map v - hhdm + 3, a section page its image address plus 3, 1, 2^63 + 1 or 2^63 + 3, and no other page a word |
| VmmInit.PageRights | kernel/src/mm/vmm.c:177-205 | the rights of every page mapped, over all four levels: its own, met with those of the first section to reach each of its three zones |
| VmmInit.DataWritable | kernel/src/mm/vmm.c:195-198 | a data page is writable if and only if in each of its three zones there is a page of the boot requests, or none of code and none of read-only data |
| VmmInit.SectionRights | kernel/src/mm/vmm.c:177-192 | code is always executable and never writable, read-only data never writable or executable, the boot requests always as asked for |
| VmmInit.DirectRights | kernel/src/mm/vmm.c:201-205 | low memory is always writable at its own addresses; a page of the direct map is writable if and only if its zones were opened writable |
| VmmInit.ReadOnlyData | kernel/src/mm/vmm.c:183-198 | an image in the layout of kernel/linker.ld, with code reaching into the data's 2 MiB zone, whose data page ends up read-only |
| FrameBytes.SetByteGet | kernel/src/lib/string.c:5-24 | a byte stored in a word is read back and no other byte changes |
| FrameBytes.Memcpy | kernel/src/lib/string.c:5-14 | the first n bytes of the frame are the source's, the rest and every other frame as before |
| FrameBytes.Memclear | kernel/src/lib/string.c:16-24 | all 4096 bytes read 0, other frames as before |
| Elf.FillPage | kernel/src/proc/elf.c:103-115 | the page holds the segment's file bytes and zeroes behind them, because the frame came zeroed |
| Elf.NoWrap | kernel/src/proc/elf.c:82-108 | for a segment inside the limits elf_load trusts, no 64-bit sum in its loops wraps |
| Elf.LoadPage | kernel/src/proc/elf.c:92-116 | 0 exactly when no frame is left; otherwise a new frame, mapped at the address and filled, with all older client frames untouched |
| Elf.LoadSegment | kernel/src/proc/elf.c:92-116 | all pages of a segment in order, or a stop with an empty frame stack |
| Elf.ElfLoad | kernel/src/proc/elf.c:59-121 | for every file: 0 and no change for a wrong magic or class; otherwise a prefix of the file's pages is mapped and filled, all of them exactly when the entry point is returned, fewer only with an empty frame stack |
| Elf.SegmentPagesExactly | kernel/src/proc/elf.c:82-92 | a segment's pages are exactly the aligned v with `p_vaddr < v + 4096` and `v < p_vaddr + p_memsz` |
| Elf.PlanPagesExactly | kernel/src/proc/elf.c:77-92 | a page is loaded if and only if some PT_LOAD segment reaches it |
| Elf.LoadedByte | kernel/src/proc/elf.c:92-116 | a page that no later one replaces is found at its address with its planned bytes |
| Elf.UnlistedPage | kernel/src/proc/elf.c:92-116 | a page outside the segments keeps its translation |
| Elf.SegmentImage | kernel/src/proc/elf.c:77-117 | after a complete load of page-disjoint segments, every byte of every segment's pages is the file's, then 0 |
| Elf.AlignedImage | kernel/src/proc/elf.c:77-117 | for a page-aligned segment byte k below memsz is file byte `p_offset + k` if k is below filesz, else 0 |
| Elf.ShiftedImage | kernel/src/proc/elf.c:82-104 | for any segment byte k shows the file part shifted by `p_vaddr % 4096` |
| Elf.ApartDistinct | kernel/src/proc/elf.c:77-92 | segments below 2^48 whose page ranges do not meet share no page |
| Elf.EnoughFrames | kernel/src/proc/elf.c:92-101 | four frames a page always suffice: the load cannot stop early |
| Elf.LoadedRights | kernel/src/proc/elf.c:86-101 | in a part of the space that was empty, the rights of every loaded page are its segment's met with those of the first page loaded in each of its three zones |
| Elf.RightsExactly | kernel/src/proc/elf.c:86-101 | a loaded page has exactly the rights its segment asks for if and only if the first page loaded in each of its three zones grants at least those |
| Elf.SegmentGrants | kernel/src/proc/elf.c:86-90 | on program header flags: one segment grants what another asks for if and only if it has bits 0 and 1 wherever the other has |
| Elf.SegmentRights | kernel/src/proc/elf.c:86-90 | writable if and only if bit 1 of `p_flags` is set, not executable if and only if bit 0 is not, never for users |
| ElfFiles.HeaderReads | kernel/src/proc/elf.c:61-75 | a file header written field by field is accepted, and its entry point, table offset and header count are read back as written |
| ElfFiles.ElfChecks | kernel/src/proc/elf.c:61-73 | the loader accepts exactly the files that begin with 7F 45 4C 46 02 |
| ElfFiles.LoadWritten | kernel/src/proc/elf.c:59-121 | loading a file written with entry point e returns e when all its pages were loaded, 0 when frames ran out |
| ElfFiles.SegmentReads | kernel/src/proc/elf.c:75-84 | every program header written is read back as the same segment, wherever the table lies |
| ElfFiles.AlignmentNeeded | kernel/src/proc/elf.c:82-110 | every load of every file with a given segment shows the right byte everywhere in it, if and only if the segment is page aligned, or has no memory, or no file bytes |
| ElfFiles.WrongByte | kernel/src/proc/elf.c:82-110 | for every other segment, a file that can be loaded, and whose every load, into any pagemap and frames, shows a wrong first byte |
| ElfFiles.UnalignedFile | kernel/src/proc/elf.c:82-110 | such a file for a segment at 0x400010 |
| ElfFiles.ReadOnlyDataSegment | kernel/src/proc/elf.c:86-101 | a file with code at 0x1000 and writable data at 0x2000 whose data page is loaded read-only |
| HeapLayout.AccountingIsGaps | kernel/src/mm/liballoc/liballoc.c:254 | size less usage of a block is the sum of all its gaps |
| HeapLayout.SkipIsSafe | kernel/src/mm/liballoc/liballoc.c:265-287 | the case 1 skip never passes over a gap that fits |
| HeapLayout.PlaceOk | kernel/src/mm/liballoc/liballoc.c:291-424 | a chunk put in a fitting gap keeps the block sorted, inside its bounds and without overlap |
| HeapLayout.RemoveOk | kernel/src/mm/liballoc/liballoc.c:517-530 | taking a chunk out keeps it so |
| HeapLayout.FreeUndoesMalloc | kernel/src/mm/liballoc/liballoc.c:192-545 | for every placement, freeing the new chunk gives back exactly the blocks and chunks from before |
| HeapLayout.FreeAll | kernel/src/mm/liballoc/liballoc.c:517-545 | in every run of frees, no block is left if and only if as many chunks were freed as were live; then no byte is allocated or in use |
| HeapLayout.FreeSpecSums | kernel/src/mm/liballoc/liballoc.c:519-545 | what one free does to the byte counters, and that no block without chunks is left behind |
| HeapLayout.PayloadInside | kernel/src/mm/liballoc/liballoc.c:16-29 | the payload is 16-aligned and lies with its back-offset byte inside its chunk, behind the header |
| HeapLayout.PayloadsSafe | kernel/src/mm/liballoc/liballoc.c:16-39 | live payloads meet no other payload, no chunk header, no block header and no stored back-offset byte |
| HeapWiring.PlaceWired | kernel/src/mm/liballoc/liballoc.c:291-424 | each placement case rewires the doubly linked lists, block header and back-offset byte into those of the new layout |
| HeapWiring.UnlinkWired | kernel/src/mm/liballoc/liballoc.c:517-530 | unlinking a chunk leaves exactly the links of the remaining ones |
| HeapWiring.AppendWired | kernel/src/mm/liballoc/liballoc.c:177-184 | a new block is linked behind the last |
| HeapWiring.DropWired | kernel/src/mm/liballoc/liballoc.c:532-545 | releasing a block links its neighbours together |
| Heap.Heap.Align | kernel/src/mm/liballoc/liballoc.c:16-29 | the next multiple of 16 at least 16 further on, with the distance stored 16 bytes in front of it |
| Heap.Heap.PlaceOnly | kernel/src/mm/liballoc/liballoc.c:291-316 | case 2 is a placement at gap 0 of an empty block and keeps the whole heap consistent |
| Heap.Heap.PlaceFront | kernel/src/mm/liballoc/liballoc.c:318-348 | case 3 is a placement in front of the first chunk |
| Heap.Heap.PlaceBack | kernel/src/mm/liballoc/liballoc.c:350-388 | case 4.1 is a placement behind the last chunk |
| Heap.Heap.PlaceBetween | kernel/src/mm/liballoc/liballoc.c:389-421 | case 4.2 is a placement between two chunks |
| Heap.Heap.TryPlace | kernel/src/mm/liballoc/liballoc.c:291-424 | the first fitting gap of the block gets the chunk; none if and only if no gap fits, and then nothing changes |
| Heap.Heap.AllocateNewPage | kernel/src/mm/liballoc/liballoc.c:152-190 | the header of a new block with the least number of pages, at least 16, that holds the request and both headers; or NULL, one warning and nothing else changed |
| Heap.Heap.Extend | kernel/src/mm/liballoc/liballoc.c:282-286 | an empty block is added behind the last if and only if the page source gave one |
| Heap.Heap.Search | kernel/src/mm/liballoc/liballoc.c:252-450 | ends after at most one restart and one new block; the chunk goes to the first block with a fitting gap in search order, to a new block only if none has one |
| Heap.Heap.Kmalloc | kernel/src/mm/liballoc/liballoc.c:192-459 | NULL if and only if the page source refuses and no block has a gap of 72 bytes more than the request, counted as a warning; otherwise exactly one chunk more, one byte of memory written, all links and counters right; and in every case the hint: the roomiest of the blocks looked at |
| Heap.NewBlockLeast | kernel/src/mm/liballoc/liballoc.c:152-184 | a new block is at the page given, has at least 16 pages and room for 112 bytes more than the request, and above 16 pages not one to spare; the chunk takes 32 bytes more than the request; older blocks keep place and size |
| Heap.HintIsLargest | kernel/src/mm/liballoc/liballoc.c:252-261 | of the blocks looked at, the hint left has the most free bytes, and it stays the old one if none has more |
| Heap.LiveHeader | kernel/src/mm/liballoc/liballoc.c:31-39 | UNALIGN recovers the exact chunk header from any live pointer |
| Heap.Heap.UnlinkMinor | kernel/src/mm/liballoc/liballoc.c:517-530 | the chunk is gone from its list, its header is dead, everything else as before |
| Heap.Heap.ReleaseBlock | kernel/src/mm/liballoc/liballoc.c:532-545 | the empty block is gone, root and hint no longer point to it, and any other hint stays |
| Heap.Heap.BadMagic | kernel/src/mm/liballoc/liballoc.c:481-494 | one error more, and a possible overrun exactly when the low byte of the magic number survives |
| Heap.Heap.Kfree | kernel/src/mm/liballoc/liballoc.c:461-561 | a live chunk disappears, with its block if that becomes empty, and its header is marked dead; the hint is cleared if its block was released and moves to the block freed from if that has more free bytes, compared as signed 32-bit numbers; NULL counts a warning and a dead or foreign header an error, and neither changes a chunk or the hint |
| Heap.FreeHintLarger | kernel/src/mm/liballoc/liballoc.c:546-556 | the hint kfree leaves has at least the free bytes of the old hint and of the block freed from, if and only if those two both have less than 2 GiB free or both have not |
| Heap.Heap.Memcpy | kernel/src/mm/liballoc/liballoc.c:84-107 | the word-then-byte copy is a byte copy |
| Heap.Heap.Krealloc | kernel/src/mm/liballoc/liballoc.c:577-649 | every branch, chunks and memory: free on size 0, allocate on NULL, count an error on a bad header, record a shrink in place, or move |
| Heap.Heap.Grow | kernel/src/mm/liballoc/liballoc.c:641-648 | NULL if and only if the page source refuses and nothing fits; then the old bytes are at address 0, the old chunk is freed and no other byte has changed; otherwise the new chunk is placed as kmalloc does, the old one freed, its bytes carried over, and nothing written elsewhere |
| Heap.Heap.Store | kernel/src/mm/liballoc/liballoc.c:16-39 | a caller's write inside its payload keeps every header, link and back-offset byte |
| Heap.NewChunkClear | kernel/src/mm/liballoc/liballoc.c:291-424 | a new chunk overlaps no old chunk and no block header |
| Heap.OldChunkAt | kernel/src/mm/liballoc/liballoc.c:643-646 | every chunk live before an allocation is still there, unchanged, after it |
| Heap.FailedGrowth | kernel/src/mm/liballoc/liballoc.c:643-648 | a caller that gets 100 bytes and asks for 100000 when the page source is empty: NULL, and no chunk is left |
| HeapRuns.HeadersClear | kernel/src/mm/liballoc/liballoc.c:16-39 | no byte of a live payload and no stored back-offset byte lies in the header of a live chunk or of a block |
| HeapRuns.HeadersHarmless | kernel/src/mm/liballoc/liballoc.c:291-545 | whatever is written to headers, every live payload and back-offset byte stays |
| HeapRuns.OthersUntouched | kernel/src/mm/liballoc/liballoc.c:192-649 | kmalloc, kfree, krealloc and stores, failed ones included, with any bytes written to the headers there are before and after the call: every payload the call is not about keeps its place, its size and all its bytes |
| HeapRuns.UntouchedRun | kernel/src/mm/liballoc/liballoc.c:192-649 | the same over every run |
| HeapRuns.ResizeKeeps | kernel/src/mm/liballoc/liballoc.c:632-648 | krealloc returns a payload of the new size that begins with the old bytes, as many as both sizes allow |
| HeapRuns.ShrinkThenLaterGrow | kernel/src/mm/liballoc/liballoc.c:632-648 | a shrink, any calls about other payloads, then a growth: the shrunk prefix is what it was |
| HeapRuns.RunFaithful | kernel/src/mm/liballoc/liballoc.c:192-649 | over every run, header writes at every step included, each payload reads back, byte by byte, what its owner last stored or what krealloc carried over |
| HeapRuns.HeapIsMemories | kernel/src/mm/liballoc/liballoc.c:192-649 | from the empty heap on, the payloads tracked by the calls' arguments and results alone are exactly the live ones, and each reads back faithfully |
| HeapRuns.Perform | kernel/src/mm/liballoc/liballoc.c:192-649 | any call on a valid heap is a step of such a run and leaves a valid heap |
| Scheduler.ShapeRun | kernel/src/proc/scheduler.c:56-157 | over every run with exits: at most 256 processes, current index in range, pids strictly increasing so none repeats |
| Scheduler.TickKeepsFrames | kernel/src/proc/scheduler.c:104-128 | a switch changes no process's frame and dispatches the next slot on that process's pagemap |
| Scheduler.Transparent | kernel/src/proc/scheduler.c:104-128 | over every run without exits, each process has exactly the frame of running alone, and the active pagemap is the running process's |
| Scheduler.FirstDispatch | kernel/src/proc/scheduler.c:20-35 | a process created with entry e, stack page st and pagemap pm: whatever is created, run, switched or ended in between, its first dispatch finds rip e, rsp st + 4095, cs 0x08, ss 0x10, rflags 0x202, every other register 0, and pagemap pm active |
| Scheduler.ExitRemovesOne | kernel/src/proc/scheduler.c:143-156 | an exit takes away the running process's slot, keeps the rest in order, makes the next slot current, or slot 0 behind the last, and leaves registers and active pagemap alone |
| Scheduler.ExitThenTick | kernel/src/proc/scheduler.c:143-156 | after exit and switch, the slot's new occupant keeps its context if and only if it was new or its context equals the dead process's frame |
| Scheduler.ExitKeepsFrame | kernel/src/proc/scheduler.c:143-156 | an exit keeps a process's frame if and only if the process does not take over the slot after having run, or had the dead process's frame |
| Scheduler.TransparentWithExits | kernel/src/proc/scheduler.c:104-157 | over every run with exits, a process that never takes over a slot after having run has exactly the frame of running alone |
| Scheduler.ExitLosesContext | kernel/src/proc/scheduler.c:113-116 | a state reached from the empty table by two creations and two switches, in which the second process loses its context when the first exits |
| Scheduler.BoundedWait | kernel/src/proc/scheduler.c:118-127 | without exits, creations included, every process is dispatched within 256 switches |
| Scheduler.BoundedWaitWithExits | kernel/src/proc/scheduler.c:118-156 | exits and creations included: a process still there after 256 switches has been dispatched, unless an exit has made its slot the current one |
| Scheduler.Starves | kernel/src/proc/scheduler.c:118-156 | without that condition, for any number of rounds of create, switch, exit, switch: 2 n switches and the process in slot 0 is never dispatched |
| Scheduler.StarvingIsReached | kernel/src/proc/scheduler.c:56-128 | that state is reached from the empty table by two creations and a switch |
| Scheduler.Rotation | kernel/src/proc/scheduler.c:118 | without creations the dispatched slot is the starting slot plus the number of switches |
| Scheduler.OncePerRound | kernel/src/proc/scheduler.c:118-127 | in every run of user steps and `process_count` switches, exactly one switch dispatches each process |
| Scheduler.RoundRobin.constructor | kernel/src/proc/scheduler.c:50-55 | the empty table |
| Scheduler.RoundRobin.CreateProcess | kernel/src/proc/scheduler.c:56-65 | the array method is the create step: a new last slot with the next pid, the pagemap given, rip at the entry, rsp at the top of the stack page, segments 0x08 and 0x10, flags 0x202 and zeros; -1 and nothing when 256 slots are full |
| Scheduler.RoundRobin.ContextSwitch | kernel/src/proc/scheduler.c:104-128 | the array method is the switch step |
| Scheduler.RoundRobin.ShiftDown | kernel/src/proc/scheduler.c:143-146 | exactly the current slot is removed and the order of the rest kept |
| Scheduler.RoundRobin.TerminateCurrent | kernel/src/proc/scheduler.c:130-157 | the array method is the exit step |
| CStrings.Strspn | kernel/src/lib/string.c:191-213 | the length of the longest prefix made of accepted characters |
| CStrings.Strcspn | kernel/src/lib/string.c:171-189 | the length of the longest prefix without rejected characters |
| CStrings.Strcmp | kernel/src/lib/string.c:123-131 | zero if and only if the strings are equal, negative if and only if the first comes before the second |
| CStrings.Strtol | kernel/src/lib/string.c:314-408 | for base 0 or 2 to 36 and every string: the signed value of the digit prefix clamped to a long |
| CStrings.BasePrefix | kernel/src/lib/string.c:335-358 | the radix and the digits' start after an optional 0x or 0 |
| CStrings.Accumulate | kernel/src/lib/string.c:360-408 | the digit loop with its early exit computes the clamped value and every intermediate result fits a long |
| CStrings.CutoffExact | kernel/src/lib/string.c:360-399 | the cutoff and cutlim comparison holds if and only if the next step would exceed LONG_MAX |
| Numerals.DigitReads | kernel/src/lib/string.c:363-382 | the characters 0 to 9, a to z and A to Z are read as 0 to 35 |
| Numerals.StrtolReads | kernel/src/lib/string.c:314-408 | bases 2 to 36: white space, a sign and the numeral of n are read back as that number, cut off at -2^63 and 2^63 - 1, whatever stands behind the numeral |
| Numerals.StrtolReadsHex | kernel/src/lib/string.c:335-358 | bases 16 and 0: the same behind 0x or 0X |
| Numerals.StrtolReadsAuto | kernel/src/lib/string.c:335-358 | base 0: octal behind a leading 0, decimal otherwise |
| CStrings.SegmentsMaximal | kernel/src/lib/string.c:257-285 | the segments are maximal delimiter-free stretches at increasing places, and every character that is no delimiter is in one |
| CStrings.CutToken | kernel/src/lib/string.c:263-285 | one strtok cut makes the first segment a string of its own and leaves exactly the remaining segments behind the cursor |
| CStrings.Tokenizer.Strtok | kernel/src/lib/string.c:257-285 | a token if and only if a segment is left; then it is the first one, cut out in place; otherwise nothing changes |
| CStrings.Tokenizer.First | kernel/src/lib/string.c:257-285 | the same for a call with a string |
| CStrings.Tokenizer.Next | kernel/src/lib/string.c:257-285 | the same for a call with NULL |
| Vfs.FileSystem.SearchNode | kernel/src/dev/vfs.c:181-199 | the first child of that name in list order, NULL if none or for a NULL parent |
| Vfs.FileSystem.Create | kernel/src/dev/vfs.c:31-79 | succeeds if and only if the parent is there and two allocations succeed; then a new last child, and a tree again (acyclic sibling lists, right parent pointers); on failure nothing changes |
| Vfs.FileSystem.LinkChild | kernel/src/dev/vfs.c:44-74 | the linked node is the last child of its parent |
| Vfs.FileSystem.LastChild | kernel/src/dev/vfs.c:68-72 | the loop ends at the last sibling |
| Vfs.FileSystem.Remove | kernel/src/dev/vfs.c:81-114 | succeeds if and only if the node is a child of the parent; then exactly it is gone, every other node keeps its name, kind, size and data, and the rest is a tree |
| Vfs.FileSystem.Lookup | kernel/src/dev/vfs.c:201-241 | for every path string: the fold of first-match child search over the path's segments, NULL if the copy cannot be allocated |
| Vfs.FileSystem.Follow | kernel/src/dev/vfs.c:219-235 | the in-place strtok loop is that fold |
| Vfs.WalkInjective | kernel/src/dev/vfs.c:31-114 | no node is reached by two paths |
| Vfs.CreateWalk | kernel/src/dev/vfs.c:62-74 | creating a free name adds exactly one successful path; creating a taken name changes no lookup at all |
| Vfs.RemoveTree | kernel/src/dev/vfs.c:88-111 | unlinking a child leaves a well-formed tree |
| Vfs.RemoveWalk | kernel/src/dev/vfs.c:88-111 | a lookup whose path does not lead through the removed node is unchanged |
| Vfs.RemovedPath | kernel/src/dev/vfs.c:88-111 | the removed node's own path then leads to its next sibling of the same name, or nowhere |
| Vfs.OrphansUnreachable | kernel/src/dev/vfs.c:104-107 | everything below a removed node stays allocated, and no path leads there any more |
| Vfs.RemovedGone | kernel/src/dev/vfs.c:88-111 | no path leads to the removed node any more |
| Initrd.EveryEntryFound | kernel/src/fs/ramfs.c:58-168 | for every list of entries with directories before their contents: each directory is there, each file has the size and data of its first entry |
| Initrd.AddDirOnly | kernel/src/fs/ramfs.c:90-130 | a directory entry whose parents exist adds at most itself |
| Initrd.AddFileOnly | kernel/src/fs/ramfs.c:132-165 | a file entry whose parents exist adds exactly itself, unless the path exists |
| Initrd.MisplacedFile | kernel/src/fs/ramfs.c:90-151 | for every free path: the file lands there if and only if all its parents exist, else at the first missing one |
| Initrd.FileFoundExactly | kernel/src/fs/ramfs.c:58-168 | for every list of entries, ordered or not: a listed file is found with its own size and data if and only if its path was free and its parents there when its turn came |
| Initrd.DirFoundExactly | kernel/src/fs/ramfs.c:90-130 | in every list of entries, ordered or not, a listed directory exists, and is a directory if and only if no file was in its place when its turn came |
| Initrd.UnorderedArchive | kernel/src/fs/ramfs.c:118-151 | an archive listing a/b before a, in which a is the file and a/b is missing |
| Initrd.CreateRepresents | kernel/src/fs/ramfs.c:109-116 | creating a missing child extends the represented file system by one path |
| Initrd.FillRepresents | kernel/src/fs/ramfs.c:157-159 | recording size and data changes that file only |
| Ramfs.StrideIs | kernel/src/fs/ramfs.c:167 | the step is the header plus the data rounded up to 512 |
| Ramfs.StuckSizes | kernel/src/fs/ramfs.c:167 | the 32-bit step is 0 if and only if the size is between 2^32 - 1023 and 2^32 - 512 |
| Ramfs.StrideExactly | kernel/src/fs/ramfs.c:167 | the 32-bit step for every size: header plus padded data, nothing from 2^32 - 1023, the header alone from 2^32 - 511 |
| Ramfs.StuckHeader | kernel/src/fs/ramfs.c:70-167 | a header with size field 37777776001 leaves the offset where it is |
| Ramfs.OctalField | kernel/src/fs/ramfs.c:70 | a size field of one to eleven octal digits is read as that number modulo 2^32, hence exactly if and only if it is below 2^32 |
| Ramfs.OffsetsSpaced | kernel/src/fs/ramfs.c:58-168 | every header offset is a multiple of 512, and each header lies behind the data of the one before |
| Ramfs.SlicesApart | kernel/src/fs/ramfs.c:158-167 | the data of one member meets no header and no data of another |
| Ramfs.Enter | kernel/src/fs/ramfs.c:90-130 | one path part is found, or created for a directory, or reported missing for a file |
| Ramfs.EnterAll | kernel/src/fs/ramfs.c:87-130 | the token loop enters all parts, or stops a file entry at its first missing part |
| Ramfs.AddFileNode | kernel/src/fs/ramfs.c:132-165 | the file is created under the parts found, with the size and data of its header, unless the path existed |
| Ramfs.ParseEntry | kernel/src/fs/ramfs.c:62-167 | one header changes the represented file system by its entry and cuts only its name field |
| Ramfs.Parse | kernel/src/fs/ramfs.c:50-171 | ends for every well-formed archive, and the tree then represents exactly its entries in order; fails only on an empty archive or when memory runs out |
| Ramfs.Init | kernel/src/fs/ramfs.c:173-200 | the same from an emptied root |
| Ramfs.EveryMemberFound | kernel/src/fs/ramfs.c:58-168 | after a successful parse of a well-ordered archive, every listed directory looks up to a directory and every listed file to a file with the size read from its first header and the data behind it |
| Ramfs.MemberFoundExactly | kernel/src/fs/ramfs.c:58-168 | after a successful parse of any well-formed archive, which listed files look up to a file with their own size and data |
| Ramfs.DirMemberExactly | kernel/src/fs/ramfs.c:58-168 | after a successful parse of any well-formed archive every listed directory is found, and when it is a directory |
| Ramfs.MemberIntact | kernel/src/fs/ramfs.c:87-159 | every byte of every entry's data is after the parse what it was in the archive |
| Ramfs.MembersApart | kernel/src/fs/ramfs.c:158-167 | the data of different entries is disjoint and meets no header |
| Archives.MemberReads | kernel/src/fs/ramfs.c:62-85 | a member's header (name at 0 with or without ./, size in octal at 124, type at 156) reads back as the member: its path, directory if and only if its type is 5, its size, its data 512 bytes on; it is skipped if and only if its name is empty or a dot |
| Archives.ReadsBack | kernel/src/fs/ramfs.c:58-168 | every archive laid out that way is well formed and its entries are exactly its members, in order |
| Archives.WrittenIsArchive | kernel/src/fs/ramfs.c:58-167 | headers, contents and padding written one after another are such an archive |
| Archives.RoundTrip | kernel/src/fs/ramfs.c:58-168 | for every list of members: writing them and reading the archive gives those members |
| Archives.MembersFound | kernel/src/fs/ramfs.c:58-168 | after a successful parse of a well-ordered archive every member of type 5 looks up to a directory, and every other member first of its path to a file of its length, at bytes that are still its contents |
| Ramfs.DataIntact | kernel/src/fs/ramfs.c:87-134 | cutting names in place changes no byte of any member's data |

## Left out

- `vma.c`: its gap test and page counts disagree, so regions are not disjoint; the heap's page source is an answer given from outside, NULL or a fresh range.
- `process_destroy` and `vmm_destroy_pagemap`: they hand direct-map addresses and a pagemap twice to the frame allocator, so exits are kept out of frame conservation.
- Heap.Heap.Kmalloc: the request must be small enough for the 32-bit page computation, and the branch for size 0 is dead because 32 bytes were added before.
- Heap.Heap.Kmalloc: chunk and block headers are records in maps beside the byte memory; the runs let every step write any bytes at header addresses instead.
- Heap.Heap.Kfree: a pointer that is neither live nor in front of a header with a wrong magic number is excluded; the code would follow its links blindly.
- Heap.Heap.Krealloc: the heap lies above the bytes that a failed growth writes at address 0.
- Vmm.PageMapper.Map: enough frames for the missing levels are required, since `vmm_map` does not look at what the frame allocator returns.
- Vmm.PageMapper.EnsurePath: enough frames for the missing levels are required, as for Vmm.PageMapper.Map.
- Vmm.PageMapper.NewPagemap: a free frame is required, since the NULL check after the direct-map offset cannot fail.
- Vmm.PageMapper.Unmap: `invlpg` has no effect in the model.
- VmmInit.Initialize: the switch to the new pagemap is not modelled; section end addresses and the direct map are assumed not to wrap at 2^64.
- Elf.ElfLoad: program headers lie inside the file, loaded segments inside the file and below the 64-bit limit, and `vmm_map` never runs out of frames between a page's frame and its tables; `e_phentsize` is not read, as in the code.
- HeapRuns.Perform: callers store single bytes inside their payloads only; a write outside a payload is not modelled.
- ElfFiles.AlignmentNeeded: for segments inside the limits elf_load trusts and of at most 2^36 pages, since no larger one can be loaded without two pages sharing a number.
- CStrings.Strtol: `endptr` and `errno` are not modelled.
- CStrings.Tokenizer.Strtok: delimiters do not contain NUL.
- Vfs.FileSystem.Lookup: the path copy is a new array; that `kfree` returns it is not modelled.
- Vfs.FileSystem.Create: `kmalloc` is a counter of allocations that still succeed, and addresses are never reused.
- Vfs.FileSystem.Remove: addresses are never reused, and the orphaned children of a removed directory stay in the model's memory.
- Ramfs.ParseEntry: permissions, mode bits and creation times are not modelled.
- Ramfs.Parse: the archive is well formed (headers complete, fields terminated, sizes at most 2^32 - 1024).
- Ramfs.Init: the same archives as Ramfs.Parse.
- Archives.MemberReads: names of at most 99 bytes and contents below 2^32 - 1023 bytes, as far as one header and the 32-bit step go; checksum, owner, mode and time fields are not read by the parser and are left NUL by the writer.
- Scheduler.RoundRobin.CreateProcess: the frames for the process and its stack are given; creation from an ELF file through the file layer is not modelled.
- Scheduler.RoundRobin.TerminateCurrent: only the table part; the endless idle loop on an empty table is not entered, and the call needs a current process.
- `kcalloc`, `vfs_get_path`, `vfs_read`, `vfs_write`, `vfs_lookup_parent`, `strncpy`, `strncat` and the other string functions: off the modelled paths, or easy.
- Locks and several processors: each heap operation holds its lock throughout, so the heap is sequential here.
- Interrupt tables, timers, serial port, framebuffer, system calls, device table and logging: hardware or plumbing.

# GravityOS, verified

A Dafny model of the parts of the GravityOS kernel that keep state others depend on: the FAT32 driver, the
physical frame allocator, the four-level page tables and the programs loaded through them, the kernel heap, the
process table with its round-robin scheduler, and the Internet checksum. Code that updates state in place is
modelled by classes and methods with loops; each is proved against a specification on values, and the properties
of whole runs are proved about that specification.

`dafny verify dfyconfig.toml` checks the whole project.

| module | part of the system |
|---|---|
| `Bytes` | little-endian fields |
| `FatLayout`, `FatVolume`, `FatTable`, `FatFailure`, `ShortNames` | FAT32 on values: layout of the disk, directory and chains, table updates, what failures leave, 8.3 names |
| `Fat32`, `FatRuns` | the driver over a disk whose writes may fail; runs of operations |
| `DiskImage`, `FirstBoot`, `FailingInputs` | the script that builds the disk image, the driver on that image, and writes to it that fail for good |
| `Pmm` | the bitmap of physical frames |
| `PageTables`, `Paging` | the processor's walk, and the virtual memory manager |
| `UserMode`, `ElfLoader` | the user address window, program loading, and a program's life until its exit |
| `HeapList`, `HeapPages`, `Heap`, `HeapRuns` | block lists, the pages behind the heap, the heap over headers in memory, and its runs |
| `Scheduling`, `Processes` | the process table as a transition system, and the C functions as its steps |
| `Checksum` | ones'-complement sums and the packets that carry them |

## What is proved

**FAT32.** The abstract value of a mounted volume is a map from 8.3 names to bytes. A write that succeeds updates
this map at one name, a delete removes one name, a read returns the bytes of one name, and nothing else changes;
clusters are conserved exactly. The invariant behind it says that chains are acyclic, in range, disjoint from each
other and from the root directory, and long enough. With unreliable writes, creating a file (a slot being
available) or deleting one never damages another file and never leaves a live entry on a free or shared cluster.
Whatever write fails, the directory slots and every other file keep chain and bytes. No operation touches a sector
outside the volume or a reserved bit of a table entry. With reliable writes,
`fat32_write_file` succeeds if and only if the clusters suffice. What a failure leaves is decided exactly: an
overwrite frees the old chain first (drivers/fat32.c:386), so that the volume is consistent afterwards if and only if
the old file had no clusters; a creation that had to grow the root directory links the new cluster before it clears it
(drivers/fat32.c:334-339), so that the volume is consistent if and only if a cluster of the disk was free or no table
entry was zero at all. Freeing a chain terminates on every table whose links are in range, cyclic
ones included, and clears exactly the entries reachable from the start.

**Memory.** The page tables are a tree of distinct frames none of which the frame allocator considers free. Mapping
inserts one translation, unmapping removes one, and running out of frames half-way changes none. Tables that exist
are not opened to user mode by a later mapping (kernel/vmm.c:52-59), so a page is open to user mode only as far as
they were. Loading a program gives every segment its bytes and then zeros, a zero stack, and for distinct pages
distinct frames that are neither free nor page tables; no frame that was in use elsewhere is written, and no
translation outside the window changes. Whether a load is done, fails or faults is a function of the headers, the free
frames and the tables there are. When the process exits, the free memory is what it was before, except for
new page tables and for pages beyond the 128 that are recorded, and the address space is ready for the next program.

**Heap.** Every call keeps a doubly linked, address-ordered list of non-overlapping, aligned blocks, none of them
free beside an adjacent free one. No call moves, resizes or frees another allocation, and no write into an
allocation damages the list. `kmalloc` hands out the first block that fits, cut to size; it fails exactly for size 0 or when nothing fits and the frames end before the
last page; it faults exactly when the page of the new header cannot be mapped, or lies under read-only tables. Until an
expansion has failed, the blocks tile the heap, and freeing everything in any order leaves one block.

**Scheduling.** For every interleaving of ticks, self-exits and a `process_create` cut at each preemption point:
only the current slot runs, ready slots have a complete context and a stack of their own, live process numbers
differ, each stack is freed once, the fallback to slot 0 is never taken, and a ready slot runs within 63 ticks. Every
ready slot has been ready since a tick stopped it or its creation was published, and has the context saved or
completed then; so every resume loads exactly those registers.

**Checksum.** A packet that carries its checksum sums to zero, for every length, and changing one 16-bit word goes
unnoticed exactly when it exchanges the two ones'-complement zeros.

## Where the code falls short of its purpose

Each with a failing input and the exact condition.

- A failed overwrite, and a creation that grows the root directory past the end of the disk, leave no consistent
  volume. Inputs: `FailingInputs.OverwriteTooLong`, and `FailingInputs.GrowPastEnd` with `FullSources`; conditions:
  `Fat32.Driver.WriteMounted`.
- The image script sizes the tables for more clusters than the disk has: 2078 table entries lie past the end, and
  `fat32_free_space` counts them (`FirstBoot.MountImage`, `FirstBoot.FreeSpaceExact`).
- The script splits names at the last dot and drops characters, the driver splits at the first: `DiskImage.TwoDots`,
  and `DiskImage.NamesAgree` for the names on which they agree.
- `usermode_map_range` and `heap_expand` do not notice that `vmm_map_page` ran out of frames; the first access then
  faults: `UserMode.MapRange`, `Heap.KernelHeap.HeapExpand`. A heap of several new pages may be left with an unmapped
  last page.
- `kfree` trusts a header in front of any address, sizes that wrap around included. Inputs: `Heap.ForgedHeader`,
  `Heap.WrappedHeader`; condition: `Heap.KernelHeap.Kfree`.
- `pmm_free_page` of a frame in use below 1 MB or past the last page upsets the reserved megabyte or the counter:
  `Pmm.FrameAllocator.FreePage`.

## Model

| member | source | states |
|---|---|---|
| Bytes.FieldBytes | drivers/fat32.c:50-52 | fields of two, four and eight bytes are read least significant byte first |
| Checksum.SumWords | net/net.c:126-136 | the loop adds the big-endian words of even and odd data, modulo 2^32 |
| Checksum.ByteWeight | net/net.c:126-136 | changing one byte changes the sum by 256 times the difference at an even place, the last byte of odd data included, and by the difference at an odd place |
| Checksum.ZerosWeighNothing | net/net.c:126-136 | bytes that are zero sum to 0 |
| Checksum.OddPadding | net/net.c:136 | odd data sums as if a zero byte followed it |
| Checksum.FoldSum | net/net.c:138 | the fold loop ends in the 16-bit number congruent to the sum modulo 65535, and in 0 only for 0 |
| Checksum.Checksum16 | net/net.c:126-141 | the result is the RFC 1071 checksum of all data short enough for the 32-bit sum, and that of the wrapped sum beyond |
| Checksum.StoredChecksumVerifies | net/net.c:237 | data with its checksum stored in place has checksum 0, for even and odd lengths |
| Checksum.SingleWordErrorDetection | net/net.c:126-141 | replacing one word goes unnoticed if and only if it is the same word or the other ones'-complement zero (for 0 in place of 0xFFFF: unless nothing else is left) |
| Checksum.WordSumUpdate | net/net.c:126-141 | changing one word changes the sum by exactly the difference |
| Checksum.BuildIpv4 | net/net.c:220-241 | the header sent verifies and has every field as the code sets it, in network order, and is followed by the payload; too long a payload is refused |
| Checksum.EchoReply | net/net.c:281-291 | a reply is the request with type and checksum changed, and verifies |
| Checksum.PingPacket | net/net.c:366-385 | the echo request carries identifier, sequence and pattern, and verifies |
| ShortNames.ToShortName | drivers/fat32.c:163-183 | the loops compute the short name that the rows below pin down |
| ShortNames.FiledAs | drivers/fat32.c:163-183 | character by character: eight of the part in front of the first dot, three of the part behind it, small letters as capitals, all others as they are, spaces behind |
| ShortNames.NoLowerCase | drivers/fat32.c:163-183 | no small letter is filed |
| ShortNames.ShortNameVisible | drivers/fat32.c:163-183 | no ASCII name is filed as a free or deleted slot |
| ShortNames.CaseInsensitive | drivers/fat32.c:163-183 | names that differ only in small and capital ASCII letters are the same file |
| FatLayout.FatSectorWrite | drivers/fat32.c:56-77 | writing back a table sector with one entry changed changes that entry of that copy, in its low 28 bits, and nothing else on the volume; reserved bits and the sectors outside stay |
| FatLayout.DataSectorWrite | drivers/fat32.c:36-39 | writing a data sector changes that sector of that cluster, no table and nothing outside the volume |
| FatLayout.PutEntryAt | drivers/fat32.c:67-71 | one entry of the sector is set, the others and the four reserved bits of every entry stay |
| FatVolume.Frame | drivers/fat32.c:366-466 | a change that keeps every owned cluster keeps the invariant: chains, names and contents |
| FatVolume.Commit | drivers/fat32.c:427-441 | writing the entry of a stored chain adds exactly that file to the directory |
| FatVolume.Erase | drivers/fat32.c:453-459 | marking a slot deleted removes exactly that file |
| FatVolume.GrowRoot | drivers/fat32.c:331-343 | a cleared cluster linked behind the root directory extends it by unused slots |
| FatVolume.EntryFields | drivers/fat32.c:346-364 | an entry that is written reads back as live, with its name, first cluster and size; its 32 bytes are given one by one, attribute 0x20 and zeros in the unused fields included |
| FatVolume.LiveExactly | drivers/fat32.c:287-290 | an entry is compared with the name looked for if and only if it is in use and bit 3 of its attributes is clear |
| FatTable.ChainReach | drivers/fat32.c:106-114 | what a chain's links reach is the chain |
| FatTable.VisitedIsReach | drivers/fat32.c:106-114 | what a walk in a table has visited when it ends or repeats itself is exactly what is reachable |
| FatTable.LinksWalk | drivers/fat32.c:106-114 | in a table with links in range every walk stays in range, so that freeing may start anywhere |
| FatTable.FailedOverwrite | drivers/fat32.c:385-424 | after a failed overwrite the directory is consistent if and only if the old file had no clusters |
| FatFailure.StrayedSurvive | drivers/fat32.c:329-343 | a creation that failed while growing the directory keeps its slots and every file's chain and bytes |
| FatFailure.SeveredForGood | drivers/fat32.c:331-334 | a root directory linked to a cluster past the end of the disk is consistent with no directory and no files |
| FatFailure.SeveredExample | drivers/fat32.c:331-334 | the smallest table on which no root chain is left |
| FatFailure.RootUnique | drivers/fat32.c:42-53 | a volume has at most one root directory chain |
| Fat32.Driver.NextCluster | drivers/fat32.c:42-53 | the low 28 bits of the primary table's entry |
| Fat32.Driver.SetEntry | drivers/fat32.c:56-77 | success sets the entry in every copy; a failure has set it in a leading part of them |
| Fat32.Driver.AllocCluster | drivers/fat32.c:80-103 | the lowest free cluster is taken and marked last in every copy; 0 with reliable writes means none is free |
| Fat32.Driver.FreeChain | drivers/fat32.c:106-114 | terminates for every table with links in range, cyclic or cross-linked, touches only entries reachable from the start and on success clears all of them |
| Fat32.Driver.Mount | drivers/fat32.c:116-160 | mounts if and only if the boot sector is readable and accepted; the parameters are given by its bytes; a disk that satisfies the invariant gives a valid driver |
| Fat32.Driver.FindEntryLocation | drivers/fat32.c:273-303 | finds the slot of exactly the file of that short name, if and only if there is one |
| Fat32.Driver.FindFreeDirSlot | drivers/fat32.c:306-344 | the first unused slot if there is one, without change; else the directory grows by one cleared cluster, with reliable writes exactly if one is free; a failure touches free clusters and the link behind the directory only |
| Fat32.Driver.GrowDirectory | drivers/fat32.c:329-343 | a successful growth keeps every file and adds one cluster of unused slots; with reliable writes a failure changed nothing or linked a cluster the disk lacks |
| Fat32.Driver.StoreData | drivers/fat32.c:398-435 | the data is stored in the needed number of free clusters and nothing owned is touched; with reliable writes exactly if they suffice, and a failure gives them all back |
| Fat32.Driver.WriteMounted | drivers/fat32.c:366-442 | success stores the data under the name and keeps every other file, with exact cluster accounting and mirrored tables; the slot is the file's own or the first unused one, its 32 bytes are given, and every other slot stays; reliable success if and only if the space suffices; every failure keeps slots, chains and bytes of all other files; a failed creation with a slot available keeps the invariant; reliable failed overwrites and growths are consistent exactly under the conditions given; the return codes |
| Fat32.Driver.WriteFile | drivers/fat32.c:366-442 | on the map from names to bytes: one name updated, nothing else; a failure keeps all other files; nothing outside the volume and no reserved bit of a table changes; the return codes |
| Fat32.Driver.DeleteFile | drivers/fat32.c:444-466 | one name removed, whatever writes fail; the slot's first byte becomes 0xE5 and no other slot byte changes; no copy of the table changes outside the file's chain and no sector outside the root directory; with reliable writes its clusters become free; the error codes exactly |
| Fat32.Driver.FreeSpace | drivers/fat32.c:468-489 | the bytes of all zero entries of the primary table |
| Fat32.Driver.FileSize | drivers/fat32.c:491-498 | the size of the named file, or -1 |
| Fat32.Driver.ReadFile | drivers/fat32.c:500-524 | exactly the bytes of the named file, nothing behind them written; -1 and -2 exactly when absent or too large |
| FatRuns.Run | drivers/fat32.c:366-466 | every run of successful writes and deletes refines the same run on the map, with the invariant at the end |
| FatRuns.CreateReadDelete | drivers/fat32.c:366-524 | a file that is created reads back; deleting it restores files and free space, except for growth of the root directory |
| FatRuns.SlotSound | drivers/fat32.c:273-303 | a live slot starts an acyclic, in-range chain apart from the root directory's and long enough for its size |
| FatRuns.SlotsSound | drivers/fat32.c:273-303 | two live slots have different names and start disjoint chains |
| DiskImage.NamesAgree | scripts/make_disk.py:29-38 | script and driver file a name under the same bytes if and only if the stated condition on its characters and dots holds |
| DiskImage.KeepsKnown | scripts/make_disk.py:29-38 | of known characters the first eight and three are kept as capitals, and spaces fill the rest |
| DiskImage.DropsUnknown | scripts/make_disk.py:29-38 | a character the script does not know is dropped, and so is a dot that is not the last one |
| DiskImage.ImageNameVisible | scripts/make_disk.py:29-38 | the script files no name as a free or deleted slot |
| DiskImage.PlainNames | scripts/make_disk.py:29-38 | script and driver file a plain 8.3 name under the same bytes |
| DiskImage.TwoDots | scripts/make_disk.py:29-38 | a name with two dots for which they differ |
| DiskImage.BootFields | scripts/make_disk.py:41-70 | the parameters a driver reads from the boot sector |
| DiskImage.DirEntryFields | scripts/make_disk.py:84-96 | an entry reads back with its name, cluster and size and has the attribute, dates and zeros the script sets; files are live, the label is not |
| DiskImage.LinkRun | scripts/make_disk.py:144-146 | the clusters of one file become one chain, no other entry changes |
| DiskImage.Build | scripts/make_disk.py:99-163 | the image has boot sector, its copy and the information sector, two equal tables, directory and data where the driver looks for them |
| DiskImage.ImageInv | scripts/make_disk.py:99-163 | the image satisfies the driver's invariant with exactly the source files |
| FirstBoot.MountImage | drivers/fat32.c:116-160 | the driver mounts the image and is valid, its files being the sources; free space is over-counted by 2078 clusters |
| FirstBoot.BootAndRead | drivers/fat32.c:500-524 | every source file reads back byte for byte under its own name if script and driver agree on it, and is not found otherwise unless another file was filed there |
| FirstBoot.FreeSpaceExact | drivers/fat32.c:468-489 | the bytes reported are the bytes there are if and only if no table entry past the end of the disk is zero, else they are more |
| FailingInputs.OverwriteTooLong | drivers/fat32.c:385-435 | on the mounted image, overwriting a file with more than the disk holds fails and leaves no consistent volume |
| FailingInputs.GrowPastEnd | drivers/fat32.c:329-339 | on an image whose fifteen files fill the disk, creating one more returns -3 and leaves no consistent volume |
| FailingInputs.FullSourcesFit | scripts/make_disk.py:99-163 | such fifteen files |
| Pmm.FrameAllocator.Occupy | kernel/pmm.c:18-20 | sets the bit of one frame and no other |
| Pmm.FrameAllocator.Vacate | kernel/pmm.c:22-24 | clears the bit of one frame and no other |
| Pmm.FrameAllocator.constructor | kernel/pmm.c:30-82 | free are exactly the frames of usable regions from 1 MB up to the capacity of the bitmap, and the counter counts them; the number of pages is 0, that capacity, or where a usable region ends |
| Pmm.HighestEnds | kernel/pmm.c:35-45 | no usable region ends above the highest usable address, and one ends there unless it is 0 |
| Pmm.FrameAllocator.AllocPage | kernel/pmm.c:84-95 | the lowest free frame, never one in use or below 1 MB; null if and only if none is free; the counter stays exact |
| Pmm.FrameAllocator.FreePage | kernel/pmm.c:97-104 | the frame becomes free and the counter moves if it was not; the allocator stays valid exactly for frames from 1 MB up to the last page, and for those that were free |
| PageTables.LeafWrite | kernel/vmm.c:80 | writing a last-level entry keeps the tables a tree of distinct frames |
| PageTables.LeafWriteSelf | kernel/vmm.c:80 | the page's walk ends in the new entry, with the rights of the tables above it |
| PageTables.LeafWriteOther | kernel/vmm.c:80 | no other page's walk changes |
| PageTables.AttachTree | kernel/vmm.c:54-59 | entering a cleared frame as a table keeps the tree |
| PageTables.AttachWalk | kernel/vmm.c:54-59 | pages beyond the new table were unmapped and stay so |
| PageTables.AttachWalkOther | kernel/vmm.c:54-59 | no other page's walk changes |
| Paging.IndexFields | kernel/vmm.c:45-48 | the four index fields are the digits of the page number |
| Paging.AddressSpace.constructor | kernel/vmm.c:25-35 | the root is the frame CR3 names |
| Paging.AddressSpace.NextTable | kernel/vmm.c:54-61 | the next table, created from one free frame when absent; no translation changes |
| Paging.AddressSpace.MapPage | kernel/vmm.c:37-84 | inserts one translation with exactly computed rights and the entry as given, present bit added; needs exactly the missing tables in frames; without them no translation changes; frames elsewhere are untouched and the tree is kept |
| Paging.AddressSpace.IsMapped | kernel/vmm.c:86-105 | true if and only if the processor finds a translation |
| Paging.AddressSpace.UnmapPage | kernel/vmm.c:107-126 | removes one translation, changes no other and gives no table back |
| UserMode.ResetAddressSpace | kernel/usermode.c:26-33 | empties the window whatever its entries name; nothing else changes |
| UserMode.MapRound | kernel/usermode.c:40-54 | one page: passed over when mapped, else given a cleared frame of its own; `PageOutcome` says exactly when it fails and when it faults |
| UserMode.MapRange | kernel/usermode.c:35-57 | succeeds, fails or faults exactly as free frames, missing tables and pages decide (`TallyOutcome`); the touched pages join the window cleared, mapped ones keep frames and contents, frames are conserved and recorded, nothing elsewhere changes |
| UserMode.WindowPaths | kernel/vmm.c:61-77 | all pages of the window are reached through the same tables |
| UserMode.PageAdded | kernel/usermode.c:45-53 | distinct window pages stay in distinct frames that are neither free nor tables |
| ElfLoader.LoadSegment | kernel/elf_loader.c:44-65 | one header: skipped, refused, or mapped and copied, later segments winning over earlier ones; it decides the load or leaves the rest to decide |
| ElfLoader.HeaderBytes | kernel/elf.h:12-32 | which bytes of the file header make it accepted, and which spell entry point, header offset and header count |
| ElfLoader.SegmentBytes | kernel/elf.h:34-43 | which bytes of the file spell the fields of the i-th program header |
| ElfLoader.PagesOccupied | kernel/usermode.c:37-40 | a segment's pages are exactly those of the addresses it occupies |
| ElfLoader.ElfLoad | kernel/elf_loader.c:16-72 | the outcome exactly (`LoadOutcome`); when done, every segment reads as file bytes then zeros, the stack as zeros, in frames of their own, and nothing elsewhere changed |
| ElfLoader.ImageOf | kernel/elf_loader.c:59-64 | for separate segments the image at an address is that of the one segment there |
| ElfLoader.LoadedProgram | kernel/elf_loader.c:16-72 | reading through the page tables gives the program, byte by byte |
| ElfLoader.RunToExit | shell/shell.c:122-134 | after load and exit the free memory is what it was but for new tables and unrecorded pages, and the next load's conditions hold |
| HeapList.AlignUpExact | kernel/heap.c:31-35 | the least multiple of 16 not below a size that does not wrap |
| HeapList.AlignUpWraps | kernel/heap.c:31-35 | a size that wraps to 0 |
| HeapList.LaidOrder | kernel/heap.c:39-77 | blocks are strictly ordered and do not overlap |
| HeapList.LaidCoalesced | kernel/heap.c:149-169 | no two adjacent blocks are both free |
| HeapList.ExactTotal | kernel/heap.c:63-70 | headers and payloads sum to the mapped bytes while no expansion has failed |
| HeapList.AllFreeIsOne | kernel/heap.c:149-169 | a gapless heap with all blocks free is one block |
| HeapList.LiveDisjoint | kernel/heap.c:112-133 | live allocations are disjoint |
| HeapList.TakeEffect | kernel/heap.c:93-125 | handing a block out keeps the layout and adds exactly one allocation |
| HeapList.ExpandEffect | kernel/heap.c:56-76 | new pages keep the layout and every allocation |
| HeapList.ReleaseEffect | kernel/heap.c:146-169 | freeing and merging keeps the layout and removes exactly one allocation |
| HeapPages.LevelCounts | kernel/vmm.c:54-77 | the level a walk ends at counts the tables the page lacks |
| HeapPages.MapOne | kernel/heap.c:46-51 | one round: a frame taken and mapped, tables included, or the frames exhausted unnoticed |
| HeapPages.MapPages | kernel/heap.c:45-54 | how many pages the loop goes through, and that all are mapped exactly when the frames covered pages and tables |
| Heap.KernelHeap.FirstFit | kernel/heap.c:118-126 | the first free block that is large enough, null if and only if there is none |
| Heap.KernelHeap.SplitBlock | kernel/heap.c:93-110 | the headers represent the split list |
| Heap.KernelHeap.HeapExpand | kernel/heap.c:39-77 | fails, faults on the new header, or grows exactly as frames and tables decide, by the pages asked for; the last block then fits; the heap stays mapped throughout exactly when the last page's tables were covered; failure adds no block |
| Heap.KernelHeap.constructor | kernel/heap.c:79-90 | the heap starts valid, with one free block of 8160 bytes, or with none if the frames ended |
| Heap.KernelHeap.Kmalloc | kernel/heap.c:112-133 | the first free block that fits is handed out, cut to the rounded size when a header and 16 bytes remain, the rest free; the other blocks stay, and growth happens exactly if none fits; one new disjoint allocation of less than 48 bytes too much, all others as they were; null if and only if size 0 or no fit and the frames end too early; a fault exactly as in growing |
| Heap.KernelHeap.Kfree | kernel/heap.c:135-170 | removes exactly the allocation passed; any other pointer leaves the list alone if and only if no used header is there or its merges, in 64-bit arithmetic, do not touch the list; without forged headers it changes nothing |
| Heap.FreedOffList | kernel/heap.c:149-169 | freeing behind a header off the list keeps the list exactly when the merges write nothing to it, or what is there already |
| Heap.ForgedHeader | kernel/heap.c:139-158 | a forged header in front of the last free block becomes the tail of the list |
| Heap.WrappedHeader | kernel/heap.c:152-158 | a forged size that wraps around to the first block makes a used block's back link point into its payload |
| Heap.KernelHeap.FreeAll | kernel/heap.c:135-170 | freeing everything in any order leaves one block over the whole heap while no expansion has failed |
| Heap.KernelHeap.Scribble | kernel/heap.c:112-133 | whatever headers a program's bytes spell inside its allocation, the list is as it was |
| HeapRuns.Run | kernel/heap.c:112-170 | every run of allocations, frees and writes does to the map of live allocations what each operation should, and they are aligned and apart all along |
| HeapRuns.ValidSeparate | kernel/heap.c:39-170 | the live allocations of a valid heap are aligned, inside the heap and apart, headers included |
| Scheduling.StepKeeps | kernel/process.c:40-130 | every step keeps the invariant |
| Scheduling.TickKeeps | kernel/process.c:85-130 | a tick keeps the invariant |
| Scheduling.FallbackNeverNeeded | kernel/process.c:95-110 | a tick always finds a ready slot |
| Scheduling.FreedStacks | kernel/process.c:118-129 | a tick frees at most the stack of the process that died in the current slot, once |
| Scheduling.RunSafe | kernel/process.c:40-182 | the invariant of statuses, stacks, process numbers and creation holds in every state of every run |
| Scheduling.BoundedWaiting | kernel/process.c:95-113 | while a slot stays ready, the ticks passed and its distance from the current slot never exceed the distance it began with |
| Scheduling.ChosenInTime | kernel/process.c:95-113 | one of the next 63 ticks chooses a ready slot, whatever else happens |
| Scheduling.ReadyOrigin | kernel/process.c:40-116 | in every state of every run a ready slot has been ready since a tick stopped it or its creation was published, with the context saved or completed then |
| Scheduling.ResumeOrigin | kernel/process.c:89-116 | every resume loads the registers saved when the slot was last stopped, or its creation context; the tick that chooses the slot it stops included |
| Scheduling.ContextPreserved | kernel/process.c:89-116 | a slot stopped by a given tick and not run since resumes with the registers of that tick, at once or later |
| Scheduling.FirstRun | kernel/process.c:63-72 | a slot published by a given step and not run since starts at its entry point in the kernel's segments, interrupts on, at the aligned top of its stack |
| Processes.Scheduler.Schedule | kernel/process.c:85-130 | the C function is one tick of the transition system |
| Processes.Scheduler.Create | kernel/process.c:40-79 | uninterrupted creation: the first dead slot, next number, every field of its context, the stack pointer at the aligned top of the stack, no recorded frames; or nothing but a number used |
| Processes.Scheduler.Track | kernel/process.c:147-157 | the frame is recorded for the running process, up to 128 |
| Processes.Scheduler.Exit | kernel/process.c:159-182 | the slot dies, exactly its recorded frames become free, and free memory grows by 4096 for each |

## Left out

- ATA port input and output: the disk is a sequence of sectors whose writes may fail; reads of existing sectors are taken to succeed.
- Device drivers other than FAT32, interrupt controllers, descriptor tables, assembly stubs, framebuffer, shell and console: hardware or user interface.
- ARP and ping waiting loops and the recursion through `net_poll`: timing; packets are built as values, sending is not modelled.
- `fat32_list_root` and directories other than the root: output only, and not supported by the code.
- `find_entry` and `find_entry_location` run the same scan; it is modelled once.
- Fat32.Driver.WriteMounted: files are shorter than 2^31 bytes, since the size is returned as an `int`; whether a failure with unreliable writes leaves the whole volume consistent is not decided, only that slots and other files survive.
- Fat32.Driver.DeleteFile: with unreliable writes the tables may differ afterwards and clusters may be lost, since the result of freeing the chain is ignored (drivers/fat32.c:463).
- Fat32.Driver.Mount: `limit`, where the clusters on the disk end, is a parameter the C function does not have; the driver never looks at it. When the table has more entries than the disk has clusters, the disk ends with its last cluster.
- DiskImage.Build: at most 15 files with distinct short names of ASCII characters that fit on the disk; the script checks none of this.
- Paging.AddressSpace.MapPage: no 2 MB or 1 GB page on the walked path, which the code does not test for; addresses page-aligned, flags below 4096; the TLB is not modelled.
- Paging.AddressSpace.IsMapped: no 1 GB page on the walked path.
- UserMode.MapRange: ranges inside the user window only.
- Pmm.FrameAllocator.FreePage: addresses the bitmap covers; beyond it the code writes past the bitmap.
- ElfLoader.ElfLoad: segments inside the window, no longer in the file than in memory, headers and bytes inside the file; the C code checks none of this. The program's own writes and `iretq` are not modelled.
- Heap.KernelHeap.HeapExpand: nothing is mapped behind the heap, and the frames there are fit behind it; once a growth has left an unmapped page, later header writes into it are not modelled as faults.
- Heap.KernelHeap.Kmalloc: sizes up to 2^64 - 48, beyond which `align_up` wraps.
- HeapRuns.Run: ends where a program writes outside what it asked for, or frees what is no allocation after writing headers.
- Heap.KernelHeap.Kfree: headers are kept by address; a header off the list that a later header overlaps in part is kept as it was, and memory without a header reads as zeros.
- Scheduling.StepKeeps: clearing a context is one step; heap calls are atomic, one process creates at a time, processes exit only themselves, process 0 never exits, and the process number does not wrap.
- `process_init`, `process_count_alive`, `vfs.c`, string helpers, keyboard and mouse: easy members.

# Ziemniak: the boot-time memory pipeline, modelled and proved

Ziemniak boots a 64-bit kernel from a CD. Its second-stage loader finds the kernel file on the
ISO 9660 volume, first-fits a RAM region from the E820 map, carves it into image, ten page tables
and stack, builds a 4-level page-table tree, and copies the file in. The kernel then normalises the
same memory map in place and opens a "peek" window on physical memory by rewriting one page
directory of the tree the loader built. This project models that pipeline, with the console, the
hexadecimal printers and the two BIOS collection loops beside it, and proves what it computes.

`dafny verify dfyconfig.toml` checks everything.

## How the model is built

- Physical memory is one `array<U8>` of 4 GiB, the loader's 32-bit address space. Page tables are
  little-endian words in it, written by the same stores that a page walk later reads through. The
  memory map and the loader's static sector buffer lie below 1 MiB, outside any region it can
  choose, and are arrays of their own; the buffer's array goes on with the memory behind it, which
  the directory walk can read.
- `PageWalk.Walk` is the 4-level walk of section 4.5 of the Intel 64 and IA-32 Architectures
  Software Developer's Manual, Volume 3A, with 52 physical address bits. With `strict` it faults on
  reserved bits, as hardware does; without, it ignores them.
- C unsigned arithmetic is `Wrap16`, `Wrap32`, `Wrap64`. The bitwise operators are defined bit by
  bit, and lemmas bridge each mask to a remainder.
- The kernel's own stores go through the walk, so a store of `mm_peek` can page-fault. What its
  code stores in its image and on its stack before that is a parameter (`System.Enter`).
- Module by module: `Machine` (words, bits, bytes), `Rounding` (defs.h), `PageEntry` (the two entry
  layouts), `PageWalk` (the processor), `PageTree` (the ten tables and their meaning), `Allocation`,
  `Loader`, `Boot` (stage2.c), `Disk`, `Iso9660`, `DirectoryImage` (cdrom.c), `PeekWindow`,
  `MemoryManager` (mm.c), `HandOff` and `System` (loader and kernel together), `Hex`, `Console`
  (video.c, debug.c), `Bios` and `MemoryMap` (stub.asm).

## What is proved

- **The tables mean exactly one thing.** For every 64-bit virtual address the walk gives identity
  below 2 MiB, the image at the link address, the stack frames at the top, the peek window, and a
  fault everywhere else (`PageTree.TreeTranslates`); `Boot.LoaderMain` establishes the tree from
  arbitrary memory contents, so the zeroing loop is needed as much as the stores.
- **The kernel sees its file**, byte for byte, at its link address when stage 2 jumps to it; and
  whatever its own code has made of the image by then, `mm_init` and `mm_peek` change no byte of it
  and no translation outside the peek window (`System.Start`).
- **A peek shows the range asked for**, modulo 2^52, for every address and size that is accepted,
  wrap-around included; the other translations stay; and after any run of peeks each directory
  entry is what the last request covering it wrote.
- **Hand-off**: if the free entries of the map are disjoint, whatever the others are, the pages
  `mm_init` leaves free are exactly the whole pages of the free regions that start, page-rounded, at
  1 MiB or above, less the image; and free memory plus image is 4096 times their number exactly
  when no entry is a sliver of one page or is cut by mistake, and the image is no larger than that.
- **Directory search** is "first record by prefix" exactly when that record's extent is nonzero.
  For a directory packed from a list of files, with system use fields and full sectors, it is
  worked out for every name which file is found, and exactly when that is the first whose
  identifier starts with the name, or is the name.
- **Console**: the framebuffer is at all times the rendering of a character grid with a wrap-around
  cursor; the two hexadecimal printers print the same digits, and parsing inverts them.

## Where the code does not do what one expects

Each of these keeps the code as it is, and is an exact condition or a concrete input.

- The stack window's top page is the frame *at* `load_end`, the first after the layout. `mm_init`
  therefore covers all stack frames exactly when the stack size is not a multiple of 4 KiB
  (`HandOff.StackInsideCarve`). The kernel's linker script uses 16 KiB, and `run` starts with
  `rsp` in that top page, which `mm_init` counts as free (`HandOff.StackTopDeclaredFree`).
- `mm_peek` rounds large-page entries to 4 KiB. Address bits 13 to 20 land in bits reserved by the
  processor, so hardware honours the window exactly when the address is in the first two pages of
  its 2 MiB block (`PeekWindow.PeekShowsRange`).
- The kernel reaches the peek directory through the identity map of the first 2 MiB only. If the
  directory lies at or above that, every accepted non-empty peek faults on its first store
  (`MemoryManager.DirectoryAccess`, `MemoryManager.PeekOutcome`), as it does when the first large
  enough region starts at 2 MiB (`HandOff.DirectoryOutOfReach`).
- A total size of 4 GiB or more wraps and is accepted by regions that cannot hold it
  (`Allocation.LayoutFitsExactly`, `Allocation.WrappedTotalOverruns`).
- If base, image and stack are all unaligned, the cut can end behind its region
  (`HandOff.CarvedIntervalValid`, `HandOff.CutBehindRegion`).
- A free entry inside one page makes the free-memory sum a page short, by adding almost 2^64
  (`HandOff.RegionSize`, `HandOff.TinyEntryWraps`). A free entry in the page before `load_buf`, below
  the chosen one, has the same rounded base and is cut as well (`HandOff.CarvesChosenOnly`,
  `HandOff.CutTwice`). If the free entries are disjoint, nothing else breaks the sum
  (`HandOff.FreeMemoryConserved`).
- The cut does not look at the kind: a reserved entry in that page has its base moved behind its
  end (`HandOff.ReservedCut`).
- A free region that starts below 1 MiB is not counted, so its pages above 1 MiB are lost
  (`HandOff.StraddlingRegionLost`).
- `cdrom.h` promises an exact name and a file size as result. The code matches by prefix and
  returns the extent, so "POTATO.BIN" finds "POTATO.BIN;1" (`DirectoryImage.LongerIdMatches`). It
  does not look at the identifier's length either: a name that goes on behind an odd-length
  identifier with the bytes that follow it, up to the first zero, matches it
  (`DirectoryImage.MatchExactly`). These are the system use field, which the Rock Ridge option of
  the makefile fills, so "A.B;1R" can find "A.B;1" (`DirectoryImage.SystemUseMatches`), and else the
  length byte of the next record (`DirectoryImage.RunOnMatches`).
- A directory sector filled to its last byte has no closing zero. It is read right exactly when the
  memory behind the buffer starts with 0 (`DirectoryImage.PackedDirectoryExactly`); otherwise a
  record left there is found like one of the directory (`DirectoryImage.StrayKernelFound`).
- `e820` drops regions whose length has halves that add up to 2^32 (`Bios.EmptinessTest`).
- `mm.h` calls the peek pointer a PTE; it is a page directory.

## Model

| member | source | states |
|---|---|---|
| Rounding.PageDownMask | kernel/include/defs.h:30 | the PAGE_DOWN mask is rounding down to 4 KiB |
| Rounding.PageUpMask | kernel/include/defs.h:29 | the PAGE_UP mask is rounding up to 4 KiB, and 0 where the addition wraps |
| Rounding.BlockDownMask | kernel/include/defs.h:35 | the BLOCK_DOWN mask is rounding down to 2 MiB |
| Rounding.BlockUpMask | bootloader/stage2/include/defs.h:28 | the BLOCK_UP mask is rounding up to 2 MiB, and 0 where the addition wraps |
| PageEntry.GenPml4ePdpePte | bootloader/stage2/src/stage2.c:177-187 | the word is the page address of the pointer with present and writable set |
| PageEntry.GenPde | bootloader/stage2/src/stage2.c:189-200 | the same with the large-page bit taken from the low bit of `big` |
| PageEntry.PageBits | bootloader/stage2/src/stage2.c:101-116 | each flag of the struct is the bit of the word that the processor manual gives it |
| PageEntry.EntryBits | kernel/src/memory/mm.c:49-56 | the kernel's fields are bits 0-8, 9-11, 12-51, 52-62 and 63 |
| PageEntry.GenEntry | kernel/src/memory/mm.c:76-88 | 40 address bits and 9 flag bits survive in the entry |
| PageEntry.GenPml4 | kernel/src/memory/mm.c:90-94 | page address modulo 2^52 and the flags of mask 0x1F, nothing else |
| PageEntry.GenPdpePde | kernel/src/memory/mm.c:96-100 | page address modulo 2^52 and the flags of mask 0x9F, nothing else |
| PageEntry.GenPte | kernel/src/memory/mm.c:102-106 | page address modulo 2^52 and the flags of mask 0x19F, nothing else |
| PageEntry.DecodeWord | kernel/src/memory/mm.c:49-56 | reading the 64-bit word back gives every field of the entry |
| PageEntry.WordDecode | kernel/src/memory/mm.c:49-56 | every 64-bit word is the word of its fields, so the layout has no gaps |
| PageEntry.LayoutsAgree | bootloader/stage2/src/stage2.c:101-116 | a word packed by the loader's struct, read through the kernel's, has the same flags and address |
| PageEntry.LinksAgree | bootloader/stage2/src/stage2.c:177-187 | loader and kernel build the same word for a link |
| PageEntry.DirectoryEntriesAgree | bootloader/stage2/src/stage2.c:189-200 | loader and kernel build the same word for a directory entry, large or not |
| PageWalk.LargeFields | kernel/src/memory/mm.c:183-184 | a page-rounded address in a large-page entry: frame from bit 21 up, reserved bits set exactly from offset 8192 on |
| PageTree.TreeTranslates | bootloader/stage2/src/stage2.c:310-335 | the walk over the ten tables equals the exact partial function View on every virtual address, with any cr3 flags |
| PageTree.EntriesWritable | bootloader/stage2/src/stage2.c:177-200 | every present entry of the tables is writable |
| Boot.KernelTranslation | kernel/linker.ld:26 | the walk from the link address plus k leads to load_buf plus k for every byte of the mapped image, whatever the peek directory |
| Allocation.Allocate | bootloader/stage2/src/stage2.c:256-290 | takes the least-indexed adequate free entry at or above 1 MiB, or none; image, tables and stack are consecutive from its rounded base |
| Allocation.FirstFitMeans | bootloader/stage2/src/stage2.c:265-279 | the entry taken has type 1, base 0x100000 or more and enough bytes, and none before it has; and the other way round |
| Allocation.HeaderDecodes | kernel/src/init/init.asm:35-45 | a file that starts with the ten words of the kernel's table is read as them; the image is ebss - stext modulo 2^64, and 48 KiB are asked for on top of image and stack |
| Allocation.LayoutFits | bootloader/stage2/src/stage2.c:256-290 | without 32-bit wrap the layout ends inside the region, with a page to spare for a page-multiple image; the slack is exact |
| Allocation.LayoutFitsExactly | bootloader/stage2/src/stage2.c:256-290 | with or without wrap, it ends inside exactly when the real need and the roundings fit |
| Allocation.WrappedTotalOverruns | bootloader/stage2/src/stage2.c:256-264 | a header for which a wrapped total accepts a region that is too small |
| Disk.ReadSector | bootloader/stage2/src/cdrom.c:159-210 | one sector replaces 2048 bytes of the buffer, or nothing changes past the end of the disk |
| Loader.ZeroRange | bootloader/stage2/src/stage2.c:305-307 | every byte of the range becomes 0 and no other byte changes |
| Loader.StoreEntry | bootloader/stage2/src/stage2.c:310-325 | an assignment to page_tab changes that word of the tables only |
| Loader.LinkTables | bootloader/stage2/src/stage2.c:312-325 | from zeroed tables the ten stores give the tree without frames |
| Loader.MapKernel | bootloader/stage2/src/stage2.c:328-331 | adds exactly the frames of the image, in order |
| Loader.StoreStackEntry | bootloader/stage2/src/stage2.c:332-335 | entry i of the stack table is the frame 511 - i pages below the one at the end of the layout |
| Loader.MapStack | bootloader/stage2/src/stage2.c:332-335 | adds exactly the stack frames downwards from the end; none when the unsigned bound wraps |
| Loader.BuildTables | bootloader/stage2/src/stage2.c:310-335 | zeroed memory becomes memory that holds the tree; nothing outside the tables changes |
| Boot.LoadKernel | bootloader/stage2/src/stage2.c:337-344 | every byte of the sectors read is in place, nothing else changes |
| Boot.LoadsClearOfTables | bootloader/stage2/src/stage2.c:337-344 | sector writes stay below the tables exactly when the file is no longer than the page-rounded image, or within 2 KiB of 4 GiB, where the sector count wraps to 0 |
| Boot.FindKernel | bootloader/stage2/src/stage2.c:240-254 | location, size and header of the file, or location 0 when there is none |
| Boot.Prepare | bootloader/stage2/src/stage2.c:305-344 | tables, file and zeroed stack in place, memory outside the layout unchanged |
| Boot.LoaderMain | bootloader/stage2/src/stage2.c:202-364 | not found, out of memory, or memory ready for the kernel and the matching hand-off data, each exactly when it should be; the chosen region may reach past 4 GiB |
| Boot.ReadyTranslates | bootloader/stage2/src/stage2.c:310-335 | every virtual address of the booted machine leads where View says |
| Boot.WalkExactly | bootloader/stage2/src/stage2.c:310-335 | in plain numbers, what each virtual address leads to: exactly the first 2 MiB, the whole pages of ebss - stext at the link address and those of the stack below 2^64, a fault for all others; no stack of more than 511 pages |
| Boot.ReadyStackZero | bootloader/stage2/src/stage2.c:305-307 | every byte of the stack is 0 at the jump |
| Boot.KernelSeesItsFile | bootloader/stage2/src/stage2.c:328-344 | reading the link address plus k through the walk gives byte k of the file |
| Iso9660.FirstIsLeast | bootloader/stage2/src/cdrom.c:113-122 | the result is the least-indexed matching record, and none exactly when none matches |
| Iso9660.CompareStr | bootloader/stage2/src/cdrom.c:88-106 | 0 exactly when the string has at most 256 characters and starts the memory; reads no byte behind the one that decides |
| Iso9660.SearchDirectory | bootloader/stage2/src/cdrom.c:108-123 | extent and size of the first match on the walk, or 0 with the size untouched; only the walk up to the match has to stay in memory |
| Iso9660.FindDescriptor | bootloader/stage2/src/cdrom.c:224-229 | the buffer ends up with the first type-1 descriptor from sector 16 on, or what it held if that looks like one; memory behind it is untouched |
| Iso9660.CdromSearch | bootloader/stage2/src/cdrom.c:212-247 | nonzero extent and size of the record Lookup finds in the sectors and what memory holds behind the buffer, or 0 and 0 exactly when there is none; nothing is asked of what lies behind the match |
| Iso9660.LookupIsFirst | bootloader/stage2/src/cdrom.c:236-243 | the sector loop gives the first match in directory order exactly when that match has a nonzero extent |
| Iso9660.FullRecordsSearchable | bootloader/stage2/src/cdrom.c:113-121 | sectors of ECMA-119 records closed by a zero, in the sector or right behind it, meet what the search asks for, for every name |
| DirectoryImage.RecordLayout | bootloader/stage2/src/cdrom.c:113-121 | a record byte by byte, as section 9.1 of ECMA-119 lays it out |
| DirectoryImage.FirstSectorTight | bootloader/stage2/src/cdrom.c:236-243 | a sector of the directory takes as many files as fit its 2048 bytes |
| DirectoryImage.PackedDirectory | bootloader/stage2/src/cdrom.c:236-243 | files packed into sectors, full ones included, are read back as records in the same order, with extent, size and identifier |
| DirectoryImage.PackedDirectoryExactly | bootloader/stage2/src/cdrom.c:236-243 | they and no others are read exactly when no sector is full or the memory behind the buffer starts with 0 |
| DirectoryImage.MatchExactly | bootloader/stage2/src/cdrom.c:115 | record i of a packed directory matches exactly when identifier i starts with the name, or the name goes on behind it, for its odd length, with the system use field and the next records up to a zero byte |
| DirectoryImage.PlainRunOn | bootloader/stage2/src/cdrom.c:115 | without system use fields that is only the length byte of the next record in the sector |
| DirectoryImage.SearchPacked | bootloader/stage2/src/cdrom.c:212-247 | for every name, searching a packed directory gives extent and size of the first file seen to start with it, or none, exactly when that file has a nonzero extent |
| DirectoryImage.SearchByPrefix | bootloader/stage2/src/cdrom.c:108-123 | that is the first file whose identifier starts with the name exactly when the name runs on behind no identifier before it |
| DirectoryImage.SearchByName | bootloader/stage2/src/cdrom.c:88-106 | it is the file of exactly that name exactly when moreover no longer identifier starting with the name comes before it |
| DirectoryImage.LongerIdMatches | bootloader/stage2/src/cdrom.c:88-106 | the kernel's name finds a file that has a version suffix, and no exact match exists |
| DirectoryImage.PackedVolume | bootloader/stage2/src/cdrom.c:231-243 | a volume whose descriptor gives the packed directory's size, below 65536 sectors, is searched whole, with the answer for its files |
| DirectoryImage.RootOfDescriptor | bootloader/stage2/src/cdrom.c:231-234 | of a descriptor with the encoded root record at byte 156, extent and size / 2048 are what is searched |
| DirectoryImage.SearchVolume | bootloader/stage2/src/cdrom.c:212-247 | with such a descriptor at sector 16, cdrom_search returns extent and size of the first file of the packed root directory that is seen to start with the name, or 0 and 0 |
| DirectoryImage.VolumeKernel | bootloader/stage2/src/stage2.c:240-244 | main finds on it the first file seen to start with "POTATO.BIN" |
| DirectoryImage.FullSectorReadsOn | bootloader/stage2/src/cdrom.c:113-121 | a full sector gives the records of its files, then those of the memory behind the buffer; it reads as its files exactly when that starts with 0 |
| DirectoryImage.StrayRecordFound | bootloader/stage2/src/cdrom.c:113-121 | behind a full sector a record left in memory is found for a name that no file has |
| DirectoryImage.StrayKernelFound | bootloader/stage2/src/cdrom.c:113-121 | sixteen files that fill a sector, and a kernel found that is none of them |
| DirectoryImage.SystemUseMatches | bootloader/stage2/src/cdrom.c:115 | "A.B;1R" finds a file "A.B;1" whose system use field starts with "RR" |
| DirectoryImage.RunOnMatches | bootloader/stage2/src/cdrom.c:115 | without that field a file is returned for a name longer than its identifier when the next record's length is the missing byte |
| PeekWindow.BlockCountExact | kernel/src/memory/mm.c:174-176 | the mask formula is the number of 2 MiB blocks, for all addresses, wrapping or not |
| PeekWindow.BlocksMeetRange | kernel/src/memory/mm.c:174-176 | the blocks counted are exactly those that meet the range |
| PeekWindow.AcceptedExactly | kernel/src/memory/mm.c:170-180 | both size checks pass exactly when offset in the block plus size is at most 1 GiB |
| PeekWindow.PeekWordFields | kernel/src/memory/mm.c:183-184 | every entry written is a present, writable large page; its reserved bits are clear exactly when the address is below 8192 in its block |
| PeekWindow.PeekShowsRange | kernel/src/memory/mm.c:174-189 | byte k of the window is physical byte addr + k modulo 2^52; on hardware exactly for addresses below 8192 in their block |
| PeekWindow.PeekKeepsRest | kernel/src/memory/mm.c:182-186 | all virtual addresses beyond the blocks written keep their translation |
| PeekWindow.RunEntry | kernel/src/memory/mm.c:162-191 | after any run, entry i is what the last request covering it wrote, else untouched |
| MemoryManager.PeekOutcomes | kernel/src/memory/mm.c:155-192 | errno 3, 2 or 4 by the tests in this order, a fault if the directory is out of reach, else the address in the window, in plain numbers |
| MemoryManager.CallsAreRun | kernel/src/memory/mm.c:155-192 | any sequence of calls, rejected ones included, leaves the run of its requests, or nothing when the directory is unset or out of reach |
| MemoryManager.Manager.PeekAll | kernel/src/memory/mm.c:155-192 | calls made one after another on memory leave exactly that directory in it, each with its own outcome; nothing else changes |
| MemoryManager.DirectoryAccess | bootloader/stage2/src/stage2.c:351 | peek_entry used as a virtual address reaches the directory exactly when that lies below 2 MiB |
| MemoryManager.Manager.WriteEntry | kernel/src/memory/mm.c:183-184 | one store through the page tables extends the window by an entry, or faults and changes nothing |
| MemoryManager.Manager.WriteEntries | kernel/src/memory/mm.c:182-186 | the loop writes exactly the first cnt entries, or faults at once |
| MemoryManager.Manager.Peek | kernel/src/memory/mm.c:155-192 | the exact outcome of every call and the tree afterwards; only the directory changes |
| MemoryManager.Manager.NormaliseEntry | kernel/src/memory/mm.c:132-137 | length becomes rounded end, base is rounded, the image is cut off |
| MemoryManager.Manager.Init | kernel/src/memory/mm.c:109-153 | the whole map is rewritten in place; count, 64-bit free sum and largest end are those of the rewritten map; the count is the number of entries of type 1 from 0x100000 on |
| MemoryManager.SpanIs | kernel/src/memory/mm.c:139-141 | an entry adds end - base exactly when it has type 1 and a base of 0x100000 or more |
| MemoryManager.Manager.SetCr3 | kernel/src/memory/mm.c:194-202 | cr3 is the page address of the table modulo 2^52 plus the two cache flags, so walks are unaffected |
| HandOff.CarvesChosenOnly | kernel/src/memory/mm.c:135-137 | an entry of any kind is cut exactly when it starts in the page that ends at load_buf; apart from the chosen one these lie below it and hold no whole page |
| HandOff.ReservedCut | kernel/src/memory/mm.c:132-137 | a map on which a reserved entry is cut, with its base behind its end afterwards |
| HandOff.CarvedIntervalValid | kernel/src/memory/mm.c:126-137 | the cut entry keeps base <= end exactly when the three roundings fit in what is left over; so for a page-multiple image or stack |
| HandOff.CutBehindRegion | kernel/src/memory/mm.c:126-137 | a map, header and layout for which the cut entry ends up with its base behind its end |
| HandOff.IntervalSafe | kernel/src/memory/mm.c:131-149 | exactly which intervals, of any kind, have base <= end, and that these lie in their own region and avoid all the loader placed |
| HandOff.EntryPages | kernel/src/memory/mm.c:131-149 | a normalised entry, of any kind and size, frees exactly its whole pages outside the cut |
| HandOff.FreePagesExact | kernel/src/memory/mm.c:131-149 | no page of the image is free and no other whole page of a free region that starts, page-rounded, at 1 MiB or above is lost |
| HandOff.StraddlingRegionLost | kernel/src/memory/mm.c:139-141 | a free region that starts below 1 MiB gives no free page, whatever of it lies above |
| HandOff.RegionSize | kernel/src/memory/mm.c:132-141 | the difference added for a free region is 4096 times its whole pages exactly when it reaches a page boundary, else one page less |
| HandOff.FreeMemoryConserved | kernel/src/memory/mm.c:126-149 | free memory plus image is 4096 times the number of whole free pages exactly when no counted entry is a sliver or cut without being chosen, and the image is no larger |
| HandOff.RoomyIsTidy | kernel/src/memory/mm.c:131-149 | entries that hold a whole page are neither |
| HandOff.ImageFitsRegion | kernel/src/memory/mm.c:126-137 | the image is no larger than the whole pages of its region exactly when the cut fits |
| HandOff.TinyEntryWraps | kernel/src/memory/mm.c:132-141 | an entry whose rounded end is below its rounded base adds almost 2^64 |
| HandOff.CutTwice | kernel/src/memory/mm.c:132-141 | a map on which a sliver before the chosen region is cut too and the sum wraps |
| HandOff.StackInsideCarve | bootloader/stage2/src/stage2.c:332-335 | all stack frames lie in the cut exactly when there are none or the stack is not a page multiple |
| HandOff.StackTopDeclaredFree | bootloader/stage2/src/stage2.c:332-335 | the stack window is [stack + 4096, end + 4096) in ascending order, inside the region, and its top page is free in the kernel's map |
| HandOff.DirectoryOutOfReach | kernel/src/memory/mm.c:182-184 | a map and header for which every accepted peek at something faults |
| System.WindowOpened | kernel/src/memory/mm.c:182-189 | after a successful peek the hardware walk of every address in the window reaches its physical byte, or faults for an address from 8192 on in its block |
| System.Enter | kernel/src/init/init.asm:48-87 | whatever the kernel's code stores in its image and on its stack, the page tables stay as they were |
| System.KernelMain | kernel/src/init/kernel.c:53-64 | after mm_init and the first peek: map, conservation, page tables, outcome and window; only the peek directory changes, and every image byte reads as before |
| System.Start | kernel/src/init/kernel.c:53-64 | loader, entry code and kernel in sequence on one memory: the file readable at the jump, and afterwards all of the above for whatever image the entry code left |
| Hex.DigitChar | bootloader/stage2/src/video.c:137-155 | the digits are 0 to 9 and A to F |
| Hex.HexRoundTrip | bootloader/stage2/src/video.c:137-155 | parsing the sixteen digits gives the value, and parsing from an offset its low part |
| Hex.VideoConvertHex | bootloader/stage2/src/video.c:137-155 | the buffer holds the sixteen digits and a terminator |
| Hex.DebugHex | kernel/src/debug/debug.c:86-107 | the buffer holds "0x", the same digits and a terminator |
| Console.PrintConcat | bootloader/stage2/src/video.c:112-126 | printing piece by piece is printing the whole |
| Console.TextFillsLines | bootloader/stage2/src/video.c:65-91 | from any cursor on, character j of a text of any length is put j cells further, lines wrapping at both ends; the last screenful stays |
| Console.NewlineEndsLine | bootloader/stage2/src/video.c:117-122 | byte 0x0A in a text is not shown and takes the rest to the start of the next line, or of the first |
| Console.CharacterPixel | bootloader/stage2/src/video.c:69-88 | a pixel of a shown character is 0xFFFFFFFF exactly when its bit is set in its row of the character's 16 font bytes, leftmost first, else 0 |
| Console.Video.CellsFit | bootloader/stage2/src/video.c:55-75 | the grid has as many 8x16 cells as fit the screen |
| Console.CellPixel | bootloader/stage2/src/video.c:77-88 | a character changes the pixels of its own 8x16 cell to its glyph and no others |
| Console.MaskPicksPixel | bootloader/stage2/src/video.c:82 | the mask 128 >> x selects pixel x of a glyph row |
| Console.Video.SetPixel | bootloader/stage2/src/video.c:36-43 | in bounds, and one pixel of the framebuffer changes |
| Console.Video.NewLine | bootloader/stage2/src/video.c:55-63 | the screen then shows the grid with the cursor on the next line |
| Console.Video.Putc | bootloader/stage2/src/video.c:65-91 | the screen then shows the grid with the character put |
| Console.Video.VideoClr | bootloader/stage2/src/video.c:103-110 | the screen then shows the blank grid, with the cursor where it was |
| Console.Video.VideoPrint | bootloader/stage2/src/video.c:112-126 | the screen then shows the grid with the text printed |
| Console.Video.VideoPrintHex | bootloader/stage2/src/video.c:128-135 | prints "0x", the digits from the offset on and a space, or nothing |
| Bios.E820 | bootloader/stage2/src/stub.asm:272-313 | success exactly as specified; the first bp slots are the kept answers in order, 24 bytes each; room is needed for these and one more |
| MemoryMap.MapIsReported | bootloader/stage2/src/stage2.c:79-85 | the buffer read as bp entries of struct mem_map is the list of the kept answers |
| MemoryMap.KeptExactly | bootloader/stage2/src/stub.asm:289-303 | an answer with base, length and type is kept exactly when it is not marked to be ignored and the halves of the length add up to neither 0 nor 2^32 |
| MemoryMap.Outcomes | bootloader/stage2/src/stub.asm:272-313 | the list ends at the first carry, wrong signature or zero continuation; it fails for a carry at once and for a wrong signature |
| MemoryMap.MapMemory | bootloader/stage2/src/stub.asm:262-269 | the map that is saved, read as entries, is what the answers report |
| MemoryMap.RangesReported | bootloader/stage2/src/stub.asm:272-313 | for a BIOS that lists ranges, the last with a zero continuation, these are the ranges, in order and all of them |
| MemoryMap.RangeTaken | bootloader/stage2/src/stage2.c:265-279 | of such a map the loader takes the first range of type 1 from 1 MiB on that is large enough |
| MemoryMap.FreeTypeBytes | bootloader/stage2/src/stage2.c:27 | type 1 is the four bytes 1, 0, 0, 0 of the answer |
| MemoryMap.ReportedEntry | bootloader/stage2/src/stub.asm:289-303 | an entry has base, length and type as the BIOS gave them, and attribute word 1 if it gave 20 bytes |
| MemoryMap.NoEmptyEntry | bootloader/stage2/src/stub.asm:299-301 | no entry of the map is empty |
| Bios.TestSlot | bootloader/stage2/src/stub.asm:289-303 | the tests on a slot accept exactly the kept answers |
| Bios.EmptinessTest | bootloader/stage2/src/stub.asm:299-301 | adding the halves tells empty from non-empty exactly when they do not add up to 2^32 |
| Bios.RebuildProduct | bootloader/stage2/src/stub.asm:188-199 | putting dx:ax together gives the whole product, whatever the upper half of edx held |
| Bios.GetMaximum | bootloader/stage2/src/stub.asm:174-211 | the first supported mode of 32 bits a pixel and fewer than 1000 lines that has the largest positive area, with bit 14 of its number set, or none |

## Left out

- Port I/O, ATAPI polling, soft reset and the data-ready interrupt: a sector read is a copy.
- Interrupt tables, serial driver, debug printing, the allocator stubs, stage 1 and the mode switches: no deep behaviour.
- The TLB and invlpg: walks see current memory.
- Writing the remaining fields of the hand-off data (screen and disk parameters), and print_memmap and print_header.
- The bytes of the memory map from stage 2 on: the slots of E820 are read as entries with four fields, which stage 2 and the kernel then use.
- Protection: user, write-through and no-execute bits are carried in entries but the walk does not check access rights.
- Boot.LoaderMain: assumes, because the code does not check it, that a volume descriptor exists (else its scan does not end), that the directory sectors up to the match lie on the disk and the walk to it stays inside the modelled memory, that the kernel file lies on the disk and is no longer than its image, that the image is at most 2 MiB as kernel/linker.ld bounds it, that the bytes needed are fewer than 2^32 (else see Allocation.LayoutFitsExactly), and that the layout ends below 4 GiB (else the 32-bit zeroing loop does not end).
- System.Enter: the entry code of kernel/src/init/init.asm, interrupts_init and debug_init are one step that leaves arbitrary bytes in the kernel's two windows; registers, the GDT and .bss are not modelled one by one.
- System.KernelMain: the kernel's own variables (peek_pde, vmem) and its stack are not bytes of the modelled memory while mm_init and mm_peek run.
- HandOff.FreePagesExact: assumes, because the code does not check it, that the free entries are disjoint and lie within the 52 bits of a physical address.
- Bios.E820: assumes a BIOS that writes no data or 20 to 24 bytes, as many as it reports, and at some point ends the list.
- Bios.GetMaximum: the mode blocks are what the BIOS leaves for each query; the status of the query, which the stub does not look at, is not modelled.
- Console.Video.VideoPrint: texts of 65536 or more characters, on which the 16-bit index never reaches the end, are left out, as are screens smaller than a character or with 2^31 or more pixels.

# NTX kernel: a model and its proofs

NTX is a small single-processor kernel with a UEFI loader. These Dafny files model four of its
components as they act on their state, and prove what they keep true over every run.

- **Memory** (`PageFormat`, `WordCodec`, `PageTables`, `Ownership`, `PageAllocator`, `PageMapping`, `Physmap`,
  `Regions`, `Sections`, `AccessRights`, `CopyOnWrite`, `MemoryManager`, `SectionSharing`, `BootSequence`,
  `CopyExample`, `DeniedExample` and `SharingExample`, with `Machine`, `Bits` and `Arithmetic` below them): the frame
  bitmap and reference counts, the four-level walk that creates and splits tables, map, unmap and protect, the direct
  map, regions, sections and the page-fault handler. Physical memory is a sequence of frames of 512 words, the walk
  is the real one, and `WordCodec` ties the words, kept as fields, to 64-bit numbers; `Ownership.Tables` records
  where each table frame sits, since roots share lower tables. The main results: every operation changes exactly the
  page it names, in other address spaces that page or nothing, a failed one no page at all; from boot on, every frame
  count equals the user-window slots naming the frame, plus one for a kernel-made table, plus the references held
  elsewhere, so a frame in use is never handed out again; an access that its region permits is resolved in one or two
  faults if the page is absent and frames do not run out, and if the page is already there exactly under a condition
  on its entry (`MemoryManager.Manager.Touch`); pages of one section that were both faulted in agree wherever they
  are mapped, and a page that was not faulted in because a shared table already had it agrees exactly when it is at
  the same offset.
- **Images** (`Bytes`, `Rebasing`, `Relocation`, `RelocationCodec`, `KpeFormat`, `KpePack`, `KpeLoader`,
  `KpeRoundTrip`): the packer, the validators, both loaders and both relocation engines over one byte format
  (base relocations: Microsoft PE Format, "The .reloc Section (Image Only)"). The main result: what is packed and
  then loaded at any base is what was packed, with exactly the listed words moved.
- **Threads and ports** (`Threads`, `Messaging`, `Scheduling` in `Scheduler.dfy`, `Ports`): the intrusive run
  queue and wait queues, the message ring, and the steps of the current thread. `Messaging` states the steps as
  functions on values and proves invariants, round robin, and that no message is stranded and no thread lost, over
  all runs;
  `Ports.PortManager` does the same steps on linked arrays and is proved to do exactly those.
- **Objects** (`Objects`, `SectionHandles`, `Files`, `ObjectSystem`): object and handle tables and their reference
  counts, and the two clients whose delete routines matter most, sections and files, over one table. The count of a
  section is its handles plus the regions that map it, counted in the address spaces themselves, that of a file its
  handles, plus the lookups in progress; every call keeps both, a page fault exactly when it loses no reference,
  and a file opened, read and closed leaves nothing behind.

`dafny verify dfyconfig.toml` checks everything. `Status` holds the status codes.

## Assumptions

- Every table the firmware leaves lies in no page that is free after boot marking and has one place in the walk;
  2 MiB entries are 2 MiB aligned, and neither they nor 4 KiB entries of the user window name a tracked frame
  (`BootSequence.FirmwareTables`). `BootSequence.Boot` proves from this the invariant `Ownership.Wf` and the exact
  account that everything else starts from.
- Entries of the firmware's upper tables that lead to tables are writable (`Ownership.LinksWritable`). Those the
  kernel writes are, every operation keeps them so, and `MemoryManager.Manager.Touch` needs it.
- Control belongs to the thread the scheduler calls current. The source clears the current thread before it
  dispatches from a block or an exit (kernel/ps/init.c:733-745) and then skips the machine switch
  (kernel/ps/init.c:709), so this is an assumption about the machine, not a property of the source. A step
  is atomic: the source disables interrupts around port operations and preempts only at its own points.
- A thread woken on a port goes on with its receive loop; a thread made ready is fresh (kernel/ps/init.c:667-679
  does not check for one already queued).
- Memory ranges of the boot information do not wrap 64 bits.

## Where the source differs from what one expects

- An address counts as canonical when its top sixteen bits are all zero or all one; bit 47 is not compared
  (kernel/mm/init.c:117-120). An address that passes is canonical exactly when bit 47 agrees with those bits
  (`PageFormat.CanonicalExactly`); 0x800000000000 passes and is not (`PageFormat.AcceptedNotSignExtended`).
- The copying branch of copy-on-write releases the old frame itself and once more through the map
  (kernel/mm/init.c:1134 and 736). In the user window the account is afterwards in order exactly when the old frame
  is untracked or no frame was free for the copy, and otherwise one short at that frame
  (`MemoryManager.Manager.FaultSharedCopy`, `HandlePageFault`). `CopyExample.Run` maps, marks and writes such a
  page, and ends with the account out of order.
- Every root copies the upper entries of the kernel's (kernel/mm/init.c:672-674), so address spaces share the tables
  below. A page faulted in in one is then there in the other, whatever the other's regions say: two mappings of one
  section whose pages meet at different offsets disagree (`SectionSharing.FaultInBoth` says exactly when,
  `SharingExample.Run` is such a run).
- What the tables hold comes before what the regions say: an access its region permits is denied for good when the
  page is already there without the right and is no copy-on-write page being written (kernel/mm/init.c:1111-1142),
  as a page of a shared table or one left by the firmware may be. `MemoryManager.Manager.Touch` says exactly which
  accesses get through, `DeniedExample.Run` is one that does not.
- A large entry is split page by page with the or of its flags; the translation is kept exactly when the entry is
  2 MiB aligned (`PageTables.SplitSlot`), and map and protect keep the frame exactly when their flags carry no
  other address bit (`PageFormat.FlagsKeepFrame`).
- Sizes are rounded up to pages in 64 bits, so one less than a page below 2^64 becomes nothing, and the page count of
  a section is cut to 32 bits: what is granted holds the size asked for exactly up to 256 pages
  (`MemoryManager.SectionHolds`), and 16 TiB and a byte are granted one page (`MemoryManager.SectionCut`).
- The relocation loop reads the length of a block again after patching (boot/uefi/bootx64.c:674). It still ends for
  every directory: a length below eight stops it in its next round (`Relocation.ApplyBlocks`).
- An open that gets no object keeps the file slot it took (kernel/io/init.c:242-245). That happens exactly when
  access was asked for, a slot was free and all objects were in use (`Files.FileManager.OpenPath`); repeated, it
  uses up every slot for good (`Files.LeaksExhaust`, `Files.LostForever`, `Files.LeakHappens`).
- The boot loader copies headers and raw section bytes without comparing them with the image size
  (boot/uefi/bootx64.c:704-734). For an image it accepts, everything it writes lies inside the image exactly when
  the headers and the raw bytes of every section do (`KpeLoader.WritesInside`), and the same holds for any bound
  above, such as the whole pages reserved; the packer's own images do with the default alignments, and one packed
  with a file alignment above its section alignment and above a page need not
  (`KpeRoundTrip.AcceptedAndTooLong`).

## Model

| member | source | states |
|---|---|---|
| `PageFormat.Indexes` | kernel/mm/init.c:454-457 | the four table indexes of an address are each below 512 |
| `PageFormat.SamePage` | kernel/mm/init.c:454-457 | two addresses select the same four slots exactly when their page numbers agree modulo 2^36 |
| `PageFormat.FlagsKeepFrame` | kernel/mm/init.c:737-785 | the frame asked of a map, or the frame that was there under a protect, is kept if and only if the flags carry no other address bit |
| `PageFormat.MadeWritable` | kernel/mm/init.c:1116-1117 | the flags of the in-place copy-on-write case keep the frame and only clear the soft bit and set the writable one |
| `PageFormat.CanonicalExactly` | kernel/mm/init.c:117-120 | the test lets through every address the processor accepts, and of those it lets through the processor accepts exactly the ones whose bit 47 agrees with the bits above; the others share the slots of the sign-extended address |
| `PageFormat.AcceptedNotSignExtended` | kernel/mm/init.c:117-120 | 0x800000000000 is let through, is not canonical, and walks where 0xFFFF800000000000 does |
| `WordCodec.WordOfNumber` | kernel/mm/init.c:20-26 | a page-table word kept as fields is recovered from its 64-bit number |
| `WordCodec.NumberOfWord` | kernel/mm/init.c:20-26 | ... and every 64-bit number is the number of exactly that record, so nothing of a word is lost |
| `WordCodec.Masks` | kernel/mm/init.c:20-26 | the fields sit where the masks of the source put them: bits 0, 1, 2, 7, 9 and 63, the frame number from bit 12 |
| `WordCodec.OrIsBitwise` | kernel/mm/init.c:732-741 | the or of two records is the bitwise or of their numbers |
| `WordCodec.SplitNumber` | kernel/mm/init.c:482-491 | a word of a split table is base plus offset or flags or present, on the numbers, the carry out of the address included |
| `WordCodec.MapNumber` | kernel/mm/init.c:737 | the word a map writes is the masked address or the flags or present, on the numbers |
| `WordCodec.ProtectNumber` | kernel/mm/init.c:783-785 | the word a protect writes is the old address or the flags or present, on the numbers |
| `PageTables.LocalChange` | kernel/mm/init.c:442-539 | changing one slot of one table changes no walk that does not pass through that slot, from any table at any level |
| `PageTables.SanitizedView` | kernel/mm/init.c:500-508 | setting USER and clearing NX of an upper entry keeps every translated frame |
| `PageTables.EmptyTableView` | kernel/mm/init.c:510-527 | hanging an empty table below an absent entry maps nothing and moves nothing |
| `PageTables.SplitView` | kernel/mm/init.c:470-498 | replacing a 2 MiB entry by its table of 512 entries keeps every translation, in every address space that shares the table |
| `PageTables.SplitSlot` | kernel/mm/init.c:482-491 | every entry of a split names the frame the large entry did if and only if the large entry is 2 MiB aligned |
| `PageTables.LeafWritten` | kernel/mm/init.c:732-741 | writing a last-level slot changes the page of that slot as asked and no other page of any table |
| `PageTables.LeafAliases` | kernel/mm/init.c:672-674 | under another root the same indexes find what they found before or what was written, and the latter whenever the two walks share a table below their roots |
| `PageTables.ClonedRootTranslates` | kernel/mm/init.c:672-674 | a root with all 512 entries copied translates every page as the original does |
| `Ownership.UserAddressPath` | kernel/mm/init.c:74-76 | an address of the user window walks only through user-window slots |
| `Ownership.GrownTransitive` | kernel/mm/init.c:442-539 | the changes of several levels of one walk compose: no page moves and new tables are frames nobody counted |
| `Ownership.GrownCounted` | kernel/mm/init.c:442-539 | creating and splitting tables keeps the account of every frame |
| `Ownership.OverwriteCounted` | kernel/mm/init.c:732-765 | overwriting a user-window leaf, releasing what it named and taking over one reference to what it now names, keeps every count equal to its holders |
| `Ownership.MapEffect` | kernel/mm/init.c:722-742 | a successful map: exactly the named page translates as asked, every other page of every address space as before; the named page under another root translates as before or follows, and follows if the walks share a table; allocated data untouched |
| `Ownership.MapAccount` | kernel/mm/init.c:722-742 | a successful map in the user window of a frame whose reference is handed over keeps every frame count exact |
| `Ownership.MapOutside` | kernel/mm/init.c:722-742 | mapping a page outside the user window changes no counted slot, and keeps the account when what it overwrites is absent or names an untracked frame or an allocated one nobody counts |
| `Ownership.OutsideWrite` | kernel/mm/init.c:732-741 | overwriting a leaf outside the user window keeps the account if and only if the entry overwritten names nothing that is counted |
| `Ownership.IdleAfterMap` | kernel/mm/init.c:722-742 | a map, whatever it overwrites, leaves an allocated frame that nobody counts so |
| `Ownership.MapKeepsPages` | kernel/mm/init.c:722-742 | mapping an absent page takes no page away, in any address space, whatever lower tables it shares |
| `Ownership.MapKeepsWalks` | kernel/mm/init.c:442-539 | a map leaves every walk leading where it led, and what was open to user code open |
| `Ownership.OwnSlotAfterMap` | kernel/mm/init.c:722-742 | a page with a cleared frame of its own keeps it while another page is mapped |
| `CopyOnWrite.CopyShort` | kernel/mm/init.c:1118-1139 | after the copying branch every frame count is exact but that of a tracked old frame: one short in the user window, at most two short outside |
| `CopyOnWrite.MapShort` | kernel/mm/init.c:732-741 | a map over a page on an account already short at the frame of the page: by how much it is short afterwards |
| `CopyOnWrite.ShortIsWrong` | kernel/mm/init.c:1134-1135 | such an account is in order if and only if the frame is untracked or nothing is short |
| `CopyExample.Marked` | kernel/mm/init.c:767-787 | a page of a mapped section reprotected as copy-on-write, with the books in order before |
| `CopyExample.BooksInOrder` | kernel/mm/init.c:154-174 | the books of that state are in order, before and after the protect |
| `CopyExample.WriteLosesReference` | kernel/mm/init.c:1111-1139 | a write to the page takes the copying branch with a frame free for the copy, which is the condition, on the state before the write, under which a reference is lost |
| `CopyExample.Mark` | kernel/mm/init.c:767-787 | the protect succeeds and the books stay in order |
| `CopyExample.Write` | kernel/mm/init.c:1111-1139 | the write succeeds, the books are not in order any more, and frame 5 is one reference short |
| `CopyExample.Run` | kernel/mm/init.c:1081-1139 | the whole run from memory and section: mapped, marked, written; in order up to the write, one reference short after it |
| `Ownership.RewriteEffect` | kernel/mm/init.c:744-765 | overwriting one leaf changes the translation of its page only |
| `Ownership.RewriteAccount` | kernel/mm/init.c:744-765 | ... and keeps every frame count exact |
| `Ownership.ProtectEffect` | kernel/mm/init.c:767-787 | a protect changes the bits of the named page only; the frame stays if and only if the flags carry no foreign address bit, and in the user window the whole account stays exactly then |
| `Ownership.ProtectCounted` | kernel/mm/init.c:767-787 | ... and the counts stay right exactly if the frame stays, is not tracked, or the page is outside the user window |
| `Ownership.TakeFrameCounted` | kernel/mm/init.c:154-174 | a frame the allocator hands out is named by no user-window slot, is no table and is held by nobody |
| `Ownership.CloneRootGrown` | kernel/mm/init.c:660-674 | the new root maps every page as the kernel root does and disturbs no other address space |
| `PageAllocator.FrameAllocator.constructor` | kernel/mm/init.c:558-580 | before marking every page is allocated and uncounted, and at most 262144 pages are tracked |
| `Bits.BitChanged` | kernel/mm/init.c:78-94 | setting or clearing a bit of a word changes that bit and no other |
| `PageAllocator.FrameAllocator.SetAllocated` | kernel/mm/init.c:78-82 | in the bitmap of 64-bit words exactly the page named becomes allocated |
| `PageAllocator.FrameAllocator.SetFree` | kernel/mm/init.c:84-88 | in the bitmap of 64-bit words exactly the page named becomes free |
| `PageAllocator.FrameAllocator.IsAllocated` | kernel/mm/init.c:90-94 | reads the bit of the page named |
| `PageAllocator.FrameAllocator.Alloc` | kernel/mm/init.c:154-174 | returns the first free page in cyclic order from the cursor and fails only when none is free; nothing else changes; a counted page stays marked allocated |
| `PageAllocator.FrameAllocator.Retain` | kernel/mm/init.c:352-357 | one more reference to a counted page; an uncounted or untracked one is left alone |
| `PageAllocator.FrameAllocator.Release` | kernel/mm/init.c:359-369 | one reference less; the page becomes free exactly at the last one |
| `PageAllocator.FrameAllocator.Free` | kernel/mm/init.c:624-643 | frees a tracked allocated page whatever its count, refuses anything else |
| `PageAllocator.FrameAllocator.MarkRange` | kernel/mm/init.c:285-311 | marks exactly the tracked pages wholly inside the range |
| `PageAllocator.FrameAllocator.MarkUsable` | kernel/mm/init.c:313-329 | a page is free exactly when tracked and wholly in some range of kind 1, 2, 3, 4 or 7 |
| `PageAllocator.FrameAllocator.ReserveCritical` | kernel/mm/init.c:331-350 | exactly the pages wholly in the first megabyte, the kernel, the two megabytes of the loader, a present init image, the boot information or the memory map become allocated |
| `PageAllocator.CriticalKept` | kernel/mm/init.c:331-350 | the reserved ranges are those six, the init image only if it is there |
| `PageAllocator.FrameAllocator.MarkBoot` | kernel/mm/init.c:590-592 | after boot marking a page is free if and only if it is tracked, wholly in some range of kind 1, 2, 3, 4 or 7, and wholly in none of: the first megabyte, the kernel, the two megabytes of the loader, a present init image, the boot information, the memory map |
| `PageMapping.PageMap.AllocTable` | kernel/mm/init.c:510-513 | a frame for a table was free, uncounted and no table before, and is counted once |
| `PageMapping.PageMap.Split` | kernel/mm/init.c:470-498 | the table that replaces a 2 MiB entry moves no page and is open to user code only for addresses below the user top; without a frame nothing changes |
| `PageMapping.PageMap.Install` | kernel/mm/init.c:510-527 | a missing level is created without moving a page, open to user code only for user addresses |
| `PageMapping.PageMap.Sanitize` | kernel/mm/init.c:500-508 | the entry descended through is opened to user code and keeps its frame |
| `PageMapping.PageMap.Descend` | kernel/mm/init.c:464-535 | one level of the creating walk: the entry for the address ends up linked to the next table, or the walk stops with the status of the cause; for other than user addresses a link is left alone |
| `PageMapping.PageMap.WalkCreating` | kernel/mm/init.c:442-539 | the creating walk ends at the last-level table of the address, with user rights on the path for user addresses; whatever the status, no page has moved |
| `PageMapping.PageMap.WalkExisting` | kernel/mm/init.c:442-539 | the non-creating walk finds the last-level table if and only if links lead there, and changes nothing |
| `PageMapping.PageMap.MapPage` | kernel/mm/init.c:722-742 | the state after is the creating walk followed by the overwritten leaf; a failed map leaves every page in place and says why |
| `PageMapping.PageMap.UnmapPage` | kernel/mm/init.c:744-765 | succeeds exactly when the page has a present last-level entry; then that entry is cleared and its frame released, otherwise nothing changes |
| `PageMapping.PageMap.ProtectPage` | kernel/mm/init.c:767-787 | succeeds exactly when the page has a present last-level entry; only that entry is rewritten |
| `PageMapping.PageMap.QueryPte` | kernel/mm/init.c:789-804 | returns the last-level word the walk of the address ends at, exactly when there is one |
| `PageMapping.PageMap.CloneKernelRoot` | kernel/mm/init.c:660-674 | a new root through which every page translates as through the kernel root |
| `Physmap.PhysmapIndexes` | kernel/mm/init.c:188-210 | an address of the direct map walks through root slot 288, directory 0 and the 2 MiB slot of its offset |
| `Physmap.DirectWalk` | kernel/mm/init.c:204-232 | filled 2 MiB entries translate physmap base plus address to that address |
| `Physmap.BuildPhysmap` | kernel/mm/init.c:176-240 | on success every address below the rounded-up tracked size is reached at physmap base plus address, where the kernel and nobody else may read and write and nobody may execute; only root slot 288 of the old tables changes, and the frame account is kept |
| `Physmap.OtherPagesKept` | kernel/mm/init.c:176-240 | pages outside the root slot of the direct map translate as before |
| `Regions.UniqueRegion` | kernel/mm/init.c:1010-1021 | an address lies in at most one region |
| `Regions.SizeCovered` | kernel/mm/init.c:110-115 | the size is rounded up to the least whole pages that hold it, one page for nothing, and to nothing less than a page below 2^64 |
| `Regions.AddressSpace.constructor` | kernel/mm/init.c:676-681 | a new space has no regions and starts allocating at the user base |
| `Regions.AddressSpace.Append` | kernel/mm/init.c:963-1006 | a region put at the bump pointer keeps regions page-aligned, disjoint and below the pointer, unless 64 bits wrap |
| `Regions.AddressSpace.FindRegion` | kernel/mm/init.c:1010-1021 | finds the first region that holds the address, which is the only one, or none exists |
| `Sections.PoolKept` | kernel/mm/init.c:806-878 | a change in which one frame gains references keeps the section pool accounted for |
| `Sections.BooksTaken` | kernel/mm/init.c:154-174 | an allocated frame is listed by no live section, mapped nowhere and no table: no frame in use is handed out again |
| `Sections.BooksMapped` | kernel/mm/init.c:722-742 | mapping a held frame keeps the account of tables, slots and sections together |
| `Sections.BooksUnmapped` | kernel/mm/init.c:744-765 | unmapping a page keeps the account if and only if the page is in the user window or its frame is not counted |
| `Sections.BooksProtected` | kernel/mm/init.c:767-787 | reprotecting a page keeps the account if and only if its frame stays, is not tracked, or the page is outside the user window |
| `Sections.BooksListedMore` | kernel/mm/init.c:855-872 | a fresh frame becomes a section page and the account stays exact |
| `Sections.BooksStruckOff` | kernel/mm/init.c:1045-1050 | freeing the pages of an unmapped section frees frames nobody else holds |
| `Sections.ListedFramesDistinct` | kernel/mm/init.c:855-872 | live sections share no frame, and no section lists a frame twice |
| `AccessRights.OpenPathAllows` | kernel/mm/init.c:500-508 | with user-open and writable upper entries, the last-level entry alone decides whether an access is allowed |
| `AccessRights.LeafDecides` | kernel/mm/init.c:442-539 | an access is allowed if and only if every upper entry of the walk grants it and the present last-level entry does |
| `AccessRights.ProtectKeepsUpper` | kernel/mm/init.c:767-787 | a protect leaves what the upper entries of the walk grant |
| `MemoryManager.Manager.constructor` | kernel/mm/init.c:577-587 | no sections and no mappings, over memory whose account is exact |
| `BootSequence.FirstAccount` | kernel/mm/init.c:566-592 | over the firmware tables nothing is counted and nothing is there to be counted |
| `BootSequence.MarkedMemory` | kernel/mm/init.c:558-592 | the marked pages under the firmware tables: the account is exact and the free pages are those the memory map offers and no critical range takes |
| `BootSequence.Boot` | kernel/mm/init.c:541-614 | from the firmware tables and the memory map alone: every count accounted for with nothing held elsewhere, the direct map in place, every other page where the firmware had it, the pages taken exactly those not free after marking and the tables made; it fails only without a firmware root or with fewer than three free pages |
| `MemoryManager.Manager.CreateSpace` | kernel/mm/init.c:645-690 | a new address space maps every page as the kernel root and disturbs no other; the account is kept |
| `MemoryManager.Manager.Unmap` | kernel/mm/init.c:744-765 | succeeds exactly on a present leaf, which is cleared; no other page moves; the account is kept unless the page is outside the user window and its frame is counted |
| `MemoryManager.Manager.Protect` | kernel/mm/init.c:767-787 | succeeds exactly on a present leaf, which gets the flags; no other page moves; the account is kept if and only if the frame of the page stays or is not counted |
| `MemoryManager.Manager.TakeCleared` | kernel/mm/init.c:1151-1158 | a zeroed frame nobody knows, with one reference held by the caller |
| `MemoryManager.Manager.FaultAnonymous` | kernel/mm/init.c:1145-1168 | the page gets a zeroed frame of its own, counted once; every other page is as before, and so is every other page with a frame of its own; on failure no page has moved, and one frame nobody has keeps a reference if it was allocated; the account is kept wherever it can follow, and elsewhere at most one reference is lost; with the tables there and a frame free it succeeds |
| `MemoryManager.Manager.FaultSection` | kernel/mm/init.c:1178-1206 | the page gets the frame of the section and the account gains exactly the new slot; on failure the frame keeps exactly one reference nobody has; with the tables there it succeeds |
| `MemoryManager.Manager.FaultOwnCopy` | kernel/mm/init.c:1112-1117 | a copy-on-write page nobody else counts becomes writable in place |
| `MemoryManager.Manager.FaultSharedCopy` | kernel/mm/init.c:1118-1139 | otherwise it succeeds if and only if a frame is free, and then the page is a writable copy of the frame it was, the walk to it is open to user code if its address is a user one, and no other page has moved; a tracked frame of the user window ends up exactly one reference short, elsewhere at most two are lost; without a frame nothing changes |
| `MemoryManager.Manager.FaultAbsent` | kernel/mm/init.c:1145-1206 | the page is backed as its region says, and in the user window allows exactly the accesses the fields of the region permit, but no write under copy-on-write; on failure at most one frame keeps a reference nobody has; sufficient conditions for success, and the cause of each failure |
| `MemoryManager.Manager.FaultPresent` | kernel/mm/init.c:1111-1143 | a protection fault is repaired only for a write to a copy-on-write page, in place or by a copy exactly as the count says, with the upper entries granting what they did or open, and otherwise denied without effect; wherever the account can follow, it is kept if and only if no tracked frame of the user window was copied with a frame free for the copy, and is then one short at that frame |
| `MemoryManager.Manager.HandlePageFault` | kernel/mm/init.c:1081-1209 | denied without effect at an address in no region, in a guard region, or whose region lacks a right the access needs; else the page is resolved as its region says and counted as committed; wherever the account can follow, it is kept if and only if a condition on the state before does not hold (a shared, tracked frame of the user window is copied and a frame is free); nowhere are more than two references to one frame lost |
| `MemoryManager.DeniedExactly` | kernel/mm/init.c:1092-1107 | the fault is denied exactly if no region that holds the address permits the access |
| `MemoryManager.Manager.TouchAbsent` | kernel/mm/init.c:1081-1209 | an access to an absent page that its region permits is allowed after one fault, or two for a write to a copy-on-write page, if and only if frames do not run out; a fresh anonymous page reads as zero |
| `MemoryManager.Manager.TouchPresent` | kernel/mm/init.c:1111-1143 | an access that its region permits and the page that is there denies: after one fault it is allowed if and only if it is a write to a copy-on-write page that lacks only the right to write and, unless its frame is counted once, a frame is free |
| `MemoryManager.Manager.Touch` | kernel/mm/init.c:1081-1209 | every access of the user window that its region permits: no fault if the tables allow it, as above if the page is absent, as above if it is there; for each what is allowed afterwards and when the account is kept |
| `MemoryManager.RepairsExactly` | kernel/mm/init.c:1111-1143 | the condition under which a fault on a present page gets the access through, on the state before it |
| `MemoryManager.DeniedForGood` | kernel/mm/init.c:1111-1143 | an access still denied after a fault, unless for lack of a frame, is denied by every later fault without effect |
| `DeniedExample.ReadOnly` | kernel/mm/init.c:1097-1142 | a read-only page without copy-on-write mark is there, denies a user write, and no fault repairs that |
| `DeniedExample.Run` | kernel/mm/init.c:1081-1142 | a region permits a user write to a page already there read-only: the fault answers access denied, nothing changes, and the write is still not allowed |
| `MemoryManager.Manager.WireRegion` | kernel/mm/init.c:976-1003 | every page of a wired region is mapped with its rights to a cleared frame of its own, in the user window allowing exactly what the region permits; no other page has moved; it fails only for lack of frames, at a non-canonical page, or at one already there, and then at most one frame keeps a reference nobody has; outside the user window no reference is lost either |
| `MemoryManager.WiredGrants` | kernel/mm/init.c:1062-1079 | every page of a wired region in the user window allows exactly the accesses the fields of the region permit |
| `MemoryManager.Manager.MapAnonymous` | kernel/mm/init.c:941-1008 | the region recorded lies at the bump pointer, holds every byte asked for in the least whole pages, and has the rights and flags asked for, field by field; a failed call records nothing and no page outside the region has moved; a lazy region is refused only for a full table |
| `MemoryManager.WindowWireable` | kernel/mm/init.c:976-1003 | a region of the user window can always be wired with the account following |
| `MemoryManager.WiredBounded` | kernel/mm/init.c:976-1003 | the loop runs out of frames before two of its pages share slots, however large the request |
| `MemoryManager.Manager.MapSection` | kernel/mm/init.c:916-938 | a section region has the size of its section and the rights asked for, field by field, and keeps the layout and the account; fails exactly for a full region table or a section that is not live |
| `MemoryManager.Manager.CreateSection` | kernel/mm/init.c:806-873 | a created section has all its pages, zeroed, as many as hold the size, cut to 32 bits; invalid exactly if that is none or more than 256, failing exactly without a slot, an object or enough free frames; a failed one leaves no slot behind; no other section changes |
| `MemoryManager.PagesCut` | kernel/mm/init.c:819-820 | the page count is the least that holds the size, modulo 2^32 |
| `MemoryManager.SectionHolds` | kernel/mm/init.c:819-823 | a section that is granted holds the size asked for if and only if that is at most 256 pages |
| `MemoryManager.SectionCut` | kernel/mm/init.c:819-823 | a request of 16 TiB and a byte counts as one page |
| `MemoryManager.Manager.DeleteSection` | kernel/mm/init.c:1037-1060 | every frame of the deleted section is free afterwards, no other section changes |
| `MemoryManager.BackedAllows` | kernel/mm/init.c:1062-1079 | a page mapped as its region says allows exactly the accesses the fields of the region permit, but no write under copy-on-write |
| `MemoryManager.CowAllows` | kernel/mm/init.c:1112-1117 | once repaired in place it allows the write too, and else exactly what it did |
| `SectionSharing.ShowsKept` | kernel/mm/init.c:1178-1206 | a page that shows its section goes on showing it while absent pages are mapped, in any address space |
| `SectionSharing.ShownAgree` | kernel/mm/init.c:1178-1206 | two pages that show one section are one frame if and only if they are at the same page offset |
| `SectionSharing.FaultIn` | kernel/mm/init.c:1178-1206 | a fault on a page of a section region makes it show the section and takes no page away; it succeeds if the tables are there |
| `SectionSharing.FaultInBoth` | kernel/mm/init.c:1081-1209 | two pages of regions of one section, faulted in one after the other: if both fault for absence they are one frame if and only if at the same page offset; if the second does not, it has the slots of the first and its translation, which is right if and only if the offsets are equal; sharing a table below the roots is enough for that |
| `SectionSharing.FaultSecond` | kernel/mm/init.c:1081-1209 | the second access faults for absence if and only if its page is absent, and if that fault succeeds the two pages agree |
| `SectionSharing.Followed` | kernel/mm/init.c:660-674 | after the first fault an absent page of another address space is still absent or has become the page of the first, the latter if they share a table below the roots |
| `SharingExample.BooksInOrder` | kernel/mm/init.c:154-174 | the books of two address spaces over shared lower tables, with a section of two pages, are in order |
| `SharingExample.Walks` | kernel/mm/init.c:442-539 | the two walks of the page at 0x40001000 meet in a table below the roots and find it absent |
| `SharingExample.Run` | kernel/mm/init.c:916-938 | the section is mapped at 0x40000000 in one space and a page above in the other; the first access faults, the second has no fault for absence and finds the wrong page of the section |
| `Objects.CountUpdate` | kernel/ob/init.c:192-203 | replacing one handle entry changes only the counts of the objects it named and names |
| `Objects.ObjectManager.CreateObject` | kernel/ob/init.c:141-175 | the first free slot, counted once for its creator, with a number never used before; fails only when the pool is full |
| `Objects.ObjectManager.FindEntry` | kernel/ob/init.c:43-61 | finds the first entry in use with the value, or there is none |
| `Objects.ObjectManager.InsertHandle` | kernel/ob/init.c:177-206 | the first free entry gets the next handle value and the object one reference more; refused exactly for rights beyond the object, failing only when the table is full |
| `Objects.ObjectManager.ReferenceByHandle` | kernel/ob/init.c:208-236 | one more reference for the caller to the object the value names; the answer for a value that resolves is decided by its access and the type, success included |
| `Objects.ObjectManager.Dereference` | kernel/ob/init.c:259-288 | one reference less; at the last one the delete routine runs and the slot is freed |
| `Objects.ObjectManager.CloseHandle` | kernel/ob/init.c:238-257 | a value that resolves is closed: its first entry is cleared, its reference dropped, the value remembered as closed, and the type says whose delete routine runs |
| `Objects.ObjectManager.HeldSurvives` | kernel/ob/init.c:259-288 | an object is in use if and only if a handle names it or a reference is held, and an object in use has not been deleted |
| `Objects.ObjectManager.ClosedStaysClosed` | kernel/ob/init.c:177-257 | until the handle counter wraps, a closed value resolves to nothing and no value to two handles |
| `Objects.InsertedBalanced` | kernel/ob/init.c:192-203 | inserting a handle keeps every count equal to its handles plus the references held |
| `Objects.DroppedHandle` | kernel/ob/init.c:250-257 | closing a handle keeps every count equal to its handles plus the references held |
| `Objects.DroppedDeleted` | kernel/ob/init.c:266-288 | every object number made so far either exists or has been deleted, exactly once |
| `Objects.LookupUndone` | kernel/lpc/init.c:147-151 | a lookup whose reference is given up again leaves no trace |
| `SectionHandles.SectionObjects.SectionGone` | kernel/mm/init.c:1037-1060 | the delete routine of a section runs only when no region maps it; every other section and all tables stay as they are; references of handles, regions and calls stay told apart |
| `SectionHandles.SectionObjects.SectionReferences` | kernel/ob/init.c:177-288 | between calls the count of a section is its handles plus the regions that map it, and nothing else |
| `SectionHandles.MappingsUpdate` | kernel/mm/init.c:920-934 | changing the regions of one address space changes the mappings counted by what it gained and lost |
| `SectionHandles.SectionObjects.CreateSectionHandle` | kernel/mm/init.c:806-878 | the status for every input and state; on every path the references held outside the handle table are as before and only section objects change; on success the value is that of a handle, with the access asked for, to a new complete zeroed section |
| `SectionHandles.SectionObjects.MapSectionHandle` | kernel/mm/init.c:880-939 | the answer for every value: through a handle it is denied exactly if that does not grant reading, or writing for a writable mapping; on success the region maps the section whole, at the bump pointer, with the rights asked for, and keeps the reference of the lookup; on failure the lookup leaves no trace |
| `SectionHandles.SectionObjects.MapAndRead` | kernel/mm/init.c:880-939 | a section mapped through a handle and a page of it read: that page then allows a write exactly if writing was asked for and the handle grants it, and execution exactly if that was asked for |
| `SectionHandles.SectionObjects.HandleLeads` | kernel/ob/init.c:177-236 | until the handle counter wraps, the value a creation returned leads to the section it created and grants what was asked for |
| `SectionHandles.SectionObjects.HandleFault` | kernel/mm/init.c:1081-1209 | wherever the account can follow, a page fault keeps handles, mappings and counts in order if and only if it copies no tracked frame of the user window |
| `SectionHandles.SectionObjects.MapAnonymous` | kernel/mm/init.c:941-1008 | an anonymous region adds no mapping of a section |
| `SectionHandles.SectionObjects.AddSpace` | kernel/mm/init.c:676-690 | a new address space adds none either |
| `SectionHandles.SectionObjects.MappedSafe` | kernel/mm/init.c:880-939 | a section some region maps is live, its object in use and never deleted |
| `Files.FileManager.OpenPath` | kernel/io/init.c:224-259 | the status for every input and state; on every path no reference is left outside the handle table; on success there is one new file object, one new handle to it and one slot with the data of the path; no file in use is touched; a failed open leaves the slots as they were if and only if not (access was asked for, a slot was free and every object was in use) |
| `Files.FileManager.FileReferences` | kernel/io/init.c:224-259 | between calls the count of a file is the number of its handles |
| `Files.LeaksExhaust` | kernel/io/init.c:237-245 | n such opens cost n slots or all there are; then no slot is free and every open fails |
| `Files.LostForever` | kernel/io/init.c:121-133 | a slot lost this way is freed by no delete routine |
| `Files.LeakHappens` | kernel/io/init.c:242-245 | a state in which an open loses a slot, and from which 128 opens lose them all |
| `Files.FileManager.ReadFile` | kernel/io/init.c:261-309 | the answer is that of the lookup for reading, success included; then all bytes asked for at the offset, or all there are, are read; the object table is exactly as before on every path |
| `Files.FileManager.ReadImage` | kernel/io/init.c:322-357 | if the lookup fails its answer is returned; otherwise the read succeeds if and only if the file has between 1 and 16777215 bytes, and the chunks are then the whole file from its first byte to its last |
| `Files.FileManager.GiveUp` | kernel/io/init.c:121-133 | the last reference of a file frees exactly its slot, any other none |
| `ObjectSystem.FilesElsewhere` | kernel/ob/init.c:259-288 | objects of other types may come, go and change without the files noticing |
| `ObjectSystem.SectionsElsewhere` | kernel/ob/init.c:259-288 | nor do the sections |
| `ObjectSystem.Executive.Close` | kernel/ob/init.c:238-288 | one close for all handles: its answer for every value; the type of the object decides whose delete routine runs, so a section closed through the file call, or a file through another, leaves sections and files in order; only the slot of the file that went is freed; a mapped section keeps its slot and page list, and tables and memory are untouched |
| `ObjectSystem.Executive.OpenReadClose` | kernel/io/init.c:224-357 | a file opened, read whole and closed: the bytes are those registered under the path, refused exactly for their number; then objects, handles, file slots and sections are as before the open |
| `ObjectSystem.Executive.constructor` | kernel/ob/init.c:113-139 | sections and files of different types over one object table start in order |
| `ObjectSystem.Executive.OpenPath` | kernel/io/init.c:224-259 | opening keeps sections and files in order; the status for every input and state |
| `ObjectSystem.Executive.ReadFile` | kernel/io/init.c:261-309 | so does reading, which returns the bytes at the offset |
| `ObjectSystem.Executive.ReadImage` | kernel/io/init.c:322-357 | so does reading an image whole |
| `ObjectSystem.Executive.CreateSectionHandle` | kernel/mm/init.c:806-878 | so does creating a section with a handle |
| `ObjectSystem.Executive.MapSectionHandle` | kernel/mm/init.c:880-939 | so does mapping a section through a handle |
| `ObjectSystem.Executive.HandleFault` | kernel/mm/init.c:1081-1209 | so does a page fault, if and only if it loses no reference, wherever the account can follow |
| `ObjectSystem.Executive.MapAnonymous` | kernel/mm/init.c:941-1008 | so does an anonymous region |
| `ObjectSystem.Executive.AddSpace` | kernel/mm/init.c:676-690 | so does a new address space |
| `Threads.EnqueueSound` | kernel/ps/init.c:667-679 | queueing a thread that is neither queued nor current keeps the scheduler sound |
| `Threads.DispatchSound` | kernel/ps/init.c:681-714 | picking the next thread keeps the scheduler sound: only the current thread runs and it is not queued |
| `Threads.LeaveSound` | kernel/ps/init.c:726-746 | blocking or exiting keeps the scheduler sound |
| `Threads.ReturnSound` | kernel/ps/init.c:874-877 | a start routine returning keeps the scheduler sound |
| `Messaging.Departs` | kernel/ps/init.c:726-746 | a thread that exits, returns or blocks has its new state after the step and the front of the queue runs |
| `Messaging.Readied` | kernel/ps/init.c:667-679 | a thread made ready is ready and behind all the queued ones, and nothing else changes |
| `Messaging.Switched` | kernel/ps/init.c:681-724 | a dispatch or yield lets the front run and puts a thread that was running at the back, and does nothing when nobody is queued |
| `Messaging.Left` | kernel/ps/init.c:726-746 | a thread that exits, returns or waits has its new state, is at the back of the wait queue in the last case, and the front runs |
| `Messaging.Delivered` | kernel/lpc/init.c:249-257 | a message accepted is behind the others and the first waiting thread is ready behind the others; one too long or too many changes nothing |
| `Messaging.Fetched` | kernel/lpc/init.c:280-298 | receiving takes the oldest message and, without one, changes no queue |
| `Messaging.HandshakeRuns` | kernel/lpc/init.c:233-312 | a run in which a thread waits, another sends, and the first receives that message |
| `Scheduling.ChainPush` | kernel/ps/init.c:182-193 | appending behind the tail keeps the links a duplicate-free list ending at the tail |
| `Scheduling.ChainPop` | kernel/ps/init.c:195-207 | so does taking the head off |
| `Scheduling.Scheduler.Push` | kernel/ps/init.c:182-193 | the list of queued threads gains the thread at its end |
| `Scheduling.Scheduler.Pop` | kernel/ps/init.c:195-207 | the front of the list, or nothing when it is empty |
| `Scheduling.Scheduler.ReadyThread` | kernel/ps/init.c:667-679 | a dead thread is refused, any other becomes ready at the back of the queue |
| `Scheduling.Scheduler.PickNext` | kernel/ps/init.c:681-714 | the front runs, a thread still running goes to the back; with an empty queue nothing changes |
| `Scheduling.Scheduler.YieldThread` | kernel/ps/init.c:716-724 | a yield is a dispatch, if there is a current thread |
| `Scheduling.Scheduler.LeaveProcessor` | kernel/ps/init.c:726-746 | the current thread is dead or blocked and nobody is current when the next is picked |
| `Scheduling.Scheduler.WakeThread` | kernel/ps/init.c:748-757 | a blocked thread becomes ready at the back of the queue, any other is left alone |
| `Scheduling.Scheduler.ThreadReturned` | kernel/ps/init.c:874-877 | the thread is dead but still current when the next is picked |
| `Messaging.SentSound` | kernel/lpc/init.c:249-257 | sending keeps the port bounded, in order and free of stranded messages |
| `Messaging.TriedSound` | kernel/lpc/init.c:280-311 | so does a round of receiving |
| `Messaging.SendKeeps` | kernel/lpc/init.c:233-265 | a send step keeps the invariant of the whole system |
| `Messaging.ReceiveKeeps` | kernel/lpc/init.c:267-312 | a receive-or-block step keeps the invariant of the whole system |
| `Messaging.StepKeeps` | kernel/ps/init.c:667-757 | every step of the current thread keeps the invariant of the whole system |
| `Messaging.Reachable` | kernel/lpc/init.c:88-120 | in every reachable state the scheduler is sound, a thread is blocked if and only if it is in a wait queue, it is in one only, queues hold at most 32 messages, and what was received is an ordered prefix of what was accepted |
| `Messaging.NoStrandedMessage` | kernel/lpc/init.c:233-312 | in every reachable state with threads waiting, queued messages number at most the woken threads that have not retried, and a queued message has such a thread, current or in the run queue |
| `Messaging.MovesUp` | kernel/ps/init.c:182-207 | a queued thread moves up by one place at each successful dispatch and at nothing else |
| `Messaging.RoundRobin` | kernel/ps/init.c:681-746 | the thread at position k becomes current at exactly the (k+1)-st successful dispatch, whatever steps are taken meanwhile |
| `Messaging.ReadyRuns` | kernel/ps/init.c:667-714 | a thread made ready when n were queued becomes current at exactly the (n+1)-st successful dispatch from there |
| `Messaging.NoThreadLost` | kernel/ps/init.c:667-757 | whatever thread was made ready in the course of a run is queued, current, waiting on a port or dead at its end |
| `Ports.NkPort.constructor` | kernel/nk/core.c:25-41 | a new port is empty |
| `Ports.NkPort.Send` | kernel/nk/core.c:43-60 | appends the message; refuses one that is too long or when 32 are queued |
| `Ports.NkPort.Receive` | kernel/nk/core.c:62-75 | removes and returns the oldest message, or reports an empty port |
| `Ports.RingAppend` | kernel/nk/core.c:56-58 | writing at the tail appends to the sequence the ring stands for |
| `Ports.RingDrop` | kernel/nk/core.c:71-73 | moving the head drops its first message |
| `Ports.WaitQueues.Enqueue` | kernel/lpc/init.c:88-101 | the thread joins the back of the wait queue of that port, the other queues are untouched |
| `Ports.WaitQueues.Dequeue` | kernel/lpc/init.c:103-120 | the front of that wait queue leaves, the other queues are untouched |
| `Ports.PortManager.Send` | kernel/lpc/init.c:233-265 | run queue, wait queues and ring together do exactly the send step of the model; the message is at the end of the ring and the first waiting thread at the end of the run queue |
| `Ports.PortManager.Receive` | kernel/lpc/init.c:276-311 | they do exactly the receive-or-block step of the model, and return the oldest message, removed, if there is one; else a waiting thread is at the end of the wait queue |
| `Ports.PortManager.Yield` | kernel/ps/init.c:716-724 | they do exactly the yield step of the model: the front runs, the thread that ran is last |
| `Ports.PortManager.Exit` | kernel/ps/init.c:726-736 | they do exactly the exit step of the model: the thread is dead, the front runs |
| `Ports.PortManager.Start` | kernel/ps/init.c:681-714 | they do exactly the dispatch step of the model |
| `Ports.PortManager.ReadyThread` | kernel/ps/init.c:667-679 | they do exactly the ready step of the model: the thread is ready and last in the run queue |
| `Ports.PortManager.ReturnFromStart` | kernel/ps/init.c:874-877 | they do exactly the return step of the model: the thread is dead, the front runs |
| `Rebasing.RebaseElsewhere` | boot/uefi/bootx64.c:671-672 | rebasing leaves every byte no site covers as it was |
| `Rebasing.RebaseWord` | boot/uefi/bootx64.c:671-672 | with sites apart, every listed word has the displacement added exactly once modulo 2^64 |
| `Rebasing.RebaseUnique` | boot/uefi/bootx64.c:671-672 | those two facts determine the image |
| `Rebasing.RebaseTwice` | boot/uefi/bootx64.c:592-678 | displacements compose by addition modulo 2^64 |
| `Rebasing.RebaseBack` | boot/uefi/bootx64.c:592-678 | rebasing by a displacement and then by its negative restores every byte |
| `Relocation.EntryAction` | boot/uefi/bootx64.c:648-669 | a patched word lies inside the image, even when the 32-bit sum wraps |
| `Relocation.EntriesRead` | boot/uefi/bootx64.c:640-673 | the entries are gone through exactly if each is padding or patches a word of the image, and then the words listed are those of the entries of type 10, in order; otherwise the type of the first bad one decides |
| `Relocation.BlocksRead` | boot/uefi/bootx64.c:623-675 | a directory gone through to its end: the entries of every block are padding or have their word listed |
| `Relocation.PatchInPlace` | boot/uefi/bootx64.c:671-672 | adds the displacement to the one word |
| `Relocation.ApplyEntries` | boot/uefi/bootx64.c:640-673 | applied in place with the block address read again every time, the entries do what reading them all beforehand says |
| `Relocation.ApplyBlocks` | boot/uefi/bootx64.c:623-675 | the block loop ends for every directory; if no patch reaches into the directory, outcome and image are what decoding the original directory says |
| `Relocation.Relocate` | kernel/ps/init.c:216-294 | relocation ends with the outcome and the rebased image the directory calls for, in either loader; at the preferred base nothing changes, elsewhere an image that is fixed is refused as such, and exactly then, and a directory that leaves the image is malformed |
| `RelocationCodec.DecodeRun` | boot/uefi/bootx64.c:640-673 | the entries of a page read back as its addresses |
| `RelocationCodec.DecodeBlock` | boot/uefi/bootx64.c:623-675 | a block reads back as its addresses and the cursor ends behind it; the process loader refuses a page that is not wholly in the image |
| `RelocationCodec.GroupedValid` | tools/kpepack.ps1:56 | the groups hold the candidates exactly, page by page |
| `RelocationCodec.WriteBlock` | tools/kpepack.ps1:60-80 | page, size, one entry per address and a padding entry when their number is odd |
| `RelocationCodec.WriteRelocations` | tools/kpepack.ps1:56-86 | the stream is one block per page, in order |
| `RelocationCodec.DecodeEncoded` | tools/kpepack.ps1:43-86 | decoding the stream visits exactly the candidates, each once and in order, and ends at the directory end; in the process loader if and only if every page lies in the image |
| `KpeFormat.Validate` | boot/uefi/bootx64.c:480-575 | accepts the image if and only if the headers and sections of the file satisfy what the loader insists on |
| `KpeFormat.Accepted` | boot/uefi/bootx64.c:504-575 | an accepted image starts inside itself, has sections, was made for the loader, and the bytes its sections name are in the file |
| `KpePack.MaskAligns` | boot/uefi/bootx64.c:377-382 | masking rounds up as the packer does, for powers of two |
| `KpePack.Pack` | tools/kpepack.ps1:105-291 | writes the packed file; throws if and only if the entry is outside the payload |
| `KpePack.DefaultsSane` | tools/kpepack.ps1:8-16 | with the default alignments and section address every payload with an entry inside packs to a sound layout, up to 32-bit sizes |
| `KpePack.LayoutFacts` | tools/kpepack.ps1:134-158 | headers, sections and their padding follow one another without overlap, in the file and in the image |
| `KpePack.SizesExact` | tools/kpepack.ps1:134-158 | headers, raw data, relocation address and image size are each the next multiple of their alignment, and no further |
| `KpePack.NtAt` | tools/kpepack.ps1:192-240 | a reader of the header fields finds the values the packer wrote |
| `KpePack.SectionAt` | tools/kpepack.ps1:242-270 | a reader of a section header finds the values the packer wrote |
| `KpePack.HeadersAreThere` | tools/kpepack.ps1:169-270 | the whole header and section table read back, for every job whose numbers fit their fields |
| `KpePack.PackedParts` | tools/kpepack.ps1:168-291 | the file is the padded headers, the padded payload and the padded relocations |
| `KpeLoader.LoadBoot` | boot/uefi/bootx64.c:680-758 | memory from the image base on is cleared, headers and sections laid over it in order, and the bytes of the image relocated; for an image that fits, the image is the one laid out and what is behind it is untouched |
| `KpeLoader.WritesInside` | boot/uefi/bootx64.c:704-734 | everything the boot loader writes for an image it accepts ends within SizeOfImage if and only if its headers and the raw bytes of every section do |
| `KpeLoader.LaidInside` | boot/uefi/bootx64.c:704-734 | an image that fits is laid out alike whatever is behind it |
| `KpeLoader.PlacedByte` | boot/uefi/bootx64.c:722-742 | byte by byte: the last section that reaches an offset decides what is there, its raw bytes or, in the boot loader, zeros behind them |
| `KpeLoader.HeaderByte` | boot/uefi/bootx64.c:713-720 | where no section reaches there are the headers as far as the file has them, then zeros up to the image size, and behind it what was there |
| `KpeLoader.UserHeaderByte` | kernel/ps/init.c:427-440 | the same for the process loader |
| `KpeRoundTrip.AcceptedAndTooLong` | boot/uefi/bootx64.c:538-575 | an image packed with a file alignment above its section alignment and above a page is accepted, and its section is copied past SizeOfImage and past the whole pages reserved for it |
| `KpeLoader.LoadUser` | kernel/ps/init.c:423-470 | the same for the process loader, which stops at a section that has no room |
| `KpeRoundTrip.PackedHolds` | tools/kpepack.ps1:168-291 | the packed file holds the headers that were packed |
| `KpeRoundTrip.PackedAccepted` | boot/uefi/bootx64.c:480-575 | each loader accepts a packed image if and only if it was packed for it (and, for processes, is not above the size limit) |
| `KpeRoundTrip.LaidExpected` | boot/uefi/bootx64.c:680-742 | laid out by either loader, memory holds the headers, the payload at the section address, the relocations, and zeros between |
| `KpeRoundTrip.RelocsInPlace` | tools/kpepack.ps1:145-146 | the payload and the relocation directory stand at their addresses |
| `KpeRoundTrip.PackedImageLoads` | boot/uefi/bootx64.c:680-758 | packed and loaded at any base, memory holds what was packed with exactly the candidate words moved by the distance to the preferred base; without candidates another base is refused |
| `KpeRoundTrip.PointersFollow` | kernel/ps/init.c:216-291 | a candidate word that points to byte k of the image at its preferred base points to byte k of it where it is loaded |
| `KpeRoundTrip.AlignedPagesInside` | kernel/ps/init.c:248-251 | with sections aligned to pages the process loader finds every page of the directory in the image |

## Left out

- TLB and CR3: `invlpg` and CR3 writes do nothing, physical memory is directly indexable, and the recursive use of the direct map is not modelled.
- HandlePageFault: outside the user window slots are not counted, so where a fault there overwrites or copies a page whose frame is counted the account is only bounded (two references to one frame at most); a write fault on an entry that is marked copy-on-write but not present, which no operation writes, and physical-range regions (never created) are left out.
- MapAnonymous: wired regions that outside the user window lie over pages of tracked frames which are counted or free are left out, because slots outside the window are not counted and the mapping loop releases what it maps over; lazy ones are covered anywhere.
- WireRegion: the same.
- FaultPresent: entries marked copy-on-write but not present are left out, as for `HandlePageFault`.
- HandleFault: the same.
- OpenReadClose: promises order but not the bytes once the handle counter wraps in the open, when a value may name two handles.
- WirePage: a frame allocated for a page whose map then fails stays with the caller, as in the source, and is counted among the references held elsewhere.
- Isolation of address spaces: lower tables are shared by all roots (kernel/mm/init.c:672), so no isolation is claimed; the effective rights of neighbouring pages may change with the upper entries.
- Address-space pool: the table of 64 address spaces and its numbers.
- Counter widths: reference counts, object numbers and process numbers are unbounded; the 32-bit handle counter is not.
- CloseHandle: the delete routine (`ObjectSystem.Executive.Close`) runs after the handle entry is cleared rather than just before; nothing looks at the table in between.
- CreateObject: names, wait states and flags of objects, and type objects, are left out; a type is a number.
- LoadUser: laying out over pages that are already mapped is a byte array at some base; process and stack set-up around it are left out.
- Pack: numbers that do not fit 32 bits, at which the packer's casts throw, are excluded by `KpePack.Sane` in the lemmas.
- WriteRelocations: which words of a payload look like addresses (tools/kpepack.ps1:43-50) is taken as given.
- UEFI calls: allocation is some base, file reading some bytes.
- Scheduler: time slices, thread pool allocation and contexts; the preemption point is a yield step.
- Ports: ports are open, so lookup, creation and deletion of ports are left out of the runs.
- OpenPath: registering boot files, path copying; the boot files are a map from paths to bytes.
- Framebuffer, console, interrupts, assembly, syscall dispatch, validation suite, Se and Cc: nothing there but wrappers and devices.

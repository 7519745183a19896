# MocaOS: a verified model

This project models the parts of the MocaOS repository that hold real state or arithmetic and proves what they keep.
Each Dafny module follows one component:

- `Fat12` — the FAT12 file reader of try.c: sector arithmetic in 32 bits, the packed 12-bit table, the cluster-chain loop.
- `Screen` — the framebuffer terminal: glyph drawing, the overlapping scroll copy, and the 46 x 128 grid of cells that the pixels show.
- `NumberText` — the decimal and hexadecimal printers: digit extraction and reversal in an 80-byte buffer.
- `Bitmap` — bitmaps in 32-bit words as flag sequences, population count, `memset`.
- `Pmm` — Kernel/memory.h and the memory-map passes of Kernel/kernel.c.
- `BlockMap`, `BlockMapAsWritten` — the block allocator of Kernel/xxtra.c.
- `Paging` — two-level page tables of Kernel/virtual_mem.h in flat memory (32-bit paging, section 4.3 of the Intel SDM, volume 3A).
- `Bump` — the pointer-bumping allocators of Kernel/xxtra.c.
- `Shell` — the line buffer and dispatch of Kernel/terminal.h with the string routines of Kernel/string.h.
- `Interrupts` — the mouse packet machine and the interrupt mask registers of Kernel/idt.h.
- `Machine` — the C integer types and their wrap-around.

Objects that the C code updates in place are classes over arrays; each method is proved equal to a specification function
on sequences, and the main theorems are lemmas about those functions over every input or every run.

## Where the text of the code defeats its purpose

These lines are modelled as written; a lemma gives the exact condition under which they do what is meant, and the
repaired line is modelled beside it so that the intended property can be stated and proved.

- Kernel/memory.h:31 and Kernel/memory.h:36 index the bitmap with `b`, which there names the enumerator 0x30 of Kernel/mstdio.h:54, so every call touches word 1.
  `Pmm.ApplyTouchIff`: a region call does what is meant exactly when its range is empty or inside blocks 32 to 63.
  `Pmm.TouchAgreesIff`: counters and bitmap still agree afterwards exactly when at most 32 blocks are named and the flag that each touches is counted and changes.
  `Pmm.BootCountersAgreeIff`: after the whole pass over the memory map they agree exactly when no two of the released blocks share a flag and all flags are counted.
- Kernel/xxtra.c:30 returns a masked word cut to 8 bits. `BlockMapAsWritten.TestIff`: a used block is seen exactly in the low byte of its word.
- Kernel/xxtra.c:102 probes from `i*32 + (1 << j)` and line 105 makes one probe too many, so one used block is forgiven.
  `BlockMapAsWritten.AnswerWithoutRoom` is a bitmap with one free block for which two are granted. `AcceptsIff`: a clear block passes exactly when at most one of the
  probed blocks is used and in the low byte of its word. `SingleBlockIff`: for one block the answer is the first fit exactly when the lowest clear block passes.
  `PassesOneIff` names the two places that decide.
  `AnswerIsFirstFitIff`: for any size, exactly when the lowest clear block that passes or starts a long enough free run does both, or there is none.
- Kernel/xxtra.c:162 marks block `first+1` each time round. `BlockMapAsWritten.MarkMeetsIntentIff`: the blocks end up marked exactly when none were asked for.
- Kernel/xxtra.c:124 fills whole bytes only. `BlockMap.InitMemCountIff`: the counter starts equal to the bitmap exactly when the flags of the last incomplete byte were set before.
- Kernel/xxtra.c:134 sets block 0 without counting it. `BlockMap.RunRegionsCount`: the counter misses one block for each `init_region` that covers block 0.
- Kernel/xxtra.c:165-170 adds the previous slot's size to the address, and `m_free` goes by the address. `BlockMap.FreesOwnBlocksIff`: a free releases the blocks
  that its record was granted exactly when that size was below 1024. `BlockMap.FollowsIff`: a run of allocations and frees is, request by request, the run meant exactly when
  every record freed was granted so. `BlockMap.RecordRunKeeps`: with all sizes below 1024 every run keeps the allocator sound. `BlockMap.ShiftedFree` gives runs beyond
  that bound that leave a block used with no record for it, for example 1024 blocks and then 1 of 4096, and a free of the second.
- Kernel/xxtra.c:77 cuts the 64-bit base to a 32-bit pointer. `Bump.SamePointerTwice` gives two requests with one answer; `Bump.RangesInOrderIff`: the ranges
  handed out are in order, hence disjoint, exactly when every one starts below 2^32 and none ends beyond it.
- Kernel/virtual_mem.h:122 takes one 1024-byte block for a 4096-byte table. `Paging.BlocksShareTableIff`: two blocks give one table exactly when they lie in the same
  aligned four. `Paging.BlockIsTableIff`: the directory points to the memory that was zeroed exactly for every fourth block at an unshifted address.
  `Paging.AnsweredBlockFreshIff`: the block found by the search is memory of its own exactly under that condition. The shift is the size in the slot
  before (Kernel/xxtra.c:165-167), 1 right after another table, so the second of two tables in a row never qualifies.
- Kernel/virtual_mem.h:15 never stores the address. `Paging.MapPageAsWrittenIff`: the call leaves the memory that is meant exactly when the frame is 0 and so is a table that it
  enters. `Paging.SetPageAsWrittenIff`: the page lands at frame 0, in any memory. `AsWrittenTableIsZero`: every new table is at address 0.
- Kernel/mstdio.h:216-217 steps below index 0 for the number 0. `NumberText.LastIndexInBufferIff`: in the buffer exactly for positive numbers.
- Kernel/mstdio.h:107-125 draws wherever the cursor is. `Screen.DrawsItsCellIff`: the glyph covers its cell exactly left of column 128.
- try.c:166 allocates the file size plus one sector. `Fat12.ChainFitsIff`: a readable chain stays in the buffer exactly when its length times the cluster size does.
  `Fat12.ExactChainFitsIff`: a chain just long enough for its file fits exactly when its last cluster leaves at most one sector unused.
  `Fat12.BufferSufficesIff`: all such chains of a geometry fit exactly when a cluster is one sector (or two sectors of one byte).
  `Fat12.RevisitOverruns`: a chain that comes back to a cluster overruns the buffer.
- Kernel/terminal.h:96 has no length check. `Shell.CanRunIff`: no write past the buffer and a terminator at each Enter exactly when no letter or Enter comes
  after more than 24 letters (and Up, which halts, never comes). `Shell.EnteredRunIff`: for a stream that ends in Enter, exactly when no prefix has more than
  24 letters since its last Enter.

`kernel_main` halts at Kernel/kernel.c:40; its memory-map passes are modelled as routines.

## Model

| member | source | states |
|---|---|---|
| Fat12.Reader.ReadSectors | try.c:68-74 | succeeds exactly when the image holds all bytes asked for at the 32-bit offset, and writes the available bytes and nothing else |
| Fat12.ReadIs | try.c:68-74 | the bytes a read delivers: from the 32-bit product on, as many as asked for or as the image has |
| Fat12.Reader.ReadBootSector | try.c:63-66 | the fields at their places in the packed 62 bytes, success exactly when the image has them |
| Fat12.BootFields | try.c:11-37 | any field values stored at their offsets, low byte first, read back field by field |
| Fat12.Reader.ReadFat | try.c:76-80 | the table in memory is the first table's sectors |
| Fat12.Reader.ReadRootDirectory | try.c:82-93 | data clusters start right after the rounded-up root directory, whose buffer holds every entry |
| Fat12.Reader.FindFile | try.c:95-104 | the lowest entry with the name, none exactly when no entry has it |
| Fat12.EntryFields | try.c:39-54 | for every entry, 16-bit cluster and 32-bit size: the name, first cluster and size read back from the entry's bytes |
| Fat12.Reader.ReadCluster | try.c:112-113 | one cluster's bytes at the output position, success exactly when they are all in the image |
| Fat12.Reader.NextCluster | try.c:116-120 | the even/odd extraction is the table entry |
| Fat12.Reader.ReadFile | try.c:106-125 | the clusters that the loop visits are copied in chain order and nothing else, up to one without room; done, short read, overrun or a load outside the table exactly as the last cluster decides |
| Fat12.Reader.LoadEntry | try.c:166-179 | for any chain whose loop ends, also one that comes back or leaves the table: the first Size bytes of its clusters, the failed read, or the overrun of the buffer |
| Fat12.Reader.Load | try.c:139-179 | from the image alone: which of the failures occurs, or the content of the first entry with the name |
| Fat12.Reader.LoadFrom | try.c:145-179 | the same from the boot sector's fields, with the division by zero bytes per sector |
| Fat12.OutcomeCases | try.c:145-172 | which image calls for which failure |
| Fat12.EntryOutcomeCases | try.c:166-179 | which ending of the chain loop gives which outcome |
| Fat12.ClustersLoadEnds | try.c:111-122 | with at least one sector to a cluster the loop ends on every image |
| Fat12.StoredFileLoads | try.c:145-179 | round trip: a file stored as pieces in any linked distinct clusters and entered with its size in the directory loads as its first size bytes, exactly when its clusters fit the buffer |
| Fat12.SomeVolume | try.c:11-66 | an image, boot sector included, that stores any content of up to 32 bytes under any name |
| Fat12.EntryOfPack | try.c:116-120 | decoding undoes packing two 12-bit values in three bytes, for every sequence and entry, with both bytes of the load inside the table |
| Fat12.EntryOfSetEntry | try.c:116-120 | entries that share a byte are independent: rewriting one changes no other |
| Fat12.ContinuesIff | try.c:122 | the loop goes on exactly after a full read and an entry up to 0xFF7 |
| Fat12.HaltsIffNeverRevisits | try.c:111-122 | the chain loop terminates if and only if it never comes back to a cluster, within one round for the first cluster and one for each of 0xFF8 |
| Fat12.LoopEnds | try.c:111-122 | against a buffer the loop always ends, whatever the table holds, if a cluster has a byte |
| Fat12.EndIsUnique | try.c:111-122 | it ends in one way only |
| Fat12.RunEndsIff | try.c:111-122 | a terminating chain is copied whole exactly when its bytes fit and all its clusters are readable, and overruns exactly when its bytes do not fit |
| Fat12.RevisitOverruns | try.c:111-122 | a chain that comes back to a cluster overruns every buffer |
| Fat12.RunIsUnique | try.c:111-122 | the loop visits one list of clusters only |
| Fat12.RunIsDistinct | try.c:111-122 | a terminating loop visits no cluster twice |
| Fat12.WalkBound | try.c:111-122 | iteration bound from the pigeonhole principle |
| Fat12.OutputSize | try.c:113-114 | chain length times cluster size when all reads succeed, never more |
| Fat12.LinkedChainIsRun | try.c:111-122 | any list of distinct readable clusters that is linked in the table is exactly what the reader visits, and linking changes no other entry |
| Fat12.ClusterOnVolume | try.c:112-113 | without 32-bit wrap a cluster is read whole from its own place in the image |
| Fat12.PlacedPiecesReadBack | try.c:106-125 | cluster-sized pieces placed at the chain's clusters come back concatenated |
| Fat12.RootRegionFits | try.c:84-90 | the root region holds all entries with less than one sector of slack |
| Fat12.AreasDisjoint | try.c:84-112 | tables, root directory and any two data clusters have disjoint sectors |
| Fat12.AreasAdjoin | try.c:84-112 | the root directory starts right after the reserved sectors and all tables, cluster 2 where its rounded-up sectors end, each cluster where the one before ends |
| Fat12.ClusterInArea | try.c:112 | the sector the reader computes is the start of that area as long as it does not wrap |
| Fat12.FloppyAreas | try.c:84-90 | a 1.44 MB floppy has its root directory at sector 19 over 14 sectors |
| Fat12.ChainFitsIff | try.c:166-167 | a readable chain fits exactly when its length times the cluster size does; only its last cluster can be cut short |
| Fat12.ExactChainFitsIff | try.c:166-167 | a chain just long enough fits main's buffer exactly when its last cluster leaves at most one sector unused |
| Fat12.BufferSufficesIff | try.c:166-167 | main's buffer suffices for all such chains of a geometry exactly when a cluster is one sector, or two sectors of one byte |
| Screen.Terminal.UpdateScreen | Kernel/util.h:210-227 | the overlapping forward copy is a simultaneous shift by 16 pixel rows with black below, every access inside the screen |
| Screen.ScrolledPixel | Kernel/util.h:214-226 | the scroll by pixel numbers: 16 rows up, the last 24 of 768 rows black |
| Screen.Terminal.ClearScreen | Kernel/util.h:229-238 | every pixel black, cursor at the origin |
| Screen.Terminal.PutC | Kernel/mstdio.h:107-125 | exactly the 16 x 8 glyph pixels change, bit 7 leftmost, cursor one column on |
| Screen.GlyphReadsBack | Kernel/mstdio.h:107-125 | read from left to right as binary digits, each of the 16 drawn pixel rows is its byte of the font, in the two colours only |
| Screen.CellReadsBack | Kernel/mstdio.h:107-125 | so does every cell of a screen that shows a character, after any run |
| Screen.Terminal.Print | Kernel/mstdio.h:127-155 | newline, tab and character steps up to the terminator |
| Screen.GlyphCoversCell | Kernel/mstdio.h:110-122 | the drawn pixels are those of the cursor's cell, row by row and column by column |
| Screen.DrawsItsCellIff | Kernel/mstdio.h:110-122 | the drawn pixels are the cursor's cell exactly when the column is below 128; otherwise where they land |
| Screen.PutCShows | Kernel/mstdio.h:107-125 | drawing refines writing a character into one grid cell |
| Screen.NewLineShows | Kernel/util.h:210-227 | a newline refines moving down, or on the last row shifting the grid up by one row |
| Screen.PrintShows | Kernel/mstdio.h:127-155 | printing refines typing the string on the grid, and never draws off the screen |
| Screen.TypedControls | Kernel/mstdio.h:127-155 | newline, tab of four columns and terminator by their codes, and line 45 as the last |
| Screen.ClearedShows | Kernel/util.h:229-238 | a cleared screen shows the empty grid |
| Screen.RunShows | Kernel/mstdio.h:107-155 | over every run of calls that draw left of column 128 the pixels are the rendering of the grid and pixel rows 736 to 767 are black |
| NumberText.NumeralReadsBack | Kernel/mstdio.h:182-187 | the digits parse back to the number and have no leading zero |
| NumberText.DigitCharacters | Kernel/mstdio.h:182-187 | digits are the characters 0 to 9 and A to F |
| NumberText.NumeralOrder | Kernel/mstdio.h:209-224 | the last character is the remainder's digit, before it the quotient's numeral |
| NumberText.CanonicalTextIsNumeral | Kernel/mstdio.h:209-214 | conversely every digit string without leading zero is the text of its value |
| NumberText.StoreDigits | Kernel/mstdio.h:209-214 | the digit loop stores the numeral backwards, at most ten digits |
| NumberText.ReverseInPlace | Kernel/mstdio.h:219-224 | the swap loop turns a reversed text around in place and leaves the rest |
| NumberText.HexText | Kernel/mstdio.h:168-202 | the text is 0x and the numeral in base 16, 0x0 for zero, terminated once, in 80 bytes |
| NumberText.DecimalText | Kernel/mstdio.h:204-227 | the text is the numeral in base 10, terminated once, in 80 bytes |
| NumberText.LastIndexInBufferIff | Kernel/mstdio.h:216-219 | the 8-bit index stays in the buffer exactly for positive numbers |
| Bitmap.SetBytes | Kernel/util.h:175-181 | memset of a bitmap sets the flags of the covered bytes and no others |
| Bitmap.SetWord | Kernel/xxtra.c:20-23 | or-ing a bit into its word sets that block's flag only |
| Bitmap.ClearWord | Kernel/xxtra.c:24-27 | masking a bit out of its word clears that block's flag only |
| Bitmap.BitOrder | Kernel/xxtra.c:20-27 | the bits of a word are counted from the unit place up |
| Bitmap.CountFill | Kernel/memory.h:54-60 | filling a uniform range moves the number of used blocks by the part of the range that is counted |
| Pmm.PhysicalMemory.SetEntry | Kernel/memory.h:29-32 | as written: the flag of the block's residue in word 1 |
| Pmm.PhysicalMemory.UnsetEntry | Kernel/memory.h:34-37 | as written: the flag of the block's residue in word 1 |
| Pmm.TouchOne | Kernel/memory.h:29-37 | one entry as written touches the flag of the block's residue in word 1 |
| Pmm.PhysicalMemory.InitPmm | Kernel/memory.h:39-47 | all blocks used and counted, one byte per block filled |
| Pmm.PhysicalMemory.InitRegion | Kernel/memory.h:49-60 | counters move by the whole blocks of the length, in 32-bit arithmetic, and the entries are touched as written |
| Pmm.PhysicalMemory.DeinitRegion | Kernel/memory.h:62-73 | counters move back by the whole blocks of the length, and the entries are touched as written |
| Pmm.CountersFollow | Kernel/memory.h:49-73 | the region calls of the runs below are what InitRegion and DeinitRegion leave in the bitmap and the 32-bit counters, as long as these do not wrap |
| Pmm.TouchMeetsIntentIff | Kernel/memory.h:29-37 | the entries as written mark the named blocks and no others exactly when all lie in blocks 32 to 63 |
| Pmm.ApplyTouchIff | Kernel/memory.h:49-73 | a region call as written does what is meant exactly when its range is empty or inside blocks 32 to 63 |
| Pmm.TouchCount | Kernel/memory.h:29-37 | the entries as written move the number of used blocks by at most one each, and by all exactly when at most 32 are named and every touched flag is counted and changes |
| Pmm.TouchAgreesIff | Kernel/memory.h:49-73 | a region call as written keeps counters and bitmap in agreement exactly under that condition |
| Pmm.RunAgrees | Kernel/memory.h:49-73 | with entries that mark the named block, over every interleaving used equals the set bits, used plus free is the total, and blocks no call names stay |
| Pmm.ApplyAgreesIff | Kernel/memory.h:49-73 | with entries that mark the named block, one call keeps counters and bitmap in agreement exactly when its range was uniform |
| Pmm.DeinitUndoesInit | Kernel/memory.h:49-73 | deinit of the same range restores bitmap and counters |
| Pmm.RunTouchFollowsRun | Kernel/memory.h:49-73 | every call of a run as written leaves what is meant exactly when every range is empty or inside blocks 32 to 63 |
| Pmm.PhysicalMemory.SizeMemory | Kernel/kernel.c:138-148 | the sum of available lengths in 32 bits |
| Pmm.OneMoreRegion | Kernel/kernel.c:138-160 | what a region adds to the bytes, the blocks and the 32-bit total, by its type |
| Pmm.PhysicalMemory.Boot | Kernel/kernel.c:138-160 | free counts the whole blocks of every available region, used the rest, and the bitmap is the full one with every available region released as written |
| Pmm.ReleasedIff | Kernel/kernel.c:138-160 | the pass frees exactly the flags of word 1 whose residue an available region names |
| Pmm.ReleasedOfMap | Kernel/kernel.c:138-160 | over the map's own numbers: the pass clears a used flag of word 1 exactly when a region of type 1 holds a block with its residue, and changes no other flag |
| Pmm.ReleasedExample | Kernel/kernel.c:138-160 | one available block at 0x8400 and a reserved one: flag 33 is cleared and no other |
| Pmm.ReleasedCount | Kernel/kernel.c:138-160 | the pass as written releases at most the blocks that it counts, and all exactly when no flag is named twice or not counted |
| Pmm.BootCountersAgreeIff | Kernel/kernel.c:138-160 | after the whole pass as written the 32-bit counters and the bitmap agree exactly when no two released blocks share a flag and all flags are counted |
| Pmm.BlocksOfBytes | Kernel/kernel.c:138-160 | a sum of floors loses less than one block for each region |
| Pmm.BootCounts | Kernel/kernel.c:138-160 | a total of lengths that fits 32 bits keeps the used counter from going below zero in every prefix of the pass, for any number of regions |
| Pmm.BootCountsIff | Kernel/kernel.c:138-160 | for up to 2^22 regions the used counter covers the regions exactly when the total fits 32 bits |
| BlockMap.Allocator.Set | Kernel/xxtra.c:20-23 | one block's flag set, all others kept |
| BlockMap.Allocator.Unset | Kernel/xxtra.c:24-27 | one block's flag cleared, all others kept |
| BlockMap.Allocator.InitMem | Kernel/xxtra.c:119-125 | counters full, flags of whole bytes set |
| BlockMap.InitMemCountIff | Kernel/xxtra.c:119-125 | counter and bitmap agree exactly when the flags past the last whole byte were set before |
| BlockMap.Allocator.InitRegion | Kernel/xxtra.c:126-135 | the region call of the base and size: its range is free except block 0, the counter drops by the range |
| BlockMap.Allocator.DeinitRegion | Kernel/xxtra.c:136-144 | the region call of the base and size: its range is used, the counter rises by the range |
| BlockMap.CallBlocks | Kernel/xxtra.c:126-144 | a call walks the whole blocks of its size, from the block of its base on, and none when their 32-bit number has bit 31 set; the counter moves by them |
| BlockMap.RegionInBytes | Kernel/xxtra.c:126-144 | past block 0, a call changes exactly the blocks whose 1024 bytes lie inside an aligned region |
| BlockMap.RunRegionsCount | Kernel/xxtra.c:126-144 | over every run the bitmap exceeds the counter by one block for each init that covers block 0 |
| BlockMap.Allocator.FindBlocks | Kernel/xxtra.c:88-117 | repaired: the lowest start of that many consecutive free blocks in the scanned words, -1 exactly when there is none |
| BlockMap.Allocator.MAlloc | Kernel/xxtra.c:146-184 | repaired: first fit taken and counted, the record with its address shifted by the size in the slot before goes into the next slot; a failure changes nothing |
| BlockMap.Allocator.MFree | Kernel/xxtra.c:186-212 | for any held record: the blocks from its address on are unset and its size uncounted, one word for each is zeroed and no other memory, slot 0 of the table is cleared |
| BlockMap.AllocKeepsSound | Kernel/xxtra.c:146-184 | an allocation of a first fit is disjoint from every live one |
| BlockMap.FreeKeepsSound | Kernel/xxtra.c:186-194 | where a free releases the allocation's own blocks, the other live allocations stay marked used |
| BlockMap.FreesOwnBlocksIff | Kernel/xxtra.c:164-194 | a free by the shifted address releases exactly the blocks granted exactly when the shift is below 1024 |
| BlockMap.FreeUndoesAllocIff | Kernel/xxtra.c:146-194 | freeing the record just granted restores counter and records, and the bitmap exactly when the shift is below 1024 |
| BlockMap.FollowsIff | Kernel/xxtra.c:146-212 | over every run, frees by address release what frees of the granted blocks would exactly when every record freed was granted with a shift below 1024 |
| BlockMap.RecordRunIsIndexRun | Kernel/xxtra.c:146-212 | over every run with sizes below 1024, every record names its blocks and the run by addresses is the run meant |
| BlockMap.RecordRunKeeps | Kernel/xxtra.c:146-212 | over every such run the held records name disjoint used ranges, a block is used exactly when it was before or a record names it, and the counter moves with the number of set bits and is the sum of sizes |
| BlockMap.ShiftedFree | Kernel/xxtra.c:146-194 | runs beyond that bound after which a block is used that no held record names |
| BlockMap.CounterOverLife | Kernel/xxtra.c:119-212 | from init_mem over all region calls, allocations and frees with sizes below 1024, the set bits exceed the counter by one for each init that covered block 0 |
| BlockMap.AddressBlockIff | Kernel/xxtra.c:164-189 | dividing the shifted address by 1024 gives the first block exactly when the shift is below 1024 |
| BlockMapAsWritten.TestIff | Kernel/xxtra.c:28-31 | the 8-bit result is right exactly in the low byte of a word or for a free block |
| BlockMapAsWritten.FindBlocks | Kernel/xxtra.c:88-117 | as written: the lowest clear block whose probing reads at most one used |
| BlockMapAsWritten.AcceptsIff | Kernel/xxtra.c:102-111 | a clear block is granted exactly when at most one of the probed blocks is used and in the low byte of its word |
| BlockMapAsWritten.PassesOneIff | Kernel/xxtra.c:96-111 | for one block at each place of a word, which two places of which word decide whether it is granted |
| BlockMapAsWritten.AcceptsUnseen | Kernel/xxtra.c:102-111 | clear blocks at places 3 and 4 of a word are granted for up to 15 blocks whatever the bitmap holds |
| BlockMapAsWritten.AnswerWithoutRoom | Kernel/xxtra.c:88-117 | a bitmap with one free block for which two blocks are granted |
| BlockMapAsWritten.SingleBlockIff | Kernel/xxtra.c:88-117 | for one block the answer is the first fit exactly when the lowest clear scanned block passes the probing |
| BlockMapAsWritten.AnswerIsFirstFitIff | Kernel/xxtra.c:88-117 | for any size the answer is the first fit exactly when the lowest clear block that passes or starts a free run does both, or there is none |
| BlockMapAsWritten.MarkMeetsIntentIff | Kernel/xxtra.c:160-162 | the blocks handed out are marked exactly when none were asked for; the first is handed out again |
| Paging.Mmu.MapPage | Kernel/virtual_mem.h:114-139 | the whole memory after a mapping with the repaired SET_FRAME, whatever memory the table gets |
| Paging.MapPageTranslates | Kernel/virtual_mem.h:114-139 | the page goes to its frame, every other page where it went before, tables stay apart and entries free of stray bits; frames are read as the processor does, bits 12 to 31 |
| Paging.RunTranslates | Kernel/virtual_mem.h:114-139 | after every run the walk sends each page to the frame last mapped for it |
| Paging.PageEntry | Kernel/virtual_mem.h:134-138 | a page entry names the frame asked for exactly when its bit 31 was clear before |
| Paging.TableEntryBits | Kernel/virtual_mem.h:127-131 | a table's entry: bits 0 and 1 set, the frame in bits 12 to 30, the other bits kept |
| Paging.PageEntryBits | Kernel/virtual_mem.h:137-138 | a page's entry: bit 0 set, the frame in bits 12 to 30, the other bits kept |
| Paging.AddressBits | Kernel/virtual_mem.h:11 | the table's address is the entry without its low 8 bits |
| Paging.AddTableTranslates | Kernel/virtual_mem.h:120-132 | a new zeroed table changes no translation |
| Paging.BlocksShareTableIff | Kernel/virtual_mem.h:120-134 | two blocks give the same table exactly when they lie in the same aligned four |
| Paging.BlockIsTableIff | Kernel/virtual_mem.h:120-134 | the table that the directory points to is the memory that was zeroed exactly for every fourth block at an unshifted address |
| Paging.SharedTableAliases | Kernel/virtual_mem.h:120-134 | directory entries with one table send their pages to the same places |
| Paging.AnsweredBlockFreshIff | Kernel/virtual_mem.h:120-134 | with the first blocks of the directory and all tables marked used, the block found by the search is a table of its own exactly when it is a fourth block, unshifted and inside memory |
| Paging.OfferedRunIff | Kernel/virtual_mem.h:114-139 | over a run whose tables are answered by the search, every table is memory of its own exactly when each block taken is a fourth block, unshifted and inside memory |
| Paging.OfferedRunTranslates | Kernel/virtual_mem.h:114-139 | over every such run the walk sends each page to the frame last mapped for it |
| Paging.TablesStayReserved | Kernel/virtual_mem.h:120-132 | marking the first block of a new table keeps the first blocks of all tables marked |
| Paging.IndexOfPage | Kernel/virtual_mem.h:9-10 | the two indices split the number of the 4096-byte page |
| Paging.SetFrameAsWrittenIff | Kernel/virtual_mem.h:15 | the macro as written agrees with storing the address exactly when the address has no frame bits |
| Paging.SetPageAsWrittenIff | Kernel/virtual_mem.h:134-138 | as written the page lands at frame 0, right exactly when that was asked for, also where tables coincide |
| Paging.MapPageAsWrittenIff | Kernel/virtual_mem.h:114-139 | the whole call as written leaves the memory meant exactly when the frame is 0 and the table was present or has no frame bits |
| Paging.AsWrittenTableIsZero | Kernel/virtual_mem.h:127-134 | as written every new directory entry points to a table at address 0 |
| Bump.BumpAllocator.BallocAligned | Kernel/xxtra.c:71-81 | the base rounded up by masking is returned cut to 32 bits, and the new 64-bit base is the end of the range |
| Bump.MaskIsRemainder | Kernel/xxtra.c:73-76 | masking with a power of two less one takes the remainder |
| Bump.AlignUpAligns | Kernel/xxtra.c:72-77 | without overflow the result is a multiple of the alignment with padding below it |
| Bump.RangesInOrderIff | Kernel/xxtra.c:68-81 | over every run the ranges as returned are in order exactly when, before the cut, all start below 2^32 and none ends beyond it |
| Bump.InOrderIsDisjoint | Kernel/xxtra.c:68-81 | ranges in order are disjoint and inside the 32-bit address space |
| Bump.RunIncreases | Kernel/xxtra.c:68-81 | over every such run the ranges are in order, aligned, with padding below the alignment |
| Bump.SamePointerTwice | Kernel/xxtra.c:77 | from every aligned base two requests that are given the same pointer |
| Bump.PlacementAllocator.Kmalloc | Kernel/xxtra.c:34-39 | returns the pointer and advances it by the size |
| Bump.PlacementAllocator.KmallocAp | Kernel/xxtra.c:51-66 | returns and stores the next page, advances by the size |
| Bump.PageUpAlignsIff | Kernel/xxtra.c:53-57 | the result is page aligned exactly when the pointer is zero or beyond page 0 |
| Bump.PageUpDistance | Kernel/xxtra.c:53-57 | an aligned call moves up by at least one byte and at most a page, to a page; in the last page it wraps to 0; other calls stay |
| Bump.CallsInOrderIff | Kernel/xxtra.c:34-66 | over every run of mixed calls the ranges returned are in order exactly when no rounding wraps and none ends beyond 2^32 |
| Bump.CallsDisjoint | Kernel/xxtra.c:34-66 | over every such run the ranges are disjoint, in order, and page aligned when asked |
| Shell.StrLen | Kernel/string.h:4-12 | the number of characters before the terminator |
| Shell.StrCmp | Kernel/string.h:14-26 | zero exactly for equal strings |
| Shell.CommandLine.Dispatch | Kernel/terminal.h:103-158 | the command that the line spells |
| Shell.SpelledWords | Kernel/terminal.h:103-158 | mem, status, init, reboot and clear spell their commands, and every other line is unknown |
| Shell.CommandLine.Key | Kernel/terminal.h:86-168 | letters are appended, also the 25th, Enter fires the spelled command and clears the line, other keys change nothing |
| Shell.CommandLine.Terminal | Kernel/terminal.h:84-169 | the input loop over a stream that the buffer holds leaves the letters since the last Enter, and each Enter fires what the letters of its line spell |
| Shell.StepKeys | Kernel/terminal.h:86-168 | what Enter, the letters and all other keys do, by their codes |
| Shell.RunSpells | Kernel/terminal.h:84-169 | the line is the letters since the last Enter, and each Enter fires what the letters of its line spell, for every stream without Up |
| Shell.RunLine | Kernel/terminal.h:84-169 | letters and Enter take up the line whole and fire its command after all before |
| Shell.CanRunIff | Kernel/terminal.h:84-169 | every key of a stream stays in the buffer, with a terminator at each Enter, exactly when there is no Up and no letter or Enter comes after more than 24 letters |
| Shell.EnteredRunIff | Kernel/terminal.h:84-169 | for a stream that ends in Enter, exactly when there is no Up and no prefix has more than 24 letters since its last Enter |
| Shell.CommandLine.TerminatedIff | Kernel/terminal.h:81-97 | the buffer holds a terminator exactly when the line has at most 24 letters |
| Interrupts.Mouse.Interrupt | Kernel/idt.h:187-237 | one handler step; two port bytes are read and the first is kept |
| Interrupts.BadIff | Kernel/idt.h:199-206 | a first byte is bad exactly from 64 on or without the eight |
| Interrupts.PacketBytes | Kernel/idt.h:187-224 | before tick 250 only flags change, then three bytes go to flags, x and y, and discard is set only in between |
| Interrupts.RunTracks | Kernel/idt.h:176-224 | over every run the cycle is the count since tick 250 mod 3, bytes land in the fields in threes, discard is set exactly inside a bad packet |
| Interrupts.Pics.PicRemap | Kernel/idt.h:278-289 | from any controller state both offsets are set and both masks full |
| Interrupts.PortWords | Kernel/idt.h:278-289 | 0x11 asks for three words, the first the offset; any other word is the mask |
| Interrupts.Pics.PicSetMask | Kernel/idt.h:259-276 | one mask bit of the right controller changes |
| Interrupts.LineBits | Kernel/idt.h:259-276 | lines 0 to 7 are the first mask's bits from the unit place up, lines 8 to 15 the second's |
| Interrupts.MasksFollowCalls | Kernel/idt.h:259-289 | after a remap a line is unmasked exactly when its last call had status 0 |

## Left out

- BlockMap.Allocator.FindBlocks: models the search with lines 30, 102 and 105 of Kernel/xxtra.c repaired and blocks from `max_blocks` on used; the search as written is BlockMapAsWritten.FindBlocks.
- BlockMap.Allocator.MAlloc: models line 162 of Kernel/xxtra.c repaired, and at most 25 processes, as the process table has no bound check; of a record only address and size are kept.
- BlockMap.Allocator.MFree: the words of the bitmap and of memory that the call writes exist.
- BlockMapAsWritten.FindBlocks: shift counts are taken modulo 32, as the processor does, where C leaves them undefined; a request for 2^32 - 1 blocks, for which the probing loop does not end, is excluded.
- Paging.Mmu.MapPage: SET_FRAME stores the address; memory is by words, so the low two bits of the table's address are dropped when it is zeroed. The words that the call touches exist.
- Paging.MapPageTranslates: a new table is memory of its own; Paging.OfferedRunIff says when the allocator's blocks are.
- Pmm.RunAgrees: models entries that mark the named block; the entries as written are covered by Pmm.TouchAgreesIff and Pmm.RunTouchFollowsRun.
- Fat12.Reader.ReadFile: what follows an overrun or a load outside the table is not modelled, nor are read errors other than a short image; the loop ends, which Fat12.LoopEnds grants for clusters of at least one byte.
- Shell.CommandLine.Key: what a 26th letter overwrites, what a comparison without terminator reads, what happens after the Up key, and the effects of the commands themselves are not modelled.
- Shell.CommandLine.Terminal: the streams that Shell.CanRunIff describes.
- Screen.Terminal.Print: the font is any 4096 bytes of memory, and drawing stays on the screen.
- Screen.Terminal.PutC: drawing stays on the screen.
- NumberText.DecimalText: the number 0, for which the code leaves its buffer, is covered by NumberText.LastIndexInBufferIff.
- Bump.RunIncreases: alignments are powers of two, as the comment at Kernel/xxtra.c:70 asks.
- BlockMapAsWritten.PassesOneIff: bitmaps of fewer than 2^30 blocks.
- Fat12.Reader.Load: the chain loop ends, which Fat12.ClustersLoadEnds grants for clusters of at least one sector, and the size of the table does not overflow; opening the image and printing the content are not modelled.
- Fat12.Reader.LoadEntry: the chain loop ends, as for Fat12.Reader.Load.
- Boot sector code, GDT, linker script and inline assembly: machine state without meaning here.
- PIT setup, keyboard polling and port timing: bytes read from ports are parameters.
- Kernel/heap.h: relies on uninitialised pointers, so there is no invariant to state.
- `kmalloc_p` at Kernel/xxtra.c:40-50: never advances the pointer that it hands out.
- `assign_value`, `print_mem_info`, the image loop of `kernel_main`, `set_gate` and `idt_init`: only easy members.
- `dir_lookup_entry`, `set_page_dir`, `flush_tlb_entry`, `alloc_page`, `free_page` of Kernel/virtual_mem.h: the walk and the mapping do not use them.

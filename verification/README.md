# Verified core of avisor and of Unikraft's libfdt and nolibc

This project models the parts of the repository whose correctness is spread over several
functions, and proves what they promise.

* **Page tables** (`PageTableModel`, `RangeSearch`, `AddressSpace`): the stage-2 page-table builder of avisor. An
  entry is invalid (reserved or not), a table or a leaf. Every address has a *view*: unmapped,
  reserved, or mapped to a physical address. Operations are stated by what they do to the views and
  the attribute flags of all addresses.
* **Argument permutation** (`PermuteArgs`, `Getopt`): the in-place block exchange by gcd-many
  cycles, and the scan of `getopt_long` that drives it. What an option is and how many entries it
  uses is an oracle.
* **Sorting** (`Qsort`): `qsort` with its three-way partition, on an array of elements and any
  comparison that is a total preorder.
* **Bitmaps and pages** (`Granule`, `Bitmap`, `PoolSearch`, `PagePool`, `PoolMiss`): 32-bit words,
  the search for a run of equal bits a word at a time, and the pool of physical pages. The ghost
  field `live` holds the ranges that are handed out.
* **Protocols** (`StreamMatch`, `Barrier`, `CommandQueue`): stream-match merging of the SMMUv2, the
  reusable CPU barrier and the command ring of the SMMUv3. The last two are state machines over
  atomic steps, and the results hold for every run.
* **Integers as text** (`IntegerText`): `strtol` and its relatives, and the digit printer. What a text
  says is stated for every way to put it together from blanks, a sign, a prefix, digits and a rest.
* **Devicetree blobs** (the modules named `Fdt...`): the format of chapter 5 of the Devicetree
  Specification v0.4, version 17, over the bytes of one buffer. `FdtFormat` says what a structure
  block means: a list of *events* (a node opens, a node closes, a property with its name looked up
  in the strings block), with padding left out. `FdtBlob`, `FdtNodes`, `FdtCheck` and `FdtProps`
  read, and `FdtWrap` says what becomes of sizes that wrap around; `FdtWriter`, `FdtFinish` and
  `FdtRun` write sequentially; `FdtSplice`, `FdtEdit`, `FdtKeep`, `FdtEditOps` and `FdtSet` edit in
  place; `FdtTree`, `FdtPath`, `FdtLookup` and `FdtRoundTrip` treat paths. `FdtForest` reads a block as a tree of nodes with their offsets,
  `FdtTwin` and `FdtInplace` overwrite values in place, and `FdtOverlay`, `FdtAdjust`, `FdtRooted`,
  `FdtPhandle`, `FdtFixups` and `FdtRenumber` renumber overlays; `FdtFixups` says what the local
  fixups list by their bytes. `FdtMerge`, `FdtMergeReads`, `FdtSubnode` and `FdtApply` merge a node
  of an overlay into the base tree; `FdtMergeReads` says what can be read afterwards. The header's
  fields are fields of the blob, the rest of the buffer is an array of bytes.

Code that changes things in place is modelled by methods on arrays and objects, each proved against
a function of the old state; what the code promises is then proved of those functions. `Basics` holds
what several components share, `Arith` and `Granule` arithmetic that the solver needs spelled out.

Some properties one might expect do not hold as they stand, and are proved with their exact
conditions:

* The bitmap search is right for every map if and only if the size is a multiple of 32
  (`Bitmap.OverrunAtEnd` shows a wrong answer, `Bitmap.SearchCorrectExactly` the condition).
* An aligned page request that fails means that there is no aligned run if and only if it asks for
  at most two pages or the pages that the pool does not keep for itself end less than two requests
  behind its first aligned page, since a pass that meets an unaligned run moves on by the remainder
  instead of to the next multiple (`PoolSearch.AlignedExactly`; `PoolMiss.MissedRun` gets there from
  an empty pool).
* A free range of virtual memory is granted if and only if it does not change tables less than its
  own length before the end of all addresses (`AddressSpace.AddressSpace.FindFree`,
  `RangeSearch.RefusedNearEnd`). A range for any address is the first free one, but lies in the space
  if and only if some free one does; otherwise it goes over the end (`RangeSearch.FirstFitInside`,
  `RangeSearch.CrossesEnd`).
* `strtol` and its relatives give the end of the number if and only if the text has no prefix 0x
  without a digit (`IntegerText.EndExactly`).
* The path of a devicetree node leads back to the node if and only if every node on the way has a
  name and no earlier sibling that answers to it (`FdtLookup.PathLeadsBack`;
  `FdtRoundTrip.UnitAddressShadows` and `FdtRoundTrip.NamelessIsLost` show two failures).
* The tag reader agrees with the format if and only if the tag is no property whose size wraps
  around in 32 bits (`FdtFormat.WrapsExactly`). The full check ends with the right answer if and only
  if it refuses the block or meets no such property (`FdtWrap.AcceptedExactly`); `FdtWrap.SampleVerdict` has
  the blocks that it accepts by mistake and one on which it never ends. `ASTRAY` and `ENDLESS` stand
  for what the program does then.
* The phandles of an overlay keep clear of those of a base with nodes if and only if none is 0
  (`FdtPhandle.NoClash`, `FdtPhandle.ClashExactly`).
* A name that leads to a child still leads to it after another one has been merged in if and only if
  that one is not new or does not fit it (`FdtMerge.OldKidFound`, `FdtMerge.NewKidFound`).
* The full check of a written blob accepts it if and only if the calls were well nested
  (`FdtRun.Build`), where properties in front of the root are let through, as the checker does.
* The sequential writer stays inside its buffer if and only if no name is longer than the buffer
  less the strings in it (`FdtWriter.AddString`, `FdtRun.WriteRun`), and a partial overwrite inside
  the value if and only if offset and length do not wrap around in 32 bits to something that fits
  (`FdtInplace.SetInplacePartial`). `OVERRUN` stands for what the program does otherwise.
* The command queue never holds more than one command, since every insertion waits until the queue
  is drained (`CommandQueue.OneOutstanding`), so that its wait for a full queue never happens.

## Model

| member | source | states |
|---|---|---|
| `PageTableModel.DescriptorsValid` | avisor/src/arch/aarch64/arch_page_table.c:16-30 | the AArch64 descriptor and the AArch32 stage-2 one have levels that tile each other down to single pages, and a span of at most a quarter of all addresses, which is all the other proofs use |
| `PageTableModel.LevelSizes` | avisor/src/arch/aarch64/arch_page_table.c:16-30 | tables of 512 entries over blocks of 512 GiB, 1 GiB, 2 MiB and 4 KiB, with leaves from 1 GiB down, and the same from 1 GiB on for AArch32 |
| `PageTableModel.BlockCount` | avisor/src/core/inc/page_table.h:22-28 | at every level, blocks times block size is the whole address span, and each block holds as many blocks of the next level as a table has entries |
| `PageTableModel.BlockSplit` | avisor/src/core/inc/page_table.h:38-41 | the block of an address is the block of its table times the number of entries, plus its index |
| `PageTableModel.OffsetSplit` | avisor/src/core/inc/page_table.h:26-41 | the offset within a block is the index at the next level times that level's size, plus the offset there |
| `PageTableModel.MaskAddr` | avisor/src/core/mmu.c:302-303 | an output address is cut to page-aligned bits 47..12 and kept exactly if it fits them |
| `PageTableModel.TableAtShared` | avisor/src/arch/aarch64/arch_page_table.c:66-92 | addresses served by the same table reach the same table |
| `PageTableModel.LookupShared` | avisor/src/arch/aarch64/arch_page_table.c:66-92 | every address of the block an entry translates finds that entry |
| `PageTableModel.EntryUnder` | avisor/src/arch/aarch64/arch_page_table.c:66-92 | an entry on the walk is a table exactly if the walk ends lower; otherwise it is what the walk finds |
| `PageTableModel.LookupElsewhere` | avisor/src/core/mmu.c:17-39 | rewriting one entry does not change what addresses of other blocks find |
| `PageTableModel.SplitLookup` | avisor/src/core/mmu.c:17-39 | putting a table behind an entry changes the walk of exactly the addresses of its block, to the new table's entries |
| `PageTableModel.SplitKeepsView` | avisor/src/core/mmu.c:73-144 | if the new table refines the old entry, every address of the space keeps its translation or reservation |
| `PageTableModel.SplitKeepsWithin` | avisor/src/core/mmu.c:146-161 | a split keeps the blocks that cover a range inside it |
| `PageTableModel.ExtendWithin` | avisor/src/core/mmu.c:211-256 | stepping over the block found at an aligned address extends the range whose blocks lie inside it |
| `PageTableModel.StoreLookup` | avisor/src/core/mmu.c:300-305 | overwriting the entry that an address finds changes the walk of exactly the addresses of its block |
| `AddressSpace.ExpandedPageRefines` | avisor/src/core/mmu.c:121-139 | the replicated table says of each sub-block what the superpage or reservation said |
| `RangeSearch.TakenCovers` | avisor/src/core/mmu.c:233-236 | a block that the search takes whole is the largest one around its addresses that lies in the range and that no table divides |
| `RangeSearch.SpareSplit` | avisor/src/core/mmu.c:237-242 | the search puts tables only behind blocks that do not lie in the range |
| `RangeSearch.GoTake` | avisor/src/core/mmu.c:233-236 | taking an entry extends the free run; within a request for an address it is one more block of the same table |
| `RangeSearch.GoDescend` | avisor/src/core/mmu.c:237-247 | putting a table behind a free entry that cannot be taken whole keeps every view and the run so far |
| `RangeSearch.NoneBefore` | avisor/src/core/mmu.c:225-232 | no free run of n pages begins at or before a taken entry that is met with less than n free pages in front of it |
| `RangeSearch.NoneAtAll` | avisor/src/core/mmu.c:211-256 | a search that has passed the whole space without a find has shown that no free run exists, not even over its end |
| `RangeSearch.NotRefused` | avisor/src/core/mmu.c:211-217 | a request for an address that comes to its end has met no reason to be refused |
| `RangeSearch.TooLate` | avisor/src/core/mmu.c:212-217 | the check against the end of all addresses, made anew at every table, fails only for a range that exceeds it or that changes tables less than n pages before it |
| `RangeSearch.RefusedNearEnd` | avisor/src/core/mmu.c:212-217 | in every space without tables there is a free range below 2^64 that is refused for that reason |
| `RangeSearch.FirstFitInside` | avisor/src/core/mmu.c:211-256 | the range given to a request for any address lies in the space if and only if some free run does |
| `RangeSearch.CrossesEnd` | avisor/src/core/mmu.c:248-254 | otherwise it goes over the end and on at address 0: in every space with the first and the last entry of the root table free and the others reserved, for one page more than an entry has |
| `AddressSpace.BlockApart` | avisor/src/core/mmu.c:146-161 | a block inside a range meets no address outside it, counting addresses that wrap to the same translation |
| `AddressSpace.SweepStep` | avisor/src/core/mmu.c:153-160 | one step of a sweep leaves no entry of the level above its position, although positions advance from an unaligned address |
| `AddressSpace.MarkStep` | avisor/src/core/mmu.c:262-270 | marking the next free block reserves exactly its addresses |
| `AddressSpace.MapStep` | avisor/src/core/mmu.c:300-305 | writing the next page maps exactly its addresses, with those flags |
| `AddressSpace.AddressSpace.constructor` | avisor/src/core/mmu.c:164-182 | a new address space maps nothing |
| `AddressSpace.AddressSpace.GetPte` | avisor/src/arch/aarch64/arch_page_table.c:66-92 | the walk down to a level ends at that level's table and index for the address |
| `AddressSpace.AddressSpace.AllocPt` | avisor/src/core/mmu.c:17-39 | the entry becomes a table whose entries are all invalid and reserved exactly if the entry was |
| `AddressSpace.AddressSpace.Replicate` | avisor/src/core/mmu.c:121-139 | the new table repeats the superpage or reservation entry by entry |
| `AddressSpace.AddressSpace.ExpandPte` | avisor/src/core/mmu.c:73-144 | an entry that is no table becomes one, no address of the space changes its translation or reservation, and leaves under the new table get the default flags while all other flags stay |
| `AddressSpace.AddressSpace.SweepLevel` | avisor/src/core/mmu.c:153-160 | after a sweep every address of the range is found below the level, no view changes, and flags change, to the default ones, exactly where a leaf was split |
| `AddressSpace.AddressSpace.InflatePt` | avisor/src/core/mmu.c:146-161 | every address of the range is found at page level afterwards, no address anywhere at a higher level than before, every address of the space keeps its translation or reservation, and flags become the default ones exactly where a leaf was split |
| `AddressSpace.AddressSpace.ScanTable` | avisor/src/core/mmu.c:219-255 | one table of the search: the run found so far stays free, is covered by blocks inside it and views are kept; a request for an address stops only at a taken page, and what it takes is entries of one table; a request for any address starts anew behind a taken entry, and no free run begins before that |
| `AddressSpace.AddressSpace.FindFree` | avisor/src/core/mmu.c:198-256 | a request for an address gets it if and only if it is not empty or misaligned, all of it is free and below 2^64, and it changes tables nowhere in the last n pages of all addresses; a request for any address gets the first free run of n pages, and nothing exactly if there is none in the whole space |
| `AddressSpace.AddressSpace.FirstInvalid` | avisor/src/core/mmu.c:263-266 | the first invalid entry on the walk is the one the walk finds |
| `AddressSpace.AddressSpace.Reserve` | avisor/src/core/mmu.c:258-271 | the range is reserved and every address outside it keeps its view |
| `AddressSpace.AddressSpace.AllocVpage` | avisor/src/core/mmu.c:184-276 | the answer of the search, with or without an address; success: the range was unmapped, is reserved, its partly covered blocks are tables, and every address outside is as before; failure: no view changes; flags never change |
| `AddressSpace.AddressSpace.Map` | avisor/src/core/mmu.c:278-311 | page i translates to base + i pages with the flags given; the rest of the range translates as before, with the default flags exactly where a leaf was split; every address outside is as before in both; pages beyond the range need page-level tables there, and get mapped too |
| `AddressSpace.AddressSpace.AllocMap` | avisor/src/core/mmu.c:313-322 | with or without an address: refused exactly as the search says, and then no view and no flags change; success: the range was unmapped, page i translates to base + i pages with the flags given, unfilled pages are reserved, every address outside translates as before with the flags it had |
| `AddressSpace.AddressSpace.AllocMapDev` | avisor/src/core/mmu.c:324-336 | the same for a device region of as many pages as are mapped |
| `PermuteArgs.Gcd` | unikraft-work/unikraft/lib/nolibc/getopt.c:135-148 | the result divides both numbers and is an integer combination of them |
| `PermuteArgs.GcdIsGreatest` | unikraft-work/unikraft/lib/nolibc/getopt.c:132-148 | every common divisor divides it |
| `PermuteArgs.OrbitCloses` | unikraft-work/unikraft/lib/nolibc/getopt.c:170-184 | a cycle is back at its start after total/gcd hops |
| `PermuteArgs.OrbitDistinct` | unikraft-work/unikraft/lib/nolibc/getopt.c:170-184 | and not before |
| `PermuteArgs.OrbitClass` | unikraft-work/unikraft/lib/nolibc/getopt.c:170-184 | the i-th cycle stays in the positions congruent to i modulo the gcd |
| `PermuteArgs.OrbitCovers` | unikraft-work/unikraft/lib/nolibc/getopt.c:170-184 | and visits all of them, so the cycles partition the positions |
| `PermuteArgs.RunCycle` | unikraft-work/unikraft/lib/nolibc/getopt.c:171-183 | running the i-th cycle by swaps puts its positions right and leaves the others alone |
| `PermuteArgs.Permute` | unikraft-work/unikraft/lib/nolibc/getopt.c:155-185 | the two adjacent blocks are exchanged, in order within each, and nothing else moves |
| `Getopt.SortIsStable` | unikraft-work/unikraft/lib/nolibc/getopt.c:399-475 | options with their arguments and non-options, each in their own order, interleave to the scanned entries |
| `Getopt.SortedByPieces` | unikraft-work/unikraft/lib/nolibc/getopt.c:399-475 | which entries go where: the scanned entries fall into pieces, each a non-option, an option with the entries it uses or a final "--", every entry goes to the side of its piece, and entries are left over only behind "--" |
| `Getopt.OptionSpelled` | unikraft-work/unikraft/lib/nolibc/getopt.c:419-424 | an option is a dash and at least one more character |
| `Getopt.OracleFollowed` | unikraft-work/unikraft/lib/nolibc/getopt.c:455-456 | an answer of the oracle that makes sense is taken as it is |
| `Getopt.Scanner.constructor` | unikraft-work/unikraft/lib/nolibc/getopt.c:393-398 | a scan starts with nothing skipped |
| `Getopt.Scanner.MoveBack` | unikraft-work/unikraft/lib/nolibc/getopt.c:404-408 | the skipped non-options move behind the options seen since |
| `Getopt.Scanner.SkipOne` | unikraft-work/unikraft/lib/nolibc/getopt.c:441-453 | a non-option is skipped, earlier ones having been moved up to it |
| `Getopt.Scanner.StopAtDashes` | unikraft-work/unikraft/lib/nolibc/getopt.c:461-475 | "--" ends the scan: options, then the non-options from optind on |
| `Getopt.Scanner.FindOption` | unikraft-work/unikraft/lib/nolibc/getopt.c:399-476 | stops at the next option, or ends the scan with the arguments sorted |
| `Getopt.Scanner.Consume` | unikraft-work/unikraft/lib/nolibc/getopt.c:455-456 | an option takes the entries the oracle says it uses |
| `Getopt.Scanner.Next` | unikraft-work/unikraft/lib/nolibc/getopt.c:396-476 | one call keeps the scan's bookkeeping, or finishes it |
| `Getopt.ScanAll` | unikraft-work/unikraft/lib/nolibc/getopt.c:396-476 | a whole scan leaves argv as a stable partition: consumed options with their arguments, then the skipped entries starting at optind, then what was never scanned |
| `Qsort.Med3Median` | unikraft-work/unikraft/lib/nolibc/qsort.c:74-80 | the element chosen lies between the other two |
| `Qsort.Pivot` | unikraft-work/unikraft/lib/nolibc/qsort.c:97-108 | the pivot is one of the elements to be sorted, for every length from 7 on |
| `Qsort.InsertionSort` | unikraft-work/unikraft/lib/nolibc/qsort.c:91-95 | a sorted permutation of the stretch; nothing else moves |
| `Qsort.Sink` | unikraft-work/unikraft/lib/nolibc/qsort.c:92-94 | one element sinks to its place in a sorted front |
| `Qsort.ScanUp` | unikraft-work/unikraft/lib/nolibc/qsort.c:114-121 | keeps the zones equal/less/unknown/greater/equal |
| `Qsort.ScanDown` | unikraft-work/unikraft/lib/nolibc/qsort.c:122-129 | keeps the zones equal/less/unknown/greater/equal |
| `Qsort.Partition` | unikraft-work/unikraft/lib/nolibc/qsort.c:109-136 | ends with no unknown elements; without a swap nothing has moved |
| `Qsort.VecSwap` | unikraft-work/unikraft/lib/nolibc/qsort.c:69-73 | two disjoint stretches of equal length are exchanged element by element |
| `Qsort.Gather` | unikraft-work/unikraft/lib/nolibc/qsort.c:144-148 | both block swaps bring the elements equal to the pivot between the smaller and the greater ones |
| `Qsort.QSort` | unikraft-work/unikraft/lib/nolibc/qsort.c:81-157 | for every total preorder: terminates, sorted, a permutation, and nothing outside the stretch moves |
| `Bitmap.FindNth` | avisor/src/lib/bitmap.c:4-20 | a position with the bit before which exactly nth - 1 others have it, or that fewer than nth have it |
| `Bitmap.NthCorrect` | avisor/src/lib/bitmap.c:4-20 | the same of the recursive form, from any position and count on |
| `Bitmap.FirstCorrect` | avisor/src/lib/bitmap.c:4-20 | the first such position is the least one, and none means there is none |
| `Bitmap.CountConsecutive` | avisor/src/lib/bitmap.c:22-54 | the three loops compute the word-wise count |
| `Bitmap.CountWordsCorrect` | avisor/src/lib/bitmap.c:42-53 | counting whole words, then bits, is counting bits |
| `Bitmap.CountConsecutiveCorrect` | avisor/src/lib/bitmap.c:22-54 | on whole words the count is the exact run length, cut short only by a different bit, the end or n |
| `Bitmap.FindConsec` | avisor/src/lib/bitmap.c:56-83 | the search loop computes its recursive form and terminates |
| `Bitmap.SearchCorrect` | avisor/src/lib/bitmap.c:56-83 | for a size of whole words: the least index from start on with n equal bits inside the map, and none exactly if there is none |
| `Bitmap.OverrunAtEnd` | avisor/src/lib/bitmap.c:43-46 | for any other size the search can return a run that reaches past the end |
| `Bitmap.SearchCorrectExactly` | avisor/src/lib/bitmap.c:56-83 | the search is right for every map if and only if the size is a multiple of 32 |
| `Bitmap.Set` | avisor/src/lib/inc/bitmap.h:23-25 | sets that bit and no other |
| `Bitmap.Clear` | avisor/src/lib/inc/bitmap.h:27-29 | clears that bit and no other |
| `Bitmap.ClearConsecutive` | avisor/src/lib/inc/bitmap.h:37-40 | clears exactly n bits from start on |
| `Bitmap.SetConsecutive` | avisor/src/lib/bitmap.c:85-104 | sets exactly n bits from start on, through a first partial word, whole words and a last partial word |
| `PoolSearch.Pick` | avisor/src/core/mem.c:138-171 | one pass chooses a free run from its start on, aligned if so requested |
| `PoolSearch.PickFirst` | avisor/src/core/mem.c:138-148 | without alignment the choice is the first free run, and none means there is none |
| `PoolSearch.ChoiceUnaligned` | avisor/src/core/mem.c:129-172 | two passes without alignment find nothing exactly if there is no free run of that length |
| `PoolSearch.ChoiceNextFit` | avisor/src/core/mem.c:129-172 | without alignment the first free run at or behind the hint, moved on by its remainder, is chosen, and else the first one of all |
| `PoolSearch.ChoiceFirstAligned` | avisor/src/core/mem.c:129-172 | with alignment the first free run from there on is chosen if it is aligned, and if there is none, the first one from the first aligned page on if it is |
| `PoolSearch.PickSmall` | avisor/src/core/mem.c:150-156 | for one or two pages a pass misses no aligned run from its start on |
| `PoolSearch.FirstAlignedLeast` | avisor/src/core/mem.c:146-147 | the second pass starts at the first page whose address is aligned |
| `PoolSearch.FirstAlignedFound` | avisor/src/core/mem.c:146-147 | a free run at the first aligned page is never missed |
| `PoolSearch.AlignedFurther` | avisor/src/core/mem.c:146-147 | every other aligned page is at least one whole request behind the first one |
| `PoolSearch.ChoiceExhaustive` | avisor/src/core/mem.c:129-172 | where all pages from some page on are taken, and less than two requests lie between the first aligned page and that one, or at most two pages are requested, a failed aligned request means there is no aligned run |
| `PoolSearch.ChoiceMisses` | avisor/src/core/mem.c:150-156 | with the pages from one before the second aligned page to the end of its run free and a hint behind them, both passes miss that run, for every base and every request of three or more pages |
| `PoolSearch.AlignedExactly` | avisor/src/core/mem.c:129-172 | for a pool whose pages from some page on are taken, as those it keeps for itself are, the aligned search is right for every such bitmap and every hint if and only if that condition holds |
| `PagePool.UnsetPainted` | avisor/src/core/mem.c:164-165 | painting a run changes the number of clear bits by its length |
| `PagePool.Take` | avisor/src/core/mem.c:164-166 | taking a free run keeps handed-out ranges in bounds and disjoint, and the bitmap marking exactly them |
| `PagePool.Give` | avisor/src/core/mem.c:211-212 | giving one back keeps the same, and the run is free again |
| `PagePool.NothingFree` | avisor/src/core/mem.c:138-138 | with no clear bit no run is free |
| `PagePool.PageAddress` | avisor/src/core/mem.c:129-130 | a page index is aligned to n with the pool's offset exactly if its address is |
| `PagePool.KeptTaken` | avisor/src/core/mem.c:66-76 | the pages that a pool keeps for itself are taken for as long as they are not given back |
| `PagePool.Pool.constructor` | avisor/src/core/mem.c:29-78 | a pool starts with only its own bitmap pages handed out and the hint at page 0 |
| `PagePool.Pool.Claim` | avisor/src/core/mem.c:162-166 | hands out a free run |
| `PagePool.Pool.Pass` | avisor/src/core/mem.c:138-171 | one search gives what one pass does, or nothing if no page is free, and then where the next one starts; the loop terminates |
| `PagePool.Pool.Find` | avisor/src/core/mem.c:129-172 | the two searches give a run that is free and, if so requested, aligned |
| `PagePool.Pool.Exhausted` | avisor/src/core/mem.c:129-172 | a failed request means that there is no free run of that length, or no aligned one where the aligned search is exhaustive |
| `PagePool.Pool.Alloc` | avisor/src/core/mem.c:112-176 | hands out a range in bounds, disjoint from all others, aligned to its size if so requested, at the page the two passes choose; an unaligned request fails only if no free run of that length exists, an aligned one only if there is no aligned run, where the search is exhaustive; free stays the number of clear bits |
| `PagePool.Pool.Free` | avisor/src/core/mem.c:188-219 | takes back exactly that range; a null, empty or out-of-range request changes nothing; the hint stays |
| `PoolMiss.MissedRun` | avisor/src/core/mem.c:112-219 | in every pool for which the aligned search is not exhaustive, its own pages counted as taken, a run of requests and returns after which an aligned request fails although an aligned run is free |
| `PoolMiss.TakeAll` | avisor/src/core/mem.c:112-176 | single-page requests hand out every page the pool does not keep, in order |
| `PoolMiss.GiveBack` | avisor/src/core/mem.c:188-219 | returning single pages leaves exactly those pages free |
| `StreamMatch.OverlapIsSharing` | avisor/src/arch/aarch64/smmuv2.c:279-281 | the xor and mask test says exactly whether two entries select a common stream id |
| `StreamMatch.NarrowerIsIncluded` | avisor/src/arch/aarch64/smmuv2.c:283-285 | overlapping entries with nested masks: the narrower one's ids are all selected by the wider one |
| `StreamMatch.MaskOrder` | avisor/src/arch/aarch64/smmuv2.c:284-294 | where masks are nested, the numeric comparison is inclusion |
| `StreamMatch.MergeDirection` | avisor/src/arch/aarch64/smmuv2.c:283-299 | a mergeable entry of the same context is included by the new selection or includes it, as the comparison says |
| `StreamMatch.NothingDropped` | avisor/src/arch/aarch64/smmuv2.c:294-299 | if an entry includes the selection, no entry has been dropped before it was reached |
| `StreamMatch.Inserted` | avisor/src/arch/aarch64/smmuv2.c:311-325 | storing the selection keeps entries disjoint and every earlier addition covered |
| `StreamMatch.StillRecorded` | avisor/src/arch/aarch64/smmuv2.c:311-325 | an entry is a group entry if and only if some selection stored in it was a group one, and an entry in use has id, mask and context of the last one stored |
| `StreamMatch.WelcomeFits` | avisor/src/arch/aarch64/smmuv2.c:279-299 | a selection that agrees with every earlier addition it shares ids with is in no conflict |
| `StreamMatch.NoConflict` | avisor/src/arch/aarch64/smmuv2.c:279-299 | nor is one that an entry it may be merged with includes |
| `StreamMatch.StreamTable.constructor` | avisor/src/arch/aarch64/smmuv2.c:243-253 | an empty table |
| `StreamMatch.StreamTable.CompatibleExists` | avisor/src/arch/aarch64/smmuv2.c:269-309 | included: nothing changed and the selection is covered; not included: exactly the entries it includes are dropped; conflict: if and only if an entry that shares ids with it is of another context, has a mask that is not nested or is, like the selection, not of a group |
| `StreamMatch.StreamTable.AllocSme` | avisor/src/arch/aarch64/smmuv2.c:243-253 | takes the first entry not in use, if any |
| `StreamMatch.StreamTable.Add` | avisor/src/arch/aarch64/iommu.c:58-66 | over every run: entries pairwise disjoint as sets of stream ids, every id ever added for a context covered by an entry of that context, and every entry as the selections stored in it say, group flag included; halts if and only if there is a conflict, and never for a selection that agrees with every earlier one it shares ids with |
| `Barrier.StepInv` | avisor/src/core/inc/cpu.h:60-77 | every step of every CPU keeps the counter the sum of arrivals and all CPUs within one round |
| `Barrier.RunInv` | avisor/src/core/inc/cpu.h:60-77 | so does every run |
| `Barrier.ReturnsAfterAllEntered` | avisor/src/core/inc/cpu.h:69-77 | no CPU returns from its k-th barrier before all have entered their k-th |
| `Barrier.NeverAllBlocked` | avisor/src/core/inc/cpu.h:69-77 | once the token is ready the CPUs are never all blocked |
| `Barrier.RoundsTogether` | avisor/src/core/inc/cpu.h:69-77 | no CPU is more than one round ahead of another |
| `CommandQueue.Distance` | avisor/src/arch/aarch64/smmuv3.c:171-176 | for up to N entries, the index and wrap tests say exactly empty and full |
| `CommandQueue.AdvanceStands` | avisor/src/arch/aarch64/smmuv3.c:416-422 | advancing the producer register stands for one more command, overflow flag and wrap bit included |
| `CommandQueue.StepInv` | avisor/src/arch/aarch64/smmuv3.c:517-530 | every step of driver and device keeps the invariant of the ring |
| `CommandQueue.StepOneAtATime` | avisor/src/arch/aarch64/smmuv3.c:517-530 | and that at most one command is outstanding; no step waits for a full queue, and a slot is written only into a drained queue |
| `CommandQueue.RunInv` | avisor/src/arch/aarch64/smmuv3.c:517-530 | so does every run |
| `CommandQueue.QueueLength` | avisor/src/arch/aarch64/smmuv3.c:391-433 | in every state of the ring, (prod - cons) modulo twice the size is the number of unconsumed commands, between 0 and the size |
| `CommandQueue.FullAndEmpty` | avisor/src/arch/aarch64/smmuv3.c:391-401 | full and empty are never confused, neither on the device's register nor on the cached one |
| `CommandQueue.NoOverwrite` | avisor/src/arch/aarch64/smmuv3.c:520-523 | in every state of the ring with up to N commands waiting, and however old the copy of the consumer, writing a slot leaves all waiting commands alone; the driver itself never has more than one waiting |
| `CommandQueue.ManyWaiting` | avisor/src/arch/aarch64/smmuv3.c:520-523 | there are such states with any number waiting up to the last free slot |
| `CommandQueue.OneOutstanding` | avisor/src/arch/aarch64/smmuv3.c:517-530 | in every run at most one command is outstanding, an insertion finds the queue drained and its copy of the consumer exact, it never waits for a full queue, and with more than one slot the queue is never full |
| `CommandQueue.CheckErrorInv` | avisor/src/arch/aarch64/smmuv3.c:494-515 | the command replaced after an error is the one the device stopped on |
| `CommandQueue.Fifo` | avisor/src/arch/aarch64/smmuv3.c:494-530 | commands are consumed in order, each as issued unless the device stopped on it, and then as a sync; the replaced ones are exactly those it stopped on, but for one it is standing on |
| `CommandQueue.DrainedAtReturn` | avisor/src/arch/aarch64/smmuv3.c:525-529 | when an insertion returns, everything issued has been consumed |
| `CommandQueue.Onward` | avisor/src/arch/aarch64/smmuv3.c:494-530 | in every state of an insertion some step of the driver or the device brings it nearer to its end, errors of the device included |
| `CommandQueue.CanFinish` | avisor/src/arch/aarch64/smmuv3.c:494-530 | every run can be gone on with so that the insertion in progress returns after at most six steps with everything consumed |
| `IntegerText.CutoffExact` | unikraft-work/unikraft/lib/nolibc/stdlib.c:194-217 | the cutoff and cutlim test says exactly whether one more digit exceeds the limit |
| `IntegerText.Accumulate` | unikraft-work/unikraft/lib/nolibc/stdlib.c:200-218 | the digit loop ends at the first non-digit with the value, or flags that it exceeds the limit |
| `IntegerText.Alphabet` | unikraft-work/unikraft/lib/nolibc/stdlib.c:201-208 | digits are 0 to 9 and then the letters in order, in either case, and nothing else |
| `IntegerText.ValueByPlaces` | unikraft-work/unikraft/lib/nolibc/stdlib.c:210-217 | the value of digits is the sum of each times a power of the base |
| `IntegerText.Preamble` | unikraft-work/unikraft/lib/nolibc/stdlib.c:156-173 | blanks, sign, prefix and base are what the text says; SpelledForm says what that is by the parts of the text |
| `IntegerText.SpelledForm` | unikraft-work/unikraft/lib/nolibc/stdlib.c:156-173 | for every text put together from blanks, a sign, a prefix, digits and a rest: negative exactly if the sign is a minus, the base that prefix or leading zero ask for, and the digits where they stand |
| `IntegerText.FoundSpelled` | unikraft-work/unikraft/lib/nolibc/stdlib.c:156-218 | every text in which digits are found is put together like that |
| `IntegerText.SpelledSays` | unikraft-work/unikraft/lib/nolibc/stdlib.c:156-230 | and stands for the signed value of those digits |
| `IntegerText.StrToLL` | unikraft-work/unikraft/lib/nolibc/stdlib.c:237-330 | for every way to put the text together from blanks, sign, prefix, digits and rest: the signed value of the digits clamped to the 64-bit signed range, and the end behind the digits; 0 and the start if there is no such way; strtol is the same on this target |
| `IntegerText.StrToULL` | unikraft-work/unikraft/lib/nolibc/stdlib.c:338-405 | for every such way: saturates exactly when the digits exceed the maximum, and otherwise is their value, or 2^64 less it behind a minus; 0 and the start if there is none; strtoul is the same on this target |
| `IntegerText.EndExactly` | unikraft-work/unikraft/lib/nolibc/stdlib.c:327-328 | the end is that of the longest number, as section 7.22.1.4 of C11 has it, if and only if the text has no prefix 0x without a hexadecimal digit; there it is the start of the text instead of the place behind the 0 |
| `IntegerText.Ksprintn` | unikraft-work/unikraft/lib/nolibc/stdio.c:82-96 | fills the buffer backwards with the digits of the number, at most 64 of them |
| `IntegerText.DigitCount` | unikraft-work/unikraft/lib/nolibc/stdio.c:82-96 | a number below 2 to the k has at most k digits in any base |
| `IntegerText.PrintedValue` | unikraft-work/unikraft/lib/nolibc/stdio.c:82-96 | the printed digits stand for the number |
| `IntegerText.RoundTrip` | unikraft-work/unikraft/lib/nolibc/stdlib.c:338-405 | the printed text of every number in every base reads back as that number, to its last character |
| `IntegerText.PrintAndRead` | unikraft-work/unikraft/lib/nolibc/stdio.c:82-96 | printing a 64-bit number and reading it back returns it |
| `IntegerText.PrintAndReadSigned` | unikraft-work/unikraft/lib/nolibc/stdlib.c:237-330 | printing a signed 64-bit number, with a minus in front if it is negative, and reading it back returns it |
| `FdtFormat.ReadBe32` | unikraft-work/unikraft/lib/fdt/libfdt_internal.h:58-61 | a stored word reads back |
| `FdtFormat.WordBytes` | unikraft-work/unikraft/lib/fdt/libfdt_internal.h:58-61 | a word is read with its most significant byte first |
| `FdtFormat.TagBytes` | unikraft-work/unikraft/lib/fdt/include/fdt.h:53-58 | every kind of token starts with the four bytes that the format gives it |
| `FdtFormat.NulFrom` | unikraft-work/unikraft/lib/fdt/fdt.c:183-185 | the first zero byte at or after a place, or the end |
| `FdtFormat.StringWritten` | unikraft-work/unikraft/lib/fdt/fdt_ro.c:82-92 | a name written out and terminated is the name read there |
| `FdtFormat.StringBefore` | unikraft-work/unikraft/lib/fdt/fdt_rw.c:143-152 | names keep their offsets when strings are appended |
| `FdtFormat.StringBehind` | unikraft-work/unikraft/lib/fdt/fdt_sw.c:257-264 | names move by the length of what is put in front of them |
| `FdtFormat.First` | unikraft-work/unikraft/lib/fdt/fdt.c:165-217 | a token lies within the bytes it is read from and takes at least a word |
| `FdtFormat.FirstAt` | unikraft-work/unikraft/lib/fdt/fdt.c:165-217 | the token that the format has at an offset, by its tag, name, length and name offset, for every tag and every way to be cut short |
| `FdtFormat.WrapsExactly` | unikraft-work/unikraft/lib/fdt/fdt.c:195-211 | the tag reader parts from the format exactly at a property with a length from 2^32 - 12 on whose size, taken modulo 2^32, lies in the block |
| `FdtFormat.ProgramAt` | unikraft-work/unikraft/lib/fdt/fdt.c:165-217 | what the tag reader says by the words of the block, sizes taken modulo 2^32 |
| `FdtFormat.FirstLocal` | unikraft-work/unikraft/lib/fdt/fdt.c:165-217 | a token depends on its own bytes only |
| `FdtFormat.FirstBegin` | unikraft-work/unikraft/lib/fdt/fdt_sw.c:226-232 | the bytes written for a node read as that node, whatever follows |
| `FdtFormat.FirstProperty` | unikraft-work/unikraft/lib/fdt/fdt_sw.c:318-333 | the bytes written for a property read as that property, whatever follows |
| `FdtFormat.ScanAppend` | unikraft-work/unikraft/lib/fdt/fdt.c:165-217 | reading two pieces in a row is reading one and then the other |
| `FdtFormat.WalkAppend` | unikraft-work/unikraft/lib/fdt/fdt.c:165-217 | the walk to the end tag over a piece and a rest is the piece and the walk over the rest |
| `FdtFormat.MeaningAppend` | unikraft-work/unikraft/lib/fdt/fdt_ro.c:34-98 | so is what the tokens mean with names looked up and padding left out |
| `FdtFormat.MeaningBefore` | unikraft-work/unikraft/lib/fdt/fdt_rw.c:127-153 | appending strings changes no meaning |
| `FdtFormat.EventsAppend` | unikraft-work/unikraft/lib/fdt/fdt.c:165-217 | a block's meaning is put together from its pieces' |
| `FdtFormat.NopsMeanNothing` | unikraft-work/unikraft/lib/fdt/fdt_wip.c:51-57 | padding tags mean nothing |
| `FdtFormat.ReservedLocal` | unikraft-work/unikraft/lib/fdt/fdt_ro.c:160-199 | the reservations depend on their own block only |
| `FdtFormat.ReservedSizes` | unikraft-work/unikraft/lib/fdt/fdt_ro.c:160-199 | the list ends at the first entry whose size, the second number, is 0 |
| `FdtBlob.Blob.SkipName` | unikraft-work/unikraft/lib/fdt/fdt.c:181-188 | finds the end of a name in the structure block, or that there is none |
| `FdtBlob.Blob.NextTag` | unikraft-work/unikraft/lib/fdt/fdt.c:165-217 | the tag and the offset behind its token, or the error, for every offset and every block: what the format says, but for a property whose size wraps around, which is one of the size that is left |
| `FdtBlob.Blob.SafeTag` | unikraft-work/unikraft/lib/fdt/fdt.c:165-217 | what the format says, with ASTRAY where the tag reader parts from it |
| `FdtBlob.Blob.Write` | unikraft-work/unikraft/lib/fdt/fdt_sw.c:232-232 | overwrites exactly those bytes |
| `FdtBlob.Blob.Move` | unikraft-work/unikraft/lib/fdt/fdt_rw.c:66-66 | moves bytes as if through a copy, overlapping or not |
| `FdtNodes.CheckNodeOffset` | unikraft-work/unikraft/lib/fdt/fdt.c:219-229 | refuses offsets that are negative, unaligned or not at a node |
| `FdtNodes.NextNode` | unikraft-work/unikraft/lib/fdt/fdt.c:243-281 | the next node, or the offset behind the tag that closes one node too many, or the error; ASTRAY if a size wraps around on the way |
| `FdtNodes.CloseTokens` | unikraft-work/unikraft/lib/fdt/fdt_wip.c:73-81 | the search for a node's end finds the one place where the tokens close it, or there is none |
| `FdtNodes.NodesAreTags` | unikraft-work/unikraft/lib/fdt/fdt.c:243-281 | going from node to node counts depth as going from tag to tag does |
| `FdtNodes.NodeEndOffset` | unikraft-work/unikraft/lib/fdt/fdt_wip.c:73-81 | the offset behind the matching end tag, and an error exactly if no end tag matches; ASTRAY exactly if a size wraps around on the way |
| `FdtNodes.SpanUnique` | unikraft-work/unikraft/lib/fdt/fdt_wip.c:73-81 | a node has one end |
| `FdtCheck.CheckHeader` | unikraft-work/unikraft/lib/fdt/fdt.c:89-141 | accepts exactly the headers whose blocks lie within the total size |
| `FdtCheck.NumMemRsv` | unikraft-work/unikraft/lib/fdt/fdt_ro.c:160-199 | counts the reservations before the first of size zero |
| `FdtCheck.GetMemRsv` | unikraft-work/unikraft/lib/fdt/fdt_ro.c:160-187 | the address is the first and the size the second big-endian 64-bit number of the n-th entry; an error exactly if the entry is not in the blob |
| `FdtCheck.GetString` | unikraft-work/unikraft/lib/fdt/fdt_ro.c:34-98 | the length of the terminated name inside the strings block, and an error exactly if there is none |
| `FdtCheck.NestedIsOneRoot` | unikraft-work/unikraft/lib/fdt/fdt_check.c:38-92 | the checker's depth and end flags accept exactly the token runs with at most one root, nameless, with nothing behind it |
| `FdtCheck.CheckTags` | unikraft-work/unikraft/lib/fdt/fdt_check.c:38-92 | accepts, refuses, never ends or reads behind the block exactly as the walk over the tag reader's answers does, wrapped sizes included |
| `FdtCheck.CheckFull` | unikraft-work/unikraft/lib/fdt/fdt_check.c:13-93 | the same behind header and reservations; returns 0 for every blob in which header, reservations, structure and names are sound, and for no other whose walk meets no wrapped size |
| `FdtCheck.VerdictIsChecked` | unikraft-work/unikraft/lib/fdt/fdt_check.c:38-92 | what reads to its end tag with all names found and one root is accepted, and on a walk without wrapped sizes nothing else is, and the walk ends |
| `FdtCheck.ReadIsStraight` | unikraft-work/unikraft/lib/fdt/fdt.c:195-211 | a block that can be read to its end has no wrapped size on the walk |
| `FdtWrap.AcceptedExactly` | unikraft-work/unikraft/lib/fdt/fdt_check.c:38-92 | the check ends with the right answer if and only if it refuses the block or the walk meets no wrapped size |
| `FdtWrap.SampleVerdict` | unikraft-work/unikraft/lib/fdt/fdt_check.c:38-92 | for every length from 2^32 - 12 on, what the check makes of a root with one property of that length: it never ends at 2^32 - 12 and accepts from 2^32 - 7 to 2^32 - 4, although none of them can be read |
| `FdtWrap.StraightWalks` | unikraft-work/unikraft/lib/fdt/fdt.c:195-211 | in a block without wrapped sizes on the way no walk over nodes, children or properties ends with ASTRAY |
| `FdtWrap.StraightExactly` | unikraft-work/unikraft/lib/fdt/fdt.c:243-281 | the walk over all nodes ends with ASTRAY exactly if it meets a wrapped size |
| `FdtWriter.SaidGrown` | unikraft-work/unikraft/lib/fdt/fdt_sw.c:250-265 | adding a string below the others changes no name written so far |
| `FdtWriter.GrabSpace` | unikraft-work/unikraft/lib/fdt/fdt_sw.c:94-107 | space is given exactly if it does not run into the strings |
| `FdtWriter.Put` | unikraft-work/unikraft/lib/fdt/fdt_sw.c:94-107 | bytes appended to the structure block leave it, the strings and what is in front as they were |
| `FdtWriter.BeginNode` | unikraft-work/unikraft/lib/fdt/fdt_sw.c:219-234 | what has been written grows by the node's opening, or nothing changes; fails exactly without room or in another state |
| `FdtWriter.EndNode` | unikraft-work/unikraft/lib/fdt/fdt_sw.c:236-248 | what has been written grows by a closing, or nothing changes |
| `FdtWriter.FindString` | unikraft-work/unikraft/lib/fdt/fdt.c:311-321 | the first place where the name stands, terminated, or that there is none |
| `FdtWriter.StandsIsRead` | unikraft-work/unikraft/lib/fdt/fdt.c:311-321 | a place found, even inside a longer name, reads as the name |
| `FdtWriter.RoomTest` | unikraft-work/unikraft/lib/fdt/fdt_sw.c:252-261 | the test in 32-bit arithmetic finds room exactly if there is some, and is passed wrongly exactly by names longer than the rest of the buffer |
| `FdtWriter.AddString` | unikraft-work/unikraft/lib/fdt/fdt_sw.c:250-265 | the name is put below the others exactly if it does not run into the structure block; it goes below the buffer exactly if it is longer than the buffer less the strings |
| `FdtWriter.DelLastString` | unikraft-work/unikraft/lib/fdt/fdt_sw.c:268-274 | the last added name is gone and nothing else |
| `FdtWriter.FindAddString` | unikraft-work/unikraft/lib/fdt/fdt_sw.c:276-291 | a name that stands in the table is reused, another one added, with the same outcomes |
| `FdtWriter.AddName` | unikraft-work/unikraft/lib/fdt/fdt_sw.c:301-309 | the name can be read at the offset returned, what was written means the same, and the table grows exactly if names are not to be shared or the name stands nowhere in it |
| `FdtWriter.PlaceProperty` | unikraft-work/unikraft/lib/fdt/fdt_sw.c:311-322 | the property is appended with its name by negative offset |
| `FdtWriter.PutProperty` | unikraft-work/unikraft/lib/fdt/fdt_sw.c:293-335 | what has been written grows by the property; without room a newly added name is rolled back and nothing changes; the exact conditions of success and of an overrun |
| `FdtFinish.Patched` | unikraft-work/unikraft/lib/fdt/fdt_sw.c:367-369 | another name offset in a property changes nothing else of it |
| `FdtFinish.CorrectingStep` | unikraft-work/unikraft/lib/fdt/fdt_sw.c:361-372 | correcting one token keeps the front corrected and the rest as written |
| `FdtFinish.CorrectOne` | unikraft-work/unikraft/lib/fdt/fdt_sw.c:362-370 | the word of the name offset is replaced in place |
| `FdtFinish.Renumber` | unikraft-work/unikraft/lib/fdt/fdt_sw.c:360-374 | every property's name offset has the size of the strings added, in 32-bit arithmetic; the walk reaches the end tag |
| `FdtFinish.MoveStrings` | unikraft-work/unikraft/lib/fdt/fdt_sw.c:353-357 | the strings stand behind the structure block, which they did not overwrite |
| `FdtFinish.FinishBlob` | unikraft-work/unikraft/lib/fdt/fdt_sw.c:337-384 | the finished blob has a good header and reads as exactly what was written |
| `FdtRun.Create` | unikraft-work/unikraft/lib/fdt/fdt_sw.c:109-146 | an empty blob in the reserving state with its reservations at offset 48, for every buffer of 48 bytes and good flags; otherwise the error |
| `FdtRun.ReservedIs` | unikraft-work/unikraft/lib/fdt/fdt_ro.c:189-199 | a block of entries that ends with an empty one reads as its entries before the first empty one |
| `FdtRun.AddReserveEntry` | unikraft-work/unikraft/lib/fdt/fdt_sw.c:188-206 | appends an entry whose address and size, as a reader takes them from its bytes, are those given, or changes nothing |
| `FdtRun.FinishReserve` | unikraft-work/unikraft/lib/fdt/fdt_sw.c:208-217 | ends the block; it reads as the entries before the first of size zero |
| `FdtRun.EffectiveStated` | unikraft-work/unikraft/lib/fdt/fdt_ro.c:160-199 | a reader gets exactly the reservations before the first of size 0, address and size each |
| `FdtRun.SoundIsWellNested` | unikraft-work/unikraft/lib/fdt/fdt_check.c:38-92 | what was written without padding is sound exactly if the calls were well nested |
| `FdtRun.WriteEvent` | unikraft-work/unikraft/lib/fdt/fdt_sw.c:219-335 | one call of a run: what has been written grows by the event, the string table as dedup says; success and overrun exactly by the room needed |
| `FdtRun.WriteRun` | unikraft-work/unikraft/lib/fdt/fdt_sw.c:219-384 | a run of calls and the finish succeed exactly if the run fits, and then read back as the run; it overruns the buffer exactly if it gets to a name longer than the buffer less the strings in it |
| `FdtRun.RunStops` | unikraft-work/unikraft/lib/fdt/fdt_sw.c:250-265 | the first call without room decides whether the run fails or overruns |
| `FdtRun.ShortNamesStay` | unikraft-work/unikraft/lib/fdt/fdt_sw.c:250-265 | a run whose names are no longer than what precedes the structure block never overruns |
| `FdtRun.LongNameOverruns` | unikraft-work/unikraft/lib/fdt/fdt_sw.c:250-265 | every name that does not fit into the buffer does, as the first property |
| `FdtRun.Build` | unikraft-work/unikraft/lib/fdt/fdt_sw.c:109-384 | every whole run returns 0 if and only if header, reservations, structure block and shared strings fit into the buffer, and then reads back node by node and property by property, and reservation by reservation with its address and its size; it overruns exactly as stated; the full check accepts it if and only if the run was well nested |
| `FdtSplice.RwProbe` | unikraft-work/unikraft/lib/fdt/fdt_rw.c:25-40 | a finished blob let through has its blocks in order |
| `FdtSplice.Splice` | unikraft-work/unikraft/lib/fdt/fdt_rw.c:54-68 | everything behind the place moves by the difference, exactly if it fits |
| `FdtSplice.SpliceStruct` | unikraft-work/unikraft/lib/fdt/fdt_rw.c:83-95 | the structure block has the piece replaced, the strings and what is in front as they were |
| `FdtProps.NextProp` | unikraft-work/unikraft/lib/fdt/fdt_ro.c:201-223 | the first property before any other kind of tag, or the error; ASTRAY if a size wraps around |
| `FdtProps.StringEq` | unikraft-work/unikraft/lib/fdt/fdt_ro.c:105-112 | compares the whole name |
| `FdtProps.GetProperty` | unikraft-work/unikraft/lib/fdt/fdt_ro.c:394-422 | the first property of the node with the name, or why there is none; ASTRAY if a size wraps around on the way |
| `FdtProps.PropEvents` | unikraft-work/unikraft/lib/fdt/fdt_ro.c:394-422 | what the search finds in the bytes is the first entry of that name among the node's leading entries |
| `FdtProps.FirstEntry` | unikraft-work/unikraft/lib/fdt/fdt_ro.c:394-422 | what is found is the first entry of the name, with nothing but entries in front of it |
| `FdtEdit.PieceReplaced` | unikraft-work/unikraft/lib/fdt/fdt_rw.c:54-116 | replacing a piece of the block and appending strings replaces its part of the meaning and nothing else |
| `FdtEdit.LookupSet` | unikraft-work/unikraft/lib/fdt/fdt_rw.c:276-289 | after a set, the property reads as the new value and every other one of the node as before |
| `FdtEdit.LookupCut` | unikraft-work/unikraft/lib/fdt/fdt_rw.c:318-332 | after a removal other properties read as before, and the name as its next occurrence, or not at all |
| `FdtKeep.NestedAfter` | unikraft-work/unikraft/lib/fdt/fdt_check.c:38-92 | the checker on two runs in a row is the checker on the second from where the first left it |
| `FdtKeep.NestedInner` | unikraft-work/unikraft/lib/fdt/fdt_check.c:48-74 | an inner stretch up to a close makes no difference to the checker but for the depth |
| `FdtKeep.NestedNode` | unikraft-work/unikraft/lib/fdt/fdt_check.c:48-74 | a whole node makes no difference to the checker |
| `FdtKeep.RootOpened` | unikraft-work/unikraft/lib/fdt/fdt_check.c:48-60 | once a node has been opened, the checker is at depth 0 only when the root has been closed |
| `FdtKeep.SoundPlain` | unikraft-work/unikraft/lib/fdt/fdt_rw.c:54-116 | replacing properties and padding by others keeps a blob that the full check accepts acceptable |
| `FdtKeep.SoundWithout` | unikraft-work/unikraft/lib/fdt/fdt_rw.c:382-394 | taking out a node below the root, or padding over it, keeps a blob that the full check accepts acceptable |
| `FdtEditOps.PropertyDropped` | unikraft-work/unikraft/lib/fdt/fdt_rw.c:318-331 | dropping a property from the bytes, with or without padding in its place, drops that entry and nothing else |
| `FdtEditOps.NodeDropped` | unikraft-work/unikraft/lib/fdt/fdt_rw.c:382-394 | dropping a node from the bytes, with or without padding in its place, drops its events up to the matching close and nothing else |
| `FdtEditOps.DelProp` | unikraft-work/unikraft/lib/fdt/fdt_rw.c:318-331 | the tree without that property, or nothing changed and why; a blob the full check accepts stays one; reservations read as before |
| `FdtEditOps.NopRegion` | unikraft-work/unikraft/lib/fdt/fdt_wip.c:51-57 | the stretch, rounded up to words, becomes padding |
| `FdtEditOps.NopProp` | unikraft-work/unikraft/lib/fdt/fdt_wip.c:59-71 | the same tree as deleting the property gives; a blob the full check accepts stays one; reservations read as before |
| `FdtEditOps.DelNode` | unikraft-work/unikraft/lib/fdt/fdt_rw.c:382-394 | the tree without that node, exactly if the node is closed; below the root, a blob the full check accepts stays one; reservations read as before |
| `FdtEditOps.NopNode` | unikraft-work/unikraft/lib/fdt/fdt_wip.c:83-94 | the same tree as deleting the node gives; below the root, a blob the full check accepts stays one; reservations read as before |
| `FdtEditOps.FrontReserved` | unikraft-work/unikraft/lib/fdt/fdt_ro.c:189-199 | what leaves the front of the blob alone leaves its reservations as they read |
| `FdtSet.SlotFilled` | unikraft-work/unikraft/lib/fdt/fdt_rw.c:286-288 | writing the value completes the property, whatever its padding |
| `FdtSet.ResizeProperty` | unikraft-work/unikraft/lib/fdt/fdt_rw.c:184-200 | room for the new length in place of the old value, exactly if it fits; otherwise nothing changes |
| `FdtSet.AppendString` | unikraft-work/unikraft/lib/fdt/fdt_rw.c:105-116 | the name stands at the end of the strings, exactly if it fits |
| `FdtSet.FindAppendString` | unikraft-work/unikraft/lib/fdt/fdt_rw.c:127-153 | the name reads at the offset returned; it is appended exactly if it stood nowhere |
| `FdtSet.InsertProperty` | unikraft-work/unikraft/lib/fdt/fdt_rw.c:218-232 | room for a property with its header written, exactly if it fits |
| `FdtSet.AddNamed` | unikraft-work/unikraft/lib/fdt/fdt_rw.c:214-232 | a failed addition leaves tree, strings and all sizes as they were |
| `FdtSet.AddProperty` | unikraft-work/unikraft/lib/fdt/fdt_rw.c:202-233 | the property goes right behind the node's name |
| `FdtSet.Placeholder` | unikraft-work/unikraft/lib/fdt/fdt_rw.c:258-274 | room for the value, such that writing it completes the edit |
| `FdtSet.SetProp` | unikraft-work/unikraft/lib/fdt/fdt_rw.c:276-289 | success, exactly if there is room: the property has the new value, everything else, reservations included, reads as before, the bytes in front of it stay, and a blob the full check accepts stays one; failure: tree and string table unchanged |
| `FdtSet.GetProp` | unikraft-work/unikraft/lib/fdt/fdt_ro.c:451-467 | reads the value of the node's first entry of that name |
| `FdtTree.GetName` | unikraft-work/unikraft/lib/fdt/fdt_ro.c:300-336 | the length of the node's name |
| `FdtTree.NodeNameEq` | unikraft-work/unikraft/lib/fdt/fdt_ro.c:13-32 | the name itself, or the name and a unit address if none was given |
| `FdtTree.MatchesExactly` | unikraft-work/unikraft/lib/fdt/fdt_ro.c:13-32 | a node answers to its name, and to its name without the unit address if what is given has no @ |
| `FdtTree.SubReaches` | unikraft-work/unikraft/lib/fdt/fdt_ro.c:225-242 | the search stops at a child that fits unless an earlier child does, and then at an earlier one |
| `FdtTree.SubIsInside` | unikraft-work/unikraft/lib/fdt/fdt_ro.c:225-242 | what is found is a direct child |
| `FdtTree.SubnodeOffset` | unikraft-work/unikraft/lib/fdt/fdt_ro.c:225-242 | the first child that fits, or the error; ASTRAY if a size wraps around on the way |
| `FdtPath.LineStep` | unikraft-work/unikraft/lib/fdt/fdt_ro.c:553-555 | each step of the walk leads to a node whose ancestors are a front of the line before, and not past a node still ahead |
| `FdtPath.PopName` | unikraft-work/unikraft/lib/fdt/fdt_ro.c:556-561 | going back to the last slash removes exactly the last name |
| `FdtPath.Visit` | unikraft-work/unikraft/lib/fdt/fdt_ro.c:556-573 | the buffer holds the names on the line that fit, and one more would not |
| `FdtPath.GetPath` | unikraft-work/unikraft/lib/fdt/fdt_ro.c:542-592 | for every node of the tree: its path, or no space exactly if it does not fit |
| `FdtLookup.PathOffset` | unikraft-work/unikraft/lib/fdt/fdt_ro.c:250-293 | goes down by the components between slashes |
| `FdtLookup.ResolveTail` | unikraft-work/unikraft/lib/fdt/fdt_ro.c:273-290 | the text of a path is split back into its names, empty ones skipped |
| `FdtLookup.PathSplits` | unikraft-work/unikraft/lib/fdt/fdt_ro.c:273-290 | every absolute path is such a text, with repeated and trailing slashes as empty names |
| `FdtLookup.PathTextIs` | unikraft-work/unikraft/lib/fdt/fdt_ro.c:563-583 | the path written for a node is a slash and each name below the root, or the slash alone |
| `FdtLookup.OwnName` | unikraft-work/unikraft/lib/fdt/fdt_ro.c:225-242 | looking a child up by its own name finds it exactly if no earlier sibling answers to it |
| `FdtLookup.DescendLine` | unikraft-work/unikraft/lib/fdt/fdt_ro.c:273-290 | going down by the names of a line ends at its node exactly if every step is clear |
| `FdtLookup.DescendShort` | unikraft-work/unikraft/lib/fdt/fdt_ro.c:273-290 | a descent by fewer names than there are nodes on the way does not get to the node |
| `FdtLookup.PathLeadsBack` | unikraft-work/unikraft/lib/fdt/fdt_ro.c:250-293 | for names without slash: the path of a node leads back to it if and only if every node on the way has a name and no earlier sibling that answers to it |
| `FdtLookup.DistinctIsClear` | unikraft-work/unikraft/lib/fdt/fdt_ro.c:13-32 | distinct sibling names, and none with a unit address before the bare one, make a step clear |
| `FdtRoundTrip.ThereAndBack` | unikraft-work/unikraft/lib/fdt/fdt_ro.c:250-592 | the path of a node, written and followed: back at the node exactly if every node on the way has a name and no earlier sibling that answers to it, and so in every block with distinct names |
| `FdtRoundTrip.UnitAddressShadows` | unikraft-work/unikraft/lib/fdt/fdt_ro.c:13-32 | a block with x@1 before x, where the path of x leads to x@1 |
| `FdtRoundTrip.NamelessIsLost` | unikraft-work/unikraft/lib/fdt/fdt_ro.c:273-280 | a block with a nameless node, whose path leads to the root |
| `FdtForest.ForestEnd` | unikraft-work/unikraft/lib/fdt/fdt.c:283-309 | the children of a node end where the node is closed |
| `FdtForest.ForestStep` | unikraft-work/unikraft/lib/fdt/fdt.c:294-309 | the children are the first one and those behind its end, for the walk and for the search by name |
| `FdtForest.KidHere` | unikraft-work/unikraft/lib/fdt/fdt.c:294-309 | from a child the walk goes to the next one, behind its end, or says there is none |
| `FdtForest.FindKidHere` | unikraft-work/unikraft/lib/fdt/fdt_ro.c:225-242 | the search for a child by name is a search among the children of the tree |
| `FdtForest.FindPropHere` | unikraft-work/unikraft/lib/fdt/fdt_ro.c:388-420 | the search for a property is a search among the properties of the tree |
| `FdtForest.PropsAt` | unikraft-work/unikraft/lib/fdt/fdt_ro.c:338-360 | the properties of a node are tags in order, before its first child, and the walk over them goes from one to the next |
| `FdtTwin.TwinForest` | unikraft-work/unikraft/lib/fdt/fdt.c:165-217 | blocks with the same tags have the same children, with the same offsets |
| `FdtTwin.TwinHere` | unikraft-work/unikraft/lib/fdt/fdt.c:165-217 | and the same nodes |
| `FdtTwin.ValueWritten` | unikraft-work/unikraft/lib/fdt/fdt_wip.c:29-30 | overwriting a part of a value leaves all tags, and the values of all other properties |
| `FdtTwin.SlotEvent` | unikraft-work/unikraft/lib/fdt/fdt_ro.c:469-506 | the value of a property tag is the value of one entry that a reader sees |
| `FdtTwin.EventWritten` | unikraft-work/unikraft/lib/fdt/fdt_wip.c:29-30 | and what a reader sees changes in that entry and nowhere else |
| `FdtInplace.SetInplacePartial` | unikraft-work/unikraft/lib/fdt/fdt_wip.c:14-31 | overwrites that part of the value and nothing else a reader sees; fails exactly if the property is missing or too short, and writes out of bounds exactly if offset and length wrap around in 32 bits to something that fits |
| `FdtInplace.LastOffsetOverruns` | unikraft-work/unikraft/lib/fdt/fdt_wip.c:26-27 | an offset of 0xfffffffd does, for four bytes and every value that has one |
| `FdtInplace.NoOverrun` | unikraft-work/unikraft/lib/fdt/fdt_wip.c:26-27 | offsets whose sum with the length stays below 2^32 never do |
| `FdtInplace.SetInplace` | unikraft-work/unikraft/lib/fdt/fdt_wip.c:33-49 | overwrites the whole value exactly if the length is the same |
| `FdtInplace.FirstSubnode` | unikraft-work/unikraft/lib/fdt/fdt.c:283-292 | the first child, or none; ASTRAY if a size wraps around on the way |
| `FdtInplace.NextSubnode` | unikraft-work/unikraft/lib/fdt/fdt.c:294-309 | the next child, or none; ASTRAY if a size wraps around on the way |
| `FdtInplace.NextPropertyOffset` | unikraft-work/unikraft/lib/fdt/fdt_ro.c:348-355 | the next property of the node, or the error; ASTRAY if a size wraps around |
| `FdtOverlay.SlotsHere` | unikraft-work/unikraft/lib/fdt/fdt.c:165-217 | the properties of a tree are different tags within the bytes of its node |
| `FdtOverlay.AddAllOutside` | unikraft-work/unikraft/lib/fdt/fdt_overlay.c:205-291 | updating references leaves all other properties alone |
| `FdtAdjust.AddOffset` | unikraft-work/unikraft/lib/fdt/fdt_overlay.c:101-124 | adds delta to a phandle in place exactly if it is one word and stays below 0xffffffff; all tags and other values stay |
| `FdtAdjust.AdjustNode` | unikraft-work/unikraft/lib/fdt/fdt_overlay.c:141-162 | moves up every phandle below a node and nothing else, in the blob being walked; fails exactly if one of them cannot move |
| `FdtAdjust.AddToNumber` | unikraft-work/unikraft/lib/fdt/fdt_overlay.c:239-267 | adds delta to one number of a value, with the outcomes of the partial overwrite |
| `FdtAdjust.UpdateProp` | unikraft-work/unikraft/lib/fdt/fdt_overlay.c:214-268 | adds delta at each listed offset in turn, FdtFixups saying which these are in the bytes; succeeds exactly if the list is well formed, its property there and every offset in range; otherwise the error, or the overrun, that the first bad offset leads to |
| `FdtAdjust.UpdateNode` | unikraft-work/unikraft/lib/fdt/fdt_overlay.c:205-291 | the same for a node and everything below it: success exactly as stated, and otherwise what the first failure in the order of the walk leads to |
| `FdtAdjust.Coded` | unikraft-work/unikraft/lib/fdt/fdt_overlay.c:205-291 | there is no first failure exactly if the fixups list references that are all in range |
| `FdtRooted.NextAny` | unikraft-work/unikraft/lib/fdt/fdt.c:243-281 | the next node at any depth, or the error; ASTRAY if a size wraps around on the way |
| `FdtRooted.GetPhandle` | unikraft-work/unikraft/lib/fdt/fdt_ro.c:508-523 | the phandle of a node, 0 if it has none; ASTRAY if a size wraps around on the way |
| `FdtRooted.PhandleSeen` | unikraft-work/unikraft/lib/fdt/fdt_ro.c:508-523 | the phandle by the events: the property phandle if it has four bytes, else linux,phandle if that has, else 0 |
| `FdtRooted.MaxPhandle` | unikraft-work/unikraft/lib/fdt/fdt_ro.c:114-140 | for every finished blob: the largest phandle of all nodes, attained unless 0, or the error the walk ends with, or ASTRAY exactly if it meets a wrapped size |
| `FdtRooted.NodeOffsetByPhandle` | unikraft-work/unikraft/lib/fdt/fdt_ro.c:681-703 | the first node with a phandle, or the error; ASTRAY if a size wraps around before it |
| `FdtRooted.TreeTold` | unikraft-work/unikraft/lib/fdt/fdt.c:243-281 | the walk over all nodes comes by the nodes of a tree in order |
| `FdtRooted.SoundIsRooted` | unikraft-work/unikraft/lib/fdt/fdt_check.c:38-92 | a block that the full check accepts, with the root as its first tag, is one tree up to the end tag |
| `FdtPhandle.AddAllAlone` | unikraft-work/unikraft/lib/fdt/fdt_overlay.c:239-267 | a reference listed once, overlapping no other, grows by delta once |
| `FdtPhandle.PhandleMoved` | unikraft-work/unikraft/lib/fdt/fdt_overlay.c:141-162 | every node's phandle has moved up by delta, and no node has gained one |
| `FdtPhandle.PhandleHere` | unikraft-work/unikraft/lib/fdt/fdt_ro.c:508-523 | the phandle in the bytes is the phandle in the tree |
| `FdtPhandle.NoClash` | unikraft-work/unikraft/lib/fdt/fdt_overlay.c:815-833 | in the renumbered bytes every phandle of the overlay that was not 0 is the old one plus delta, below 0xffffffff and none of the base's |
| `FdtPhandle.ClashExactly` | unikraft-work/unikraft/lib/fdt/fdt_overlay.c:101-124 | a node with a phandle property ends up with a phandle of the base if and only if that property was 0 and the base has a node, since it then becomes the largest one |
| `FdtPhandle.SameNode` | unikraft-work/unikraft/lib/fdt/fdt_overlay.c:815-833 | looking a phandle up after the move finds the node it found before |
| `FdtPhandle.NumberBytes` | unikraft-work/unikraft/lib/fdt/fdt_overlay.c:245-251 | the number at a reference is the big-endian word at that place of the bytes |
| `FdtPhandle.RefStillLeads` | unikraft-work/unikraft/lib/fdt/fdt_overlay.c:205-328 | a reference to an overlay node that is listed once still leads to that node: the new number, looked up in the new bytes, gives the offset that the old one gave in the old |
| `FdtFixups.MatchedByPath` | unikraft-work/unikraft/lib/fdt/fdt_overlay.c:272-288 | the tree node that goes with a fixup node is the one that a search for the names on the way ends at |
| `FdtFixups.ListedExactly` | unikraft-work/unikraft/lib/fdt/fdt_overlay.c:205-291 | the references listed are, one by one and with nothing missing or added, those that the bytes of the fixups give: for every number of every fixup property, the property of that name in the tree node of that path, and that number as the offset |
| `FdtFixups.ListsBytes` | unikraft-work/unikraft/lib/fdt/fdt_overlay.c:239-251 | the j-th number of the property at q is the big-endian word at q + 12 + 4 j, for every j below a quarter of the word at q + 4 |
| `FdtFixups.FitsExactly` | unikraft-work/unikraft/lib/fdt/fdt_overlay.c:205-291 | references are listed if and only if every fixup node has a tree node, every fixup property a namesake and a length in whole words, and every offset four bytes of its value |
| `FdtRenumber.TwinEvents` | unikraft-work/unikraft/lib/fdt/fdt_overlay.c:141-291 | blocks with the same tags read the same but for values of the same length |
| `FdtRenumber.ListedBefore` | unikraft-work/unikraft/lib/fdt/fdt_overlay.c:306-328 | without a phandle among the fixups, they list what they listed before the phandles moved |
| `FdtRenumber.ListedIs` | unikraft-work/unikraft/lib/fdt/fdt_overlay.c:306-328 | without fixups nothing is listed, and otherwise what their bytes say, or nothing exactly if one of them does not fit |
| `FdtRenumber.WordStillLeads` | unikraft-work/unikraft/lib/fdt/fdt_overlay.c:205-328 | a word of the overlay that exactly one number of the fixups lists, by the bytes, and that is the phandle of a node, is greater by delta afterwards and leads to the same node |
| `FdtRenumber.NamesSpelled` | unikraft-work/unikraft/lib/fdt/fdt_overlay.c:306-328 | the properties and the node that all this goes by, spelled out |
| `FdtRenumber.Renumber` | unikraft-work/unikraft/lib/fdt/fdt_overlay.c:823-833 | delta is the largest base phandle; succeeds exactly if every phandle can move and every fixup fits, and then phandles and references have moved as stated, the references being those that the bytes of the fixups list once the phandles have moved; once all phandles can move, the result is what the first bad fixup leads to; strings, reservations and everything a reader sees but these values stay |
| `FdtRenumber.ListedCoded` | unikraft-work/unikraft/lib/fdt/fdt_overlay.c:306-328 | no fixup is bad exactly if references are listed |
| `FdtSubnode.SubEvents` | unikraft-work/unikraft/lib/fdt/fdt_ro.c:225-242 | what the search for a child finds in the bytes is the first child that fits among the events of the node |
| `FdtSubnode.AfterEvents` | unikraft-work/unikraft/lib/fdt/fdt_rw.c:352-358 | the walk over properties and padding ends behind the node's leading entries |
| `FdtSubnode.StillThere` | unikraft-work/unikraft/lib/fdt/fdt_overlay.c:547-584 | a node whose name lies in front of all changes keeps its offset and its place among the events |
| `FdtSubnode.AddSubnode` | unikraft-work/unikraft/lib/fdt/fdt_rw.c:333-380 | an empty child right behind the node's properties, exactly if none fits the name and there is room; everything else reads as before, and a blob the full check accepts stays one |
| `FdtMerge.FlatAppend` | unikraft-work/unikraft/lib/fdt/fdt_overlay.c:542-587 | the events of items in a row are those of one and then of the others |
| `FdtMerge.SetFlat` | unikraft-work/unikraft/lib/fdt/fdt_rw.c:276-289 | setting a property among the events is setting it in the tree: in place, or else as the first item |
| `FdtMerge.SubFlat` | unikraft-work/unikraft/lib/fdt/fdt_ro.c:225-242 | searching for a child among the events is searching for it among the items |
| `FdtMerge.CutFramed` | unikraft-work/unikraft/lib/fdt/fdt_rw.c:382-395 | removing a node removes it with all it holds and leaves everything else |
| `FdtMerge.Parsed` | unikraft-work/unikraft/lib/fdt/fdt_wip.c:73-81 | the events of a node that is closed are those of a tree |
| `FdtMerge.MergedSettings` | unikraft-work/unikraft/lib/fdt/fdt_overlay.c:547-564 | a property of the merged node is the last one of that name that the overlay has, or else the one that was there |
| `FdtMerge.MergedOthers` | unikraft-work/unikraft/lib/fdt/fdt_overlay.c:566-584 | the children that no child of the overlay fits stay as they are, in their order, and no others come in |
| `FdtMerge.MergedFound` | unikraft-work/unikraft/lib/fdt/fdt_overlay.c:571-576 | every child of the overlay can be found under its name |
| `FdtMerge.OldKidFound` | unikraft-work/unikraft/lib/fdt/fdt_overlay.c:572-576 | merging into a child that is there leaves it to every name which child it leads to |
| `FdtMerge.NewKidFound` | unikraft-work/unikraft/lib/fdt/fdt_overlay.c:571-571 | a name that led to a child leads to the same one after another has been added if and only if the new one does not fit it; names without a unit address can be taken over |
| `FdtMergeReads.LookupItems` | unikraft-work/unikraft/lib/fdt/fdt_ro.c:394-422 | reading a property among the events is reading it in the tree, for the first and for the last one of a name |
| `FdtMergeReads.MergedLookup` | unikraft-work/unikraft/lib/fdt/fdt_overlay.c:547-564 | in terms of the events of both trees: after a merge a property of the node reads as the last one of that name in the overlay's node, or else as before |
| `FdtMergeReads.LastIsFirst` | unikraft-work/unikraft/lib/fdt/fdt_overlay.c:547-564 | a name that occurs once has the same first and last value |
| `FdtMergeReads.ChildMerged` | unikraft-work/unikraft/lib/fdt/fdt_overlay.c:566-584 | where no name of a child of the overlay fits that of another, the child that each goes into holds the merge of the two |
| `FdtMergeReads.MergedReads` | unikraft-work/unikraft/lib/fdt/fdt_overlay.c:542-587 | and so at every depth: at every place of the overlay every property reads as the overlay has it last, or else as before |
| `FdtApply.ApplyProps` | unikraft-work/unikraft/lib/fdt/fdt_overlay.c:547-564 | all properties of the overlay's node are set in order, with the values that HeldIsNormal finds in its events |
| `FdtApply.ApplyKid` | unikraft-work/unikraft/lib/fdt/fdt_overlay.c:566-584 | the child that fits, or a new one, has been merged with the overlay's child as HeldIsNormal finds it in the events |
| `FdtApply.ApplyNode` | unikraft-work/unikraft/lib/fdt/fdt_overlay.c:542-587 | success: every property read from the node is the overlay's last one of that name, or else as before; the node reads as the merge of the two trees and everything around it as before; lack of room is the only failure, and even then everything around the node and all names in front of it read as before; a blob the full check accepts stays one |
| `FdtApply.EveryNodeHolds` | unikraft-work/unikraft/lib/fdt/fdt_wip.c:73-81 | every closed node of a readable block has such a tree, with the events before and behind it |
| `FdtApply.HeldIsNormal` | unikraft-work/unikraft/lib/fdt/fdt_overlay.c:547-584 | what is merged in is what the events of the overlay say the node holds, without the properties that stand behind a child, which no reader finds either |
| `FdtApply.HeldReads` | unikraft-work/unikraft/lib/fdt/fdt_overlay.c:547-564 | every property has there the value that a reader of the overlay gets |
| `FdtApply.HeldExactly` | unikraft-work/unikraft/lib/fdt/fdt_overlay.c:547-584 | where properties come before children, it is all the node holds |

## Left out

- AddressSpace.AddressSpace.AllocVpage: a request for any address that finds no room is refused or starts over at address 0 with no end in sight; which of the two is told by an outcome of its own, but not when each comes about. For such a request the space is at most a quarter of all addresses.
- AddressSpace.AddressSpace.AllocMap: requests longer than the span of the address space are not modelled; addresses that wrap to the same translation are the same address. A request for any address has no more physical pages than virtual ones, since nothing is known about what lies behind the range it gets.
- AddressSpace.AddressSpace.Map: what the bits of the attribute flags mean is not modelled; the range's partly covered blocks must be tables already, which mem_alloc_vpage guarantees. Physical pages beyond the range need page-level tables there; without them the source writes through entries that are no tables.
- PageTableModel.DescriptorsValid: a descriptor changed at start-up for a smaller physical address range is covered only if it satisfies the same conditions.
- Allocation of table pages does not fail in the model; in the source a failure stops the machine.
- PagePool.Pool.constructor: the number of pages is a multiple of 32 and one word behind the bitmap is readable, which the word-wise search needs.
- StreamMatch.StreamTable.Add: a table without a free entry is an outcome of its own; the source's test for it compares an unsigned number with zero. The group flag of a dropped entry stays set, as in the source.
- Barrier.RunInv: arrivals stop before the counter would leave the range of int.
- cpu_sync_and_clear_msgs, which counts arrivals in two steps, is not part of this model.
- CommandQueue.Fifo: registers, fences and the device's own behaviour are steps of the model; the contents of a command are opaque words.
- Getopt.ScanAll: only the permuting mode is modelled; returning non-options in order and stopping at the first one are not. Parsing of option names and arguments is the oracle's. Two further returns of -1 leave the arguments as they are: a missing option string, and a dash at the end of a group of letters that is not an option.
- Qsort.QSort: elements are values of a type; the byte-wise swaps and the choice of swap type are not modelled, and neither is the truncation of block sizes from 2^31 bytes on, which the source keeps in an int.
- IntegerText.StrToLL: errno is not modelled; long and long long are both 64 bits wide.
- All of libfdt is version 17 with every check enabled; earlier versions, realignment and the 8-byte alignment of the buffer are not modelled. Sizes and offsets are exact unless stated otherwise; a walk that meets a property whose size wraps around stops with ASTRAY in the model, except in the full check, where it goes on as in the source.
- FdtCheck.CheckFull: that 0 means a sound blob is promised only for walks that meet no wrapped size, since it is false for the others. A total size of exactly 2^31 - 1 is excluded, where the header check and the other probes disagree.
- FdtWriter.PutProperty: what happens after a name has been written below the buffer is not modelled; names and values are shorter than 2^31 - 1 bytes.
- FdtSet.SetProp: the node offset must be that of a node, not of bytes inside a property's value that look like one; the source cannot tell. The same holds for deleting and blanking out. An unfinished blob with a structure block and no strings, which the probe lets through, is excluded.
- FdtLookup.PathOffset: absolute paths only; aliases are not modelled.
- FdtPath.GetPath: the node must be one of the tree whose root is the first tag; offsets behind the root are excluded, and so are names with a slash, at which the source goes back too far.
- FdtRenumber.Renumber: the overlay is one tree whose root is the first tag, which holds for an accepted blob without padding or properties in front of the root, and no fixup is about the fixups themselves, which would change while they are read. A number is read only once its offset is known to be in range; the source reads first and then tests. What happens after a write out of bounds is not modelled, and after another error only that tags, strings and reservations are as they were.
- FdtApply.ApplyNode: base and overlay are different blobs, both readable, and both nodes closed. How much room a merge takes is not stated as one sum.
- FdtMergeReads.MergedReads: what can be read below the node itself is stated for overlays in which no child's name fits that of a sibling; otherwise two children of the overlay may go into the same child.
- fdt_resize, fdt_open_into, fdt_pack, fdt_set_name, fdt_appendprop, fixups by symbol and the loop over the fragments of an overlay: they reuse the splices, walks and merges proved here and would add similar members.
- mem_unmap and mem_free_ppages: the free path takes the pool's lock twice and the walk does not reset its level, so no clean contract fits.
- The interrupt controllers, the scheduler, vCPU management, the rest of nolibc and of Unikraft: thin layers over hardware or over code outside the repository's core.

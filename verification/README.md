# LumOS: a model of the kernel's memory manager, terminal and formatter

This project models the stateful algorithms of a small i386 kernel and proves what they keep over every run. Integers
are mathematical; where the C code works modulo 2^32 the reduction is written out (`Machine.Wrap`) or the bound that
rules it out is a precondition. Run all proofs with `dafny verify dfyconfig.toml`.

**Physical memory (`MemoryMap`, `Bitmap`, `Layout`, `Pool`, `PoolTheorems`, `Reach`, `OffHead`, `AnyFree`, `Boot`,
`Pmm`).** The memory manager walks the boot loader's memory map (Multiboot Specification 0.6.96, section 3.3), lays a
header and a packed bitmap per usable entry behind the kernel, withholds every block that touches the kernel or that
metadata, and then serves 4096-byte blocks. `Pmm` is the code: linked zone objects with arrays of words, changed in
place. `Pool` is the same as a machine over values (counters and the sets of bits that are set, padding included); every
method of `Pmm` is proved to be a step of it. `PoolTheorems` and `Reach` are about all runs of that machine from
initialisation on that free live blocks of the head zone, `OffHead` and `AnyFree` about runs that free any live blocks.
The main results:

- `Boot.LiveBlocksAreFreeMemory`: from the loader's map on, after any run, every live block is 4096 bytes of an entry of
  type 1, as its low words describe it, and none of them belongs to the kernel or to a zone's header or bitmap.
  Initialisation withholds exactly the blocks with such a byte and the one at address 0 (`Boot.WithholdsExactly`, which
  `InitPmm` establishes).
- No live block overlaps another, the kernel, or any zone header or bitmap; none is at address 0.
- In every zone the counter plus the live blocks is the length, for ever. The counter is therefore not the number of
  free blocks: it exceeds it by the blocks reserved at start-up, which neither reservation subtracts. The debug output
  calls it free blocks (lumos/arch/i386/pmm.c:311); the model follows the code and `CounterIsClearBlocksIff` says when
  the two agree.
- `Reach.ReachableIff` gives the blocks that runs can reach at all: the unreserved ones in sections before which no
  block is reserved. If the head zone has a reserved block, it therefore serves every request. When its blocks run out,
  allocation fails, although later zones may be untouched: that is the branch the source comments as never happening
  (lumos/arch/i386/pmm.c:201-205). `SomeRunFailsWithMemoryLeftIff` names the memory maps on which some run gets there.
- The search in `pmm_free` joins its two comparisons with `&&`, so no zone with start <= end is ever skipped and every
  free goes to the head zone. For a block of another zone it clears, in order of distance from the head's start, a
  padding bit of the head's bitmap, or a bit of some later zone's header or bitmap, or one behind all metadata. A
  padding bit need do no harm: with blocks at 0x1000 and 0x10000 it stands for 0x10000, which is then handed out again
  (`PaddingReachesSecondBlock`). A live block comes back exactly when it lies a whole number of blocks from the head's
  start and its bit is in the head's bitmap (`GivesBackIff`, `AnyFree.FreedComesBackIff`). If only the latter holds,
  some other address is handed out, such as 0x10000 for the block at 0x10800, where the map has no memory
  (`WrongBlockAfterFree`).
- A free behind the bitmap raises the head's counter and leaves its bits alone; `Layout.WriteHits` and
  `Layout.ClearsBitIff` say what it overwrites instead, with a section at 0x100000 perhaps the second zone's bitmap
  pointer. From then on the counter exceeds the clear bits for ever, whatever live blocks are freed and whatever has
  become of the other zones: no zone but the head serves a request again, and no block behind the bitmap comes back
  (`AnyFree.FarFreeIsFinal`).
- `OffHead.GivingRunRefines`: runs that free blocks of any zone which come back are runs that free head blocks only,
  seen with some bits of the head's padding cleared; so they are as safe. `AnyFree.NoBlockIsLostIff` names the memory
  maps on which no run, whatever live blocks it frees, loses a block, and `EveryRunIsSafe` says that on these maps the
  live blocks of all runs are safe.

**Terminal (`Page`, `Rows`, `Tty`).** `Page` is an infinitely tall page with a cursor that only moves down. The 80 by 25
buffer is proved to be a window of it for every stream whose writes land on the screen, across the lazy scroll after a
newline and the immediate one after a wrap. A tab moves the cursor by 4 without a bound; `TabsThenCharLandsIff` says,
for any number of tabs at any column, when the next character still lands on the screen. While the tabs fit, the
terminal is a line editor: `Rows.Type` says what a newline, a tab, a backspace and a printable character do to rows of
text, and `Rows.StreamShowsRows` and `Tty.Terminal.ScreenShowsRows` that page and screen hold exactly these rows.
Columns, indices and byte offsets are 32-bit, so 2^30 - 1 tabs lead round to the screen again (`TabsComeRound`). The
comment above `terminal_putchar` speaks of resetting the row to 0; the code scrolls, and so does the model.

**Formatter (`Itoa`, `Format`, `Printf`).** `Format.Meaning` gives a format's text character by character; what each
conversion contributes is said once more by its own letter and radix (`NumbersInText`, `TextsInText`, `UnknownInText`).
`printf` and `logf` emit it in pieces under the INT_MAX bound. The two C functions have the same loop body; here both
loops call one `TakePiece`, and both contracts are in terms of one `Format.Emit` and one `Format.ReturnValue`, so the
two agree on text and result. Output goes to the modelled terminal through `putchar`, and to the serial port as a
sequence of bytes, to which `Printf.Serial.Send` appends.

**Others.** `Memmove` (direction of copying under overlap), `Keyboard` (modifier bits over scancode runs, printing
through `printf` to the terminal; what every key prints, by scancode), `CeilPowTwo`. The shift table holds two percent
signs and no ampersand; the model keeps it so.

Preconditions of initialisation (`Pmm.Bootable`): the walk stays inside the map and no pointer wraps; there is a usable
section; usable sections hold at least one block, are apart and below 2^32; kernel and metadata fit below 2^32; and the
last bit written for an overlapping zone is inside its bitmap, which `Layout.ReservationFitsIff` turns into a condition
on the map. Terminal writes require that the written cell is on the screen (`Page.Lands`).

Lemmas switch Dafny's automatic induction off, so each inductive proof is the one written; `hide` keeps definitions out
of proofs that do not need them.

## Model

| member | source | states |
|---|---|---|
| Bitmap.SetBit | lumos/arch/i386/pmm.c:258-261 | bit `offset` of the packed map becomes set, every other bit of every word keeps its value |
| Bitmap.UnsetBit | lumos/arch/i386/pmm.c:279-282 | bit `offset` becomes clear, every other bit keeps its value |
| Bitmap.BitIsBinaryDigit | lumos/arch/i386/pmm.c:300-302 | masking with 1 shifted by k and comparing with 0 reads digit k of the word in base 2, got by halving |
| Bitmap.SetBits | lumos/arch/i386/pmm.c:263-277 | exactly the bits in [offsetStart, offsetEnd] become set, for aligned, unaligned, one-word and empty ranges |
| Bitmap.UnsetBits | lumos/arch/i386/pmm.c:284-298 | exactly the bits in [offsetStart, offsetEnd] become clear |
| Bitmap.WordIsFull | lumos/arch/i386/pmm.c:196-199 | comparing a word with 0xFFFFFFFF decides whether all its 32 blocks are in use |
| MemoryMap.WalkRoundTrip | lumos/arch/i386/pmm.c:53-61 | stepping by size + 4 recovers exactly the entries of any map laid out in memory, whatever bytes pad them |
| MemoryMap.EntryIsWhereLoaderPutsIt | lumos/include/lumos/pmm.h:17-25 | each field of an entry is the little-endian number in its four bytes: size, base low and high, length low and high, type |
| MemoryMap.SectionIffEntry | lumos/arch/i386/pmm.c:57-77 | a section with some base and length exists exactly when an entry of type 1 has these low words and its base is not a multiple of 4 GB other than 0 |
| MemoryMap.SectionsInOrder | lumos/arch/i386/pmm.c:54-94 | one section for each such entry, in the order of the map, and none for any other |
| MemoryMap.SectionLiesInEntryIff | lumos/arch/i386/pmm.c:57-77 | the high words are dropped: the section lies in the memory the entry describes exactly when its base is below 2^32, else they share no address; it is all of that memory exactly when the length is below 2^32 too |
| MemoryMap.HighMemoryBecomesLow | lumos/arch/i386/pmm.c:57-77 | an available page at 4 GB + 1 MB is not skipped and becomes a section at 1 MB |
| Pmm.FirstSection | lumos/arch/i386/pmm.c:54-61 | the entry under the pointer is the next section, or is of a type other than 1 or based at a multiple of 4 GB other than 0, and changes nothing |
| Layout.MetadataTiles | lumos/arch/i386/pmm.c:67-91 | headers and bitmaps tile the metadata range: each address of it in exactly one zone's metadata, none outside |
| Layout.OverlapTestIsShare | lumos/arch/i386/pmm.c:110-111 | the two-way comparison holds exactly when kernel range and zone have an address in common |
| Layout.ReservedBitsAreTouched | lumos/arch/i386/pmm.c:110-123 | the bits between start and end bit are exactly the blocks with a byte in the reserved range |
| Layout.BlocksAreWhole | lumos/arch/i386/pmm.c:77 | the blocks of a section are exactly the 4096-byte blocks from its base on that end within it |
| Layout.ReservedRangeIsTaken | lumos/arch/i386/pmm.c:98-101 | the reserved range is exactly the bytes of the kernel image and of the headers and bitmaps of the zones |
| Layout.ReservedIff | lumos/arch/i386/pmm.c:87-124 | a block is reserved exactly when it is at address 0 or a byte of it is one of these |
| Layout.LosesBlockIff | lumos/arch/i386/pmm.c:87-124 | a section has a reserved block exactly when it starts at address 0 or the reserved range meets its whole blocks |
| Layout.ClearsBitIff | lumos/arch/i386/pmm.c:279-282 | clearing bit o of the bitmap of the head clears bit c of zone k exactly when o - c is 8 times the distance of their headers in bytes |
| Layout.WriteHits | lumos/include/lumos/pmm.h:28-38 | a bit cleared in the metadata belongs to one zone, and there to a bitmap word or to one of the eight header fields; to the head exactly when it is in its bitmap |
| Layout.ReservationFitsIff | lumos/arch/i386/pmm.c:115-123 | the write stays inside the bitmap unless the range reaches a partial last block behind a bitmap without padding |
| Pool.FirstZone | lumos/arch/i386/pmm.c:185-187 | the first zone with a nonzero counter, all before it being 0 |
| Pool.LeastClear | lumos/arch/i386/pmm.c:196-212 | a clear bit with no clear bit below it, or the number of bits when there is none; padding bits count |
| Pool.HeadOffsetInverts | lumos/arch/i386/pmm.c:14-15 | GET_OFFSET, modulo 2^32, inverts GET_ADDRESS for every block of the head zone |
| Pool.InitialInv | lumos/arch/i386/pmm.c:74-89 | the state after initialisation satisfies the run invariant |
| Pool.RunKeepsInv | lumos/arch/i386/pmm.c:181-248 | every run of allocations and frees of live head blocks keeps it: set bits = reserved + live + padding, disjointly, counter + live = length |
| PoolTheorems.LiveBlockIsSafe | lumos/arch/i386/pmm.c:87-124 | after any run a live block lies in one section's whole blocks, is not NULL, and avoids the reserved range |
| PoolTheorems.LiveBlocksAreApart | lumos/arch/i386/pmm.c:181-226 | after any run two live blocks have no byte in common |
| PoolTheorems.AllocationIsFresh | lumos/arch/i386/pmm.c:181-226 | after any run an allocation does not return a live block |
| PoolTheorems.LiveBlocksAvoidKernelAndMetadata | lumos/arch/i386/pmm.c:96-124 | after any run no byte of a live block belongs to the kernel image or to any zone header or bitmap |
| PoolTheorems.Conservation | lumos/arch/i386/pmm.c:77-89 | after any run counter + live = length, and counter = clear blocks + blocks reserved at the start |
| PoolTheorems.CounterIsClearBlocksIff | lumos/arch/i386/pmm.c:78-89 | the counter is the number of clear blocks exactly in zones without a reserved block |
| PoolTheorems.AllocIsFirstFit | lumos/arch/i386/pmm.c:185-225 | NULL exactly when the first zone with a nonzero counter, if any, is full; otherwise its least clear block |
| PoolTheorems.AllocThenFree | lumos/arch/i386/pmm.c:222-247 | freeing the head block just allocated restores every bitmap and counter |
| PoolTheorems.FreeThenAlloc | lumos/arch/i386/pmm.c:181-248 | after a free of any address whose bit is in the bitmap of the head, the next allocation is the lower of that bit and of the least clear one before |
| Reach.ReachableIff | lumos/arch/i386/pmm.c:181-226 | some run makes block b of section j live exactly when b is not reserved and no section before j has a reserved block |
| Reach.SomeRunFailsWithMemoryLeftIff | lumos/arch/i386/pmm.c:201-205 | some run makes an allocation fail with a clear block left exactly when a section with an unreserved block comes behind one with a reserved block |
| Reach.HeadServesEveryRun | lumos/arch/i386/pmm.c:184-247 | with a reserved head block: counter at least the reserved blocks and so never 0, all live blocks in the head where they may be freed, other zones untouched, NULL exactly when length - reserved blocks are live |
| Reach.HeadAtZeroOrKernelServes | lumos/arch/i386/pmm.c:87-124 | so it is on every map whose first section starts at address 0 or has the kernel in its whole blocks |
| Reach.SomeRunLeavesHeadIff | lumos/arch/i386/pmm.c:184-187 | some run makes a block outside the head live exactly when the head has no reserved block and the next section has an unreserved one |
| Reach.UnreachableBlock | lumos/arch/i386/pmm.c:201-205 | a concrete map on which the first allocation fails although the second zone has a clear block |
| OffHead.FreeIsRightIff | lumos/arch/i386/pmm.c:231-247 | the computed offset is one of the blocks of the head, and the free releases the very block, exactly for blocks of the head |
| OffHead.GivesBackIff | lumos/arch/i386/pmm.c:14-15 | the cleared bit stands for the freed address exactly when that lies a whole number of blocks from the start of the head, modulo 2^32, and not beyond its bitmap |
| OffHead.FreeInFullHead | lumos/arch/i386/pmm.c:181-248 | with the head used up, the allocation after a free returns the address of the cleared bit, of a block or of padding |
| OffHead.WrongBlockSharesBefore | lumos/arch/i386/pmm.c:243-246 | if that is another address, its block shares a byte with the block before the freed one, or for the first block begins outside the zone |
| OffHead.GivingRunRefines | lumos/arch/i386/pmm.c:181-248 | every run whose frees give the block back, of any zone, is a run of head-only frees with some padding bits of the head cleared and their blocks not live |
| OffHead.GivingRunIsSafe | lumos/arch/i386/pmm.c:181-248 | in such runs live blocks lie in sections, are not NULL, avoid the reserved range and share no byte |
| OffHead.GivingAllocationIsFresh | lumos/arch/i386/pmm.c:181-248 | in such runs an allocation does not return a live block |
| OffHead.EveryFreeGivesBackIff | lumos/arch/i386/pmm.c:228-248 | in every run whose frees so far gave their blocks back, every live block would be given back too, exactly when every reachable block of the map lies a whole number of blocks from the start of the head and within its bitmap |
| OffHead.FreeHitsOwnBitIff | lumos/arch/i386/pmm.c:243-246 | freeing a block of zone k clears the bit of that block in the bitmap of k exactly when the zones are as many blocks apart as their headers are bits apart |
| OffHead.FreeWritesBitmapPointer | lumos/arch/i386/pmm.c:243-246 | a concrete map on which a free clears the top bit of the bitmap pointer of the second zone |
| OffHead.PaddingReachesSecondBlock | lumos/arch/i386/pmm.c:228-248 | a concrete map on which a block outside the head becomes live and yet every free gives its block back |
| OffHead.WrongBlockAfterFree | lumos/arch/i386/pmm.c:231-247 | a concrete map and run after which freeing a live block makes the next allocation return an address of no section |
| AnyFree.FarFreeMissesHead | lumos/arch/i386/pmm.c:243-247 | the word written by a free behind the bitmap of the head is none of its header or bitmap |
| AnyFree.FreedComesBackIff | lumos/arch/i386/pmm.c:181-248 | after freeing any live block, in any zone and at any offset, allocations give it out again exactly when it is given back; whatever the write behind the bitmap does to other zones |
| AnyFree.FarFreeIsFinal | lumos/arch/i386/pmm.c:181-248 | after any run from initialisation and a free behind the bitmap, every continuation, freeing any live blocks, is served by the head alone, and no block behind the bitmap is allocated again |
| AnyFree.FarFreeLeavesHeadBlocks | lumos/arch/i386/pmm.c:181-248 | if frees are of head blocks or behind the bitmap from then on, allocations give NULL or blocks of the head |
| AnyFree.NoBlockIsLostIff | lumos/arch/i386/pmm.c:228-248 | no run that frees any live blocks loses a block exactly when every reachable block of the map lies a whole number of blocks from the start of the head and within its bitmap |
| AnyFree.EveryRunIsSafe | lumos/arch/i386/pmm.c:181-248 | on such maps, in every run, live blocks lie in sections, are not NULL, avoid the reserved range and share no byte |
| AnyFree.BlockBehindBitmap | lumos/arch/i386/pmm.c:228-248 | a concrete map on which a block with offset 255 behind a 32-bit bitmap becomes live |
| Boot.BootedWithholdsExactly | lumos/arch/i386/pmm.c:74-128 | after initialisation a block has its bit set exactly when it is at address 0 or a byte of it belongs to the kernel or to a zone header or bitmap |
| Boot.LiveBlocksAreFreeMemory | lumos/arch/i386/pmm.c:37-226 | from the memory map on, after any run, all 4096 bytes of a live block lie in an entry of type 1 and none belongs to the kernel or to a zone header or bitmap |
| Boot.EveryLiveBlockIsFreeMemory | lumos/arch/i386/pmm.c:37-248 | the same for runs that free any live blocks, on maps whose reachable blocks the bitmap of the head reaches |
| Pmm.MapFlagIsBitSix | lumos/arch/i386/pmm.c:44 | the mask test for a memory map reads bit 6 of the flags |
| Pmm.Zone.constructor | lumos/arch/i386/pmm.c:74-89 | a new zone covers its section, counts all blocks as free, has its padding bits set and only the block at address 0 used |
| Pmm.Zone.Reserve | lumos/arch/i386/pmm.c:110-124 | the zone's used blocks grow by exactly the blocks that touch the reserved range; nothing else changes |
| Pmm.Zone.ScanFrom | lumos/arch/i386/pmm.c:196-218 | the word scan and bit scan find the least clear bit of the bitmap, padding included, or report exactly that there is none |
| Pmm.Zone.Take | lumos/arch/i386/pmm.c:222-223 | one bit becomes set and the counter falls by one |
| Pmm.Zone.Release | lumos/arch/i386/pmm.c:246-247 | one bit, of a block or of padding, becomes clear and the counter rises by one |
| Pmm.PhysicalMemory.Append | lumos/arch/i386/pmm.c:66-72 | the zone list grows by one at its end, earlier zones unchanged |
| Pmm.PhysicalMemory.NextZone | lumos/arch/i386/pmm.c:66-81 | the next zone's header goes where the layout puts it, right behind the previous bitmap |
| Pmm.PhysicalMemory.BuildZones | lumos/arch/i386/pmm.c:50-94 | one zone per usable entry in map order, and the total size of the metadata |
| Pmm.PhysicalMemory.ReserveAll | lumos/arch/i386/pmm.c:105-128 | every zone ends with exactly its reserved blocks used |
| Pmm.PhysicalMemory.InitPmm | lumos/arch/i386/pmm.c:37-131 | without bit 6 of the flags it fails; otherwise the zones are the initial state of the runs, laid out behind the kernel, and exactly the blocks at address 0, of the kernel or of zone metadata have their bits set |
| Pmm.PhysicalMemory.FirstZoneWithFree | lumos/arch/i386/pmm.c:184-192 | the list walk stops at the first zone with a nonzero counter, or at the end |
| Pmm.PhysicalMemory.PmmAlloc | lumos/arch/i386/pmm.c:181-226 | one allocation step of the run machine: bitmap, counter and returned address; also when only the head is known and its counter is not 0 |
| Pmm.PhysicalMemory.PmmAlloc2 | lumos/arch/i386/pmm.c:134-179 | the same step, so the two allocators agree in every state with last offset 0 |
| Pmm.PhysicalMemory.ZoneToFree | lumos/arch/i386/pmm.c:231-239 | the search stops at the first zone not skipped, for zones of any range |
| Pmm.PhysicalMemory.PmmFree | lumos/arch/i386/pmm.c:228-248 | for every address one free step of the run machine; behind the bitmap of the head nothing is promised of the other zones |
| Page.FittingTabsAreSafe | lumos/arch/i386/tty.c:84-111 | if every tab arrives at column 75 or before, every write lands, the column stays below 80 and nothing is written below the cursor line |
| Page.TabsThenCharLandsIff | lumos/arch/i386/tty.c:84-111 | after any number of tabs at any column a character lands exactly when 80 times its row, plus its column, plus 4 for each tab, is below 2000 modulo 2^31, as the index and the byte offset are 32-bit; a backspace one column to the left |
| Page.NewlinesAndTabsLandIff | lumos/arch/i386/tty.c:70-111 | the same from the start, after m newlines and n tabs |
| Page.TabsComeRound | lumos/arch/i386/tty.c:84-111 | one newline and 2^30 - 1 or 2^29 - 1 tabs lead round to cell 76 |
| Page.TabsLeaveScreen | lumos/arch/i386/tty.c:84-102 | concrete streams after which a letter is written past the end of the screen: 20 tabs on the last row, 40 on the row above; 39 are safe there |
| Page.PlainText | lumos/arch/i386/tty.c:101-111 | n plain characters fill the page from the top left and leave the cursor at line n div 80, column n mod 80 |
| Rows.TypeShows | lumos/arch/i386/tty.c:70-112 | one character changes a page that shows some rows into one that shows the rows an editor would have: newline, tab of 4, backspace, 80 characters to a row |
| Rows.StreamShowsRows | lumos/arch/i386/tty.c:70-118 | any stream from the start whose tabs arrive at column 75 or before lands on the screen and leaves exactly its rows, green on black, blank elsewhere |
| Rows.LinesAreRows | lumos/arch/i386/tty.c:77-82 | the rows of short lines joined by newlines are these lines, each from column 0 |
| Rows.BackspaceUndoes | lumos/arch/i386/tty.c:90-99 | a printable character and a backspace leave the rows as they were |
| Rows.BackspaceOnPage | lumos/arch/i386/tty.c:90-99 | after a short line, one more character and a backspace, the cursor is behind the line, whose cells stay, and its cell is blank |
| Tty.Terminal.constructor | lumos/arch/i386/tty.c:28-44 | the screen is blank and the cursor at the top left |
| Tty.Terminal.CopyLinesUp | lumos/arch/i386/tty.c:48-57 | each line takes the old content of the line below it, in place; the last keeps its own |
| Tty.Terminal.Scroll | lumos/arch/i386/tty.c:46-65 | lines move up by one, the row falls by one and that row is blanked |
| Tty.Terminal.PutPlain | lumos/arch/i386/tty.c:101-111 | a printable character, with wrap and immediate scroll, is one step of the page |
| Tty.Terminal.PutChar | lumos/arch/i386/tty.c:70-112 | the buffer stays the window of the page after its step; the row is determined by the page line and whether the character was a newline |
| Tty.Terminal.Write | lumos/arch/i386/tty.c:114-118 | after any landing stream the buffer is the window of the page fed with the stream |
| Tty.Terminal.LinesBelowAreBlank | lumos/arch/i386/tty.c:46-111 | while tabs fit, all screen lines below the cursor line are blank |
| Tty.Terminal.ScreenShowsRows | lumos/arch/i386/tty.c:46-118 | after any stream whose tabs fit the screen holds the last rows of it, the cursor behind the last, on row 24 at most, or 25 after a newline |
| Tty.Terminal.PlainScreen | lumos/arch/i386/tty.c:101-111 | after n plain characters: column n mod 80, row min(n div 80, 24), and the last lines of the text on the screen |
| Itoa.TextRoundTrip | libc/stdlib/itoa.c:4-43 | parsing the text gives the number back, signed for radix 10; no NUL inside, no leading zero |
| Itoa.DigitsRoundTrip | libc/stdlib/itoa.c:27-41 | the digits form a numeral of that radix with that value |
| Itoa.LengthIff | libc/stdlib/itoa.c:27-33 | a number takes at most k digits exactly when it is below radix to the k |
| Itoa.TextLength | libc/stdio/printf.c:113-158 | with its NUL the text fits the callers' 12 bytes for radix 8, 10 and 16 |
| Itoa.TextLengthReached | libc/stdio/printf.c:113-158 | 12 bytes are needed for the largest octal and the least decimal number |
| Itoa.ReverseInPlace | libc/stdlib/itoa.c:36-41 | the two-index loop reverses exactly the given part of the buffer |
| Itoa.DigitsInto | libc/stdlib/itoa.c:27-33 | the division loop writes the digits from the low end and nothing else |
| Itoa.Convert | libc/stdlib/itoa.c:4-43 | the buffer holds the text and a NUL, and is unchanged behind them |
| Format.NextFormat | libc/stdio/printf.c:33-191 | taking one piece off a format splits its meaning at that piece |
| Format.NumbersInText | libc/stdio/printf.c:111-172 | between two parts of a format %x, %o and %d stand for the text of the argument in radix 16, 8 and 10 |
| Format.NumbersReadBack | libc/stdio/printf.c:111-172 | reading what they print gives the number back, for %d as a signed one |
| Format.TextsInText | libc/stdio/printf.c:33-109 | %c stands for its character, %s for its text, %% for a percent sign |
| Format.UnknownInText | libc/stdio/printf.c:174-190 | a percent sign before any other character is dropped and the rest of the format is text |
| Format.EmitIsFormat | libc/stdio/printf.c:27-195 | emission succeeds exactly when the meaning fits the bound, and is then the whole meaning; otherwise a proper beginning of it |
| Format.EmitStopsBeforeOverflow | libc/stdio/printf.c:48-54 | a failed emission is exactly the pieces before the first that takes the total over the bound |
| Format.ReturnsLengthIff | libc/stdio/printf.c:48-69 | the value returned is the length of the meaning exactly when that is at most INT_MAX, and -1 exactly otherwise |
| Format.EscapedMeansItself | libc/stdio/printf.c:33-46 | a text with percent signs doubled needs no arguments and means the text |
| Format.EscapedPrintsItself | libc/stdio/printf.c:29-69 | printing it emits exactly the text when its length is at most INT_MAX, and fails otherwise |
| Printf.StrLen | libc/string/strlen.c:3-9 | the index of the first NUL |
| Printf.NumberText | libc/stdio/printf.c:111-117 | a number's text by way of the 12-byte buffer |
| Printf.RunFrom | libc/stdio/printf.c:41-46 | the length of the run up to the next percent sign, taking the first character whatever it is |
| Printf.TakeConversion | libc/stdio/printf.c:72-191 | the conversion branches give the next piece and advance format and arguments past it |
| Printf.TakePiece | libc/stdio/printf.c:31-191 | so does a whole turn of the loop |
| Printf.Putchar | libc/stdio/putchar.c:7-18 | the terminal takes the character, and the result is its code, never EOF |
| Printf.Print | libc/stdio/printf.c:9-20 | the terminal takes the whole text and the result is true |
| Printf.Printf | libc/stdio/printf.c:22-196 | the terminal takes exactly what the bounded emission gives; the result is its length, or -1 on overflow |
| Printf.Log | libc/stdio/logf.c:9-16 | the whole text is appended |
| Printf.Logf | libc/stdio/logf.c:18-175 | the serial port takes the same emission and the result is the same as for `printf` |
| Keyboard.FlagsAfter | lumos/arch/i386/keyboard.c:132-222 | one scancode changes each of the six flags exactly on the codes of its keys, and no other flag |
| Keyboard.Keyboard.Handle | lumos/arch/i386/keyboard.c:107-226 | one interrupt changes the status and feeds the terminal what the key prints |
| Keyboard.StatusOfRun | lumos/arch/i386/keyboard.c:132-177 | over every run lock bits are parities of key presses, and shift, control and alt follow the latest code of their keys |
| Keyboard.LetterKeys | lumos/arch/i386/keyboard.c:33-103 | the tables give the two cases of one letter for letter keys and letters for no other key |
| Keyboard.PrintedAfterRun | lumos/arch/i386/keyboard.c:110-128 | after any run a letter key prints upper case exactly when shift differs from caps lock; other keys ignore caps lock |
| Keyboard.DigitKeys | lumos/arch/i386/keyboard.c:33-71 | codes 2 to 11 print the digits 1 to 9 and 0, with shift their symbols, two of them a percent sign |
| Keyboard.SameWithShift | lumos/arch/i386/keyboard.c:33-103 | backspace, tab, enter, space, *, - and + print the same with shift and without |
| Keyboard.BracketKeys | lumos/arch/i386/keyboard.c:33-103 | the bracket and backslash keys print with shift the character 32 above |
| Keyboard.PunctuationKeys | lumos/arch/i386/keyboard.c:33-103 | the remaining keys, by literal character |
| Keyboard.PrintsSomethingIff | lumos/arch/i386/keyboard.c:33-128 | after any run a code prints something exactly when it is the press of a key with a character |
| Keyboard.NeverAmpersand | lumos/arch/i386/keyboard.c:69-76 | no run prints an ampersand |
| Memmove.Memmove | libc/string/memmove.c:3-25 | the destination holds the old source bytes and every other byte is unchanged, for every overlap |
| Memmove.ForwardMoves | libc/string/memmove.c:9-15 | a forward copy is right into a lower or a separate place |
| Memmove.BackwardMoves | libc/string/memmove.c:16-22 | a backward copy is right into a higher or a separate place |
| Memmove.ForwardSpoilsOverlap | libc/string/memmove.c:9-15 | a forward copy into an overlap from below is wrong as soon as the first bytes differ |
| Memmove.BackwardSpoilsOverlap | libc/string/memmove.c:16-22 | a backward copy into an overlap from above is wrong as soon as the last bytes differ |
| CeilPowTwo.SmearRoundsUp | libc/utils/ceilPowTwo.c:5-11 | one above the smeared predecessor is a single bit, not below the number, with its half below it |
| CeilPowTwo.PowerIffSingleBit | libc/utils/ceilPowTwo.c:3-13 | the powers of two are the numbers with a single bit |
| CeilPowTwo.CeilPowTwo | libc/utils/ceilPowTwo.c:3-13 | the least power of two not below the number for 1 to 2^31, and 0 for 0 and above |

## Left out

- Pmm.PhysicalMemory.PmmFree: for an offset behind the head's bitmap the written word belongs to no object here; the
  method raises the counter and promises nothing of the other zones, and `Layout.WriteHits` says which word it is.
- Pmm.PhysicalMemory.InitPmm: the map is a value, so a map that the new zone headers would overwrite is not modelled;
  a usable section of less than one block, for which the C code clears bits without end, is excluded.
- Tty.Terminal.PutChar: a write outside the 2000 cells, possible after tabs that lead past the end of the screen, is
  excluded by its precondition.
- Itoa.Convert: radix 0 (division by zero), 1 (no end) and above 36 (digits beyond Z) are excluded.
- Keyboard.Keyboard.Handle: the table lookup for break codes, which reads past the table and discards the value, is
  made total.
- Variable arguments are a sequence with the right kind for each conversion reached.
- A multi-zone search for `pmm_free`: the code as it is has none.
- Free of a block that is not live: the methods say what it does to bitmap and counter, the runs exclude it.
- Concurrency between interrupt handlers and the kernel: each call runs to its end.
- `terminal_writestring`, `puts`, `memcpy`, `memset`, `memcmp`, `vga_entry` and the descriptor tables: each is one easy
  member; a cell is an injective pair of character and colour.
- Ports, timer, interrupt controller and serial line set-up, boot code and linker script: hardware and link-time effects;
  the kernel's addresses and the virtual offset are parameters, and sending to the serial port always succeeds.
- Debug printing and the log calls inside the memory manager.

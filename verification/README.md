# learnix86 kernel core in Dafny

A model of the parts of the learnix86 kernel that carry real logic, with
proofs about them:

- **Kernel heap** (`kernel/kheap.c`). The heap is a singly linked,
  address-ordered list of 12-byte chunk headers `{flags, size, next}`,
  each followed by its payload. The operations are `kheap_init`,
  `kheap_grow`, `kmalloc` (first fit, split, growing page by page) and
  `kfree` (a double free is ignored, then the whole list is coalesced).
  The heap is modelled at two levels:
  - `KheapLayout` (heap_layout.dfy) is the chunk list. It holds the
    allocator's behaviour with the defects of `kmalloc` corrected (see
    Findings), and the properties of that behaviour.
  - `Kheap` (kheap.dfy) is word-addressed memory plus the list head,
    `kheap_end`, the mapped pages and the frames still available. It
    holds `KheapInit`, `KheapGrow` and the `Kmalloc`/`Kfree` loops.
    `Refines` ties every heap in memory to a chunk list; both methods are
    proved to carry out the list-level operation.
  - `KheapAsWritten` (kheap_as_written.dfy) is `kmalloc` exactly as the
    source writes it. A page fault and running out of frames are
    outcomes of their own. Concrete heaps exhibit each defect.
- **x86 paging arithmetic** (`Mmu`, mmu.dfy). The macros of `mmu.h` are
  `bv32` functions. They follow the two-level 32-bit paging of section 4.3
  of the Intel SDM, Volume 3A.
- **Integer formatting** (`Itoa`, itoa.dfy). `itoa` and `itoal` are
  reference texts plus loop-by-loop methods.
- **`printf`** (`Printf`, printf.dfy). A format is read as a list of
  directives. The output is the sequence of `putchar`/`puts` calls made.
- **VGA text terminal** (`Vga`, vga.dfy). Cell and colour packing, plus
  the cursor-and-scroll state machine over the 80x25 buffer.
- **Keyboard** (`Keyboard`, keyboard.dfy). One interrupt is a pure step
  on the two-bit modifier status, printing through two 59-entry tables.
- **Interrupt descriptor table** (`Idt`, idt.dfy). The packed gate
  descriptor of section 6.11 of the Intel SDM, Volume 3A, `idt_set_gate`,
  the table `idt_init` builds, and the IDTR it loads.

`Options` (options.dfy) holds the `Option` type that stands for a NULL
result.

## Model

| member | source | states |
|---|---|---|
| Mmu.PDX | include/learnix/x86/mmu.h:15 | the page-directory index of every 32-bit address is below 1024 |
| Mmu.PTX | include/learnix/x86/mmu.h:18 | the page-table index of every 32-bit address is below 1024 |
| Mmu.PGOFFSET | include/learnix/x86/mmu.h:21 | the page offset of every address is below 4096 |
| Mmu.PGADDR | include/learnix/x86/mmu.h:24 | a directory index and a table index below 1024 and an offset below 4096 are read back unchanged from the address built from them |
| Mmu.PGROUNDUP | include/learnix/x86/mmu.h:34 | the rounded-up address is page aligned |
| Mmu.PGROUNDDOWN | include/learnix/x86/mmu.h:35 | the rounded-down address is page aligned, not above `a`, and less than one page below it |
| Mmu.PTE_ADDR | include/learnix/x86/mmu.h:44 | the frame address of an entry is page aligned |
| Mmu.PTE_FLAGS | include/learnix/x86/mmu.h:44-45 | the flags of an entry fit in 12 bits, and together with the frame address they make up the entry without overlap |
| Mmu.SplitJoin | include/learnix/x86/mmu.h:15-24 | rebuilding an address from its directory index, table index and offset gives the address back |
| Mmu.JoinSplit | include/learnix/x86/mmu.h:15-24 | in-range indexes and offset are recovered from the address built from them |
| Mmu.RoundUpBounds | include/learnix/x86/mmu.h:34 | for sz up to 0xFFFFF000, sz <= PGROUNDUP(sz) < sz + 4096 |
| Mmu.RoundUpWraps | include/learnix/x86/mmu.h:34 | above 0xFFFFF000 the 32-bit sum wraps and PGROUNDUP gives 0 |
| Mmu.RoundUpIdempotent | include/learnix/x86/mmu.h:34 | rounding up twice is rounding up once |
| Mmu.RoundDownIdempotent | include/learnix/x86/mmu.h:35 | rounding down twice is rounding down once |
| Mmu.RoundingsAgree | include/learnix/x86/mmu.h:34-35 | the two roundings agree exactly on page-aligned addresses |
| Mmu.PteJoin | include/learnix/x86/mmu.h:44-45 | an entry is the union of its address and flag parts |
| Mmu.PteDisjoint | include/learnix/x86/mmu.h:44-45 | the address and flag parts of an entry share no bit |
| Mmu.PteAddrIsRoundDown | include/learnix/x86/mmu.h:35-44 | the address part of an entry is the entry rounded down to a page |
| Itoa.Digits | libc/stdlib/itoa.c:17-21 | the digit string is non-empty, uses only digits of the base, and starts with '0' exactly for zero |
| Itoa.DigitTableDistinct | libc/stdlib/itoa.c:7 | every character of the upper-case digit table reads back as its own position |
| Itoa.DigitsStep | libc/stdlib/itoa.c:17-21 | one loop turn: the digits of v are those of v / base followed by the digit of v % base |
| Itoa.ValueOfDigits | libc/stdlib/itoa.c:17-21 | reading the digits of n back in the same base gives n |
| Itoa.LeadingZeros | libc/stdlib/itoa.c:52-57 | zeros put in front of a digit string do not change the value it reads back as |
| Itoa.DigitsLength | libc/stdlib/itoa.c:17-21 | a number below base^k has at most k digits |
| Itoa.HexIsTenCharacters | libc/stdlib/itoa.c:45-62 | `itoal(v, 16)` is exactly ten characters: "0x" and eight hexadecimal digits that read back as v |
| Itoa.HexShape | libc/stdlib/itoa.c:52-60 | the eight hexadecimal digits are zero padding followed by the digits of v without leading zeros |
| Itoa.HexReadsBack | libc/stdlib/itoa.c:45-60 | the digits after "0x" read back as v |
| Itoa.DecimalFitsBuffer | libc/stdlib/itoa.c:11-26 | decimal text of a 32-bit int other than INT_MIN has at most 11 characters, so with its NUL it fits a 32-byte buffer |
| Itoa.DigitLoop | libc/stdlib/itoa.c:17-21 | the do-while loop leaves the digits least significant first: reversed, they are the base-b digits of n |
| Itoa.TerminateAndReverse | libc/stdlib/itoa.c:26-34 | the in-place swap loop leaves the exact reverse of the buffer, followed by NUL |
| Itoa.Itoa | libc/stdlib/itoa.c:4-37 | the output is '-' then the digits of the magnitude for a negative base-10 value, otherwise the digits, then NUL |
| Itoa.PadHex | libc/stdlib/itoa.c:52-60 | the padding loop and the two prefix characters make the reversed buffer read "0x", zeros up to eight digits, then the digits |
| Itoa.Itoal | libc/stdlib/itoa.c:39-73 | the output is the digits of v, for base 16 behind "0x" and padded with zeros to eight digits, then NUL |
| Printf.Printf | libc/stdio/printf.c:7-56 | the calls `printf` makes are exactly the rendering of its format's directives against its arguments |
| Printf.Step | libc/stdio/printf.c:17-55 | one loop turn moves past one directive and preserves the output still to come |
| Printf.Convert | libc/stdio/printf.c:23-53 | 'c', 's', 'd' and 'x' emit their conversion of the next argument and consume it; any other character emits '%' and itself and consumes nothing |
| Printf.LiteralStep | libc/stdio/printf.c:19-20 | a character other than '%' is emitted unchanged through `putchar` |
| Printf.ConversionStep | libc/stdio/printf.c:23-53 | a '%' is never the last character of a well-terminated format, and the directive it opens emits its conversion and consumes one argument or none |
| Printf.ParseUnparse | libc/stdio/printf.c:17-25 | the directives read from a format spell the format back |
| Printf.LiteralsVerbatim | libc/stdio/printf.c:17-20 | a format without '%' consumes no argument and is emitted character for character, in order |
| Printf.RenderAppend | libc/stdio/printf.c:17-55 | the output of two consecutive parts of a format is the first part's output followed by the second's, which uses the arguments the first left over |
| Printf.CharAndStringConversions | libc/stdio/printf.c:27-34 | "%c" hands its character to `putchar` and "%s" hands its string to `puts`, unchanged |
| Printf.HexConversion | libc/stdio/printf.c:43-46 | "%x" makes one `puts` call with "0x" and eight hexadecimal digits that read back as the argument |
| Printf.DecimalConversion | libc/stdio/printf.c:37-40 | "%d" makes one `puts` call with text that fits the 32-byte buffer and starts with '-' exactly for a negative argument |
| Printf.UnknownConversion | libc/stdio/printf.c:48-51 | an unknown conversion echoes '%' and its character and leaves the argument for the next conversion |
| Vga.EntryColor | include/learnix/drivers/vga.h:29-31 | for colours below 16 the foreground is the attribute's low nibble and the background its high nibble |
| Vga.Entry | include/learnix/drivers/vga.h:33-35 | the character is the cell's low byte and the attribute its high byte |
| Vga.EntryColorForeground | include/learnix/drivers/vga.h:29-31 | the foreground colour is the low nibble of the attribute |
| Vga.EntryColorBackground | include/learnix/drivers/vga.h:29-31 | the background colour is the high nibble of the attribute |
| Vga.EntryChar | include/learnix/drivers/vga.h:33-35 | the character is the low byte of the cell |
| Vga.EntryColorByte | include/learnix/drivers/vga.h:33-35 | the attribute is the high byte of the cell |
| Vga.EntrySplit | include/learnix/drivers/vga.h:33-35 | every cell is the entry of its own character and attribute |
| Vga.EntryInjective | include/learnix/drivers/vga.h:33-35 | different character or attribute gives a different cell |
| Vga.Index | kernel/drivers/vga.c:40 | every on-screen position has an index inside the 2000-cell buffer |
| Vga.IndexInjective | kernel/drivers/vga.c:40 | different on-screen positions have different indexes |
| Vga.PutEntryAt | kernel/drivers/vga.c:37-42 | exactly the cell at the position gets the entry; every other cell stays |
| Vga.Scroll | kernel/drivers/vga.c:44-63 | rows 1 to 24 move up one row, the last row is blank in the current colour, and the cursor row becomes 24 |
| Vga.NextLine | kernel/drivers/vga.c:71-76 | the column goes to 0 and the row advances, or the screen scrolls when the row was the last; the cursor stays on the screen |
| Vga.PutChar | kernel/drivers/vga.c:65-104 | every character keeps the cursor on the screen and the colour unchanged |
| Vga.TerminalInitialize | kernel/drivers/vga.c:12-29 | the cursor is at (0, 0), the colour is light grey on black, and all 2000 cells are blank in that colour |
| Vga.TerminalScroll | kernel/drivers/vga.c:44-63 | the copy and blanking loops compute the scroll |
| Vga.CopyRow | kernel/drivers/vga.c:52-54 | one `memcpy` copies row y + 1 into row y and leaves every other cell |
| Vga.TerminalWrite | kernel/drivers/vga.c:106-111 | writing n bytes is n successive `terminal_putchar` calls, in order |
| Vga.PrintableInLine | kernel/drivers/vga.c:91-102 | a printable byte before the last column writes only the cursor cell and moves one column right |
| Vga.PrintableWraps | kernel/drivers/vga.c:95-100 | a printable byte in the last column writes its cell and moves to column 0 of the next row |
| Vga.PrintableScrolls | kernel/drivers/vga.c:95-100 | a printable byte in the bottom-right cell is written, then the screen scrolls and the cursor goes to column 0 of row 24 |
| Vga.NewlineWritesNothing | kernel/drivers/vga.c:71-77 | a newline moves to column 0 of the next row without writing a cell, or scrolls from the last row |
| Vga.BackspaceErases | kernel/drivers/vga.c:79-89 | a backspace moves one cell left, or to column 79 of the row above from column 0, and blanks that cell |
| Vga.PrintThenErase | kernel/drivers/vga.c:79-102 | a printable byte followed by a backspace leaves the cursor where it was and that cell blank |
| Vga.PutAllAppend | kernel/drivers/vga.c:106-111 | writing a + b is writing a and then b |
| Vga.NoBackspaceCanWrite | kernel/drivers/vga.c:65-111 | any byte string without a backspace can be written from any cursor, and the cursor stays on the screen |
| Keyboard.KeyboardStep | kernel/drivers/keyboard.c:28-64 | the status keeps to bits 0 and 1, and a byte is printed exactly for a press other than shift and caps lock |
| Keyboard.TablesCover | kernel/drivers/keyboard.c:11-25 | both tables have 59 entries, so the handled scancodes are every release and the presses 0x00 to 0x3A |
| Keyboard.ShiftPress | kernel/drivers/keyboard.c:46-48 | pressing left shift sets bit 0, keeps bit 1 and prints nothing |
| Keyboard.ShiftRelease | kernel/drivers/keyboard.c:35-37 | releasing left shift clears bit 0, keeps bit 1 and prints nothing |
| Keyboard.ShiftPressRelease | kernel/drivers/keyboard.c:35-48 | pressing then releasing shift restores the status |
| Keyboard.CapsToggles | kernel/drivers/keyboard.c:50-52 | a caps-lock press flips bit 1, keeps every other bit and prints nothing |
| Keyboard.CapsTwice | kernel/drivers/keyboard.c:50-52 | two caps-lock presses restore the status |
| Keyboard.OtherRelease | kernel/drivers/keyboard.c:33-41 | any other release changes nothing and prints nothing |
| Keyboard.PressPrints | kernel/drivers/keyboard.c:54-59 | any other press prints from the upper-case table when shift or caps lock is on and from the lower-case table otherwise |
| Keyboard.RunKeepsStatusOk | kernel/drivers/keyboard.c:9-64 | over any run of interrupts the status never has a bit other than 0 and 1 set |
| Idt.Gate | kernel/idt.c:69-75 | the selector and attributes are stored verbatim and the reserved byte is 0 |
| Idt.SetGate | kernel/idt.c:69-75 | entry n becomes the gate and every other entry stays |
| Idt.IdtInit | kernel/idt.c:78-94 | every entry is the installed gate or zero, and the IDTR holds the table base and limit 2047 |
| Idt.GateOffset | kernel/idt.c:70-74 | the two stored halves join back into the handler address |
| Idt.GateInjective | kernel/idt.c:70-74 | different handlers give different gates |
| Idt.DecodeEncode | include/learnix/idt.h:21-27 | packing a descriptor into its 8 bytes loses no field |
| Idt.EncodeDecode | include/learnix/idt.h:21-27 | every 8-byte value is the packing of its own fields |
| Idt.NullEntryNotPresent | kernel/idt.c:80 | a zeroed entry is the all-zero descriptor, whose present bit is clear |
| Idt.InstalledGates | kernel/idt.c:80-90 | vectors 0, 3, 14 and 0x21 are present ring-0 interrupt gates into their own handlers, and every other vector is zero |
| Idt.KeyboardVector | include/learnix/idt.h:11-12 | the keyboard vector is the master PIC base 0x20 plus one |
| KheapLayout.InitLayout | kernel/kheap.c:64-78 | the initial heap is well formed |
| KheapLayout.GrowLast | kernel/kheap.c:118-128 | the last chunk gains one page, `kheap_end` moves one page on, one frame is used, and every other chunk stays |
| KheapLayout.AppendPage | kernel/kheap.c:118-128 | the new page becomes a free chunk after the last one, and the heap stays well formed |
| KheapLayout.Place | kernel/kheap.c:142-158 | the chosen chunk is marked in use; with room for a header it is cut to the request and the rest follows as a free chunk; every other chunk stays |
| KheapLayout.MallocFrom | kernel/kheap.c:106-139 | the search keeps the heap well formed and returns NULL only when no frame is left |
| KheapLayout.Malloc | kernel/kheap.c:101-163 | allocation keeps the heap well formed |
| KheapLayout.PlaceWellFormed | kernel/kheap.c:142-158 | allocating in a fitting chunk keeps the chunks tiling the heap |
| KheapLayout.Free | kernel/kheap.c:165-201 | freeing keeps the heap well formed |
| KheapLayout.CoalesceKeepsTiling | kernel/kheap.c:182-200 | the coalescing pass (`CoalesceFrom`) keeps the chunks adjacent, the first address and the heap's end |
| KheapLayout.MergeAdjacent | kernel/kheap.c:187-194 | merging two neighbours keeps the chunks adjacent |
| KheapLayout.Merge | kernel/kheap.c:187-193 | the merged chunk starts where the first did, is free, and ends where the second one ended |
| KheapLayout.FirstFit | kernel/kheap.c:106-113 | the chosen chunk fits and no chunk before it fits; with none chosen, no chunk fits |
| KheapLayout.GrowBy | kernel/kheap.c:118-128 | growing a free last chunk keeps the heap well formed and the last chunk free |
| KheapLayout.Grows | kernel/kheap.c:118-128 | the number of grows is the least number of pages that brings the chunk up to the request |
| KheapLayout.SkipTo | kernel/kheap.c:106-133 | the search passes over chunks that do not fit |
| KheapLayout.MallocFirstFit | kernel/kheap.c:106-162 | when a chunk fits, `kmalloc` allocates in the first one and returns its payload address |
| KheapLayout.MallocAppends | kernel/kheap.c:118-139 | when nothing fits and the last chunk is allocated: with no frame left the heap is unchanged and NULL is returned; otherwise a new free chunk fills the next page, and a request up to 4084 bytes is placed in it, while a larger one grows that chunk exactly the needed pages and is placed there, or uses every frame and gets NULL |
| KheapLayout.GrowLoopFits | kernel/kheap.c:118-128 | a free last chunk is grown exactly the computed number of pages and then allocated in |
| KheapLayout.GrowLoopRunsOut | kernel/kheap.c:118-139 | with fewer frames than grows needed, every frame is used and NULL is returned |
| KheapLayout.MallocGrows | kernel/kheap.c:118-139 | when nothing fits and the last chunk is free, either exactly the needed pages are added and the last chunk's payload is returned, or every frame is used and NULL is returned |
| KheapLayout.SplitConserves | kernel/kheap.c:142-156 | a split conserves bytes: the old size is the request plus a header plus the remainder, and the remainder ends where the chunk did |
| KheapLayout.DoubleFree | kernel/kheap.c:170-174 | freeing a chunk that is already free changes nothing |
| KheapLayout.CoalesceNoAdjacentFree | kernel/kheap.c:182-200 | after the coalescing pass (`CoalesceFrom`) no two neighbouring chunks are both free |
| KheapLayout.CoalesceKeepsInUse | kernel/kheap.c:182-200 | the coalescing pass (`CoalesceFrom`) keeps every allocated chunk, in order |
| KheapLayout.FreeCoalesces | kernel/kheap.c:165-201 | after freeing an allocated chunk no two neighbours are free, and the allocated chunks are the others, in order |
| KheapLayout.FreeKeepsNoAdjacentFree | kernel/kheap.c:165-201 | freeing keeps the heap free of neighbouring free chunks |
| KheapLayout.CoalesceIdle | kernel/kheap.c:182-200 | the coalescing pass (`CoalesceFrom`) changes nothing when no two neighbours are free |
| KheapLayout.MallocFreeRoundTrip | kernel/kheap.c:29-38 | on a coalesced heap, allocating then freeing the same chunk gives back the heap, so the same request gets the same address again |
| KheapLayout.FreeUndoesSplit | kernel/kheap.c:182-200 | freeing a chunk just split off its free remainder merges the two back into the original chunk |
| KheapLayout.FirstFitIs | kernel/kheap.c:106-113 | a fitting chunk with no fitting chunk before it is the first fit |
| KheapLayout.KheapTest | kernel/kheap.c:17-54 | the test's allocations get start + 12, start + 224 and start + 636; the reallocation gets arr2's address back; the frees leave three chunks; the 3400-byte request grows the heap by one page |
| Kheap.PageRoundUp | include/learnix/x86/mmu.h:34 | the result is the least page boundary not below the address |
| Kheap.KheapInit | kernel/kheap.c:56-78 | one free chunk at the first page boundary after the kernel, of size 4084 with a NULL successor, one page mapped there, and `kheap_end` at its last byte |
| Kheap.KheapGrow | kernel/kheap.c:84-99 | the page at `kheap_end + 1` is mapped, `kheap_end` moves exactly one page on, and one frame is used |
| Kheap.AddrsIncrease | kernel/kheap.c:142 | in a tiled list each chunk starts at or after the end of every earlier one |
| Kheap.HeaderKept | include/learnix/kheap.h:16-21 | a header whose three words are not written stays in memory |
| Kheap.StoredResizeLast | kernel/kheap.c:127 | writing the last chunk's size word resizes that chunk and no other |
| Kheap.GrowLastChunkRefines | kernel/kheap.c:118-128 | growing the heap and the last chunk in memory is growing the last chunk of the list |
| Kheap.GrowLastChunk | kernel/kheap.c:120-127 | `kheap_end` moves one page on, one frame is used, and the last chunk's size word grows by 4096 |
| Kheap.AppendChunk | kernel/kheap.c:118-128 | `kheap_end` moves one page on, one frame is used, a free 4084-byte header with a NULL successor is written at the old `kheap_end + 1`, and the last chunk links to it |
| Kheap.GrowKeepsPayloads | kernel/kheap.c:120-127 | growing the last chunk changes no payload word of any chunk |
| Kheap.AppendKeepsPayloads | kernel/kheap.c:118-128 | appending a chunk in a new page changes no payload word of any chunk |
| Kheap.PayloadOutside | kernel/kheap.c:142 | a payload word of one chunk lies outside every other chunk, header and payload |
| Kheap.AppendChunkRefines | kernel/kheap.c:118-128 | a new free chunk in the new page, after an allocated last chunk, is appending a page to the list |
| Kheap.AllocateInWrites | kernel/kheap.c:142-158 | allocating with room for a header after the request (`AllocateIn`) writes the chosen chunk as in use with the requested size linked to the remainder, and a free remainder header linked to the old successor; without that room only the flags word changes |
| Kheap.AllocateKeepsPayloads | kernel/kheap.c:142-158 | allocating in one chunk changes no payload word of any other chunk |
| Kheap.AllocateInStaysInChunk | kernel/kheap.c:142-158 | allocating in a chunk writes no word outside that chunk |
| Kheap.SplitKeepsBefore | kernel/kheap.c:142-158 | a split leaves every earlier header as it was |
| Kheap.SplitKeepsAfter | kernel/kheap.c:142-158 | a split leaves every later header as it was, one place further on in the list |
| Kheap.SplitWritesBoth | kernel/kheap.c:142-158 | a split writes the chosen chunk's header and the remainder's, linked in order |
| Kheap.StoredSplit | kernel/kheap.c:142-158 | a split in memory is a split in the list |
| Kheap.StoredWhole | kernel/kheap.c:142-158 | handing over a whole chunk changes only its flags word |
| Kheap.AllocateInRefines | kernel/kheap.c:142-162 | allocating in memory is allocating in the list, for every fitting chunk |
| Kheap.Kmalloc | kernel/kheap.c:101-163 | the search, growth and allocation in memory leave the heap that the list-level `kmalloc` gives, and return its payload address or NULL; every payload word of every chunk in use keeps its value |
| Kheap.Merged | kernel/kheap.c:187-194 | merging removes the second chunk and keeps every other chunk in place |
| Kheap.MergeKeepsBefore | kernel/kheap.c:187-194 | a merge leaves every earlier header as it was |
| Kheap.MergeKeepsAfter | kernel/kheap.c:187-194 | a merge leaves every later header as it was, one place earlier in the list |
| Kheap.MergeAt | kernel/kheap.c:191-193 | the first header's size becomes both sizes plus a header, and its successor becomes the second chunk's successor |
| Kheap.MergeKeepsPayloads | kernel/kheap.c:191-193 | a merge changes no payload word of any chunk |
| Kheap.MergeWrites | kernel/kheap.c:191-193 | the merged header holds the two sizes plus a header, and the second chunk's successor |
| Kheap.StoredMerge | kernel/kheap.c:187-194 | a merge in memory is a merge in the list |
| Kheap.MergeAtRefines | kernel/kheap.c:187-194 | merging two free neighbours in memory is merging them in the list |
| Kheap.Coalesce | kernel/kheap.c:182-200 | the coalescing walk in memory leaves the heap of the list-level pass, and every payload word of every chunk in use keeps its value |
| Kheap.MarkFreeRefines | kernel/kheap.c:178 | clearing a chunk's flags word frees it in the list and changes no other header |
| Kheap.Kfree | kernel/kheap.c:165-201 | a header whose flags read 0 leaves the heap as it was; freeing a payload leaves the heap that the list-level `kfree` gives; every payload word of every other chunk in use keeps its value |
| KheapAsWritten.Finish | kernel/kheap.c:141-162 | a fault is at an unmapped address; a return gives the payload after `curr`, changes only memory, and marks `curr` in use with the requested size |
| KheapAsWritten.Search | kernel/kheap.c:106-135 | a return is a payload address inside the heap; running out means no frame is left |
| KheapAsWritten.KmallocAsWritten | kernel/kheap.c:101-163 | the as-written allocator never returns NULL; it returns a payload, faults or runs out of frames |
| KheapAsWritten.SearchSkips | kernel/kheap.c:106-133 | the as-written search passes over chunks that do not fit |
| KheapAsWritten.SearchExhausts | kernel/kheap.c:118-128 | on an allocated last chunk the as-written search grows until no frame is left |
| KheapAsWritten.AllocatedLastNeverReturns | kernel/kheap.c:118-139 | when nothing fits and the last chunk is allocated, the as-written allocator never returns |
| KheapAsWritten.HeaderOf | include/learnix/kheap.h:16-21 | the search reads the list's headers from memory, inside the mapped pages |
| KheapAsWritten.SearchStops | kernel/kheap.c:109-113 | the as-written search stops at a chunk that fits |
| KheapAsWritten.SearchFirstFit | kernel/kheap.c:106-135 | the as-written search stops at the first fit, as the corrected one does |
| KheapAsWritten.FinishKeeps | kernel/kheap.c:141-158 | the as-written allocation writes only the words of the two headers |
| KheapAsWritten.FinishFaults | kernel/kheap.c:142-146 | a would-be next header less than 4 bytes before `kheap_end + 1` faults on its flags read |
| KheapAsWritten.FinishWritesNext | kernel/kheap.c:146-158 | a blank next header gets a NULL successor and the wrapped remainder size, and `curr` links to it |
| KheapAsWritten.TightLastFaults | kernel/kheap.c:142-146 | a last-chunk fit with fewer than 4 bytes left over faults |
| KheapAsWritten.ShortRemainderWraps | kernel/kheap.c:149 | a remainder shorter than a header is stored as a size of at least 2^32 - 12 |
| KheapAsWritten.FinishSplitWords | kernel/kheap.c:141-162 | on a last chunk with room for a header after the request, and a 0 at the would-be next header, the as-written allocation returns `curr + 12` and writes the same words as the corrected one |
| KheapAsWritten.FinishExactWords | kernel/kheap.c:141-162 | on an exact fit whose successor is in use, the as-written allocation returns `curr + 12` and writes the same words as the corrected one |
| KheapAsWritten.SplitLastAgrees | kernel/kheap.c:101-163 | when the first fit is the last chunk, with room for a header after the request, and the word after the request reads 0, the as-written `kmalloc` returns the corrected address and leaves the corrected heap |
| KheapAsWritten.ExactFitAgrees | kernel/kheap.c:101-163 | when the first fit is an exact fit whose successor is in use, the as-written `kmalloc` returns the corrected address and leaves the corrected heap |
| KheapAsWritten.KheapTestAllocations | kernel/kheap.c:17-23 | on a fresh heap with zeroed memory the as-written allocations of 200, 400 and 80 bytes return start + 12, start + 224 and start + 636 and leave the corrected heaps |
| KheapAsWritten.KheapTestReallocation | kernel/kheap.c:29-38 | after `kfree(arr2)` the as-written `kmalloc(400)` returns arr2's address again and leaves the corrected heap |
| KheapAsWritten.KheapTestGrowth | kernel/kheap.c:47-50 | after the test's frees, with a 0 at start + 4128, the as-written `kmalloc(3400)` grows the heap and returns start + 728, as the corrected one does |
| KheapAsWritten.StalePayloadExample | kernel/kheap.c:146-158 | a 100-byte request in a free 400-byte chunk whose old payload holds 7 at the would-be next header: the as-written heap links `curr` to that stale word and writes no remainder; the corrected heap writes a free 288-byte remainder |
| KheapAsWritten.SplitDropsTail | kernel/kheap.c:151 | splitting the first fit gives the remainder a NULL successor |
| KheapAsWritten.UnderflowExample | kernel/kheap.c:149 | a 100-byte request in a free 104-byte chunk writes 0xFFFFFFF8 over the successor's flags; the corrected heap hands over the whole chunk |
| KheapAsWritten.LostTailExample | kernel/kheap.c:151 | a 100-byte request after the source test's `kfree(arr2)` cuts the list after the remainder; the corrected heap keeps the tail |
| KheapAsWritten.ExactFitExample | kernel/kheap.c:142-146 | a 4084-byte request on a fresh heap reads past `kheap_end`; the corrected heap hands over the chunk |
| KheapAsWritten.FullHeapExample | kernel/kheap.c:118-139 | a 10-byte request on a heap whose only chunk is allocated never returns; the corrected heap allocates in a new page |

## Left out

- Heap memory is a map from the address of a 32-bit field to its value. Fields that overlap at 1 to 3 bytes apart do not alias. A word never written reads as 0. Stores by users into their payloads are not modelled.
- `page_alloc` and `map_pp` are not part of this model. The heap carries `frames`, the pages the frame allocator can still give, and `mapped`, the pages mapped so far. The source never checks their results for failure.
- The heap is assumed to have room below 4 GiB for every frame it may still get: `kheap_end + 1 + 4096 * frames <= 2^32`.
- Kheap.KheapInit: stops before the `kheap_test()` call at kernel/kheap.c:81; that call's effect on the heap is `KheapLayout.KheapTest`.
- Kheap.PageRoundUp: an integer rounding that assumes no 32-bit wrap; it is not derived from `Mmu.PGROUNDUP`.
- Kheap.Kfree: covers a pointer that is the payload of a chunk, or a pointer whose header flags read 0. Any other pointer is undefined behaviour in the source.
- KheapAsWritten: a word that reaches past `kheap_end` is taken to fault, so pages above the heap are assumed unmapped.
- The heap's debug dump and the serial prints of its test are not modelled. `KheapLayout.KheapTest` keeps the test's address checks.
- The body of `puts` and `putchar` is not modelled; `printf` records the calls it makes.
- Printf.Printf: assumes the arguments match the conversions in type and number (`ArgsFit`), and that the format does not end in a lone '%' (`WellTerminated`). The C code reads past the terminator in that case.
- Printf.DecimalConversion: INT_MIN is excluded. Its negation overflows in `itoa`.
- Itoa.Itoa, Itoa.Itoal: `ValidBase` requires a base from 2 to 16. Base 0 divides by zero (libc/stdlib/itoa.c:19-20 and 47-48), base 1 never ends for a non-zero value, and a base above 16 indexes past the 16-digit table.
- Itoa.Itoa: requires value ≠ INT_MIN. It also requires a negative value to use base 10: for other bases the value is never negated, and `value % base` indexes below the digit table.
- Vga.PutChar: a backspace at row 0, column 0 is excluded. The source's `terminal_row--` wraps there and writes outside the buffer.
- `terminal_setcolor` only assigns the colour, and `terminal_writestring` is `terminal_write` over `strlen`. Neither has a member of its own.
- `memcpy` and `memset` are inline assembly. They appear as the sequence operations they perform (`Vga.CopyRow`, and zeroing the IDT).
- Keyboard.KeyboardStep: presses of scancodes 0x3B to 0x7F are excluded. They index past both 59-entry tables. The port read `inb` is not modelled.
- Idt.Limit has no contract of its own. The limit 2047 is stated in `Idt.IdtInit`.
- `lidt`, `sti` and `hlt`, the interrupt handlers and their calling convention are not modelled. Handler addresses are parameters.
- The serial driver, the PIC, the frame allocator, the page-table code and the boot code are not part of this model.
- Interrupts preempting heap or terminal operations are not modelled. Every operation runs to completion.

## Findings

| source | as written | input that shows it | evidently intended | confidence | as-written member | corrected member |
|---|---|---|---|---|---|---|
| kernel/kheap.c:149 | the remainder size `curr->size - size - 12` is computed even when the chunk holds fewer than `size + 12` bytes, and wraps around | a free 104-byte chunk followed by an allocated one, and `kmalloc(100)`: 0xFFFFFFF8 is written into the successor's flags word | split only when the remainder can hold a header; otherwise hand over the whole chunk | high; not executed | KheapAsWritten.UnderflowExample | KheapLayout.Place |
| kernel/kheap.c:151 | a new remainder header always gets `next = NULL` | the source's own test heap after `kfree(arr2)`, and `kmalloc(100)`: the chunks at start + 624 and start + 716 drop out of the list | the remainder points at the split chunk's old successor | high; not executed | KheapAsWritten.LostTailExample | Kheap.StoredSplit |
| kernel/kheap.c:142-146 | the flags word at `curr + 12 + size` is read even when that address is `kheap_end + 1` | `kmalloc(4084)` on a fresh heap reads the first byte of the unmapped page after the heap | a chunk too small to split is handed over whole: only its flags word is written, and nothing past the chunk is read | high; not executed | KheapAsWritten.ExactFitExample | Kheap.StoredWhole |
| kernel/kheap.c:118-139 | an allocated last chunk is grown like a free one, so the loop ends only when a free chunk fits; `return NULL` is unreachable | a heap whose only chunk is allocated, and `kmalloc(10)`: every frame is used up and `kheap_grow` is then called with none left | put a new free chunk in the new page, and return NULL when the frame allocator has no page left | high; not executed | KheapAsWritten.FullHeapExample | KheapLayout.MallocAppends |
| kernel/kheap.c:146 | whether to write a remainder header is decided by reading the word at `curr + 12 + size`, which may be a payload word left by an earlier allocation | a free 400-byte chunk, followed by an allocated one, whose old payload holds 7 at offset 100, and `kmalloc(100)`: no remainder header is written and `curr` links to a "chunk" whose flags read 7 | decide from the sizes whether the chunk can be split, and write the remainder header whenever it is | high; not executed | KheapAsWritten.StalePayloadExample | Kheap.StoredSplit |

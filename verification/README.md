# A Dafny model of basic-x86-kernel

The model covers the parts of the kernel where state, addresses or time make the code
hard to follow, and states what each part promises over all inputs and all runs.
`dafny verify dfyconfig.toml` checks the whole project.

- **Paging** (`Mmu`, `PagingSpec`, `PagingRuns`, `Paging`, `Boot`, `Handover`). Physical memory
  is a word array. The processor walks it as section 4.3 of the Intel SDM, Vol. 3A says, through
  a TLB that fills and evicts at will between any two steps and keeps 4 KiB and 4 MiB translations
  apart, as INVLPG does (section 4.10.4.1). The directory and the ten page
  tables are edited by loads and stores that go through that translation, so each edit has to
  show that the edited word is still mapped. A run of mapping operations refines a page map
  updated last writer wins.
- **Formatting and console** (`Mem`, `Strings`, `Format`, `Terminal`, `Console`, `OldContents`). Byte buffers and
  video memory are byte arrays. `vsprintf` is proved against a reference rendering and
  `console_putc` against a terminal that is only a list of lines, over blank memory and over
  whatever was in video memory before.
- **Delays** (`Timer`). The current-count register is read at instants the environment picks, on a
  counter that takes either `initial` or `initial + 1` ticks per reload.
- **Interrupt stubs** (`Interrupts`). The stub runs on a stack machine; more interrupts arrive at
  every instruction boundary of a stub and anywhere in a handler, nested to any depth.
- **RSDP search** (`Rsdp`) and the bit operations everything rests on (`Words`).

The words `&` and `|` of the source are defined bit by bit in `Words`. The processor's side is
written with `/` and `%` only, so the decoding lemmas compare two independent definitions.

## What callers owe

The code checks none of these; the contracts name them.

- Mapping flags are twelve bits; without PRESENT a call unmaps. `map_4mb` replaces no table, a legal
  `map_4kb` targets no 4 MiB page, finds a free table when it needs one and leaves its table a present
  entry. What each of these guards is an equivalence: `PagingSpec.Map4MbLeaksTables` and
  `Paging.Map4MbCoherent`, `PagingSpec.Map4KbNeedsPresent`, `Handover.Map4KbNeedsTable`;
  `Handover.ExhaustedPool` says what happens with no table left.
- A 4 MiB mapping repeats the windows that show the directory or the pool instead of moving or unmapping them.
  `map_4mb` itself carries out such a move; the next call then edits whatever lies where the
  directory was (`PagingRuns.Map4MbReaches`, `PagingRuns.MovedDirectory`). Other windows may move.
- The kernel's paging structures lie inside its own windows, above 1 MiB, page-aligned and disjoint.
- A format has an argument of the right kind for each conversion, and the destination is zero and
  large enough for what the call touches (`Format.Touched`).
- Video memory holds `Console.VideoBytes` bytes; the screen has at least one column.
- The delay loops poll less than one timer period apart, on a counter that keeps moving.

## Where code and comments disagree

The model follows the code.

- `ksrc/_entry.s:95` comments the boot entries as supervisor; 0x87 has the user bit set.
- `ksrc/mmu/paging.c:100` reads the word stored at the linker symbol `__kernel_physical_end`. The
  layout's `limit` is that word, whatever it is.
- `ksrc/mmu/paging.c:69-79` dereferences physical addresses, and takes CR3 with its low twelve bits
  for the directory's. With those bits clear it works for every address on the boot directory, whose
  CR3 has them as the processor had them before (`Boot.EntryInitPaging`, `Handover.PhyaddrShifted`);
  after `paging_init`, which clears them, the first load faults until someone maps the directory's own
  physical address (`Handover.PhyaddrFaults`).
- `ksrc/mmu/paging.c:40` flushes one address. When `map_4mb` replaces a table, translations of the
  region's other pages can stay cached (`Paging.ReplacedTable`).
- `ksrc/mmu/paging.c:43-62` maps the page asked for exactly when the region is not a 4 MiB page
  (`Handover.Map4KbNeedsTable`), `ksrc/mmu/paging.c:36-41` keeps the pool sound exactly when it does
  not replace a table (`PagingSpec.Map4MbLeaksTables`), and `ksrc/mmu/paging.c:110` maps the I/O APIC
  1:1 exactly when the kernel ends below 0x3EC00000 (`Handover.ApicNeedsRoom`).
- `ksrc/printk.c:52` or-s a signed character, so characters of 0x80 and above get attribute 0xFF.
- `ksrc/printk.c:42-49` says old garbage is cleared at the start of a row; on row 0 the cleared length
  is zero (`Console.ClearReachesRow`), and an empty line is not cleared at all
  (`OldContents.NewlinesClearNothing`).
- `klib/stdio.c:11-34` drops every unknown specifier, so `%%` prints nothing.
- `ksrc/drivers/82489DX.c:63` comments the period as 1 ms; it is a thousand milliseconds' ticks.
- `ksrc/idt.h:49` calls the saved ESP the original stack pointer; it is sixteen below it, as PUSHA ran
  after the processor's frame and the error code were pushed.

## Model

| member | source | states |
|---|---|---|
| Mmu.WalkByPage | ksrc/mmu/readme.txt:5-9 | translation is page-wise: the address walk and the page walk agree on every linear address |
| Mmu.Machine.Store | ksrc/mmu/paging.c:39 | a store under a coherent TLB reaches the walk's address, and afterwards every cached translation is the walk of the memory before or after it |
| Mmu.Machine.TryStore | ksrc/mmu/paging.c:62 | a store reaches the walk's address or page-faults without effect, and every cached translation is the walk of the memory before or after |
| Mmu.Machine.Invlpg | ksrc/mmu/paging.h:145-148 | INVLPG drops the page's translations and the region's 4 MiB ones; what another page got from a table stays, and only fresh walks come back |
| Mmu.Machine.LoadCr3 | ksrc/mmu/paging.h:124-127 | MOV to CR3 leaves only translations of the new directory |
| Mmu.InvlpgRestores | ksrc/mmu/paging.h:145-148 | INVLPG is sure to leave a coherent TLB exactly when all that can be stale is what it drops |
| PagingSpec.PdeLargeDecodes | ksrc/mmu/paging.c:39 | the 4 MiB entry built with masks decodes to SIZE set, the requested frame, and PRESENT exactly when the flags have it, and is the frame's address plus the flags or 0x80 |
| PagingSpec.PdeTableDecodes | ksrc/mmu/paging.c:54 | the table entry built with masks is a present, small entry naming the table's page |
| PagingSpec.PteDecodes | ksrc/mmu/paging.c:62 | the page entry built with masks decodes to the requested frame and to all twelve requested flag bits |
| PagingSpec.Map4MbMapping | ksrc/mmu/paging.c:36-41 | the entry that maps a page, cacheability and access bits included, is after map_4mb the one asked for in the region and the old one elsewhere |
| PagingSpec.Map4KbMappingInside | ksrc/mmu/paging.c:43-65 | the same of map_4kb inside its region, where the other pages of a fresh table have no entry |
| PagingSpec.Map4KbMappingOutside | ksrc/mmu/paging.c:43-65 | and outside its region, where every page keeps its entry |
| PagingSpec.Map4MbWalk | ksrc/mmu/paging.c:36-41 | after map_4mb every page of the region goes to the 4 MiB frame, or nowhere without PRESENT, and every other page as before |
| PagingSpec.Map4KbWalk | ksrc/mmu/paging.c:43-65 | after a map_4kb outside 4 MiB pages exactly the one page changes, to the frame or, without PRESENT, to nothing; the other 1023 pages of a fresh table stay unmapped |
| PagingSpec.Map4MbKeeps | ksrc/mmu/paging.c:36-41 | map_4mb over anything but a table keeps the pool invariant |
| PagingSpec.Map4MbLeaksTables | ksrc/mmu/paging.c:36-41 | for any twelve flag bits map_4mb keeps the pool sound exactly when it does not replace a table |
| PagingSpec.Map4KbKeeps | ksrc/mmu/paging.c:43-65 | a legal map_4kb keeps the pool invariant: distinct pool tables, used exactly when referenced |
| PagingSpec.Map4KbNeedsPresent | ksrc/mmu/paging.c:43-65 | for any twelve flag bits map_4kb keeps the pool sound exactly when PRESENT is among them or the table keeps another present entry |
| PagingSpec.TableIsOwn | ksrc/mmu/paging.c:50-58 | no other region's table is the one a legal map_4kb writes to |
| PagingRuns.AllocatorMeaning | ksrc/mmu/paging.c:12-34 | the scan for present entries finds the first table no directory entry references, and none exactly when ten entries are tables |
| PagingRuns.TablesAreUsed | ksrc/mmu/paging.c:19-32 | as many tables hold a present entry as directory entries reference tables |
| PagingRuns.SelfMapped | ksrc/mmu/paging.c:45-62 | under the boot and the final directory every word of the directory and the pool is at VMA plus its physical address |
| PagingRuns.Map4MbReaches | ksrc/mmu/paging.c:36-48 | after map_4mb every directory and pool word is where the next call looks for it exactly when no window that shows one was moved or unmapped |
| PagingRuns.Map4MbKeepsWindows | ksrc/mmu/paging.c:36-41 | map_4mb leaves all kernel windows in place exactly when it repeats or misses them |
| PagingRuns.MovedDirectory | ksrc/mmu/paging.c:36-48 | a call that moves the directory's window: the address of the directory's first word then goes to another word |
| PagingRuns.MovedOtherWindow | ksrc/mmu/paging.c:36-48 | a call that moves another kernel window: the window is lost and every structure stays reachable |
| PagingRuns.RunSelfMapped | ksrc/mmu/paging.c:36-65 | the same after any legal run of mapping and unmapping calls, runs that move windows without structures included |
| PagingRuns.RunShows | ksrc/mmu/paging.c:36-65 | after any legal run any page of the lower gigabyte is at VMA plus its address exactly when the last call that covered that place put it there |
| PagingRuns.StepRefines | ksrc/mmu/paging.c:36-65 | one call, mapping or unmapping, that meets the pool's obligations refines one step of the abstract page map; it keeps the structures reachable exactly when it is legal |
| PagingRuns.Exec | ksrc/mmu/paging.c:36-65 | after a whole legal run the invariant holds and memory refines the abstract run; the windows are as before when no call moves one |
| PagingRuns.LastWriterWins | ksrc/mmu/paging.c:36-65 | after any legal run every page maps where the last call that covered it said, nowhere if that call unmapped it, and as before when none did |
| PagingRuns.RunTranslates | ksrc/mmu/paging.c:36-84 | the same of every 32-bit linear address, in any memory that refines the run |
| PagingRuns.RunEntries | ksrc/mmu/paging.c:36-65 | after any legal run the entry that maps a page, all flag bits included, is the one the last call that covered it asked for |
| Paging.StaleOnlyInRegion | ksrc/mmu/paging.c:39-40 | between map_4mb's store and its INVLPG only the remapped region can be stale |
| Paging.NewEntryIsSilent | ksrc/mmu/paging.c:54 | filling in a directory entry that was not present never makes a cached translation stale, whatever the entry |
| Paging.FreshTableIsSilent | ksrc/mmu/paging.c:54 | so map_4kb's first store leaves nothing stale, NULL table included |
| Paging.StaleOnlyAtPage | ksrc/mmu/paging.c:62-64 | between map_4kb's last store and its INVLPG only the remapped page can be stale |
| Paging.BootNeverStale | ksrc/mmu/paging.c:86-111 | while paging_init runs on the boot directory its edits never make a translation stale |
| Paging.GetPageTable | ksrc/mmu/paging.c:12-34 | returns the physical address of the first table without a present entry, 0 when there is none, with all reads going through the current translation |
| Paging.PagingMap4Mb | ksrc/mmu/paging.c:36-41 | memory becomes the specified one; the TLB is coherent on return unless another page of a replaced table was mapped, and then still holds only walks of the memory before or after, stale ones only in the region; the pool stays sound exactly when no table was replaced, the structures reachable exactly when the directory is the boot one or no window that shows them was moved or unmapped |
| Paging.Map4MbCoherent | ksrc/mmu/paging.c:36-41 | every TLB the processor may be left with after the store and the INVLPG is coherent exactly when no other page of a replaced table was mapped |
| Paging.Map4MbRight | ksrc/mmu/paging.c:36-41 | and translates rightly exactly when no other page of a replaced table was mapped to a frame other than its new one |
| Paging.ReplacedTable | ksrc/mmu/paging.c:36-65 | a pair of calls after which a cached translation to frame 5 may survive while the walk finds frame 0x10001 |
| Paging.GoverningTable | ksrc/mmu/paging.c:45-58 | the table the directory names, one from the pool, or NULL, entered in the directory with nothing left stale |
| Paging.WritePte | ksrc/mmu/paging.c:60-62 | the page entry goes to wherever VMA plus the table, in 32 bits, is mapped, and faults where it is not |
| Paging.PagingMap4Kb | ksrc/mmu/paging.c:43-65 | in every state memory and page fault are what the specified two stores give; on a legal call that is the specified mapping, the TLB is coherent, the structures stay reachable, and the pool stays sound exactly when the table keeps a present entry |
| Boot.BuildBootDirectory | ksrc/_entry.s:89-97 | entry i maps 4 MiB frame i below VMA and frame i - 768 from VMA up, each entry that frame's address plus 0x87 |
| Boot.EntryInitPaging | ksrc/_entry.s:59-76 | paging is on, on the boot directory, with a coherent TLB; CR3 is the directory's address plus its old low bits, CR0 and CR4 keep their other bits |
| Boot.ZeroPages | ksrc/mmu/paging.c:94-95 | clearing through the current translation zeroes exactly the pages asked for |
| Boot.MapKernel | ksrc/mmu/paging.c:98-105 | the mapping loop ends without 32-bit wrap for every kernel end below 1 GiB, with exactly the kernel's windows mapped, each entry i * 0x400000 + 0x83, and every other word of directory and tables 0 |
| Boot.MapApics | ksrc/mmu/paging.c:109-111 | the two APIC pages are added through the pool's first table, with entries 0xFEC0001B and 0xFEE0001B: writable, write-through, not cached |
| Boot.PagingInit | ksrc/mmu/paging.c:86-127 | leaves the final directory current, the TLB coherent, the invariant and all windows established, exactly the boot space mapped, every word of directory and tables as the two rows above say, and all other memory untouched |
| Boot.BothApics | ksrc/mmu/paging.c:107-111 | the two calls turn the windows' entries into the final ones, 1024 directory words and 10240 table words |
| Boot.WindowStep | ksrc/mmu/paging.c:100-105 | one turn of the loop is a legal call that adds exactly one window |
| Handover.BootTranslates | ksrc/_entry.s:89-97 | the boot directory maps low memory to itself and the higher half to low memory |
| Handover.FinalTranslates | ksrc/mmu/paging.c:98-113 | where every one of the 2^32 linear addresses goes right after paging_init |
| Handover.HandoverKeepsKernel | ksrc/mmu/paging.c:98-113 | every address VMA + a with a up to the kernel's end goes to a both before and after the CR3 switch |
| Handover.HandoverDropsIdentity | ksrc/mmu/paging.c:93-113 | every low address maps to itself before the switch and nowhere after it |
| Handover.HandoverMapsApics | ksrc/mmu/paging.c:107-111 | both APIC pages are 1:1 after paging_init, through the only table in use |
| Handover.Run | ksrc/mmu/paging.c:36-65 | any legal run of mapping and unmapping calls on the machine, fills and evictions interleaved, ends with a coherent TLB and in exactly the memory the run specifies, which refines the abstract run |
| Handover.Map4KbNeedsTable | ksrc/mmu/paging.c:50-62 | map_4kb returns with the page mapped as asked exactly when the region is no 4 MiB page, or its stray second store does not fault and either the page showed that frame already or the store hits the region's own directory entry so that it reads as asked |
| Handover.ExhaustedPool | ksrc/mmu/paging.c:51-62 | with ten tables in use, in every state: the NULL table's first store references physical page 0, the second goes where page 0 shows at VMA or faults, and the pool is unsound unless that store hits the entry just written |
| Handover.ExhaustedPoolBreaks | ksrc/mmu/paging.c:51-62 | where page 0 shows at VMA the page asked for is mapped and its 1023 neighbours go where the old contents of physical page 0 say |
| Handover.ApicNeedsRoom | ksrc/mmu/paging.c:98-110 | the code's first map_4kb maps the I/O APIC 1:1 exactly when the kernel ends below 0x3EC00000 |
| Handover.AcpiMappings | ksrc/acpi.c:89-95 | the two mappings are legal exactly when neither RSDT page is in a kernel window; at most three tables are in use, both pages are mapped and no other page changes |
| Handover.AcpiKeepsKernel | ksrc/acpi.c:89-95 | when legal they leave all the kernel had mapped alone exactly when neither page is an APIC page |
| Handover.AcpiPages | ksrc/acpi.c:89-95 | in memory: both RSDT pages are mapped, all other pages translate as before, at most three tables are in use |
| Handover.RsdtReadable | ksrc/acpi.c:97-98 | the address acpi_init computes, 32-bit wrap included, reads the RSDT's first byte |
| Handover.AcpiMapRsdt | ksrc/acpi.c:89-95 | the mapping code, 32-bit wrap included, performs that abstract run with a coherent TLB and leaves both RSDT pages present and writable, every other page with the entry it had |
| Handover.BootSequence | ksrc/_entry.s:27-55 | the three steps in boot order establish each other's preconditions and end in that state, all windows in place |
| Handover.GetPhyaddr | ksrc/mmu/paging.c:67-84 | for every aligned CR3, low bits included, the answer or page fault that the loads through the current translation give |
| Handover.PhyaddrIsWalk | ksrc/mmu/paging.c:67-84 | that answer is the walk, 0 when unmapped, wherever directory and table are mapped to themselves |
| Handover.PhyaddrWorksOnBoot | ksrc/mmu/paging.c:67-84 | on the boot directory, with the low bits of CR3 clear, every address is answered right |
| Handover.PhyaddrShifted | ksrc/mmu/paging.c:67-84 | with the low bits of CR3 making a given number of entries, the boot directory answers every address right exactly when they make none, or make 768 and the page behind it holds the other 768 answers |
| Handover.PhyaddrFaults | ksrc/mmu/paging.c:69-70 | after paging_init every call faults on its first load exactly while no later call covered the directory's own page number |
| Handover.PhyaddrAfterRun | ksrc/mmu/paging.c:67-84 | after any run whose last calls mapped the directory's and the table's page numbers 1:1 the answer is what the run left the address mapped to |
| Mem.MemSet | klib/mem.c:3-12 | the low byte of the value over n bytes, nothing else |
| Mem.MemCmp | klib/mem.c:14-25 | 0 exactly on equal prefixes, otherwise the signed-char difference at the first mismatch |
| Mem.MemCpy | klib/mem.c:27-37 | the exact result of an ascending copy for any overlap |
| Mem.CopyIsMoveExactly | klib/mem.c:27-37 | the copy is a move on all memories exactly when the destination does not start inside the source |
| Strings.DigitChars | klib/string.c:18-69 | the digit characters are 0x30 to 0x39 and 0x41 to 0x46 |
| Strings.ParseDigits | klib/string.c:7-22 | printed numbers of any base from 2 to 16 parse back |
| Strings.DigitsUnique | klib/string.c:7-22 | the printed form is the only one without a redundant leading zero that parses to the number |
| Strings.NoLeadingZero | klib/string.c:17-19 | only 0 prints with a leading '0' |
| Strings.WordDigits | klib/string.c:7-72 | at most 10 decimal or 8 hexadecimal digits for a 32-bit word |
| Strings.ParseSignedDigits | klib/string.c:27-37 | every int, the most negative included, reads back from at most 11 characters |
| Strings.LastDigit | klib/string.c:11-13 | the counting pass stops at the last digit's place |
| Strings.FillDigits | klib/string.c:16-19 | the backward pass writes exactly the digits |
| Strings.StrFromU | klib/string.c:7-22 | writes digits and terminator at the pointer, nothing else, and returns the digit count |
| Strings.StrHex | klib/string.c:55-72 | the same in base 16 |
| Strings.StrFromD | klib/string.c:27-37 | writes sign, digits and terminator and returns their length without the terminator |
| Strings.StrLen | klib/string.c:41-46 | the distance to the first terminator |
| Format.RenderConcat | klib/stdio.c:7-40 | closed formats render piecewise, each piece taking one argument per conversion |
| Format.RenderItems | klib/stdio.c:9-37 | byte 0x25 introduces a specifier and stays when it is the last; exactly 0x73, 0x75, 0x64 and 0x78 take an argument, each of its kind, and render it; other specifiers vanish, other bytes stand for themselves |
| Format.ClosedConcat | klib/stdio.c:7-40 | formats that do not end inside a specifier can be joined, and the conversions add up |
| Format.RenderPlain | klib/stdio.c:36-39 | a format without '%' renders to itself |
| Format.SegmentMeans | klib/stdio.c:13-33 | s renders the string; u, d and x read back as the unsigned, signed and hexadecimal word |
| Format.MatchesNeeds | klib/stdarg.h:11-12 | a format needs at least one argument per conversion |
| Format.TouchedBound | klib/stdio.c:17-18 | a call touches one byte past the rendered text, or two when a final %s looks behind its terminator |
| Format.FormatString | klib/stdio.c:13-20 | the %s cursor ends on its terminator exactly when the byte behind it is zero |
| Format.VSPrintf | klib/stdio.c:4-43 | over a zeroed destination: exactly the rendered text and a terminator, and its length |
| Terminal.FeedBytes | ksrc/printk.c:15-55 | after a wrap when the line is full, byte 0x0A ends the line and every other byte joins it |
| Terminal.LongTextWraps | ksrc/printk.c:15-19 | text without 0x0A fills every line but the last to the screen's width |
| Terminal.NothingLost | ksrc/printk.c:58-65 | the terminal's lines hold exactly the characters fed, in order, newlines apart |
| Terminal.ScrollShows | ksrc/printk.c:21-33 | moving the rows up by one pulls the blank off-screen row in |
| Terminal.VisibleRow | ksrc/printk.c:15-55 | each row shows its line or is blank |
| Console.VideoBytesCells | ksrc/printk.c:23-52 | the memory the console may touch is max(2RC, (R+2)C) cells |
| Console.CellValue | ksrc/printk.c:52 | 0xF100 or-ed with the sign-extended character is attribute 0xF1 below 0x80 and 0xFF from there on |
| Console.ScrollPictures | ksrc/printk.c:21-33 | the overlapping memcpy keeps video memory a picture of the terminal |
| Console.ClearChangesNothing | ksrc/printk.c:42-49 | the over-wide clear meets blank cells only |
| Console.ClearReachesRow | ksrc/printk.c:42-49 | the clear blanks the cursor's row exactly when the row is not row 0 or was blank |
| Console.PutcCursor | ksrc/printk.c:15-55 | byte 0x0A puts the cursor at column 0 of the row below, every other byte one column on, rows past the last scrolling in first |
| Console.PutcBytes | ksrc/printk.c:35-52 | with nothing to wrap or scroll 0x0A changes no byte, every other byte is stored at the cursor with attribute 0xF1, or 0xFF from 0x80 on, and away from column 0 nothing else changes |
| Console.PutcPictures | ksrc/printk.c:8-56 | one character keeps video memory and cursor a picture of the terminal, cells below the cursor's row zero |
| Console.PutsPictures | ksrc/printk.c:58-65 | so does any text |
| Console.ScreenShowsLastLines | ksrc/printk.c:8-65 | from blank memory every visible row shows the terminal's last lines and all below is blank |
| Console.PrintkShowsLastLines | ksrc/printk.c:68-77 | after any printk calls that fit its buffer the screen shows the last lines of all the rendered text |
| Console.Screen.StoreCell | ksrc/printk.c:52 | the 16-bit store of character and attribute, sign extension of the character included |
| Console.Screen.Putc | ksrc/printk.c:8-56 | the code performs the specified step, inside video memory |
| Console.Screen.Puts | ksrc/printk.c:58-65 | the loop feeds the text up to its terminator |
| Console.Screen.Printk | ksrc/printk.c:68-77 | the console changes exactly as by feeding the rendered text |
| Console.Screen.PrintCalls | ksrc/printk.c:68-77 | a sequence of calls does to the console what that result speaks of |
| OldContents.PutcLayers | ksrc/printk.c:8-56 | one character over any old contents: each row stays its line over a ground of blanks or of one old row |
| OldContents.ScreenOverOldContents | ksrc/printk.c:8-65 | whatever was in video memory, after any text every row shows its line, and behind it blanks or a known old row |
| OldContents.ShowsLineExactly | ksrc/printk.c:42-52 | a row shows its line and blanks for all old contents exactly when its ground is clean or the line fills it |
| OldContents.CharactersClear | ksrc/printk.c:42-52 | on more than one row every visible line with a character lies on a clean ground, but for the first line of all, which lies on the old row 0 |
| OldContents.NewlinesClearNothing | ksrc/printk.c:35-40 | after newlines alone no row is clean, however much was scrolled |
| OldContents.WrittenLinesShow | ksrc/printk.c:8-65 | so every visible line with a character, but for the first of all, is shown whatever was in memory before |
| Timer.DeltaExactly | ksrc/timer.c:19-23 | the difference of two reads is the ticks counted between them exactly when they are less than a period apart, and never more |
| Timer.ValueMoves | ksrc/timer.c:19-23 | within a period time passing changes the value, and only a reload tick passes uncounted |
| Timer.WaitTicks | ksrc/timer.c:12-34 | ends, at the first read by which the requested ticks have been counted, and within the real-tick bound of DelayInTicks |
| Timer.DelayInTicks | ksrc/timer.c:15-34 | from polling alone: in real ticks never early, overshooting by less than the last poll gap, plus one per reload that dwells on 0 |
| Timer.Lapic.Calibrate | ksrc/drivers/82489DX.c:25-52 | with T ticks in 10 ms, ticksPerMs is 62500 for T below 10 and otherwise T/10 rounded down, and ticksPerUs a thousandth of it rounded down |
| Timer.Lapic.Config | ksrc/drivers/82489DX.c:55-65 | the same, and the programmed period in 32 bits |
| Timer.Lapic.DelayUs | ksrc/timer.c:8-35 | waits the 32-bit product of rate and microseconds, within the same real-tick bound |
| Timer.Lapic.DelayMs | ksrc/timer.c:37-65 | waits the 32-bit product of rate and milliseconds, within the same real-tick bound |
| Timer.CalibrationBound | ksrc/drivers/82489DX.c:34-45 | the two truncating divisions give floor(T/10000), and a wait of u microseconds asks for less than u ticks below u*T/10000 |
| Timer.MillisecondBound | ksrc/drivers/82489DX.c:34-41 | a wait of m milliseconds asks for at most m*T/10 ticks and for less than m ticks below it |
| Timer.NoMicroseconds | ksrc/drivers/82489DX.c:38-45 | microsecond delays are no-ops exactly when T is from 10 to 9999 |
| Timer.PeriodFits | ksrc/drivers/82489DX.c:63 | the period is exact in 32 bits exactly when ticks per millisecond are at most 4294967 |
| Interrupts.AlignedExactly | ksrc/idt.s:12-18 | stub and processor agree about error codes on every vector but 21, and on every vector idt_init gives a gate |
| Interrupts.IdtInit | ksrc/idt.c:106-131 | trap gates and the exception callback for vectors 0 to 14 and 16 to 20, interrupt gates and the interrupt callback from 32 to 254, nothing for the reserved ones |
| Interrupts.ArgumentsLayout | ksrc/idt.h:44-73 | the handler's thirteen argument words one by one: vector, the eight registers of PUSHA, error code, EIP, CS, EFLAGS |
| Interrupts.ErrorWord | ksrc/idt.s:10-18 | the error word is the processor's on vectors 8, 10 to 14, 17 and 21 and 0 on all others |
| Interrupts.Cpu.Enter | ksrc/idt.s:8-22 | from delivery to the pushed vector the stack becomes vector, registers, error code and frame in the declared layout |
| Interrupts.Cpu.Handler | ksrc/idt.h:44-73 | a cdecl handler is entered at the address called with that layout above its return address and leaves it as it was |
| Interrupts.Cpu.Dispatch | ksrc/idt.s:24-29 | whatever is nested in it, the interrupt itself enters its vector's callback exactly once, and nothing when that is NULL; the stack is as before |
| Interrupts.Cpu.Lookup | ksrc/idt.s:24-25 | EAX is the vector's callback, whatever arrives in between |
| Interrupts.Cpu.Leave | ksrc/idt.s:30-36 | from label 1 to IRET registers, EIP, CS, EFLAGS and stack are the interrupted program's |
| Interrupts.Cpu.Deliver | ksrc/idt.s:8-37 | an interrupt with anything nested in it leaves ESP, all registers, EIP, CS, EFLAGS and the stack from ESP up unchanged; it enters its own callback once, or nothing when that is NULL, and every address entered meanwhile is the callback of its vector |
| Rsdp.Search | ksrc/acpi.c:65-69 | the linear address of the first 16-byte step with the signature, byte for byte, 0 when none has it |
| Rsdp.FindRsdp | ksrc/acpi.c:60-80 | EBDA first, then BIOS area; NULL exactly when no step of either carries the signature; an answer is a 16-byte step of one of the two ranges at which the eight bytes of "RSD PTR " stand |

## Left out

- What the access-right and cacheability bits of an entry make the processor do (the bits themselves are stated), CR0.WP, and the accessed and dirty bits it sets: none changes a translation here.
- PSE-36 (bits 20:13 of a 4 MiB entry) and PAT: the code leaves those bits 0.
- Paging-structure caches (section 4.10.3 of the Intel SDM, Vol. 3A): INVLPG drops them whole, and until then they only yield walks of the memory before or after the store, which the TLB may hold anyway.
- Kernel ends of 1 GiB and more, where the loop's higher-half addresses wrap, and the single-byte steps of the memset that clears whole words of the tables.
- Messages printed by the paging code: they write video memory, which lies in the kernel's first window.
- The unchecked NULL of acpi_find_rsdp in acpi_init, and everything acpi_init does after the two mappings (firmware tables, port writes).
- Paging.PagingMap4Kb: says nothing of the TLB after a stray store, and leaves the page-fault handler out.
- Handover.GetPhyaddr: takes CR3 as a multiple of 4; its two lowest bits, which the processor ignores, would make the source read across words.
- Interrupts.Cpu.Deliver: takes the stack as deep enough, and handlers as never writing above their frame; `int n` on a vector with an error code is not modelled.
- Interrupts.AlignedExactly: vector 21 has no gate, so what its stub would do is not modelled further.
- Timer.WaitTicks: both delays share one loop, written twice in the source; port I/O and the PIT behind the calibration are parameters.
- Strings.LastDigit: strfromu and strhex share their two passes here; the source writes them twice.
- GDT and IDT descriptor packing (IdtInit says which kind of gate each vector gets), strcpy, PIC, IOAPIC, PIT, RTC, i8042, keyboard and mouse drivers: fixed register scripts, device polling or single-expression bit packing.
- Multiboot headers, BIOS data area layouts, linker script and build files: columns, rows, the kernel end and the table addresses are parameters.

# persistos64: a verified model

persistos64 is a small x86-64 kernel with a user space of its own. This project models its
algorithmic core in Dafny 4.11 and proves what that core is for. Every group below refines
low-level C state (arrays of words, intrusive lists, bitmaps, ring buffers, moving cursors) to
a simple abstract object, and then proves properties of whole runs of it.

- **Software division** (`Words`, `ShiftSubtract`, `Division64`, `Division128`). The vendored
  runtime's shift-subtract division on one and on two words, with its branch-free sign masks,
  and Knuth's Algorithm D in wrapping 64-bit arithmetic, against exact quotient and remainder.
- **Memory** (`Kmem`, `PageTables`, `Paging`, `TableCount`, `Userspace`, `Slab`). A first-fit page
  allocator; four-level page tables as an unshared tree of owned pages inside one array of
  physical words; loading that succeeds exactly when the free pages suffice, and teardown that
  returns exactly what was taken; a bitmap slab allocator whose live objects never overlap,
  over every run of several allocators sharing the page allocator.
- **Terminal** (`Screen`, `EscapeSequences`, `Terminal`). The escape-sequence machine over a grid
  of characters, what each byte and sequence does to any grid, a readable description of what
  plain text looks like, and dirty-flag repainting that always equals a full repaint.
- **NVMe** (`NvmeQueues`, `NvmeProtocol`, `NvmeStarvation`, `NvmeDisk`). Submission and
  completion rings with phase bits as an interleaving of tasks, controller and interrupt
  handler (sections 4.1 and 4.6 of NVM Express 1.4); page-granular transfers as a flat byte
  array; partitions of it that do not disturb one another.
- **Files** (`Bytes`, `CStrings`, `Ramfs`, `Vfs`, `PathNames`, `Tar`). Cluster lists as a byte
  string, and as the flat file it stands for through whole runs; path resolution as a walk over
  names, with the one outcome that fits where they lead; and archive extraction that creates
  exactly the archive.
- **Shell** (`ShellParser`, `ShellScanner`, `ShellSyntax`, `ShellExpand`, `Editor`,
  `EditorDisplay`). The recursive-descent parser against an independent quote-removing scanner,
  both against the language spelled out from its words, which they accept exactly; word
  expansion into fixed buffers; and the line editor, whose output is interpreted by the
  terminal's own model.
- **Processes** (`List`, `FdTable`, `Scheduler`, `TaskList`, `ExecArgs`). Intrusive circular
  lists with real links, the descriptor tables sorted in them, round-robin scheduling as a
  state machine over system calls that the linked task list refines, and the argument block
  between exec and `_start`.

Methods have the loops and the state of the C functions they are named after and are proved
against specification functions on values; lemmas prove what those functions mean. Numbers are
exact integers, with reductions to machine words written out where a result depends on them;
"Left out" names the exceptions. `Options` and `Sets` hold what the modules share.

## What the code does differently from what one would expect

Each of these is a theorem, with its exact condition.

- `__divdi3` does not truncate toward zero for INT64_MIN / -1, and only there
  (`SignedDivision.DivDi3`).
- Mapping a user page twice loses the first frame for good; teardown is exact if and only if
  no page was listed twice (`Userspace.LoadAndFree`, and `Userspace.RepeatedPage` for an input).
- With 128 commands live, `start_command` goes round for ever although the submission ring has
  room, and such states are reachable (`NvmeStarvation`).
- The clipping of `nvme_read` and `nvme_write` fails for offsets more than 2^63 past the end,
  and reads of 2^63 bytes or more are not clipped (`NvmeDisk.WriteClipping`,
  `NvmeDisk.ReadClipping`, with inputs in `NvmeDisk.FarOffsetMoves` and
  `NvmeDisk.LongReadUnclipped`).
- A partition is left by writes past its end (`NvmeDisk.WriteConfinement`) and by reads past its
  end (`NvmeDisk.ReadConfinement`, whose condition is narrower for long reads), for example at
  the offsets of `NvmeDisk.NeighbourReached` and `NvmeDisk.LongReadEscapes`.
- A ramfs file that was truncated and grown again shows its old bytes, exactly when those cut
  off within the last kept cluster were not zero (`Ramfs.RegrowthIsZero`); without such a
  truncation it is a flat byte string through every run (`Ramfs.RunIsFlat`).
- A ramfs write whose end passes 2^64 stores nothing of its data (`Ramfs.WriteExactlyWhen`), and
  a read goes wrong exactly when it starts behind the end of the file but inside its last
  cluster, or its end passes 2^64 and it does not start behind the end of the file and all
  that the wrapped end reaches (`Ramfs.ReadExactlyWhen`). `Ramfs.WriteLost`,
  `Ramfs.ReadBehindEnd` and `Ramfs.LongReadLost` are inputs.
- `expand_word` writes its NUL one byte too far: whether the word is terminated depends on what
  the buffer held (`ShellExpand.TerminatedExactlyWhen`), and a word of 399 bytes writes behind
  its buffer (`ShellExpand.StaysInBuffer`).
- Enter does not reset the editor's cursor offset (`Editor.LineEditor.Enter`).
- `open` returns a descriptor that is in use, or breaks the order, if the largest one is
  2^32 - 1 (`FdTable.OpenFresh`, and `FdTable.DescriptorReturns` for an input).
- Freeing pages that are not in use makes the count of used pages wrong (`Kmem.Memory.KpageFree`).

## Model

| member | source | states |
|---|---|---|
| ShiftSubtract.SignMaskDecides | kernel/src/lib/cc-runtime.c:2523-2525 | The sign mask of the wrapped word d - r - 1 is all ones exactly when r >= d, and its low bit and its conjunction with d are the carry and the subtrahend, for every d and r whose difference fits a signed word. |
| ShiftSubtract.NextBit | kernel/src/lib/cc-runtime.c:2518-2519 | The bit the next iteration consumes and what is left of the dividend in the register, from the register's exact contents. |
| ShiftSubtract.Step | kernel/src/lib/cc-runtime.c:2517-2526 | One iteration keeps the loop's exact invariant: dividend = (quotient so far * divisor + remainder) * 2^k + bits still to come, remainder below divisor, with the register holding those bits above the quotient bits. |
| ShiftSubtract.Iterate | kernel/src/lib/cc-runtime.c:2517-2526 | The branch-free body on wrapped words computes that step. |
| ShiftSubtract.InitialShift | kernel/src/lib/cc-runtime.c:2512-2516 | The first shift by clz(d) - clz(n) + 1 establishes the invariant with the remainder already below the divisor. |
| ShiftSubtract.Finished | kernel/src/lib/cc-runtime.c:2527-2528 | When no iteration is left, (n << 1) or carry is the quotient and r the remainder. |
| Division.ShiftCountCases | kernel/src/lib/cc-runtime.c:2506-2511 | The unsigned difference of leading-zero counts exceeds 63 only if n < d, is 63 only if d is 1, and is otherwise the difference of the bit lengths. |
| Division.SubtractLoop | kernel/src/lib/cc-runtime.c:2512-2528 | The loop of both routines ends with the exact quotient and remainder. |
| Division.UDivDi3 | kernel/src/lib/cc-runtime.c:2503-2529 | The exact quotient for every dividend and every nonzero divisor. |
| Division.UModDi3 | kernel/src/lib/cc-runtime.c:3000-3025 | The exact remainder for every dividend and every nonzero divisor. |
| SplitDivision.SplitShift | kernel/src/lib/cc-runtime.c:2703-2706 | The shift of four 32-bit words is the shift of the two 64-bit registers of __udivdi3. |
| SplitDivision.ShortShift | kernel/src/lib/cc-runtime.c:2681-2692 | For shifts up to 32 the word expressions are n >> sr and n << (64 - sr). |
| SplitDivision.LongShift | kernel/src/lib/cc-runtime.c:2662-2667 | The same for shifts above 32. |
| SplitDivision.HighPower | kernel/src/lib/cc-runtime.c:2604-2611 | A divisor that is a power of two above the low word: the mask and the shift give remainder and quotient. |
| SplitDivision.LowPower | kernel/src/lib/cc-runtime.c:2635-2644 | A power of two in the low word: likewise, with the shift straddling the words. |
| SplitDivision.SplitLoop | kernel/src/lib/cc-runtime.c:2700-2720 | From any shift state that a branch prepares, the common loop ends with the exact quotient and remainder. |
| SplitDivision.DivideByHighWord | kernel/src/lib/cc-runtime.c:2580-2629 | Divisor with a zero low word: both results exact in every sub-case, including the early exit on a wrapped shift count. |
| SplitDivision.DivideByLowWord | kernel/src/lib/cc-runtime.c:2631-2668 | Divisor of one word: both results exact for a power of two and for shifts below, at and above the word size. |
| SplitDivision.DivideByBothWords | kernel/src/lib/cc-runtime.c:2669-2693 | Divisor with both words nonzero: both results exact. |
| SplitDivision.UDivModDi4 | kernel/src/lib/cc-runtime.c:2552-2721 | Every case yields the exact quotient and remainder, hence those of __udivdi3 and __umoddi3. |
| SignedDivision.TruncationIdentity | kernel/src/lib/cc-runtime.c:1198-1206 | The reference division (fraction discarded) satisfies section 6.5.5 of ISO C11: quotient times divisor plus remainder is the dividend, and the remainder is short and has the dividend's sign. |
| SignedDivision.NegateByMask | kernel/src/lib/cc-runtime.c:1201-1202 | (x ^ s) - s on words is identity for s = 0 and negation for s = -1. |
| SignedDivision.DivDi3 | kernel/src/lib/cc-runtime.c:1198-1206 | The result is the truncated quotient if and only if the operands are not INT64_MIN and -1; in that one case it is INT64_MIN. |
| SignedDivision.ModDi3 | kernel/src/lib/cc-runtime.c:1558-1567 | The truncated remainder on every input with a nonzero divisor. |
| WideDivision.FirstEstimate | kernel/src/lib/cc-runtime.c:2795-2796 | The estimate un / vn1 is never below the true digit nor above 2^32 + 1, and rhat, computed in wrapping words, is its exact remainder. |
| WideDivision.TestIsExact | kernel/src/lib/cc-runtime.c:2799 | The loop's comparison in wrapping words decides the exact comparison. |
| WideDivision.CorrectionStep | kernel/src/lib/cc-runtime.c:2799-2804 | A failed test means the estimate is too big, its decrement and the sum for rhat do not wrap, and leaving the loop early because rhat reached 2^32 is sound. |
| WideDivision.QuotientDigit | kernel/src/lib/cc-runtime.c:2794-2804 | One digit of Algorithm D (TAOCP Vol. 2, section 4.3.1) is exact and its correction loop runs at most twice. |
| WideDivision.PartialRemainder | kernel/src/lib/cc-runtime.c:2806 | The wrapped partial remainder equals the exact one and is below the divisor. |
| WideDivision.NormalizedDividend | kernel/src/lib/cc-runtime.c:2774-2784 | Shifting the dividend left loses no bit and keeps its top word below the divisor. |
| WideDivision.TwoDigitQuotient | kernel/src/lib/cc-runtime.c:2786-2821 | On a normalised divisor the two digits and the last partial remainder are the exact quotient and remainder, each correction loop running at most twice. |
| WideDivision.UDiv128By64 | kernel/src/lib/cc-runtime.c:2763-2822 | For u1 < v: quotient * v + r = u1 * 2^64 + u0 and r < v, with at most two corrections per digit. |
| WideDivision.SignMask128Decides | kernel/src/lib/cc-runtime.c:2887-2888 | The 128-bit sign mask decides the comparison without overflow. |
| WideDivision.DividingStep | kernel/src/lib/cc-runtime.c:2879-2892 | One iteration of the 128-bit loop keeps the exact invariant. |
| WideDivision.Aligned | kernel/src/lib/cc-runtime.c:2873-2878 | Aligning the leading bits shifts the divisor by at most 63 without losing a bit. |
| WideDivision.DivideBy64 | kernel/src/lib/cc-runtime.c:2854-2872 | Divisors below 2^64: both results exact, with one or two 64-bit digits. |
| WideDivision.DivideBy128 | kernel/src/lib/cc-runtime.c:2873-2895 | Larger divisors: both results exact. |
| WideDivision.UDivModTi4 | kernel/src/lib/cc-runtime.c:2840-2896 | Exact quotient and remainder of any 128-bit dividend by any nonzero 128-bit divisor. |
| Kmem.Memory.constructor | kernel/src/mm/kmem.c:51-58 | The pages that hold the page array are reserved, all others free, and nothing is counted as used. |
| Kmem.Memory.KpageAlloc | kernel/src/mm/kmem.c:61-86 | The lowest run of n free pages is taken and counted; failure happens exactly when there is no such run, and changes nothing. |
| Kmem.Memory.KpageFree | kernel/src/mm/kmem.c:88-94 | Exactly the given pages become free, and the used count is right afterwards if and only if all of them were used. |
| Kmem.UsedCountMark | kernel/src/mm/kmem.c:81-93 | Taking or returning n pages changes the number of used pages by n. |
| Kmem.UsedCountFreed | kernel/src/mm/kmem.c:88-94 | Freeing n pages removes at most n from the number of used ones, and n if and only if all were used. |
| Paging.PathIsPage | kernel/src/mm/map.c:19-40 | Two canonical addresses share the four table indices exactly when they are on one page. |
| Paging.PathDigits | kernel/src/mm/map.c:19-40 | The four indices, 9 bits each from bit 39 down, are the digits of the page number: they give it back. |
| PageTables.LinkTree | kernel/src/mm/map.c:23-42 | Writing one entry keeps the lower-half tables an unshared tree and changes the owned pages by exactly what the entry dropped and gained. |
| PageTables.LinkTranslate | kernel/src/mm/map.c:23-42 | Writing one entry changes the translation of exactly the paths through it. |
| PageTables.TreeFrame | kernel/src/mm/map.c:13-43 | A tree and its owned pages depend on the contents of its own tables only. |
| PageTables.TranslateFrame | kernel/src/mm/map.c:13-43 | So does every translation through it. |
| PageTables.MappedPermits | kernel/src/mm/map.c:8-42 | Whatever the tables map, the entries at all four levels allow user programs to write. |
| Paging.AttributeBits | kernel/src/mm/map.c:8-10 | Entries for tables and pages are present, user-accessible and writable; tables are no large pages; only device memory is not cached. |
| Paging.EnsureTable | kernel/src/mm/map.c:19-24 | One step of the walk: an existing table is followed unchanged; a missing one is made from a free page, zeroed and linked, changing no translation; failure exactly when one is missing and no page is free. |
| Paging.WalkTables | kernel/src/mm/map.c:17-38 | The three steps succeed exactly when there are as many free pages as missing tables, and take exactly that many. |
| Paging.SetPageMapping | kernel/src/mm/map.c:13-43 | Succeeds exactly when the physical address is page-aligned and enough pages are free; then the address translates to it, every other user path translates as before, and the tree, its pages in use and the root's upper half are kept. |
| Paging.UpperHalfKept | kernel/src/mm/map.c:13-43 | Translation through the kernel's half of the root is unchanged by mapping a user page. |
| TableCount.TableIsPrefix | kernel/src/mm/map.c:17-38 | While exactly the paths of a set are mapped and every table is counted, a table is there if and only if its indices begin some path of the set. |
| TableCount.MissingCount | kernel/src/mm/map.c:17-38 | The tables missing on a path are as many as the proper prefixes it adds to those of the mapped paths. |
| Paging.DataStaysApart | kernel/src/mm/map.c:13-43 | No mapped data frame becomes a table page. |
| Userspace.MapUserPage | kernel/src/mm/userspace.c:25-30 | A user page is mapped to a fresh zeroed frame of its own; the account of owned pages, mapped paths and pages lost by remapping is kept; success exactly when there is a free page for it and one for every missing table, and then exactly those are taken. |
| Userspace.MapRange | kernel/src/mm/userspace.c:40-43 | All pages of one range, in order; success exactly when the free pages cover one per page and one per table on their paths. |
| Userspace.SetupUserspaceMemory | kernel/src/mm/userspace.c:33-45 | Succeeds exactly when there is a free page for every page listed and for every table on their paths; then all pages of all ranges are mapped, each to its own frame, and the root's upper half is untouched. |
| Userspace.AddressesLoaded | kernel/src/mm/userspace.c:33-45 | Once a program's ranges are loaded, a user address translates if and only if it lies in a page that some range touches, and then the program may write to it. |
| Userspace.FreeTables | kernel/src/mm/userspace.c:49-74 | Freeing a table's entries returns every page owned through it exactly once and writes nothing outside its tables. |
| Userspace.FreeUserspaceMemory | kernel/src/mm/userspace.c:49-74 | Every page of the address space but the root is returned, no user path translates any more, and the upper half is untouched; what stays used is exactly what remapping had lost. |
| Userspace.LoadAndFree | kernel/src/mm/userspace.c:33-74 | Loading ranges into an empty address space and freeing it: success exactly when the free pages suffice; then the page statuses are restored exactly if and only if no page was listed twice, and the used count grows by the number of repeats. |
| Userspace.RepeatedPage | kernel/src/mm/userspace.c:33-45 | A range of one page listed twice is two pages on one path and needs five free pages: a load that LoadAndFree says succeeds and loses a page. |
| Userspace.LeakCount | kernel/src/mm/userspace.c:25-30 | Mapping a page again loses one frame, mapping a new one none. |
| Userspace.TakenCount | kernel/src/mm/kmem.c:81-84 | Statuses that differ by a set of free pages taken differ in the used count by its size. |
| Slab.OrBit | kernel/src/mm/slab.c:84 | w or 1 << j sets bit j and keeps every other. |
| Slab.XorBit | kernel/src/mm/slab.c:31 | w ^ 1 << j flips bit j and keeps every other. |
| Slab.SlotInverse | kernel/src/mm/slab.c:72-78 | An object lies in its page behind the header, and slab_free's mask, division and remainder recover its page and slot. |
| Slab.SlotsLargest | kernel/src/mm/slab.h:12-25 | n slots are allowed if and only if n is at most 256 and n objects fit behind a 48-byte header into 4096 bytes. |
| Slab.SlotsInLine | kernel/src/mm/slab.c:32 | The slots start behind the header and follow one another without gaps. |
| Slab.Allocator.LowestFree | kernel/src/mm/slab.c:19-36 | The scan of a header finds the lowest free slot, or that there is none. |
| Slab.Allocator.TryAlloc | kernel/src/mm/slab.c:11-38 | Takes the lowest free slot of the first page that has one, fails exactly when all pages are full, and writes only that page's header. |
| Slab.Allocator.InitHeader | kernel/src/mm/slab.c:47-59 | A new header marks free exactly the slots that fit the page, at most 256. |
| Slab.Allocator.NewPage | kernel/src/mm/slab.c:46-59 | The lowest free page joins the head of the list; failure exactly when there is none. |
| Slab.Allocator.Alloc | kernel/src/mm/slab.c:40-70 | Returns a slot that was not live, by first fit, adding a page exactly when all are full; fails exactly when they are full and no page can be had or the object does not fit one, and then changes nothing but, in the latter case, the page added; the free bits stay the complement of the live slots. |
| Slab.Allocator.Free | kernel/src/mm/slab.c:72-85 | Succeeds exactly on slot boundaries, and then removes exactly that slot from the live ones. |
| Slab.BitChanged | kernel/src/mm/slab.c:30-32 | Flipping or setting the bit of one slot keeps the bits the exact complement of the live slots. |
| Slab.AllocFrom | kernel/src/mm/slab.c:40-70 | slab_alloc of one of several allocators sharing the page allocator is a step of the heap's transition relation, whether it succeeds or fails; failure is characterised exactly, changes no live object of any allocator and, unless the object does not fit a page, nothing at all. |
| Slab.FreeTo | kernel/src/mm/slab.c:72-85 | And slab_free of an address is a step: the release of exactly the slot at that address. |
| Slab.StepKeeps | kernel/src/mm/slab.c:11-85 | Any step of any allocator, or of anybody else on their own pages and objects, keeps all allocators well formed on disjoint used pages. |
| Slab.RunKeeps | kernel/src/mm/slab.c:11-85 | And so does every run. |
| Slab.LiveObjectsApart | kernel/src/mm/slab.c:32-85 | Two different live objects, of the same or different allocators, share no byte and lie in used pages behind the headers. |
| Screen.RunSplit | kernel/src/drivers/tty.c:227-331 | Writing a ++ b is writing a and then b, even inside an escape sequence; the cursor stays on the grid whatever the bytes (result type of the run). |
| EscapeSequences.CursorMoves | kernel/src/drivers/tty.c:233-256 | ESC [ A, B, C and D move the cursor one cell up, down, right and left, not past the edge, and change nothing else. |
| EscapeSequences.CursorHome | kernel/src/drivers/tty.c:263-266 | ESC [ H moves the cursor to the first cell and changes nothing else. |
| EscapeSequences.EraseLine | kernel/src/drivers/tty.c:257-262 | ESC [ K blanks the cursor's row from the cursor on and no other cell. |
| EscapeSequences.EraseDown | kernel/src/drivers/tty.c:267-282 | ESC [ J blanks every cell from the cursor on in reading order, and no cell before it; the cursor stays. |
| EscapeSequences.OtherSequences | kernel/src/drivers/tty.c:283-294 | Any other final byte, and any byte but the bracket behind ESC, changes nothing. |
| EscapeSequences.RowControls | kernel/src/drivers/tty.c:302-307 | Carriage return and backspace move the cursor within its row only. |
| EscapeSequences.NewLineByte | kernel/src/drivers/tty.c:295-301 | A newline starts the next row; in the last one every row moves up and the last becomes blank. |
| EscapeSequences.PrintedByte | kernel/src/drivers/tty.c:308-320 | Any other byte goes into the cursor's cell; the cursor moves on, from the end of a row to the next one. |
| EscapeSequences.ClearScreen | userspace/src/clear.c:6 | The bytes the clear program writes blank every cell and put the cursor first, whatever was shown. |
| Screen.WrapExact | kernel/src/drivers/tty.c:212-225 | The rows of a wrapped line joined are the line, and all but the last are full. |
| Screen.LinesJoin | kernel/src/drivers/tty.c:248-331 | The lines of a text joined by newlines are the text, and hold none. |
| Screen.RowsSnoc | kernel/src/drivers/tty.c:248-331 | How one more character changes the wrapped rows: the last is extended, and another opened when it is full. |
| Screen.TextDisplayed | kernel/src/drivers/tty.c:227-331 | From a fresh terminal any text without ESC, CR and BS shows as the last rows of its lines wrapped at the width, blank elsewhere, cursor at its end. |
| Screen.GlyphsApart | kernel/src/drivers/tty.c:147-153 | The characters 32 to 127 have consecutive glyphs, no two the same; every other byte has that of the space. |
| Terminal.RenderTells | kernel/src/drivers/tty.c:142-196 | Two grids of one size that render alike show the same glyphs with the cursor in the same place, on the same terminal. |
| Terminal.Vt.constructor | kernel/src/drivers/tty.c:46-61 | A terminal starts empty, at its clipped size, with every repaint flag set. |
| Terminal.Vt.SetChar | kernel/src/drivers/tty.c:116-125 | One cell and its flag change. |
| Terminal.Vt.SetCursor | kernel/src/drivers/tty.c:127-138 | The cursor moves, and exactly the flags of the cell it leaves and the cell it enters are set besides those that were. |
| Terminal.Vt.ShiftRows | kernel/src/drivers/tty.c:212-225 | The rows move up one and the last is blank; every cell that differs is flagged. |
| Terminal.Vt.WriteBytes | kernel/src/drivers/tty.c:227-327 | The in-place machine computes the grid's run, whose bytes and sequences EscapeSequences describes one by one, and every cell whose looks changed is flagged. |
| Terminal.Vt.Repaint | kernel/src/drivers/tty.c:198-208 | If every unflagged cell was right, then after drawing the flagged ones the framebuffer is a full render of the terminal, and nothing outside it was drawn. |
| Terminal.Console.constructor | kernel/src/drivers/tty.c:71-87 | After initialisation the frame is a full render of the first terminal over the desktop. |
| Terminal.Console.Write | kernel/src/drivers/tty.c:227-331 | After a write to any terminal the frame is still a full render of the active one, the written one ran the bytes, the others are untouched. |
| Terminal.Console.SetActive | kernel/src/drivers/tty.c:63-68 | After a switch the frame is a full render of the new active terminal. |
| Terminal.Console.FrameShows | kernel/src/drivers/tty.c:46-87 | The frame shows the active terminal's glyphs and cursor on at most 135 rows of 240 cells, and the desktop around them. |
| NvmeQueues.Device.StartCommand | kernel/src/drivers/nvme.c:50-61 | Hands out the lowest free command id, when there is one. |
| NvmeQueues.Device.Submit | kernel/src/drivers/nvme.c:495-527 | Enqueues one command and rings the doorbell: the new driver state in full. |
| NvmeQueues.Device.Free | kernel/src/drivers/nvme.c:80-83 | The id becomes free, nothing else changes. |
| NvmeQueues.Device.HandleInterrupt | kernel/src/drivers/nvme.c:466-490 | Consumes entries one by one until the phase test fails, and rings the doorbell exactly if it consumed any. |
| NvmeProtocol.FullTest | kernel/src/drivers/nvme.c:497 | The full test holds exactly when 63 submissions are not known to have been fetched. |
| NvmeProtocol.PhaseTestExact | kernel/src/drivers/nvme.c:468-473 | At any wrap-around the phase test is true exactly when a posted completion has not been consumed, and the entry found is the oldest such one. |
| NvmeProtocol.SubmitKeeps | kernel/src/drivers/nvme.c:495-527 | A submission keeps the protocol invariant: ring contents, phases, ownership of ids, and executions. |
| NvmeProtocol.PostKeeps | kernel/src/drivers/nvme.c:466-490 | A posting by the controller keeps it, and overwrites no unconsumed entry. |
| NvmeProtocol.ConsumeKeeps | kernel/src/drivers/nvme.c:475-484 | A turn of the handler keeps it. |
| NvmeProtocol.ReturnKeeps | kernel/src/drivers/nvme.c:73-83 | Leaving the wait and freeing the id keeps it. |
| NvmeProtocol.WaitIsOver | kernel/src/drivers/nvme.c:73-78 | A wait ends only after the completion of that very command was consumed. |
| NvmeProtocol.RunKeeps | kernel/src/drivers/nvme.c:466-530 | Every interleaving of submitters, controller and handler keeps the invariant. |
| NvmeProtocol.Safety | kernel/src/drivers/nvme.c:50-82 | In every run at most 63 commands and 63 completions are in the rings, no id in flight is handed out again, and a wait ends only after its own completion. |
| NvmeProtocol.InOrder | kernel/src/drivers/nvme.c:466-484 | Postings keep their place and each turn of the handler consumes the next one: once each, in order. |
| NvmeStarvation.StarvationReachable | kernel/src/drivers/nvme.c:50-61 | A run of 128 submissions exists after which the ring has room but no id is free, so start_command does not return. |
| NvmeStarvation.FreeIdIffRoom | kernel/src/drivers/nvme.c:50-61 | In every reachable state an id is free if and only if fewer than 128 commands are live. |
| NvmeDisk.WriteClipping | kernel/src/drivers/nvme.c:629-635 | The write's clipping moves the right number of bytes if and only if the offset is at most 2^63 past the size, or the length is zero. |
| NvmeDisk.ReadClipping | kernel/src/drivers/nvme.c:547-553 | The read's clipping does if and only if moreover the length is below 2^63. |
| NvmeDisk.FarOffsetMoves | kernel/src/drivers/nvme.c:547-553 | One byte asked for 2^63 + 1 bytes past the end is moved, for every size. |
| NvmeDisk.LongReadUnclipped | kernel/src/drivers/nvme.c:547-553 | A read of 2^63 bytes is not clipped at any offset. |
| NvmeDisk.Disk.LbaOfPage | kernel/src/drivers/nvme.c:558 | The block address computed in 32 bits is that of the page of the offset. |
| NvmeDisk.Disk.ReadChunk | kernel/src/drivers/nvme.c:556-572 | One page of the read loop copies the right slice. |
| NvmeDisk.Disk.WriteChunk | kernel/src/drivers/nvme.c:638-655 | One page read, modified and written back changes exactly the slice. |
| NvmeDisk.Disk.Read | kernel/src/drivers/nvme.c:542-575 | A read of any offset and length is a slice of the flat array, clipped at its end. |
| NvmeDisk.Disk.Write | kernel/src/drivers/nvme.c:624-658 | A write is an overlay on the flat array, clipped at its end. |
| NvmeDisk.Partition.Write | kernel/src/drivers/nvmepart.c:110-118 | Inside the partition: the disk is overlaid with exactly the clipped bytes at first LBA times block size plus offset, and every byte outside its blocks is unchanged. |
| NvmeDisk.Partition.Read | kernel/src/drivers/nvmepart.c:100-108 | Inside the partition: the clipped bytes at first LBA times block size plus offset of the disk. |
| NvmeDisk.NeighbourKept | kernel/src/drivers/nvmepart.c:100-118 | What changes within the blocks of one partition only leaves every slice of another with other LBAs as it was. |
| NvmeDisk.ReadAroundWrite | kernel/src/drivers/nvmepart.c:100-118 | Reading one partition before and after a write to another with other LBAs returns the same bytes. |
| NvmeDisk.WriteConfinement | kernel/src/drivers/nvmepart.c:110-118 | For any offset and length, what nvmepart_write moves lies in the partition if and only if the offset is inside it, or nothing is asked for, or the offset is past the whole disk but at most 2^63 past it. |
| NvmeDisk.ReadConfinement | kernel/src/drivers/nvmepart.c:100-108 | What nvmepart_read moves lies in the partition if and only if the same holds and, for an offset past the disk, the length or the wrapped room behind the partition is below 2^63. |
| NvmeDisk.NeighbourReached | kernel/src/drivers/nvmepart.c:100-118 | At an offset one byte past the end of a 4096-byte partition both calls reach the next one. |
| NvmeDisk.LongReadEscapes | kernel/src/drivers/nvmepart.c:100-108 | A read of 2^63 bytes at an offset past the disk is passed on in full, although a write there moves nothing. |
| Ramfs.Inode.constructor | kernel/src/fs/ramfs.c:28-43 | A new file has no clusters and size zero. |
| Ramfs.Inode.CreateClusters | kernel/src/fs/ramfs.c:170-183 | The do-while loop creates exactly the missing clusters, zeroed, at the end, and finds the first unneeded one. |
| Ramfs.Inode.DropClusters | kernel/src/fs/ramfs.c:186-195 | The second loop removes exactly the clusters from there on. |
| Ramfs.Inode.SetSize | kernel/src/fs/ramfs.c:167-198 | The cluster list refines the resize of a byte string: max(1, ceil(size/128)) clusters, kept bytes kept, new ones zero. |
| Ramfs.Inode.Write | kernel/src/fs/ramfs.c:122-160 | A write, with its end taken modulo 2^64, leaves what Stored says: the overlay of exactly [offset, offset + length) after growing the file if needed, or, when the end wraps, no more than a resize. |
| Ramfs.Inode.WriteCluster | kernel/src/fs/ramfs.c:140-155 | The part of a write that falls into one cluster. |
| Ramfs.File.Write | kernel/src/fs/vfs.c:167-175 | vfs_write: that write, and the offset advances modulo 2^64, except by 2^64 - 1, which reads as the error value -1. |
| Ramfs.File.Read | kernel/src/fs/ramfs.c:82-120 | A read, with its end taken modulo 2^64, returns the content from the offset on, as many bytes as there are of those asked for, and advances by that number, for every offset and length that ReadExactlyWhen allows. |
| Ramfs.WriteBytes | kernel/src/fs/ramfs.c:122-160 | Every byte after a write: the data's, else the old one, else zero. |
| Ramfs.ResizeBytes | kernel/src/fs/ramfs.c:167-198 | A resize gives the size asked for and the least whole number of 128-byte clusters that holds it, at least one; clusters that stay keep all their bytes, new ones are zero. |
| Ramfs.ChunkingIrrelevant | kernel/src/fs/vfs.c:155-182 | Any cutting of a sequential write into chunks gives the same file as one write. |
| Ramfs.WriteThenRead | kernel/src/fs/ramfs.c:82-160 | Reading back gives what was written, between the unchanged content before and after it. |
| Ramfs.RegrowthIsZero | kernel/src/fs/ramfs.c:167-198 | For a file with zeros behind its end: truncating to a and growing to b shows zeros from a on if and only if the bytes the file showed from a to the end of a's cluster, as far as b reaches, were zero. |
| Ramfs.StaleByteReturns | kernel/src/fs/ramfs.c:186-196 | Two bytes written, truncated to one and grown to two: the second is back. |
| Ramfs.ZeroTailKept | kernel/src/fs/ramfs.c:122-198 | A new file has zeros behind its end, and every write and every growth keeps them. |
| Ramfs.ShrinkKeepsZeroTail | kernel/src/fs/ramfs.c:186-196 | A truncation keeps them if and only if the bytes it cuts off within the last kept cluster were zero. |
| Ramfs.StepIsFlat | kernel/src/fs/ramfs.c:122-198 | With zeros behind the end every write and resize does to the content what it should do to a flat byte string; the zeros stay if and only if it is not a truncation that cuts off nonzero bytes within a cluster. |
| Ramfs.RunIsFlat | kernel/src/fs/ramfs.c:122-198 | Through every run of writes and resizes without such a truncation the file is that flat byte string. |
| Ramfs.ReadExactlyWhen | kernel/src/fs/ramfs.c:82-115 | A read copies a proper range of the right length if and only if offset + length is below 2^64 and the offset is not inside the last cluster behind the end, or the sum wraps and the offset is behind all that the wrapped end reaches. |
| Ramfs.ReadBehindEnd | kernel/src/fs/ramfs.c:82-115 | One byte asked for at offset 10 of a 9-byte file: the range to copy has a negative length. |
| Ramfs.LongReadLost | kernel/src/fs/ramfs.c:82-92 | A read of 2^64 - 1 bytes at offset 1 of a 9-byte file delivers none of the 8 that are there. |
| Ramfs.WriteExactlyWhen | kernel/src/fs/ramfs.c:122-160 | ramfs_write stores the data if and only if offset + length is below 2^64 or there is none. |
| Ramfs.WriteLost | kernel/src/fs/ramfs.c:122-160 | Two bytes written at offset 2^64 - 1 of a new file leave one zero byte. |
| CStrings.StrNCmp | kernel/src/lib/cstd.c:170-174 | Zero exactly when the strings, cut at n bytes or at their NUL, are equal; buffers may end at their NUL. |
| CStrings.StrKLCmp | kernel/src/lib/cstd.c:177-192 | Zero exactly when the C string equals the string of known length. |
| CStrings.ParseOct | kernel/src/lib/cstd.c:209-225 | The leading octal digits, all of them, and their value modulo 2^64. |
| CStrings.OneEnd | kernel/src/lib/cstd.c:194-198 | The end of a C string, and of a run of octal digits, is determined by the bytes. |
| Vfs.FileTree.Search | kernel/src/fs/vfs.c:110-132 | The loop over a directory's entries finds the first one with the name. |
| Vfs.FileTree.NextName | kernel/src/fs/vfs.c:98-103 | The inner loops find where the next name starts and ends. |
| Vfs.FileTree.Resolve | kernel/src/fs/vfs.c:84-153 | Resolution agrees, status by status, with a recursive walk over the names of the path, through mounts, with trailing slashes. |
| Vfs.FileTree.Create | kernel/src/fs/vfs.c:38-49 | One new empty file under the given name at the end of the directory; nothing else changes. |
| Vfs.FileTree.MkDir | kernel/src/fs/vfs.c:52-58 | One new empty directory, likewise. |
| Vfs.OneName | kernel/src/fs/vfs.c:98-107 | How a path splits into its next name and the rest, and when a trailing slash is left. |
| PathNames.NamesOfPath | kernel/src/fs/vfs.c:84-107 | Names behind any number of slashes, at least one from the second on, are a path's names; slashes at its end change none and are noticed. |
| PathNames.NamesAreProper | kernel/src/fs/vfs.c:84-107 | Every path's names are nonempty and without slashes. |
| PathNames.EntryLeads | kernel/src/fs/vfs.c:111-131 | A name leads to what its first entry stands for: the inode mounted there, if any, else the entry's own. |
| PathNames.ResolvedOutcome | kernel/src/fs/vfs.c:84-153 | Every lookup has the outcome that follows from where the names lead: an inode with its directory; a missing last name without a slash behind it; another missing name; or something else than a directory before a name or a slash. |
| PathNames.OneOutcome | kernel/src/fs/vfs.c:84-153 | No two outcomes fit one path, so each is returned exactly when it fits. |
| Vfs.CreateThenWalk | kernel/src/fs/vfs.c:84-153 | A new entry changes only walks that missed exactly that name in exactly that directory. |
| Vfs.CreateThenResolve | kernel/src/fs/vfs.c:38-153 | After creating what a path missed, the path resolves to the new inode, and every path that did not miss the same place resolves as before. |
| Vfs.MissingPlace | kernel/src/fs/vfs.c:133-141 | A missing last fragment is reported with its directory and its own name. |
| Vfs.WalkIsReach | kernel/src/fs/vfs.c:84-153 | Resolution succeeds exactly where all names are there, and finds the inode they lead to. |
| Vfs.MissingWhen | kernel/src/fs/vfs.c:133-141 | A name absent from a directory that is there is reported as missing there. |
| Vfs.OnePath | kernel/src/fs/vfs.c:84-153 | In a tree without sharing every inode has one list of names. |
| Vfs.ReachAdded | kernel/src/fs/vfs.c:38-58 | Where every list of names leads after an entry was added. |
| Tar.ReadHeader | kernel/src/fs/tar.c:20-33 | From any header block the code reads the member's name without its trailing slash, its size and its kind. |
| Tar.StripOne | kernel/src/fs/tar.c:28-32 | One slash behind a name is dropped, and nothing else. |
| Tar.ExtractMember | kernel/src/fs/tar.c:16-57 | One turn: the member is created where its path is missing, or the kernel panics; the next header is found. |
| Tar.Extract | kernel/src/fs/tar.c:12-59 | On the bytes of any archive the loop performs exactly the member-by-member extraction, or panics exactly where that does. |
| Tar.RestWellFormed | kernel/src/fs/tar.c:12-59 | After its first member the rest of a well-formed archive is well formed for the new tree. |
| Tar.ExtractsExactly | kernel/src/fs/tar.c:12-59 | A well-formed archive (paths new and distinct, parents first) extracts without panic and adds exactly its directories and its files with their contents; everything else is as before. |
| Tar.ExtractArchive | kernel/src/fs/tar.c:12-59 | The loop on the bytes of any archive that holds a well-formed list of members: no panic, and exactly those directories and files with their contents are added. |
| Tar.SerialisedHolds | kernel/src/fs/tar.c:12-59 | Every list of members with short names and small files, written as headers and padded blocks, is an archive that holds that list. |
| Tar.BlockBytes | kernel/src/fs/tar.c:12-59 | The written blocks byte for byte: name padded to 100, size in octal at 124, type at 156, data from 512, zeros up to a multiple of 512. |
| Tar.OctalDigitAt | kernel/src/lib/cstd.c:209-224 | The k-th of n octal digits, the highest first: the notation that parse_oct reads. |
| Tar.ExtractSerialised | kernel/src/fs/tar.c:12-59 | A round trip: a well-formed list of members, written out and extracted, adds exactly itself to the tree. |
| ShellParser.ParseBlanks | userspace/src/shell.c:31-57 | Finds the end of the run of blanks. |
| ShellParser.ParseUnquoted | userspace/src/shell.c:81-97 | The longest run of ordinary characters. |
| ShellParser.ParseQuoted | userspace/src/shell.c:100-128 | Up to the next quote, or failure when there is none. |
| ShellParser.ParseWord | userspace/src/shell.c:149-173 | All fragments of a word. |
| ShellParser.ParseRedirect | userspace/src/shell.c:176-202 | An operator, blanks and a word. |
| ShellParser.ParseElement | userspace/src/shell.c:205-227 | A redirect or a word. |
| ShellParser.ParseStatement | userspace/src/shell.c:230-267 | The loop builds the grammar's elements and their end; every loop of the parser makes progress. |
| ShellScanner.RunFragments | userspace/src/shell.c:149-173 | Reading on through a word's fragments removes their quotes, and no fragment starts where they end. |
| ShellScanner.RunElement | userspace/src/shell.c:205-227 | One element against the scanner, both when it parses and when it does not. |
| ShellScanner.RunRest | userspace/src/shell.c:230-267 | The rest of a line after an element: accepted by both or by neither, with the same words. |
| ShellScanner.ParserIsScanner | userspace/src/shell.c:31-314 | The parser accepts a line if and only if a character-by-character quote-removing scanner does, and then finds the same words, redirects and texts. |
| ShellScanner.RoundTrip | userspace/src/shell.c:31-267 | Any list of quote-free words and redirects, single-quoted and joined by blanks, parses completely back to that list. |
| ShellSyntax.ScansMeaning | userspace/src/shell.c:31-267 | Any words of bare and quoted pieces, with operators and blanks between them, spelled out in bytes, scan to their texts and descriptors: less-than is 0, greater-than is 1. |
| ShellSyntax.ReadsMeaning | userspace/src/shell.c:31-267 | And the parser takes the whole line and finds those words and redirects. |
| ShellSyntax.AcceptsExactly | userspace/src/shell.c:31-267 | The parser takes the whole line if and only if it is such a spelling. |
| ShellExpand.ExpandWord | userspace/src/shell.c:274-301 | Writes the text of the word, which is its fragments joined, and exactly the NULs it writes, or gives up exactly when the text has 400 bytes or more. |
| ShellExpand.JoinedIsText | userspace/src/shell.c:280-299 | The fragments joined one by one are the text that the scanner gives the word. |
| ShellExpand.TerminatedExactlyWhen | userspace/src/shell.c:299 | The result reads back as a C string if and only if the byte behind it was zero before, or some prefix of its fragments is exactly one byte shorter and so left its NUL there. |
| ShellExpand.StaysInBuffer | userspace/src/shell.c:280-299 | The bytes outside the buffer keep their values if and only if the word is shorter than 399 bytes or the byte behind the buffer was zero anyway. |
| ShellExpand.ExpandFresh | userspace/src/shell.c:336-366 | In a buffer of zeros, followed by one more zero byte where a 399-byte word writes, the expansion reads back as the token's text, up to the first NUL in it, if any. |
| ShellExpand.CountWords | userspace/src/shell.c:317-329 | Counts exactly the argument words. |
| ShellExpand.ExpandAll | userspace/src/shell.c:340-369 | The argument list and the redirect list, in order, or an exit exactly when some word is too long. |
| ShellExpand.CutAtNul | userspace/src/shell.c:336-366 | A text with a NUL in it is passed on up to the first one; NextToken and CutOne say that every other is passed on whole, in order. |
| ShellExpand.Interpret | userspace/src/shell.c:303-371 | What any line does, in terms of the scanner alone: syntax error, nothing, exit, or the command's arguments and redirects as C strings, with each buffer followed by the byte that a 399-byte word writes (StaysInBuffer). |
| ShellExpand.QuotedCommand | userspace/src/shell.c:303-371 | Quoted words come back as exactly that argument list, quoted targets as exactly those redirects. |
| ShellExpand.NextArgument | userspace/src/shell.c:336-369 | Arguments and redirects are told apart by kind, each list in the order of the line. |
| ShellExpand.SpelledCommand | userspace/src/shell.c:303-371 | However the words are spelled, bare or quoted in pieces, with redirects anywhere among them, the command is what they say. |
| ShellExpand.SpelledOutcome | userspace/src/shell.c:303-371 | The outcome of every spelled line: nothing without an argument; an exit with a word of 400 bytes or more; else the command its words say, each up to its first NUL. |
| ShellExpand.ErrorOutcome | userspace/src/shell.c:303-314 | A line is a syntax error if and only if it is no such spelling. |
| Editor.LineEditor.Rewrite | userspace/src/shell.c:427-438 | The bytes it writes, as a function of the line and the cursor. |
| Editor.LineEditor.Insert | userspace/src/shell.c:516-523 | The shifting loop inserts left of the cursor. |
| Editor.LineEditor.EraseLeft | userspace/src/shell.c:493-500 | The shifting loop erases left of the cursor, if anything is there. |
| Editor.KeyEffects | userspace/src/shell.c:462-530 | What each key does to the text, the cursor and the history: a character goes in at the cursor; erase takes the one before it, if any; left and right move by one within the text; up shows the history, keeps the text as history and puts the cursor at the end; down does nothing. |
| Editor.EnterThenUp | userspace/src/shell.c:465-515 | After Enter, arrow up shows the line handed over, and once more the empty one. |
| Editor.LineEditor.Swap | userspace/src/shell.c:465-475 | The bytes of the line and of the previous one change places, with their lengths, and the cursor is at the end. |
| Editor.LineEditor.Press | userspace/src/shell.c:459-531 | For every key but Enter the array editor refines the (left, right) pair of strings that KeyEffects describes, and writes exactly the specified bytes. |
| Editor.LineEditor.Enter | userspace/src/shell.c:503-515 | Hands over the line and keeps it as history; afterwards the editor is well formed if and only if the cursor was at the end. |
| EditorDisplay.RewriteShows | userspace/src/shell.c:427-438 | Fed to the terminal, a rewrite shows prompt and line with the cursor at column 2 + length - offset, whatever the row held, and touches no other row. |
| EditorDisplay.FirstPrompt | userspace/src/shell.c:427-438 | An empty line shows as a number sign and a space with the cursor behind them. |
| EditorDisplay.KeyShows | userspace/src/shell.c:459-531 | After any key the terminal still shows the line being edited. |
| EditorDisplay.RunShows | userspace/src/shell.c:459-531 | And so after any run of keys while the line fits its row. |
| EditorDisplay.KeysUndo | userspace/src/shell.c:465-529 | Erase undoes a character, left and right undo each other and keep the text, up twice restores the line. |
| List.ListAdd | kernel/src/lib/list.c:8-14 | Inserts behind the given node of a well-linked ring. |
| List.ListAddTail | kernel/src/lib/list.c:16-22 | Inserts before it; at the end of the list when it is the head. |
| List.ListDel | kernel/src/lib/list.c:24-29 | Removes the node, and the rest stays well linked. |
| FdTable.LookupSorted | kernel/src/fs/vfs.c:224-232 | In a sorted table a descriptor is found exactly at its place in the order. |
| FdTable.CloseOne | kernel/src/kernel/syscall.c:323-331 | Closing removes one descriptor and touches no other. |
| FdTable.Dup2One | kernel/src/kernel/syscall.c:405-425 | After dup2 the new descriptor stands for the old one's file, the table is sorted, and every other descriptor is unchanged. |
| FdTable.Dup2Effect | kernel/src/kernel/syscall.c:405-425 | After dup2 the new descriptor stands for the old one's inode at the old one's offset, and every other descriptor, the old one included, for what it did; from an unknown descriptor nothing changes. |
| FdTable.CloseEffect | kernel/src/kernel/syscall.c:323-331 | After close the descriptor stands for nothing and every other one for what it did. |
| FdTable.OpenEffect | kernel/src/kernel/syscall.c:284-310 | After open descriptor 0, or else the one above the last, stands for the start of the inode, and every other one for what it did. |
| FdTable.OpenFresh | kernel/src/kernel/syscall.c:284-310 | Open's descriptor is fresh and the table stays sorted if and only if the last one is not 2^32 - 1. |
| FdTable.DescriptorReturns | kernel/src/kernel/syscall.c:284-310 | With descriptors 0 and 2^32 - 1 in use open returns 0, which still stands for the older file. |
| FdTable.StepSorted | kernel/src/kernel/syscall.c:284-425 | Each call in range keeps a table strictly sorted. |
| FdTable.Process.Find | kernel/src/fs/vfs.c:224-232 | The walk finds the file of the low 32 bits of the argument, or that there is none. |
| FdTable.Process.InsertPoint | kernel/src/fs/vfs.c:235-243 | The walk finds the first larger descriptor. |
| FdTable.Process.Open | kernel/src/kernel/syscall.c:284-319 | One row more, at the end, over the linked list; sorted unless the descriptor wrapped around. |
| FdTable.Process.Close | kernel/src/kernel/syscall.c:323-331 | The list without the descriptor in the low 32 bits of the argument, every other lookup as before; or failure exactly when it is not there. |
| FdTable.Process.Dup2 | kernel/src/kernel/syscall.c:405-425 | Both arguments taken as 32 bits: the new descriptor looks up the old one's inode and offset, every other descriptor what it did; or failure and no change exactly when the old descriptor is not there. |
| FdTable.Process.Fork | kernel/src/kernel/syscall.c:102-110 | The child's table has equal rows on file objects of its own. |
| FdTable.EventEffect | kernel/src/kernel/syscall.c:102-425 | An event gives one table more, equal to the forking process's, or changes the calling process's table as the call does, and no other. |
| FdTable.RunSorted | kernel/src/kernel/syscall.c:102-425 | Through every run of open, close, dup2 and fork of several processes every table stays strictly sorted, and a table changes by its own process's calls only. |
| Scheduler.SearchStops | kernel/src/kernel/scheduler.c:39-51 | The search never goes past a running task. |
| Scheduler.SearchEnds | kernel/src/kernel/scheduler.c:39-49 | It ends if and only if some task is running. |
| Scheduler.SwitchSelects | kernel/src/kernel/scheduler.c:39-51 | Whatever a call did before, giving up the processor selects the first running task behind the caller around the ring. |
| Scheduler.YieldEffect | kernel/src/kernel/syscall.c:71-74 | sched_yield changes no task. |
| Scheduler.ForkEffect | kernel/src/kernel/syscall.c:75-84 | fork adds one task at the end: the next pid, running, waiting for nobody; the others and the current one stay. |
| Scheduler.ExitEffect | kernel/src/kernel/syscall.c:62-67 | exit makes a zombie of the caller and of nobody else. |
| Scheduler.KillEffect | kernel/src/kernel/syscall.c:451-462 | kill makes a zombie of the task with the pid in the low 32 bits of its argument and changes no other task; without one nothing changes. |
| Scheduler.WaitEffect | kernel/src/kernel/syscall.c:243-264 | A turn of waitpid: of a task that lives, the caller waits for it and nothing else changes; of a zombie, it and nobody else leaves the list, and the caller waits no more. |
| Scheduler.WaitForNobody | kernel/src/kernel/syscall.c:243-264 | Waiting for a pid that no task has changes nothing. |
| Scheduler.TargetStays | kernel/src/kernel/syscall.c:243-264 | With one waiter per pid, whoever is waited for stays in the list. |
| Scheduler.PidsIncrease | kernel/src/kernel/syscall.c:75-84 | Pids stay strictly increasing along the list and below the counter, and the current task is in it and running. |
| Scheduler.StepKeeps | kernel/src/kernel/scheduler.c:28-51 | Each system call up to its next switch keeps the invariant. |
| Scheduler.RunKeeps | kernel/src/kernel/scheduler.c:28-51 | In every state of every run the current task is in the list and running, so a zombie is never selected. |
| Scheduler.StepCloser | kernel/src/kernel/scheduler.c:39-51 | A switch brings a ready task forward, a fork puts at most one task before it, nothing else moves it back. |
| Scheduler.BoundedWait | kernel/src/kernel/scheduler.c:39-51 | A ready task is selected after at most as many switches as tasks were before it plus forks since. |
| TaskList.Tasks.NextTask | kernel/src/kernel/scheduler.c:28-37 | The successor around the list, past its head. |
| TaskList.Tasks.FirstRunning | kernel/src/kernel/scheduler.c:39-49 | The loop ends at the first running task after the current one. |
| TaskList.Tasks.Yield | kernel/src/kernel/scheduler.c:39-51 | That task becomes the current one. |
| TaskList.Tasks.Find | kernel/src/kernel/scheduler.c:103-115 | The task with the pid in the low 32 bits of the argument, or none exactly when none has it. |
| TaskList.Tasks.Add | kernel/src/kernel/syscall.c:84 | The child joins the end of the list. |
| TaskList.Tasks.Free | kernel/src/kernel/scheduler.c:94-95 | The task leaves the list, and the current one stays the same. |
| TaskList.Tasks.FindNode | kernel/src/kernel/syscall.c:243-264 | waitpid's loop over the list: the task with exactly that pid and its node, or none. |
| TaskList.Tasks.CallYield | kernel/src/kernel/syscall.c:71-74 | sched_yield on the linked list is the scheduler's transition; no task changes. |
| TaskList.Tasks.CallFork | kernel/src/kernel/syscall.c:75-84 | So is fork, its part in the task list: one running task more, with the pid counter's value. |
| TaskList.Tasks.CallExit | kernel/src/kernel/syscall.c:62-67 | So is exit: the caller, and only it, becomes a zombie. |
| TaskList.Tasks.CallKill | kernel/src/kernel/syscall.c:451-462 | So is kill: it succeeds exactly when a task has the pid in the low 32 bits of its argument, and then the first such task, and only it, becomes a zombie. |
| TaskList.Tasks.CallWaitPid | kernel/src/kernel/syscall.c:243-264 | So is one turn of waitpid: a zombie, and only it, leaves the list; for a task that lives the caller waits and changes nothing else; or there is none and nothing changes. |
| ExecArgs.BlockInPage | kernel/src/kernel/syscall.c:158-176 | For every argument list the aligned argument pointer, the strings and the pointer array with its null pointer lie in this order in the page, apart from one another. |
| ExecArgs.StringInPage | kernel/src/kernel/syscall.c:164-170 | Every string with its NUL lies between the aligned pointer and the pointer array. |
| ExecArgs.StringsApart | kernel/src/kernel/syscall.c:164-170 | Two strings lie apart, the later one lower. |
| ExecArgs.PlaceOne | kernel/src/kernel/syscall.c:164-170 | Placing one more argument disturbs no earlier one. |
| ExecArgs.Layout | kernel/src/kernel/syscall.c:150-176 | The page holds every argument with its NUL, the pointers to them, the null pointer, and the aligned pointer to the array. |
| ExecArgs.Relocate | kernel/src/kernel/syscall.c:200-205 | Adding the wrapped distance makes every pointer the user address of what it pointed to; the null pointer stays. |
| ExecArgs.ReadsBack | userspace/src/persistos.s:8-18 | What _start reads at each slot of the copied block. |
| ExecArgs.PointerPlaces | kernel/src/kernel/syscall.c:158-176 | Pointers in the block are eight bytes, the lowest first. |
| ExecArgs.StartProgram | userspace/src/persistos.s:4-20 | Counting to the null pointer gives argc, and the pointers lead to byte-identical arguments. |
| ExecArgs.ExecThenStart | kernel/src/kernel/syscall.c:150-211 | exec and then _start: the program gets exactly the arguments it was given, and an aligned stack pointer if the user stack's top is aligned. |

## Left out

- Port I/O, interrupt controllers, timers, descriptor tables, PCI probing, boot requests and boot order: hardware plumbing.
- NVMe controller initialisation, the admin queue and the identify commands; the status check on the completion slot captured before the doorbell, which names the command's own entry only when no other command is outstanding.
- Glyph shapes and colours: a cell's pixels are an abstract function of glyph, cursor and device. The repaint bits are modelled as one flag per cell, without their packing into bytes.
- exFAT, sysfs texts, keymaps, ELF loading, the device-zero driver and the small user programs.
- Interrupts inside a terminal write, TLB flushing, register save and restore: a system call up to its next switch is one step.
- WideDivision.UDiv128By64: this routine is the runtime's portable fallback; on x86-64 itself udiv128by64to64 is the processor's divq instruction, which is not modelled, and DivideBy64 is proved for the fallback in its place.
- Count-leading-zeros is a specified primitive (the bit length); the runtime's other bit tricks, multiplication and overflow helpers would only add easy members.
- Choosing the kernel's memory region at boot is not modelled; the region is a parameter.
- Paging.SetPageMapping: models user (lower-half) addresses only, because the kernel's half is mapped during boot through tables that are not one process's tree.
- Userspace.FreeTables: the four nested loops of free_userspace_memory are one method called per level, so the order of frees is the same but the nesting is recursion.
- NvmeQueues.Device.StartCommand: requires a free id, because without one the source's loop does not end; NvmeStarvation.FreeIdIffRoom says when that is.
- NvmeDisk.Disk.Read: requires a disk size that is a multiple of 4096 and block addresses within 32 bits, as the driver's own arithmetic does; offsets are those for which NvmeDisk.ReadClipping holds.
- NvmeDisk.Disk.Write: the same, with NvmeDisk.WriteClipping.
- NvmeDisk.Partition.Write: offsets inside the partition; NvmeDisk.WriteConfinement says when other offsets stay inside it.
- NvmeDisk.Partition.Read: the same, with NvmeDisk.ReadConfinement.
- Ramfs.File.Read: excludes exactly the offsets and lengths that Ramfs.ReadExactlyWhen excludes, for which the source copies a range of negative length or the wrong bytes.
- Ramfs.Inode.Write: excludes ranges whose wrapped end lies before the offset but in the same cluster, for which the source copies a negative length. The loops' own cluster offsets are exact; they wrap only for files of more than 2^64 - 128 bytes.
- Ramfs.File.Write: the same.
- The ramfs cluster list is a sequence of distinct arrays, not linked nodes; linked lists are modelled once, in List.
- Slab.Allocator.Free: requires an address within one of the allocator's slots; page lists are sequences of page numbers, not linked nodes.
- Vfs.FileTree.Resolve: the lookup hook of disk file systems is ramfs's, which does nothing; inodes are indices into one sequence.
- Vfs.FileTree.Create: names are at most 63 bytes, the size of the entry's buffer, which strcpy does not check.
- Tar.Extract: archives that hold some list of members; names shorter than 100 bytes, with the NUL inside the header's field, and eleven size digits.
- ShellParser.ParseBlanks: the parsers test the bound before the character; the source reads the byte at the bound first and then ignores it.
- ShellExpand.Interpret: takes argument buffers to be zero-filled, as those of redirect targets are; ShellExpand.TerminatedExactlyWhen says what other contents lead to. The fork, the opening of redirect targets, the search in bin and the exit command are not modelled.
- Editor.LineEditor.Press: characters are accepted only while the line has fewer than 400 bytes, which the source does not check; Enter is the separate method Editor.LineEditor.Enter.
- The shell's script mode is not modelled.
- FdTable.Process.Dup2: two descriptors that differ in their low 32 bits; with equal ones the source reads a file it has just freed.
- Scheduler.StepKeeps: one waiter per pid at a time and a pid counter below 2^32 - 1; a killed task's memory and the exit code are not modelled.
- ExecArgs.Layout: the argument block fits one page, which the source does not check; path resolution and loading between layout and relocation are not modelled.

# Frame allocator, text screen and formatted output

A Dafny model of three stateful parts of a small i386 kernel, with proofs.

* **Physical frames** (`FrameBits`, `FramePool`, `Pmm`). The bitmap of 0x20000 bytes,
  one bit per 4 KiB frame, changed in place, and the next-fit hint. `Pmm.PhysicalMemory`
  has the source's functions as methods; every call of `Alloc` or `Free` is proved to be
  a `Step` of the set machine in `FramePool`, where the theorems about whole runs are.
* **Text screen** (`Terminal`, `Vga`). 4000 bytes of text memory, cursor and attribute,
  changed in place. `Terminal` has the same screen as a value, its step for one byte, and
  an unbounded tape that knows neither rows, wrapping nor scrolling; the screen is proved
  to show the last 2000 cells of the tape after any stream of bytes and colors.
* **Formatted output** (`Numerals`, `Format`, `Serial`, `Stdio`). The recursive number
  printer, LF expansion and the two format interpreters. A serial port is the sequence of
  bytes sent on it; `Stdio` prints to the screen of `Vga`.

`LibcString` has the byte loops the kernel uses, among them `memcpy` on overlapping ranges;
`Clients` has two clients that make whole series of calls, to which the
theorems about runs and streams apply. `Machine`, `Ascii` and `Arithmetic` have integer widths, character codes and division facts.

Where the code does something other than one would expect, the model follows the code:

* `pmm_mark_range_as_allocated` stores an address, not a byte index, in the hint
  (kernel/src/pmm.c:43). `FirstAllocationAfterBoot` says exactly when the first allocation
  is nevertheless the frame after the marked range; for a kernel linked at 1 MiB it is.
* The marking loop does not end when the range ends with the last page
  (`MarkRangeEndsIff`), and the end of the range `pmm_init` computes wraps to 0 when
  KERNEL_END is in the last page, so that the kernel is not marked (`InitMarksKernelIff`).
  The methods require what makes the loop end.
* The number printers recurse on `nb > base` (kernel/src/drivers/serial.c:67), so 10 is
  printed as `0`. `DigitsDecodeIff` says exactly which numbers are printed right: those
  whose usual numeral does not begin with "10". In each base, 0 and the base itself are
  the only two numbers that print alike (`DigitsAlikeIff`).
* A format that ends in a percent sign prints it, so printing two formats in one is not
  always printing them one after the other: `OutputConcatIff` says when it is.
* `vga_clear` does not shift the attribute (kernel/src/drivers/vga.c:67): see `ClearIsBlankIff`.
* `vga_scroll` calls `memcpy` on overlapping ranges although its parameters are declared
  `restrict`; `CopyIsSnapshotIff` says exactly when the forward loop gives a true copy.

`assert` in the source halts the system; what it asserts is a precondition here.

## Model

| member | source | states |
|---|---|---|
| FrameBits.AddressBijection | kernel/src/pmm.c:22-28 | page-aligned addresses and (byte, bit) pairs are inverse to each other, in range, without overflow, and never `NULL_FRAME` |
| FrameBits.MaskIsShift | kernel/src/pmm.c:26-28 | the mask table is `1 << j` |
| FrameBits.FramesMarked | kernel/src/pmm.c:30-33 | setting the bit of a frame adds that frame to the set the bitmap stands for, and no other |
| FrameBits.FramesCleared | kernel/src/pmm.c:84 | clearing the bit of a frame removes that frame from the set, and no other |
| FrameBits.FullGroup | kernel/src/pmm.c:58 | a byte is 0xFF exactly when its eight frames are all in use |
| FrameBits.BitmapExtensional | kernel/src/pmm.c:19 | bitmaps that stand for the same set are equal byte for byte |
| FramePool.AllocationOutcome | kernel/src/pmm.c:72-79 | an allocation fails if and only if `NB_FRAMES` frames are marked, and otherwise finds a next fit |
| FramePool.AllocationDeterministic | kernel/src/pmm.c:72-79 | at most one outcome and one next state are possible |
| FramePool.RunKeepsSafe | kernel/src/pmm.c:43-86 | over every run, the hint is in range or some frame is free, which keeps the second scan inside the bitmap |
| FramePool.NoFrameHandedOutTwice | kernel/src/pmm.c:56-86 | in every run, between two events that hand out a frame there is one that releases it |
| FramePool.Ownership | kernel/src/pmm.c:46-86 | if callers release only what they hold, the marked frames are at every point exactly the boot range and, apart from it, the held frames; no boot frame or held frame is handed out |
| FramePool.Conservation | kernel/src/pmm.c:72-86 | marked frames = marked at the start + allocations - releases, at every point of every run; the next allocation fails exactly when that is `NB_FRAMES` |
| FramePool.AllocThenFree | kernel/src/pmm.c:72-86 | releasing what was just allocated gives the old set back |
| FramePool.FreeThenAlloc | kernel/src/pmm.c:56-86 | after a release the next allocation succeeds with the lowest free frame of the same group of eight, the very frame if the group was full |
| FramePool.FirstAllocationAfterBoot | kernel/src/pmm.c:35-79 | the first allocation is the frame after the marked range if and only if the address in the hint is 0 or beyond the bitmap; otherwise it skips to the byte with that index |
| FramePool.AllocationsInCyclicOrder | kernel/src/pmm.c:56-79 | without releases, from any state, the frames are handed out in strictly increasing cyclic order from the group the first search begins with |
| FramePool.DrainInOrder | kernel/src/pmm.c:35-79 | after a boot whose hint holds the address 0 or one beyond the bitmap, allocations hand out every frame above the range once, in address order, and fail only afterwards (for boot ranges that end in frames 1 to 31 the first allocation skips, see `FirstAllocationAfterBoot`) |
| Pmm.PhysicalMemory.MarkAsAllocated | kernel/src/pmm.c:30-33 | the bitmap with that one bit set |
| Pmm.PhysicalMemory.MarkRangeAsAllocated | kernel/src/pmm.c:35-44 | exactly the frames from start to end are added, the hint is the end address, the loop ends |
| Pmm.PhysicalMemory.Init | kernel/src/pmm.c:46-54 | exactly the frames from 0 to the end of the boot range are marked, stated of the set and of every bit of the bitmap; the hint is the address of that end |
| Pmm.LowestClearBit | kernel/src/pmm.c:58-62 | the loop over bits 0 to 6 finds the lowest clear bit of a byte that is not full |
| Pmm.PhysicalMemory.AllocFrame | kernel/src/pmm.c:56-70 | in bytes: the lowest clear bit of the first byte scanned that is not full is set and its frame returned; `NULL_FRAME` and no change when all are full |
| Pmm.PhysicalMemory.Alloc | kernel/src/pmm.c:72-79 | a step of the set machine and, in bytes, exact cyclic next fit from the hint: the lowest clear bit of the first byte not 0xFF from the hint on, one bit set, hint moved; 0xFFFFFFFF without change if and only if every byte is 0xFF |
| Pmm.PhysicalMemory.Free | kernel/src/pmm.c:81-86 | a release step and, in bytes, one bit cleared and the hint moved to its byte |
| Pmm.PhysicalMemory.IsFrameAllocated | kernel/src/pmm.c:88-91 | true exactly for the frames of the set, which is when the bit of the address is set |
| Pmm.ValidIsSafe | kernel/src/pmm.c:43-79 | the invariant on bytes and hint is the invariant `RunKeepsSafe` keeps |
| Pmm.ScansFindNextFit | kernel/src/pmm.c:72-79 | the two partial scans together find the first free frame in cyclic order |
| Pmm.NextFitIsStep | kernel/src/pmm.c:56-79 | what a successful search does in bytes is a step of the set machine |
| Pmm.MarkRangeEndsIff | kernel/src/pmm.c:39-42 | the marking loop ends if and only if the end is below 0xFFFFF000 |
| Pmm.InitEndsIff | kernel/src/pmm.c:46-54 | `pmm_init` ends if and only if KERNEL_END is not in the last page but one |
| Pmm.InitMarksKernelIff | kernel/src/pmm.c:51-52 | every frame up to the one after KERNEL_END's is marked if and only if KERNEL_END is below the last page |
| Pmm.AllocationsAfterInit | kernel/src/pmm.c:46-79 | for a kernel at 1 MiB or above, the `n`-th allocation is the `n`-th frame from the second after KERNEL_END's on |
| Pmm.AllocThenFreeRestoresBitmap | kernel/src/pmm.c:56-86 | an allocation and the release of its frame restore the bitmap byte for byte |
| Clients.Serve | kernel/src/pmm.c:56-91 | a whole series of calls on one bitmap is a run of the set machine from the state before to the state after; its events are those of the requests in their order, less the releases of frames not marked, with one answer for each allocation |
| LibcString.Memcpy | libc/src/string.c:32-43 | the loop is the forward copy, overlapping or not |
| LibcString.ForwardCopyAt | libc/src/string.c:32-43 | what a forward copy leaves in every byte: the source, or its first `dst - src` bytes repeated when the destination is above |
| LibcString.CopyIsSnapshotIff | libc/src/string.c:32-43 | a forward copy equals a copy of a snapshot, for every content, if and only if the destination does not begin strictly inside the source |
| LibcString.Memset | libc/src/string.c:21-30 | the first `n` bytes are `c`, the others as they were |
| LibcString.StrLen | libc/src/string.c:8-15 | index of the first NUL |
| LibcString.TextTerminated | libc/src/string.c:8-15 | the text of a string is what stands before its first NUL, whatever comes after |
| Terminal.CursorFollows | kernel/src/drivers/vga.c:79-114 | backspace, tab, return, line feed, printing and wrap at column 80 are moves on a tape without rows |
| Terminal.PutRefines | kernel/src/drivers/vga.c:79-118 | one byte: the screen keeps showing the last 25 rows of the tape |
| Terminal.StreamRefines | kernel/src/drivers/vga.c:59-118 | any stream of bytes and color changes: buffer and cursor are the last 25 rows and the position of a terminal that never scrolls |
| Terminal.StreamKeepsScrolled | kernel/src/drivers/vga.c:31-118 | rows that have scrolled off keep their content on the tape whatever comes after |
| Terminal.StreamFromStart | kernel/src/drivers/vga.c:63-118 | from a cleared screen on, after any stream the 2000 cells are the last 2000 of the tape and `80*y + x` is its position among them, with `x < 80` and `y < 25` |
| Terminal.TabStopIsMask | kernel/src/drivers/vga.c:89 | clearing the low three bits is rounding down to a multiple of eight |
| Terminal.PrintableRun | kernel/src/drivers/vga.c:103-148 | `n` printable bytes from position `p` end in column `(p+n) % 80`, row `min(24, (p+n)/80)`, after `max(0, (p+n)/80 - 24)` scrolls |
| Terminal.PrintableRunContents | kernel/src/drivers/vga.c:103-148 | the cells before the cursor are the old ones followed by the whole run, less the rows that scrolled off |
| Terminal.PutAllIsDoAll | kernel/src/drivers/vga.c:142-148 | writing a text is a stream of its bytes |
| Vga.TextMode.Scroll | kernel/src/drivers/vga.c:31-48 | with `y == 25` the memory is the old one from byte 160 on, although source and destination overlap, followed by 80 blanks (0x20, attribute), and `y` is 24; otherwise nothing changes |
| Vga.TextMode.MoveCursor | kernel/src/drivers/vga.c:50-57 | the two cursor bytes reassemble to `y*80 + x` |
| Vga.TextMode.Type | kernel/src/drivers/vga.c:79-114 | effect of a byte on cells and cursor, with `x < 80` and `y <= 25` and no field overflowing |
| Vga.TextMode.Put | kernel/src/drivers/vga.c:79-118 | a step of the screen and, in bytes, the whole memory after it: a printable byte at `2*(80*y + x)`, the attribute after it, the scroll from the last row; `x` and `y` for every byte value, and the two cursor bytes |
| Vga.PutMovesCursor | kernel/src/drivers/vga.c:79-118 | the column and row after each of 0x08, 0x09, 0x0A, 0x0D, the printable bytes and the ignored ones |
| Vga.TextMode.SetColor | kernel/src/drivers/vga.c:59-61 | the attribute is that of the two colors, nothing else changes |
| Vga.AttributeFields | kernel/src/drivers/vga.c:59-61 | the attribute holds the low four bits of both colors |
| Vga.TextMode.Clear | kernel/src/drivers/vga.c:63-77 | every cell is the byte `0x20 | attr` followed by 0, cursor and cursor bytes are 0, the attribute stays |
| Vga.ClearIsBlankIff | kernel/src/drivers/vga.c:63-77 | a cleared cell is a blank in the current attribute if and only if the attribute is 0 |
| Vga.ClearInInitColor | kernel/src/drivers/vga.c:63-77 | in the color `vga_init` selects it is the character 0x27, black on black |
| Vga.TextMode.Init | kernel/src/drivers/vga.c:150-154 | cleared in the old attribute, in bytes, cursor at 0, then attribute 0x07 |
| Vga.TextMode.WriteStr | kernel/src/drivers/vga.c:142-148 | the bytes before the first NUL are put, whatever stands after it |
| Vga.TextMode.WriteNb | kernel/src/drivers/vga.c:131-140 | the digits are put, for every base and number for which the recursion ends |
| Vga.TextMode.WriteNbSigned | kernel/src/drivers/vga.c:121-128 | the sign and digits are put |
| Clients.Play | kernel/src/drivers/vga.c:59-118 | a whole series of calls on one screen memory is the stream of their events, and keeps showing the last 25 rows of the terminal that never scrolls |
| Numerals.RecursionEndsIff | kernel/src/drivers/serial.c:67-69 | the recursion ends in every base from 2 on, and in base 1 exactly for 0 and 1 |
| Numerals.DigitsDecodeIff | kernel/src/drivers/serial.c:62-72 | the digits decode to `nb` if and only if no quotient `nb / base^k` equals the base, that is, if the usual numeral does not begin with "10" |
| Numerals.DigitAt | kernel/src/drivers/serial.c:64-71 | byte `i` from the right is the character of `nb / base^i % base`: 0x30 to 0x39 for 0 to 9, 0x41 to 0x46 for 10 to 15 |
| Numerals.DigitsInBaseOne | kernel/src/drivers/serial.c:62-72 | in base 1, 0 and 1 print as a lone `0` |
| Numerals.DigitsWhenEarly | kernel/src/drivers/serial.c:62-72 | when one does, exactly `k + 1` digits are emitted, the usual numeral without its leading 1; they decode to `nb - base^(k+1)` |
| Numerals.DigitsAlikeIff | kernel/src/drivers/serial.c:62-72 | two different numbers print alike if and only if they are 0 and the base |
| Numerals.EarlyUnique | kernel/src/drivers/serial.c:62-72 | there is at most one such `k` |
| Numerals.StopsEarlyInterval | kernel/src/drivers/serial.c:67 | the numbers with that `k` are those from `base^(k+1)` up to `base^(k+1) + base^k`, exclusive |
| Numerals.DigitsOfBase | kernel/src/drivers/serial.c:67-71 | concrete departure: the base itself (10 in base 10, 16 in base 16) is printed as a lone `0`, which decodes to 0 |
| Numerals.DigitsWhenNotEarly | kernel/src/drivers/serial.c:62-72 | otherwise the digits are the usual numeral |
| Numerals.NumeralValue | kernel/src/drivers/serial.c:62-72 | the usual numeral decodes to its number |
| Numerals.NumeralMinimal | kernel/src/drivers/serial.c:62-72 | it has no leading zero and the least length: `base^(len-1) <= nb < base^len` |
| Numerals.SignedDigitsDecodeIff | kernel/src/drivers/serial.c:51-59 | above INT32_MIN the signed digits decode to `nb` exactly when those of its magnitude do |
| Numerals.SignedDigitsShape | kernel/src/drivers/serial.c:51-59 | 0x2D and the digits of the magnitude for a negative number, the digits alone for another |
| Serial.Port.WriteNb | kernel/src/drivers/serial.c:62-72 | the digits are sent after what was sent before, for every base and number for which the recursion ends |
| Serial.Port.WriteNbSigned | kernel/src/drivers/serial.c:51-59 | the sign and digits are sent |
| Serial.Port.WriteStr | kernel/src/drivers/serial.c:75-89 | the bytes before the NUL are sent with a CR after each LF |
| Format.DropCrExpand | kernel/src/drivers/serial.c:75-89 | dropping the CR after every LF of what is sent recovers the string |
| Format.ExpandInjective | kernel/src/drivers/serial.c:75-89 | different strings are sent differently |
| Format.ExpandOne | kernel/src/drivers/serial.c:78-84 | 0x0A is sent as 0x0A, 0x0D and any other byte as it is |
| Format.ExpandConcat | kernel/src/drivers/serial.c:78-84 | strings are sent byte by byte |
| Format.ExpandLength | kernel/src/drivers/serial.c:75-89 | one byte more for each LF, and the string itself exactly when it has none |
| Serial.Port.Vprintf | kernel/src/drivers/serial.c:109-149 | what is sent is `Output` of the format, one argument is used per directive, the result is `strlen(format)` below 2^31 and equal to it modulo 2^32 beyond, whatever stands after the NUL; the body asserts that each byte it looks ahead at is at or before the NUL |
| Stdio.Vprintf | libc/src/stdio.c:6-45 | the same for the screen, with the same result |
| Format.LoneByte | kernel/src/drivers/serial.c:142-144 | a format of one byte prints that byte |
| Format.LoneDirective | kernel/src/drivers/serial.c:117-140 | of 0x25 and a letter: exactly 0x73, 0x64, 0x75 and 0x78 are supported, with which arguments, and what they print |
| Format.NumberDirectivesDecode | kernel/src/drivers/serial.c:125-136 | `%u` in base 10, `%x` in base 16 and `%d` decode to their argument exactly when the number printer does so |
| Stdio.PrintedShows | libc/src/stdio.c:6-45 | what is printed shows as the last 25 rows of the terminal that never scrolls |
| Format.SerialIsScreenOfExpanded | kernel/src/drivers/serial.c:109-149 | the serial line gets what the screen would get if a CR stood after each LF of the `%s` arguments, and nowhere else |
| Format.SameOutputIff | kernel/src/drivers/serial.c:109-149 | one byte more for each LF of the string arguments used; the same bytes exactly when there is none |
| Format.OneArgumentPerDirective | kernel/src/drivers/serial.c:116-147 | arguments are used one per directive from the left, those after them have no effect |
| Format.OutputConcat | kernel/src/drivers/serial.c:116-147 | a format that does not end in a lone percent sign, followed by another: they print one after the other what each prints, with the arguments of the first before those of the second |
| Format.OutputConcatIff | kernel/src/drivers/serial.c:116-147 | for two formats with exactly their arguments, that holds if and only if the first does not end in a lone percent sign or the second is empty |
| Format.LonePercentTakesByte | kernel/src/drivers/serial.c:117-120 | a lone percent sign makes the first byte of what follows a directive |
| Format.PercentThenD | kernel/src/drivers/serial.c:117-128 | concrete departure: `%` then `d` print `%d`, while `%d` needs an argument and prints the number |
| Format.TrailingPercent | kernel/src/drivers/serial.c:117-144 | a percent sign that ends the format is printed as itself |

## Left out

- Port input and output, transmit waits, `serial_init` and `serial_read`: hardware; a port is the sequence of bytes sent, the cursor registers are two recorded bytes.
- `serial_write` and the variadic front ends `serial_printf` and `printf`: they would add easy members only.
- Serial.Port.WriteNb: base 0, which divides by zero, and base 1 with a number above 1, where the recursion does not end (`RecursionEndsIff`), are excluded; Vga.TextMode.WriteNb likewise.
- Serial.Port.WriteNbSigned: INT32_MIN is excluded, as the negation overflows (undefined in C); Vga.TextMode.WriteNbSigned likewise.
- Serial.Port.Vprintf: unsupported directives are excluded, as the source asserts that there are none; Stdio.Vprintf likewise.
- Pmm.PhysicalMemory.MarkRangeAsAllocated: the range must not end with the last page, where the loop does not end (`MarkRangeEndsIff`); Pmm.PhysicalMemory.Init likewise (`InitEndsIff`).
- Pmm.PhysicalMemory.Free: addresses that are not page-aligned and frames that are not marked are excluded, as the source asserts; builds with NDEBUG, which drop the assertions, are not modelled.
- A string argument that is NULL: the source asserts that it is not.
- Strings and formats are values; memory that changes or aliases the screen while they are read is not modelled.
- KERNEL_END is a parameter of `Init`; logging calls are dropped.
- spinlock.c, cmos.c, ata.c, device.c, vfs.c, logger.c, UBSan.c, interrupt, boot and SSE code: not part of this model.

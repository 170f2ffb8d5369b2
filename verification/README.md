# KnutOS: a model of the memory stack, the font decoder, kprintf and the screen

KnutOS is a small x86_64 kernel. This project models the parts of it that carry
hard properties and proves them for all inputs, all runs, or all reachable states:

* **The inflate decoder** (`src/libs/libk/ssfn.h`). `BitReverse`, `Canonical` and
  `HuffmanTable` show that the table builder accepts exactly the code lengths that
  satisfy Kraft's inequality and builds the canonical prefix code of RFC 1951;
  `BitBuffer` and `Inflater` show that buffer, fast table, slow path and block loops
  refine a decoder on bit streams (`Deflate`); `DeflateRoundTrip`, `DeflateStreams`
  and `FontRoundTrip` show that every stream an encoder may write is read back;
  `DeflateFormat` and `DeflateErrors` write the format out in bits and numbers, as
  RFC 1951 has it, and say what is refused.
* **The memory stack** (`src/kernel/memory`, `src/libs/libk/alloc`). `Addresses`,
  `Bitmap`, `PageFrames`, `Pmm` and `PmmCapacity` are the bitmap allocator, its start-up
  and what it can then hand out;
  `PageTables`, `VirtualAddresses`, `VmmState`, `Vmm` and `VmmRuns` the four- and
  five-level page tables as a refinement of a plain map; `VmmLayout` and `VmmInit` the
  exact result of the three mapping loops; `Powers`, `Slabs`, `SlabAllocator`,
  `Kmalloc`, `KmallocRuns` and `KmallocOverlap` the size-class allocator and the heap on
  top of it; `Boot` puts the three start-up functions in the order of `kmain`.
* **kprintf** (`src/libs/libk/kprintf/kprintf.c`). `PrintfText` says what an integer
  conversion prints and `PrintfLaws` what can be read out of it again; `Kprintf` shows
  that the loops print it and that a bounded buffer shows a prefix of the same text;
  `PrintfDirectives` shows that directives are read as they were written, and
  `PrintfConversions` what each of them prints, told from its characters alone.
* **The screen** (`src/kernel/devices/framebuffer/framebuffer.c`). `Framebuffer` has
  Bresenham's line and in-place scrolling; `GlyphRecords`, `GlyphTable` and `Utf8` find a
  character's glyph.

Code that changes state in place is a class or a method over arrays here too, proved
against functions on values; the laws are lemmas about those functions. `BitOps` and
`Arithmetic` hold the laws of C's bit operators, of multiplication and of division that
the proofs need.

## Where the code differs from what it says

The model follows the code. Where a property one would expect fails, a lemma gives the
exact condition:

* The decoder reads the size of a font from its own output when the first eight bytes
  are full, so a stream works exactly if nothing crosses the eighth byte
  (`FontRoundTrip.FontInflates`).
* The bitmap's size is divided by eight before it is rounded up (`Pmm.BitmapCovers`,
  `Pmm.BitMissing`).
* `pmm_alloc` looks for one clear page only, whatever the count
  (`PageFrames.TakenBalance`, `Kmalloc.BigUndone`), so that a big block may lie over a
  live one (`KmallocRuns.StepKeeps`); five clear pages are enough for that
  (`KmallocOverlap.PageTwice`, `Boot.PageTwiceAfterBoot`).
* `used_pages` starts from a size in bytes taken for kilobytes (`Pmm.KbToPagesIs`), and `pmm_alloc` refuses
  when it is zero: from 16 GiB on some pages may be kept back
  (`PmmCapacity.ServedExactly`, `PmmCapacity.RefusedAfterRun`).
* New page tables are not cleared (`VmmRuns.StaleTable`); the flags of a mapping also go
  into the upper levels (`VmmRuns.LargeLink`); and although a comment in
  `vmm_unmap_page` says its flag argument is not used, it is where a table is missing,
  and costs a frame (`Vmm.Vmm.UnmapPage`).
* `slab_free` accepts only the first 1024 bytes of a slab (`Slabs.FreeKeeps`), does not
  notice a second free (`Slabs.TwiceFreed`), and `is_full` is never cleared
  (`Slabs.ClosedClass`).
* `kmalloc` faults for 2041 to 2048 bytes and whenever its allocator fails
  (`Kmalloc.FaultsWhen`), and
  `next_pow_of_two` ends only up to 2^63 (`Powers.NextPowerEnds`).
* A comment says `pow` always returns 0 for negative exponents; for the bases 1 and -1
  it does not (`Powers.NegativeExponent`).
* The `#` flag may take digits away, and a full buffer its own mark
  (`PrintfLaws.HashExact`), as %#p does for kernel addresses
  (`Kprintf.PointerLosesDigits`); a full buffer also takes the sign away
  (`PrintfLaws.SignPrinted`) and may keep the text below its width
  (`PrintfLaws.IntTextIs`); the `-` flag turns the precision of an integer off
  (`PrintfLaws.PrecisionKept`); and base 2 keeps 32 digits only
  (`PrintfText.DigitsExact`).
* The line loop stops when either coordinate arrives (`Framebuffer.EndReached`,
  `Framebuffer.LineStopsShort`).

## Model

| member | source | states |
|---|---|---|
| BitReverse.ReverseBits | src/libs/libk/ssfn.h:457-469 | the four swap rounds and the shift list the low w bits of a value in the opposite order, for every width up to 16 and whatever stands above them |
| BitReverse.PartnerChain | src/libs/libk/ssfn.h:459-462 | the four rounds flip index bits 0 to 3 in turn, which mirrors a 16-bit index |
| Canonical.LimitIsKraftSum | src/libs/libk/ssfn.h:484-495 | the last 16-bit limit of the column loop is the Kraft sum of the code lengths, in units of 2^-16 |
| Canonical.FitsIffLimit | src/libs/libk/ssfn.h:489-492 | the loop's overflow test at a length passes exactly when the limit of that length is at most 2^16 |
| Canonical.KraftFits | src/libs/libk/ssfn.h:481-495 | under Kraft's inequality every length has room for all its codes (RFC 1951, section 3.2.2) |
| Canonical.IntervalsOrdered | src/libs/libk/ssfn.h:484-511 | the 16-bit intervals of the codes follow one another in order of length, then symbol |
| Canonical.OwnerUnique | src/libs/libk/ssfn.h:484-511 | no 16-bit window lies in two intervals |
| Canonical.OwnerAtLength | src/libs/libk/ssfn.h:557-561 | a window between the limits of two neighbouring lengths belongs to a code of the longer one, the one its leading bits spell |
| Canonical.IntervalsTile | src/libs/libk/ssfn.h:484-511 | the intervals tile [0, limit of length 15): a window has an owner exactly when it lies below that limit |
| Canonical.MatchesIffOwns | src/libs/libk/ssfn.h:497-513 | a code is a prefix of the stream exactly when the 16-bit window at its front lies in the code's interval |
| Canonical.MatchUnique | src/libs/libk/ssfn.h:497-513 | at most one code is a prefix of any stream |
| Canonical.PrefixFree | src/libs/libk/ssfn.h:484-513 | no code is a prefix of another symbol's code |
| Canonical.PositionInjective | src/libs/libk/ssfn.h:500-503 | the places the symbols take in the value and size arrays are all different |
| HuffmanTable.ZHuffman.Build | src/libs/libk/ssfn.h:471-515 | succeeds exactly when the code lengths satisfy Kraft's inequality, and then columns, symbol places and fast table are those of the canonical code; the two early exits of the loop are covered |
| HuffmanTable.ZHuffman.FillColumns | src/libs/libk/ssfn.h:480-496 | first code, first symbol and limit of every length, or failure at the first length whose codes do not fit |
| HuffmanTable.ColumnStep | src/libs/libk/ssfn.h:485-495 | one length: its test fails exactly when the code space is overrun there |
| HuffmanTable.FitsInColumn | src/libs/libk/ssfn.h:487-492 | no column entry is cut by its 16-bit type |
| HuffmanTable.ZHuffman.FillSymbols | src/libs/libk/ssfn.h:497-513 | every symbol stands at its place, and every fast slot holds exactly the symbol whose code its nine bits begin with |
| HuffmanTable.ZHuffman.PlaceSymbol | src/libs/libk/ssfn.h:498-512 | one symbol is entered at its place and in all slots its code hits, and nowhere else |
| HuffmanTable.ZHuffman.FillFast | src/libs/libk/ssfn.h:505-509 | the slots written are exactly those whose low bits are the reversed code |
| HuffmanTable.NextCodes | src/libs/libk/ssfn.h:500-511 | advancing one symbol advances the next code of its length and of no other |
| HuffmanTable.FastHitIffMatches | src/libs/libk/ssfn.h:505-509 | a slot is hit by a symbol exactly when its nine bits start with the symbol's code |
| HuffmanTable.FastStep | src/libs/libk/ssfn.h:504-510 | filling the slots of one more symbol keeps the fast table right, since no earlier symbol shares them |
| HuffmanTable.CountSizes | src/libs/libk/ssfn.h:476-480 | the counting loop gives the number of symbols of each length, none for length 0 |
| BitBuffer.FillKeepsStream | src/libs/libk/ssfn.h:535-541 | a round of refilling leaves the remaining bit stream as it was, adds eight bits and keeps the buffer below 2^num_bits |
| BitBuffer.ReceiveTakesBits | src/libs/libk/ssfn.h:543-551 | masking off and shifting out n bits yields the next n bits of the stream and leaves the rest |
| BitBuffer.FastLookup | src/libs/libk/ssfn.h:571-577 | a fast-table entry at the next nine bits names the symbol whose code comes next; an empty slot means no code of at most nine bits does |
| BitBuffer.SlowLookup | src/libs/libk/ssfn.h:556-564 | the scan from length 10 finds the length and symbol of the code that comes next, and reaches 16 exactly when no code is a prefix of the stream |
| BitBuffer.WindowOfBuffer | src/libs/libk/ssfn.h:556 | the reversed low 16 bits of the buffer are the stream's 16-bit window |
| Deflate.CopyRepeats | src/libs/libk/ssfn.h:645-651 | every byte a copy appends equals the one dist before it, so that a copy that overlaps what it writes repeats |
| Deflate.FixedKraft | src/libs/libk/ssfn.h:731-740 | the fixed tables use the whole code space exactly, so that they build (RFC 1951, section 3.2.6) |
| DeflateFormat.FixedCodes | src/libs/libk/ssfn.h:731-740 | the fixed literal and length codes are those listed there: 8 bits from 0x30 on for 0 to 143, 9 bits from 0x190 on for 144 to 255, 7 bits from 0 on for 256 to 279, 8 bits from 0xC0 on for 280 to 287, the most significant bit first |
| DeflateFormat.FixedDistCodes | src/libs/libk/ssfn.h:731-740 | the fixed distance codes are the symbols in five bits |
| Deflate.RunLengths | src/libs/libk/ssfn.h:680-696 | appending a run of code lengths keeps all of them code lengths |
| Inflater.ZBuf.FillBits | src/libs/libk/ssfn.h:535-541 | after the loop 25 to 32 bits are buffered, below 2^num_bits, and the stream is unchanged |
| Inflater.ZBuf.ZReceive | src/libs/libk/ssfn.h:543-551 | returns the next n bits of the stream as a number and takes them off |
| Inflater.ZBuf.ZHuffmanDecode | src/libs/libk/ssfn.h:567-579 | returns the one symbol whose code is a prefix of the stream and takes off exactly that code, or -1 exactly when none is |
| Inflater.ZBuf.SlowPath | src/libs/libk/ssfn.h:553-565 | the same for codes longer than nine bits |
| Inflater.ZBuf.ZExpand | src/libs/libk/ssfn.h:581-598 | the first buffer grows, once, to the size stored in bytes 4 to 7 of its own output; any other buffer refuses |
| Inflater.ZBuf.Reserve | src/libs/libk/ssfn.h:641-644 | room for a copy, or the failure the format specification allows |
| Inflater.ZBuf.RepeatByte | src/libs/libk/ssfn.h:646-648 | the dist == 1 fill writes what the byte-by-byte copy would |
| Inflater.ZBuf.CopyBytes | src/libs/libk/ssfn.h:645-651 | the copy loop, in place, appends the LZ77 copy to what was written |
| Inflater.ZBuf.CopyMatch | src/libs/libk/ssfn.h:633-651 | length, distance, range test, growth and copy together are one copy step of the format |
| Inflater.ZBuf.BlockStep | src/libs/libk/ssfn.h:618-652 | one round of the block loop is one element of the block |
| Inflater.ZBuf.ParseHuffmanBlock | src/libs/libk/ssfn.h:614-654 | for every stream on which the format defines a result, the block is decoded to that result: output, rest of the stream and failure |
| Inflater.ZBuf.BufferedBytes | src/libs/libk/ssfn.h:711-715 | the bit buffer holds at most three whole bytes when a stored block begins, and they are the next bytes of the stream |
| Inflater.ZBuf.ParseUncompressedBlock | src/libs/libk/ssfn.h:704-728 | aligns, reads length and complement across the buffer boundary, and copies, as the format says, failing on a bad complement |
| Inflater.ZBuf.StoredHeader | src/libs/libk/ssfn.h:710-717 | the four header bytes are the next four bytes of the stream, whichever of them were buffered |
| Inflater.ZBuf.ReadCodeLengths | src/libs/libk/ssfn.h:669-673 | the three-bit lengths arrive at their places in transmission order |
| Inflater.ZBuf.ReadRun | src/libs/libk/ssfn.h:678-696 | one run of code lengths: literal, repeat or zeros, with every failure case |
| Inflater.ZBuf.ReadRuns | src/libs/libk/ssfn.h:676-698 | the run loop yields the whole list of code lengths or fails as the format does |
| Inflater.ZBuf.ComputeHuffmanCodes | src/libs/libk/ssfn.h:656-702 | both tables are built from the description exactly when the format accepts it |
| Inflater.ZBuf.ParseAnyBlock | src/libs/libk/ssfn.h:748-762 | one block with its header, of any of the four types |
| Inflater.ZBuf.ParseZlib | src/libs/libk/ssfn.h:742-765 | blocks until one is marked the last; success and output as the format defines |
| Inflater.ZlibDecode | src/libs/libk/ssfn.h:767-787 | the decoder returns the inflated bytes, or null exactly when the format says failure, for every input on which a result is defined; the format is the one `DeflateStreams.InflateEncoded` encodes for and `DeflateFormat` and `DeflateErrors` write out in bits |
| DeflateRoundTrip.LengthRows | src/libs/libk/ssfn.h:600-606 | the length rows begin at 3 and each ends where the next begins, save that row 27 reaches one further, so that length 258 is in it as well as in row 28, which holds nothing else (RFC 1951, section 3.2.5) |
| DeflateRoundTrip.DistRows | src/libs/libk/ssfn.h:608-612 | the distance rows cover 1 to 32768, each ending exactly where the next begins |
| DeflateFormat.LengthExtraBits | src/libs/libk/ssfn.h:605-606 | the length symbols have no extra bits below 8 and at 28, (k - 4) / 4 between; with the rows this is the table of section 3.2.5 |
| DeflateFormat.DistExtraBits | src/libs/libk/ssfn.h:611-612 | the distance symbols have no extra bits below 4, then (k - 2) / 2 |
| DeflateFormat.SizeOrder | src/libs/libk/ssfn.h:658 | the order in which the code lengths are sent: 16, 17, 18, 0, then 8 and 7, 9 and 6, and so on outwards (section 3.2.7) |
| DeflateFormat.HeaderBits | src/libs/libk/ssfn.h:748-762 | the three header bits: last block, then stored, fixed, dynamic, or the type that is an error |
| DeflateFormat.CountsWritten | src/libs/libk/ssfn.h:664-667 | the counts of a dynamic block are five, five and four bits, from 257, 1 and 4 on |
| DeflateFormat.SizesWritten | src/libs/libk/ssfn.h:669-673 | the code lengths of the code length code are three bits each, the lowest first, each at its place of the order |
| DeflateFormat.RunsWritten | src/libs/libk/ssfn.h:676-698 | symbols 0 to 15 are lengths, 16 with two bits repeats the last one 3 to 6 times, 17 with three bits is 3 to 10 zeros, 18 with seven bits 11 to 138 |
| DeflateFormat.TablesWritten | src/libs/libk/ssfn.h:656-702 | the list read is split into literal codes and, behind them, distance codes |
| DeflateFormat.StoredStream | src/libs/libk/ssfn.h:704-728 | a stream of one stored block, byte by byte: 01, length, complement, data |
| DeflateFormat.EmptyStream | src/libs/libk/ssfn.h:729-765 | 03 00 is the empty stream |
| DeflateFormat.CopiedStream | src/libs/libk/ssfn.h:614-654 | 4b 4c 04 01 00 is six letters a: two literals and a copy of four bytes from one back |
| DeflateErrors.StoredRefused | src/libs/libk/ssfn.h:716-727 | a stored block is refused for its header exactly if length and complement do not add up to 65535 |
| DeflateErrors.NoCode | src/libs/libk/ssfn.h:567-579 | reading a symbol fails exactly if no code of the table is a prefix of the stream |
| DeflateErrors.CopyRefused | src/libs/libk/ssfn.h:638-640 | a copy from before the first byte of the output is refused, whatever its length |
| DeflateErrors.SpareSymbols | src/libs/libk/ssfn.h:600-612 | the length symbols 286 and 287 stand for no bytes, the distance symbols 30 and 31 for zero, without extra bits |
| DeflateErrors.RunRefused | src/libs/libk/ssfn.h:676-698 | a run of code lengths beyond the list is refused, and a repetition of nothing |
| DeflateRoundTrip.StepEncoded | src/libs/libk/ssfn.h:618-652 | one encoded token is read back as that token |
| DeflateRoundTrip.BlockEncoded | src/libs/libk/ssfn.h:614-654 | for any two codes that build, the bit encoding of any valid token list is decoded to exactly its LZ77 expansion, or fails where the buffer may not grow, leaving what follows unread |
| DeflateRoundTrip.EnoughRoom | src/libs/libk/ssfn.h:581-598 | a buffer that holds the whole expansion never has to grow |
| DeflateRoundTrip.BlockRoundTrip | src/libs/libk/ssfn.h:614-654 | so with such a buffer the encoding of any valid token list is decoded to exactly its expansion |
| DeflateStreams.RunsEncoded | src/libs/libk/ssfn.h:676-698 | any run-length coding of a list of code lengths is read back as the list |
| DeflateStreams.TablesEncoded | src/libs/libk/ssfn.h:656-702 | any description of two tables is read back as these tables |
| DeflateStreams.StoredEncoded | src/libs/libk/ssfn.h:704-728 | a stored block is read back from any bit position |
| DeflateStreams.AnyBlockEncoded | src/libs/libk/ssfn.h:747-763 | every kind of block with its header is read back as what it expands to |
| DeflateStreams.InflateEncoded | src/libs/libk/ssfn.h:742-765 | a whole stream of any blocks the format allows, with any padding behind it, is read back as the expansion of its blocks |
| FontRoundTrip.RoomIffClear | src/libs/libk/ssfn.h:581-598 | growing works exactly when nothing crosses the eighth output byte, because the size is read from output bytes 4 to 7 |
| FontRoundTrip.FontIs | src/libs/libk/ssfn.h:585-590 | a font, to the decoder, begins with the bytes of SFN and holds its size in bytes 4 to 7, the least significant first |
| FontRoundTrip.FontInflates | src/libs/libk/ssfn.h:767-787 | a compressed font inflates to the font exactly when none of its literals, copies and stored blocks crosses the eighth output byte; every other stream makes the decoder read unwritten memory |
| FontRoundTrip.InflateFont | src/libs/libk/ssfn.h:767-787 | the decoder itself, run on the bytes of such a stream, returns the font |
| FontRoundTrip.EveryFontHasAStream | src/libs/libk/ssfn.h:767-787 | every font has a stream of the good kind |
| FontRoundTrip.StoredFontFails | src/libs/libk/ssfn.h:704-728 | the failing family: any font of more than eight bytes sent as one stored block |
| Addresses.HigherHalfInverse | src/kernel/memory/mem.h:49-68 | the two conversions undo each other on every 64-bit address, for both offsets |
| Addresses.HigherHalves | src/kernel/memory/mem.h:49-68 | where physical address 0x1000 appears with four levels, with five, and at the code base |
| Addresses.WrappedIndex | src/kernel/memory/pmm.c:154-256 | subtracting the higher-half offset from a physical address wraps by a multiple of 2^32 pages, so the int index still names the page |
| Addresses.NextIndex | src/kernel/memory/pmm.c:258-259 | consecutive 64-bit indices stay consecutive as ints |
| Bitmap.Bitmap.SetBit | src/libs/libk/alloc/bitmap.c:25-28 | sets that bit of the whole bitmap and no other |
| Bitmap.Bitmap.UnsetBit | src/libs/libk/alloc/bitmap.c:31-34 | clears that bit and no other, the complement cut to a byte |
| Bitmap.Bitmap.CheckBit | src/libs/libk/alloc/bitmap.c:37-40 | is non-zero exactly when the bit is set |
| Bitmap.Bitmap.SetAll | src/kernel/memory/pmm.c:142-143 | every bit set |
| PageFrames.TakenBalance | src/kernel/memory/pmm.c:230-249 | a request keeps used_pages plus the number of clear bits constant, modulo 2^32, exactly when every page it takes was clear |
| PageFrames.ReleasedBalance | src/kernel/memory/pmm.c:254-262 | giving pages back keeps it exactly when all of them were in use |
| PageFrames.ClearCountRange | src/kernel/memory/pmm.c:243-244 | marking n pages removes as many clear bits as were clear among them |
| PageFrames.ServeOne | src/kernel/memory/pmm.c:206-249 | a one-page request is served a page that was clear, is not page 0, and leaves one request fewer |
| PageFrames.StepKeeps | src/kernel/memory/pmm.c:206-262 | each step serves the lowest clear page, never one already out, and changes no other page |
| PageFrames.RunKeeps | src/kernel/memory/pmm.c:206-262 | over every run of one-page requests and matching returns the pages out are in use and never page 0, whatever was reserved stays reserved, and the balance is constant |
| Pmm.BitmapCovers | src/kernel/memory/pmm.c:93 | the bitmap is the number of pages, divided by eight, rounded up to whole pages; it has a bit for every page exactly unless the page count modulo 32768 is 1 to 7 |
| Pmm.BitMissing | src/kernel/memory/pmm.c:93 | a failing input: 32769 pages get a bitmap of 32768 bits |
| Pmm.KbToPagesIs | src/kernel/memory/pmm.c:85-87 | what the counters begin with: a size in bytes is taken for kilobytes, which in 64 and then 32 bits makes a page for every four bytes, modulo 2^32 |
| Pmm.CarvedCovers | src/kernel/memory/pmm.c:117-138 | carving the bitmap out of the first large enough entry takes away exactly the pages of its storage |
| Pmm.Pmm.FindFirstFreePage | src/kernel/memory/pmm.c:206-223 | the address of the lowest clear page whatever the count, or null |
| Pmm.Pmm.Alloc | src/kernel/memory/pmm.c:230-249 | takes the pages from the first clear one on and returns its higher-half address, or changes nothing and returns null |
| Pmm.Pmm.Free | src/kernel/memory/pmm.c:254-262 | clears exactly the pages from the pointer's index on, after wrap and truncation |
| Pmm.Pmm.MarkUsed | src/kernel/memory/pmm.c:243-244 | sets exactly the range |
| Pmm.TopIs | src/kernel/memory/pmm.c:74-82 | the highest address is the end of an entry of type 1, 0x1000 or 0x1001, no such entry ends above it, and without any it is 0; entries of other types do not count |
| Pmm.Pmm.Measure | src/kernel/memory/pmm.c:57-87 | highest_page is that address, reached by an entry of these types and by no other, and the counters are derived from it |
| Pmm.Pmm.PlaceBitmap | src/kernel/memory/pmm.c:117-138 | the first usable entry that is large enough, and no other, gives up its front |
| Pmm.Pmm.FreeUsable | src/kernel/memory/pmm.c:149-155 | afterwards a bit is clear exactly when a usable entry covers its page |
| Pmm.Pmm.MarkUsable | src/kernel/memory/pmm.c:142-161 | the same, page 0 excepted |
| Pmm.Pmm.Init | src/kernel/memory/pmm.c:54-161 | highest_page is the end of the highest entry of the three types; the bitmap lies at the front of the first usable entry that is large enough; and a bit below the end of the bitmap is clear exactly when its page is usable, outside the bitmap's own storage and not page 0 |
| Pmm.OnlyUsablePagesOut | src/kernel/memory/pmm.c:54-262 | after initialisation, over any run, a page that is out is usable memory, not page 0 and not part of the bitmap |
| PmmCapacity.FreedCount | src/kernel/memory/pmm.c:149-155 | freeing entries that lie apart clears as many bits as the entries have pages |
| PmmCapacity.FreeCount | src/kernel/memory/pmm.c:54-161 | after pmm_init the clear pages, all of them below the highest address, number the pages of the usable entries without the bitmap and without page 0 |
| PmmCapacity.AllServedIff | src/kernel/memory/pmm.c:206-249 | requests in a row are all served exactly while clear pages last and the 32-bit counter neither starts at zero nor comes round to it |
| PmmCapacity.ServesAfterInit | src/kernel/memory/pmm.c:54-249 | when k requests in a row are served after pmm_init, by the pages left and the counter it leaves |
| PmmCapacity.ServedExactly | src/kernel/memory/pmm.c:54-249 | the same from the memory map alone: every free page, or none if the pages counted for the memory size equal the usable ones, or, if they are fewer, all but as many as are counted |
| PmmCapacity.ServesBelow16G | src/kernel/memory/pmm.c:86-88 | below 16 GiB every clear page can be handed out |
| PmmCapacity.PagesKeptBack | src/kernel/memory/pmm.c:86-88 | eight pages above 16 GiB the last 8192 are not |
| PmmCapacity.RefusedAfterRun | src/kernel/memory/pmm.c:230-262 | over every run from pmm_init on: though a page is clear, the test of used_pages refuses exactly when the clear pages number what the counter began with, modulo 2^32 |
| PmmCapacity.NeverRefused | src/kernel/memory/pmm.c:230-262 | below 16 GiB it never refuses, over any run: a page is served exactly when one is clear |
| PageTables.EntryParts | src/kernel/memory/vmm.c:122 | frame, flags, present, read/write and page-size bits of an entry are those it was made of (Intel SDM Vol. 3A section 4.5) |
| PageTables.EntryBits | src/kernel/memory/vmm.c:112-124 | bit 0 is present, bit 1 read/write, bit 7 page size, bits 51 to 12 the frame |
| PageTables.WalkReaches | src/kernel/memory/vmm.c:147-150 | the processor's walk reaches every table on its way, collecting the read/write bits met |
| PageTables.WalkUnchanged | src/kernel/memory/vmm.c:112-125 | a write to one slot changes no walk but those through it, and not those either if nothing was there and nothing is found there |
| PageTables.LeafWrite | src/kernel/memory/vmm.c:167-200 | writing the last-level entry maps or unmaps that page and leaves every other walk as it was |
| PageTables.AttachWrite | src/kernel/memory/vmm.c:122-124 | hanging a clean frame into an empty slot keeps a tree without shared frames, one table larger, and changes no walk |
| PageTables.IdleWrite | src/kernel/memory/vmm.c:122 | a non-present word in an empty slot changes no walk |
| PageTables.OutsideWrite | src/kernel/memory/vmm.c:122 | a write to a frame outside the tree changes no walk |
| VirtualAddresses.IndexBitsIs | src/kernel/memory/vmm.c:135-139 | masking and shifting an address yields the index of its level |
| VirtualAddresses.PathsDiffer | src/kernel/memory/vmm.c:173-176 | two page numbers in range have the same indices only if they are equal |
| VmmState.AttachOk | src/kernel/memory/vmm.c:120-125 | hanging in the frame the allocator serves keeps the invariant, takes one frame and records the flags |
| VmmState.LeafOk | src/kernel/memory/vmm.c:167-200 | writing a last-level entry keeps invariant and tree and touches one page |
| VmmState.MissingCount | src/kernel/memory/vmm.c:147-150 | adding all tables on the way of a page adds exactly the missing ones |
| VmmState.UniformRights | src/kernel/memory/vmm.c:122 | if all entries on the way carry the same read/write bit, that is what a walk meets |
| Vmm.Vmm.GetPageMapLevel | src/kernel/memory/vmm.c:110-126 | a present entry is followed with its flags masked off; an empty one is filled with the next frame and the flags, the frame not being cleared |
| Vmm.Vmm.CreatePageDirectory | src/kernel/memory/vmm.c:99-107 | one frame, all its words zero |
| Vmm.Vmm.MapPage | src/kernel/memory/vmm.c:131-204 | for four and five levels, any physical address and any nine flag bits. With the present flag: the walk of the address gives frame, flags and collected rights, the walk of every other page is unchanged, the tree grows by exactly the missing tables, one frame each. Without it: the tree is the same, missing tables cost frames that are in no table, and the page reads the word written if no table was missing and that word says present, else it is unmapped |
| Vmm.LeafParts | src/kernel/memory/vmm.c:167-200 | the last-level entry made from an address that need not be aligned: its page, and its low nine bits or-ed with the flags |
| Vmm.Vmm.MapLevel | src/kernel/memory/vmm.c:147-150 | one level down, adding the table if it is missing, or only filling the entry in if the flags do not say present |
| Vmm.Vmm.WriteLeaf | src/kernel/memory/vmm.c:167-200 | the last-level write completes the mapping |
| Vmm.Vmm.UnmapPage | src/kernel/memory/vmm.c:206-251 | the walk of the address finds nothing, every other page is unchanged, the tree is the same, and each table that was missing on the way cost one frame that is in no table |
| Vmm.Vmm.UnmapLevel | src/kernel/memory/vmm.c:223-226 | one level down without hanging anything in: where the table is missing a frame is taken and lost |
| Vmm.Vmm.ClearLeaf | src/kernel/memory/vmm.c:228-247 | the last-level write of zero |
| Vmm.OrEntry | src/kernel/memory/vmm.c:122-124 | or-ing flags into a page address adds them, and masking takes them off again |
| Vmm.RootPointer | src/kernel/memory/vmm.c:99-107 | the higher-half pointer of a frame reaches that frame |
| VmmRuns.StepRefines | src/kernel/memory/vmm.c:131-251 | one map or unmap call is one update of a plain map from pages to frame and flags |
| VmmRuns.RunRefines | src/kernel/memory/vmm.c:131-251 | over every run of map and unmap calls the page tables refine that map, for every page at once |
| VmmRuns.RunTables | src/kernel/memory/vmm.c:110-204 | a run of mappings keeps the tables a tree of frames used once, makes it exactly the tables on the way to its pages, and takes one frame for each new one |
| VmmRuns.FramesConsumed | src/kernel/memory/vmm.c:99-204 | from an empty root the frames consumed are as many as the distinct index prefixes of the pages mapped, the root counted as the empty one |
| VmmRuns.StaleTable | src/kernel/memory/vmm.c:122 | new tables are not cleared: hanging a frame in as a last-level table leaves all pages alone exactly when the frame holds no present entry |
| VmmRuns.StaleWalk | src/kernel/memory/vmm.c:122 | otherwise a page that was not mapped reads the frame's old word |
| VmmRuns.LargeLink | src/kernel/memory/vmm.c:122 | the flags also go into upper levels: the pages below a new table are reached through it exactly when flag bit 7 is clear; else the walk ends there, at a large page in the second and third level from the bottom and at a reserved bit above (Intel SDM Vol. 3A section 4.5) |
| VmmLayout.PathIsSlot | src/kernel/memory/vmm.c:65-80 | the addresses of the three regions, wrap-around and sign extension included, select consecutive slots |
| VmmLayout.TopIs | src/kernel/memory/vmm.c:65-80 | the regions use top-level entries 0, 256 and 511 |
| VmmLayout.Shared | src/kernel/memory/vmm.c:65-80 | two pages of a region share their last table, last but one, and all above exactly within 512, 2^18 and all pages |
| VmmLayout.CostStep | src/kernel/memory/vmm.c:65-80 | how many tables each further page of a region takes |
| VmmLayout.TotalCost | src/kernel/memory/vmm.c:65-80 | 5133 tables for the three regions with four levels, 5136 with five |
| VmmInit.RootLaid | src/kernel/memory/vmm.c:35 | a cleared root maps nothing and took one frame |
| VmmInit.MissingIs | src/kernel/memory/vmm.c:65-80 | exactly which tables a page still lacks when its turn comes |
| VmmInit.StepLaid | src/kernel/memory/vmm.c:65-80 | mapping one more page carries the exact description of walks, tables, rights and frames on |
| VmmInit.OtherPage | src/kernel/memory/vmm.c:65-80 | no two pages of the three loops are at the same address |
| VmmInit.NextRegion | src/kernel/memory/vmm.c:65-80 | a finished loop leaves what the next one starts from |
| VmmInit.MapLowMemory | src/kernel/memory/vmm.c:65-66 | the first loop maps 4 GiB at their own addresses |
| VmmInit.MapHigherHalf | src/kernel/memory/vmm.c:72-73 | the second maps them in the higher half and leaves the first alone |
| VmmInit.MapCode | src/kernel/memory/vmm.c:79-80 | the third maps 2 GiB at the code base, no read/write bit set on the way |
| VmmInit.Init | src/kernel/memory/vmm.c:33-80 | afterwards exactly these pages are mapped, as stated, for four and five levels, the tables took exactly 5134 or 5137 frames, the lowest that were clear, and as many further requests are served as could be beyond these |
| Powers.Pow | src/libs/libk/math/math.c:20-52 | repeated squaring gives the power, without overflow, whenever the result fits an int; a negative exponent inverts the base first |
| Powers.NoOverflow | src/libs/libk/math/math.c:36-51 | no product the loop forms overflows before the result would |
| Powers.NegativeExponent | src/libs/libk/math/math.c:20-33 | with a negative exponent the result is 0 exactly for the bases other than 1 and -1; base 0 divides by zero |
| Powers.NegativeExponentOne | src/libs/libk/math/math.c:20-33 | the failing inputs: 1 to the -3 gives 1, and -1 to the -3 gives -1 |
| Powers.NextPowOfTwo | src/libs/libk/alloc/kmalloc.c:113-125 | the smallest power of two, from 2 on, that is at least the argument |
| Powers.NextPowerIs | src/libs/libk/alloc/kmalloc.c:113-125 | it is a power of two, large enough, and no smaller one is |
| Powers.NextPowerEnds | src/libs/libk/alloc/kmalloc.c:121-122 | the loop ends exactly for arguments up to 2^63; above, the shifted value reaches zero first |
| Slabs.HandOk | src/kernel/memory/slab.c:126-139 | handing out gives an object that was not out, or nothing exactly when the slab was found empty once or is empty |
| Slabs.TakeBackOk | src/kernel/memory/slab.c:166-171 | taking back an object that is out keeps entries distinct and one NULL entry for each object out |
| Slabs.TwiceFreed | src/kernel/memory/slab.c:166-171 | a pointer put back appears in two entries exactly when it was in one before |
| Slabs.AcceptsMember | src/kernel/memory/slab.c:92-162 | slab_free accepts an object exactly when it ends within the first 1024 bytes of its slab |
| Slabs.AcceptedMember | src/kernel/memory/slab.c:158-162 | whatever a slab accepts is one of its objects |
| Slabs.OthersRefuse | src/kernel/memory/slab.c:154-173 | a pointer into one slab is accepted by no other |
| Slabs.LayoutApart | src/kernel/memory/slab.c:70-93 | all objects of all eleven slabs are aligned to their size and no two overlap |
| Slabs.FreshOk | src/kernel/memory/slab.c:68-93 | the layout slab_init leaves satisfies the run invariant with nothing out |
| Slabs.AllocKeeps | src/kernel/memory/slab.c:117-143 | keeps the invariant, never hands out what is out, and fails exactly for other sizes, closed classes and empty classes |
| Slabs.FreeKeeps | src/kernel/memory/slab.c:147-175 | for an object that is out: taken back exactly within the first 1024 bytes of its slab, otherwise nothing happens |
| Slabs.RunKeeps | src/kernel/memory/slab.c:117-175 | over every run the non-NULL entries are distinct objects of their slab, none out, one NULL entry for each object out; a class found empty once stays closed |
| Slabs.ClosedClass | src/kernel/memory/slab.c:126-132 | is_full is never cleared: a closed class serves nothing in any later state |
| SlabAllocator.FramesDistinct | src/kernel/memory/slab.c:81-87 | pages served in a row were free and are all different |
| SlabAllocator.SlabAllocator.Refill | src/kernel/memory/slab.c:81-87 | a page is taken exactly when there is none yet or the last is used up |
| SlabAllocator.SlabAllocator.CutSlab | src/kernel/memory/slab.c:77-91 | the inner loop cuts the objects of one slab into its half page |
| SlabAllocator.SlabAllocator.Init | src/kernel/memory/slab.c:68-93 | exactly six pages are taken and eleven slabs laid out in them, two a page, every object free |
| SlabAllocator.SlabAllocator.FindFreeObject | src/kernel/memory/slab.c:181-190 | the first entry that is not NULL, or -1 |
| SlabAllocator.SlabAllocator.FindAllocatedObject | src/kernel/memory/slab.c:194-203 | the first NULL entry, or -1 |
| SlabAllocator.SlabAllocator.SlabAlloc | src/kernel/memory/slab.c:117-143 | refines the allocation function the laws above are about |
| SlabAllocator.SlabAllocator.SlabFree | src/kernel/memory/slab.c:147-175 | refines the release function, over all slabs, with its early return |
| Kmalloc.SizeCases | src/libs/libk/alloc/kmalloc.c:39-60 | up to 2040 bytes a slab object with room for header and payload, from 2049 on the rounded size in whole pages and one page more for the header, and between a size no slab has |
| Kmalloc.GapFaults | src/libs/libk/alloc/kmalloc.c:54-63 | requests of 2041 to 2048 bytes always end in a write through a null pointer |
| Kmalloc.FaultsWhen | src/libs/libk/alloc/kmalloc.c:35-74 | when kmalloc writes through a null pointer, for every size: above 2048 bytes exactly when no page is found to begin with; between 2041 and 2048 always; below exactly when the size class was found empty once or is empty |
| Kmalloc.NotPageAligned | src/libs/libk/alloc/kmalloc.c:65-89 | a slab object plus its header is never page aligned, so the test in kfree never mistakes one for a big block |
| Kmalloc.KernelHeap.Kmalloc | src/libs/libk/alloc/kmalloc.c:35-74 | takes pages or a slab object, writes the header, and returns the pointer behind it, or faults; where that pointer lies is `KmallocRuns.ServedBlock` |
| Kmalloc.KernelHeap.Kfree | src/libs/libk/alloc/kmalloc.c:78-110 | gives back pages or a slab object according to whether the address is page aligned |
| Kmalloc.TakenReleased | src/kernel/memory/pmm.c:230-262 | taking pages and giving them back restores bitmap and counter exactly when all of them were free |
| Kmalloc.BigUndone | src/libs/libk/alloc/kmalloc.c:41-100 | kfree of a big block restores the page allocator exactly when the pages kmalloc took were all free |
| Kmalloc.SmallFreed | src/libs/libk/alloc/kmalloc.c:54-106 | kfree of a slab block puts it back exactly when it ends within the first 1024 bytes of its slab |
| KmallocRuns.ServedBlock | src/libs/libk/alloc/kmalloc.c:35-74 | a call that is served makes exactly one block live that was not, changes no other, and returns the address 8 bytes into a slab object or 4096 bytes into a block of pages, behind its header, with all the bytes asked for inside the block |
| KmallocRuns.RefusedCall | src/libs/libk/alloc/kmalloc.c:35-74 | a call that is not served leaves all live blocks and headers as they were |
| KmallocRuns.StepKeeps | src/libs/libk/alloc/kmalloc.c:35-110 | with every page in use accounted for, reserved for somebody else, in a slab or in a live block: a call keeps the live blocks apart from one another and from the reserved pages exactly if a big request is served only clear pages, which can be told from the bitmap before the call |
| KmallocRuns.OverlapShares | src/libs/libk/alloc/kmalloc.c:41-52 | any other call hands out bytes of a live block, of a slab, or of a reserved page |
| KmallocRuns.SoundStart | src/kernel/memory/slab.c:68-93 | the heap is sound after slab_init, with every page that was in use before it reserved |
| KmallocRuns.LiveApart | src/libs/libk/alloc/kmalloc.c:35-110 | two live blocks, small or big, have no byte in common |
| KmallocRuns.RunSound | src/libs/libk/alloc/kmalloc.c:35-110 | over every run of kmalloc and kfree from there the heap stays sound up to, and not beyond, the first big request that is served a page in use |
| KmallocRuns.RunApart | src/libs/libk/alloc/kmalloc.c:35-110 | over every run up to that request no two live blocks overlap |
| KmallocRuns.ReturnedApart | src/libs/libk/alloc/kmalloc.c:35-110 | and the bytes behind each pointer kmalloc returns on the way belong to a block that was not live before and to no other live block |
| KmallocRuns.NeverReserved | src/libs/libk/alloc/kmalloc.c:35-110 | and every page with bytes of a live block was clear when slab_init began |
| KmallocRuns.LiveUsable | src/libs/libk/alloc/kmalloc.c:35-110 | so after pmm_init live blocks lie in usable memory, never in page 0 or the bitmap, whatever took pages before slab_init |
| KmallocOverlap.PageTwice | src/libs/libk/alloc/kmalloc.c:35-110 | a failing run, from any sound heap whose first five clear pages lie in a row: three pages, two pages, the first three freed, two pages, and two again; the last request is served a page of the second block, and the two live blocks share bytes |
| KmallocOverlap.SpentRun | src/kernel/memory/pmm.c:206-249 | requests for single pages eat a row of clear pages from its front |
| KmallocOverlap.PageTwiceFromStart | src/libs/libk/alloc/kmalloc.c:35-110 | the same run right after slab_init, when the first eleven clear pages lay in a row before it |
| Boot.EnoughBelow16G | src/kernel/kernel.c:55-60 | below 16 GiB the memory map has enough for page tables, slabs and any number of further pages exactly if it has that many free pages |
| Boot.SmallEnough | src/kernel/kernel.c:55-60 | 64 MiB in one entry are enough |
| Boot.BootMemory | src/kernel/kernel.c:55-60 | pmm_init, vmm_init and slab_init in a row: with enough pages all three are served, the page tables are laid as stated for vmm_init, and the heap is sound |
| Boot.HeapApart | src/kernel/kernel.c:55-60 | after that no live block has a byte in page 0, the bitmap, memory that is not usable, or a page table, over every run that is served clear pages |
| Boot.PageTwiceAfterBoot | src/kernel/kernel.c:55-60 | after that, with 64 MiB, the failing run is there |
| PrintfText.DigitsValue | src/libs/libk/kprintf/kprintf.c:280-287 | the digits written are those of the value modulo base^32, the capacity of the buffer |
| PrintfText.DigitsExact | src/libs/libk/kprintf/kprintf.c:280-287 | they are the value's own exactly when it is below base^32, which in base 2 not every 64-bit value is |
| PrintfText.DigitsTop | src/libs/libk/kprintf/kprintf.c:280-287 | no leading zero is written |
| PrintfText.ReadReverse | src/libs/libk/kprintf/kprintf.c:201-202 | reading the reversed buffer from the front gives the value of its digits |
| PrintfLaws.IntTextIs | src/libs/libk/kprintf/kprintf.c:189-292 | without #, and for a zero with it, for every base, value, precision and width: spaces, the sign if it fits, digits, spaces; and max(width, natural length) characters in all exactly when the 32-character buffer is long enough, told by natural length, width and flags |
| PrintfLaws.SignPrinted | src/libs/libk/kprintf/kprintf.c:254-265 | for every flag, # included: the - of a negative number, and the + asked for, are in the text exactly when digits, precision, mark and width leave room for them |
| PrintfLaws.SignLost | src/libs/libk/kprintf/kprintf.c:216-266 | a failing input: -5 with %040d prints what 5 does, 32 characters without a sign |
| PrintfLaws.PrecisionKept | src/libs/libk/kprintf/kprintf.c:216-228 | at least precision digits are printed exactly when the precision fits the buffer or, with the - flag, which turns it off, the number is that long anyway |
| PrintfLaws.PrecisionLost | src/libs/libk/kprintf/kprintf.c:216-228 | a failing input: 7 with %-.5d prints 7 |
| PrintfLaws.BodyValue | src/libs/libk/kprintf/kprintf.c:177-292 | the digits printed, leading zeros included, read back as the value exactly when it is below base^32, as all 64-bit values are from base 8 on |
| PrintfLaws.HashValue | src/libs/libk/kprintf/kprintf.c:232-241 | with #, what is left of the number reads back as the value exactly when no digit was taken away and the digits were all there |
| PrintfLaws.HashExact | src/libs/libk/kprintf/kprintf.c:189-266 | with #, in base 2, 8 and 16, with any sign flags: the text is spaces, the sign, the whole mark, and digits that read back as the value, exactly when no digit goes to make room and the buffer has room for mark and sign, a condition on digit count, base, precision, width and flags |
| PrintfLaws.HashLosesDigit | src/libs/libk/kprintf/kprintf.c:232-256 | a failing input: 128 with %#8b prints 0b0000000 |
| PrintfLaws.HashLosesMark | src/libs/libk/kprintf/kprintf.c:242-252 | a failing input: 1 with %#.31x prints 32 characters of which the first is x |
| Kprintf.PointerShown | src/libs/libk/kprintf/kprintf.c:929-948 | when %#p prints a pointer with its whole mark and digits: told by the digit count and the flags |
| Kprintf.PointerLosesDigits | src/libs/libk/kprintf/kprintf.c:929-948 | a failing family: every pointer of 16^15 and more, as all of the higher half, unless a sign flag is given |
| PrintfLaws.MarkedCore | src/libs/libk/kprintf/kprintf.c:242-252 | how much of 0x, 0X, 0b or 0 stands before the digits: all of it with room for it, then its last character, then nothing |
| Kprintf.Sink.Out | src/libs/libk/kprintf/kprintf.c:125-129 | one more character of the text, kept only below the limit |
| Kprintf.Sink.OutRev | src/libs/libk/kprintf/kprintf.c:189-212 | the buffer back to front with its padding |
| Kprintf.Sink.Terminate | src/libs/libk/kprintf/kprintf.c:962-963 | a NUL behind the text, or in the last place |
| Kprintf.FillZeros | src/libs/libk/kprintf/kprintf.c:224-228 | zeros up to a length, never past the buffer |
| Kprintf.NtoaFormat | src/libs/libk/kprintf/kprintf.c:216-266 | prints what the laws above describe |
| Kprintf.NtoaLong | src/libs/libk/kprintf/kprintf.c:270-292 | prints the text of one integer conversion, for every flag, width and precision |
| Kprintf.WriteDigits | src/libs/libk/kprintf/kprintf.c:280-287 | the digit loop, at most 32 digits |
| Kprintf.Strnlen | src/libs/libk/kprintf/kprintf.c:158-165 | the length of a string or the limit |
| Kprintf.Atoi | src/libs/libk/kprintf/kprintf.c:177-185 | the number and where it ends |
| Kprintf.AtoiReadsBack | src/libs/libk/kprintf/kprintf.c:177-185 | _atoi reads back the digits printed in base 10: the value modulo 2^32, all of them used up |
| Kprintf.ParseFlags | src/libs/libk/kprintf/kprintf.c:632-674 | all flags and where they end, the loop consuming format text |
| PrintfDirectives.WidthRead | src/libs/libk/kprintf/kprintf.c:676-694 | a width that was left out, written in decimal, or taken from the arguments is read as that number, a negative one as its size and a - flag |
| PrintfDirectives.PrecisionRead | src/libs/libk/kprintf/kprintf.c:696-712 | the same for the precision: a point alone means zero, and so does a negative argument |
| PrintfDirectives.FlagsRead | src/libs/libk/kprintf/kprintf.c:632-674 | any string of flag characters is read as the set of those in it, up to the first character that is none |
| PrintfDirectives.DecimalRead | src/libs/libk/kprintf/kprintf.c:177-185 | a number below 2^32 written in decimal is read back, up to the first character that is no digit |
| PrintfDirectives.LengthRead | src/libs/libk/kprintf/kprintf.c:714-760 | each of the length fields h, hh, l, ll, t, j, z or none sets its flags and is passed whole |
| PrintfDirectives.DirectiveRead | src/libs/libk/kprintf/kprintf.c:632-760 | any directive that was written out, wherever it stands in the format, is read back: the same flags, width, precision and length, ending just behind it, with exactly the arguments of its stars used up |
| Kprintf.OutChar | src/libs/libk/kprintf/kprintf.c:874-897 | a character with its padding |
| Kprintf.OutPart | src/libs/libk/kprintf/kprintf.c:914-916 | the characters of a string, no more than the precision allows |
| Kprintf.OutStr | src/libs/libk/kprintf/kprintf.c:899-927 | a string, cut at its precision, with its padding |
| Kprintf.OutPiece | src/libs/libk/kprintf/kprintf.c:762-959 | writes the text of any conversion, which `PrintfConversions` tells character by character |
| Kprintf.Vsnprintf | src/libs/libk/kprintf/kprintf.c:605-967 | for every well-formed format and argument list, any limit: the text is that of its pieces (`PrintfConversions`), the return value is the length of the whole text, and the buffer shows its first maxlen - 1 characters and a NUL, everything else untouched |
| PrintfConversions.IntegerPrinted | src/libs/libk/kprintf/kprintf.c:765-859 | every written directive with d, i, u, x, X, o or b, wherever it stands: the argument cut to 8 bits for hh, 16 for h, 32 for no length, 64 for the others, signed for d and i, is printed in base 16 for x and X, 8 for o, 2 for b, 10 for the others; the digits are below the base, capitals exactly for X, without leading zeros, and read back as the number (in base 2, as its low 32 bits); spaces, sign, mark and zeros are told exactly from flags, width and precision |
| PrintfConversions.PlainInteger | src/libs/libk/kprintf/kprintf.c:765-859 | without flags, width and precision the text is just the number, with a minus sign exactly if it is negative |
| PrintfConversions.PointerPrinted | src/libs/libk/kprintf/kprintf.c:929-948 | p prints the 64-bit argument in base 16 with capitals, sixteen columns wide, filled with zeros, laid out the same way |
| PrintfConversions.TextLaid | src/libs/libk/kprintf/kprintf.c:216-292 | the same for every text of _ntoa_long: how many spaces, which sign, how much of the mark, how many zeros and which digits |
| PrintfConversions.DigitLetters | src/libs/libk/kprintf/kprintf.c:284-285 | digit d is the letter at place d of 0123456789abcdef, or of the capitals |
| PrintfConversions.CharPrinted | src/libs/libk/kprintf/kprintf.c:874-897 | c prints the low byte of its argument with spaces before it up to the width, or behind it for the - flag or a negative width |
| PrintfConversions.StringPrinted | src/libs/libk/kprintf/kprintf.c:899-927 | s prints its string, cut to a precision, with spaces in the same way |
| PrintfConversions.OtherPrinted | src/libs/libk/kprintf/kprintf.c:950-958 | any other character, the percent sign among them, prints itself and takes no argument |
| PrintfConversions.TextPrinted | src/libs/libk/kprintf/kprintf.c:616-625 | text without a percent sign is printed as it is |
| PrintfConversions.DirectivePrinted | src/libs/libk/kprintf/kprintf.c:616-960 | a format that begins with a directive prints its text and then what the rest prints, with the arguments that are left |
| PrintfConversions.RenderBehind | src/libs/libk/kprintf/kprintf.c:616-960 | what a format prints from a place on does not depend on what stands before it |
| Framebuffer.StepNear | src/kernel/devices/framebuffer/framebuffer.c:159-173 | from a pixel near the ideal line a step goes to the next such pixel, always one along the longer axis |
| Framebuffer.NearUnique | src/kernel/devices/framebuffer/framebuffer.c:100-177 | there is only one such pixel for each step of the longer axis |
| Framebuffer.ErrorIs | src/kernel/devices/framebuffer/framebuffer.c:155-171 | error1 is (j+1)dx - (i+1)dy after i steps in x and j in y, dy being taken positive |
| Framebuffer.HalfPixel | src/kernel/devices/framebuffer/framebuffer.c:100-177 | such a pixel is at most half a pixel off along the shorter axis |
| Framebuffer.WalkNear | src/kernel/devices/framebuffer/framebuffer.c:159-176 | dot k is the one pixel near the line k steps along the longer axis |
| Framebuffer.EndReached | src/kernel/devices/framebuffer/framebuffer.c:159 | the pixel the loop stops at is the end of the line exactly when the longer axis is less than twice the shorter |
| Framebuffer.LineEnds | src/kernel/devices/framebuffer/framebuffer.c:159-176 | the loop ends within as many steps as the longer axis has, inside the box, and at the end of the line exactly under that condition |
| Framebuffer.LineStopsShort | src/kernel/devices/framebuffer/framebuffer.c:159-176 | a failing input: the line from (0, 0) to (2, 1) stops at (1, 1) |
| Framebuffer.LineDot | src/kernel/devices/framebuffer/framebuffer.c:159-176 | every dot lies in the box of the end points and is off the ideal line by at most half a pixel: twice the deviation j dx - i dy stays within plus and minus max(dx, dy) |
| Framebuffer.Screen.DrawPixel | src/kernel/devices/framebuffer/framebuffer.c:69-75 | the word y * stride + x holds the color and no other word changes: one more dot on the screen |
| Framebuffer.Held | src/kernel/devices/framebuffer/framebuffer.c:226-230 | a pixel is kept in the word y * stride + x |
| Framebuffer.LastDotShows | src/kernel/devices/framebuffer/framebuffer.c:69-75 | after any dots the screen shows at each place the last one painted there, and what it held before if there is none |
| Framebuffer.Screen.DrawSlanted | src/kernel/devices/framebuffer/framebuffer.c:133-176 | draws exactly the dots of the walk, stopping at the first step at which a coordinate has arrived |
| Framebuffer.Screen.DrawLine | src/kernel/devices/framebuffer/framebuffer.c:100-177 | a column or row is one dot for each pixel from the lower to the higher end, in that order; all other lines as above |
| Framebuffer.MoveOneRowUp | src/kernel/devices/framebuffer/framebuffer.c:218-234 | in place: every pixel holds what was a glyph height below, background coming in at the bottom; a screen lower than two glyphs keeps the rows in between, and columns past the width are untouched |
| GlyphTable.WalkIsLookup | src/libs/libk/ssfn.h:367-376 | the walk over any encoded table is a look-up in the map it describes: present characters are found at their record, all others reported missing |
| GlyphTable.RecordIs | src/libs/libk/ssfn.h:1546-1553 | records are six header bytes and as many fragments as the second says, each an x, a y and an offset of three bytes, or four when bit 6 of the first is set: a sequence of bytes is a good record exactly if it is made of such parts |
| GlyphTable.RecordGood | src/libs/libk/ssfn.h:373 | and the walk steps over just these bytes |
| GlyphRecords.SsfnPutcFragments | src/libs/libk/ssfn.h:1549-1553 | the fragment loop of ssfn_putc reads back, from the bytes of a record, the fragments it was made of, offsets as int, and skips those at (255, 255) |
| GlyphTable.SkipForms | src/libs/libk/ssfn.h:368-370 | the three forms of a gap in bytes: 80 to BF for 1 to 64 characters, two bytes from C0 00 on for up to 16128, FF for 65536 |
| GlyphTable.TableOf | src/libs/libk/ssfn.h:367-376 | the table built for an increasing list of characters with records made of parts is sound, spans the code space and describes exactly the list |
| GlyphTable.TableFinds | src/libs/libk/ssfn.h:367-376 | so any increasing list can be encoded with the three skip forms and is found again |
| GlyphTable.Masks | src/libs/libk/ssfn.h:368-374 | the walkers' masks pick the bits of a byte they are meant to |
| GlyphTable.SsfnC | src/libs/libk/ssfn.h:367-377 | the loop of _ssfn_c is that walk, over any bytes |
| GlyphTable.SsfnPutcFind | src/libs/libk/ssfn.h:1542-1548 | the loop of ssfn_putc is the same walk, so the two always agree |
| Utf8.DecodeEncode | src/libs/libk/ssfn.h:260-272 | decoding takes back the encoding of any character and moves just past it (RFC 3629, section 3) |
| Utf8.RoundTrip | src/libs/libk/ssfn.h:260-272 | every string of characters comes back from its encoding |
| Utf8.Examples | src/libs/libk/ssfn.h:260-272 | a character of each length and its bytes |
| Utf8.PrintString | src/kernel/devices/framebuffer/framebuffer.c:298-302 | the printing loop takes off exactly the characters of the string |

## Left out

- Port I/O, serial line, PIC, APIC, keyboard, CPUID, GDT, IDT, TLB and CR3: hardware effects. Whether five levels are enabled is a constant of the model.
- Logging, the boot screens, the shell, ACPI and boot tag walks: no internal property.
- Floating-point conversions of kprintf: compiled out.
- `ssfn_render`, `ssfn_select`, `ssfn_load`, blitting, kerning and ligatures: rendering glue. Of `ssfn_putc` only the search for the glyph and the reading of its fragments are modelled.
- The circle routine: its decision variable drifts from the exact one.
- HuffmanTable.ZHuffman.Build: the C arrays of a table are sequence fields of its class, so writes past one array into the next cannot be expressed; that every index is in range is proved instead.
- Inflater.ZBuf.ZHuffmanDecode: defined while 32 bits of the stream are left, the most one refill may read; what the code still decodes from its buffer with fewer is left out.
- Inflater.ZBuf.ZExpand: nothing is stated where the size is read from bytes not yet written or is too small for what follows.
- Inflater.ZlibDecode: nothing is stated for streams on which the decoder would read past the input, use an unused table entry, or read a font size not yet written or of 2^31 and more; a failing allocation is not modelled.
- Pmm.Pmm.Init: the memory map must consist of whole pages, with usable entries apart from each other, page numbers that fit an int, room for the bitmap, and a bitmap that covers all pages.
- PageFrames.RunKeeps: runs of one-page requests; what requests for several pages do is `PageFrames.TakenBalance`.
- Vmm.Vmm.MapPage: flag bit 7 beside the present bit only where no table is missing (`VmmRuns.LargeLink` says what happens else); the flags are nine bits, as the masks of the code expect. Frames not in use must hold no present entries (`VmmRuns.StaleTable` says why), and there must be frames for the missing tables.
- VmmRuns.RunRefines: a mapping without the present flag whose address says present by its lowest bit is not among the calls of a run; what one such call does is stated by `Vmm.Vmm.MapPage`.
- Vmm.Vmm.GetPageMapLevel: memory is reached through the boot loader's mapping, at physical addresses and in the higher half; remapping the kernel's own tables while they are in use is not modelled.
- Powers.Pow: results that do not fit an int are left out, since signed overflow has no meaning in C.
- SlabAllocator.SlabAllocator.Init: a page allocation that fails is left out; slab_init does not check for it and would cut objects out of the memory from address zero on. `Boot.BootMemory` says when all six succeed after pmm_init and vmm_init.
- SlabAllocator.SlabAllocator.constructor: a slab is a value in the array of slabs, as the C structures lie in theirs; bytes of the objects themselves are not modelled.
- Slabs.RunKeeps: only pointers that are out are given back; `Slabs.TwiceFreed` is about others.
- Kmalloc.KernelHeap.Kmalloc: headers are a map from addresses; that callers write only inside their own payload is taken for granted.
- KmallocRuns.RunApart: runs that go on behind a call that was served a page in use have no law; other users of the page allocator hold their pages throughout the run, and no request reaches past the end of the bitmap.
- Boot.BootMemory: what gdt_init and idt_init, which run before slab_init and take no pages, do is left out; the usable memory outside the bitmap must hold no present entries.
- PrintfDirectives.DirectiveRead: numbers below 2^32 only, the range of the code's own; what longer ones wrap to is `Kprintf.AtoiReadsBack`.
- Kprintf.Vsnprintf: formats that end inside a directive, strings of 2^32 characters and more, and arguments that are missing or of another kind have no defined text; the buffer holds at least as many characters as the limit says; the output function of `fctprintf` is not modelled.
- Framebuffer.Screen.DrawLine: both ends must be on the screen, as the code writes unchecked; coordinates are small enough for int arithmetic.
- GlyphTable.SsfnC: the table must span the code space or hold the character, since the loop has no other end.
- Utf8.RoundTrip: well-formed text only; what the decoder makes of other bytes is not stated.

# Verified models of early Linux kernel routines

Dafny models of five parts of the kernel, each with proofs of what it promises. Every routine that
changes state is a method (on a class, an array or a map) proved against a specification on values,
and the results below are then proved about the specification for every input or every run.

- **Floating point emulator** (`Words`, `TempReals`, `Fpu`, `Add`, `Quads`, `Mul`, `Div`, `Compare`,
  `Convert`, `Ieee`, `GetPut`). 32-bit words are bounded integers, and every carry, borrow and wrap
  is written out. A temporary real denotes (-1)^s * M * 2^(e - 16446); scaled by 2^16446 it is an
  integer (`Scaled`), so results and error bounds are exact. Addition, multiplication, division,
  comparison, integer, BCD and IEEE conversions are proved against that reading.
- **Bucket allocator** (`Malloc`). Descriptors are objects, the in-page free lists are words in memory,
  and ghost state names the chains, the pool and the live objects. One invariant holds over every run
  from boot, including stores by the holders and runs in which complete `malloc` and `free_s` calls
  happen between the search and the `cli()` of another `free_s`, nested to any depth; and live objects
  keep what they hold. `malloc` takes a page exactly when no page of the bucket has room.
- **VT102 console** (`Screen`, `Video`, `Console`, `Vt102`, `Shown`, `Escapes`). `Screen` is a flat screen and the escape
  sequence machine; `Console` drives a slice of video memory by `pos`, `origin` and `scr_end`, panning
  (EGA/VGA) or copying (MDA/CGA). Both are proved to show the flat screen after every byte stream,
  and `Vt102`, `Shown` and `Escapes` say what each sequence of bytes does, by row and column.
- **Terminals and pseudo terminals** (`Ring`, `LineDiscipline`, `Typing`, `Tty`, `Echo`, `Pty`). The
  1024-slot rings, canonical editing, line counting, echo, `tty_read`, and the pipeline between two pty
  ends; `Typing` says what each byte does under which settings.
- **Number formatting and the boot loader's read loop** (`Vsprintf`, `Bootsect`).

Where the code does not do what it is for, the model keeps the code, a lemma gives an input, and another
says exactly when it does do it:

- `real_to_int` loses bits below its 32 fraction bits. It rounds as IEEE 754-1985 sections 4.1 and 4.2
  ask exactly when those bits are not misjudged (`ToIntCorrect`, input in `ToIntGoesWrong`); at most 32
  fraction bits never are.
- `temp_to_long` in nearest mode truncates the tie above an odd significand (`LongNearestEven`,
  `LongTruncatesTie`). In the directed modes it tests bits it does not drop (`LongDirected`), so
  `long_to_temp` followed by `temp_to_long` changes exactly the patterns called `Spoiled`
  (`LongRoundTrip`, `LongGainsOne`).
- `temp_to_short` never reads the low mantissa word (`ShortNearestEven`, `ShortDirected`,
  `ShortDropsLowWord`).
- `short_to_temp` and `long_to_temp` read denormals as if they had a hidden bit (`ShortToTempExact`,
  `LongToTempExact`, inputs in `ShortDenormalGoesWrong` and `LongDenormalGoesWrong`).
- A BCD image survives the round trip exactly when it is valid and not negative zero (`BCDRoundTrip`,
  `NegativeZeroLost`).
- The unchecked `PUTCH` of echo can empty a full output queue. It does so exactly when, between a STOP
  and the next START, more echo bytes pile up than the queue has places (`LostExactly`, input in
  `EchoOverruns`); `Overruns` counts them from the characters typed.
- The settings consoles get at boot name IXON in the word of local flags, so it is not in force
  (`kernel/chr_drv/tty_io.c:425-428`); `BootEcho` is about the settings as they are read.
- Cursor movements use unsigned sums and differences; they land elsewhere exactly when those wrap round
  to the screen (`CursorMoves`, `CursorUpWraps`).
- ESC [ 4 m in colour looks for a foreground that shows against the background, and finds one unless the
  attribute is 0x87 (`UnderlineShows`).
- In `fdiv` the branch that sets PE is dead: the low words of the quotient are always zero.
- The vt100 graphics table escapes a backslash that was meant to start an octal escape, so its last
  three places hold a backslash and two zeros; the model keeps the table as it is written.

## Model

| member | source | states |
|---|---|---|
| Add.Signify | kernel/math/add.c:27-36 | the mantissa makes room for carry and sign and becomes two's complement, sign bit cleared |
| Add.Unsignify | kernel/math/add.c:38-55 | back to sign and magnitude, doubled until the top bit is set; the loop terminates |
| TempReals.RaiseMantissa | kernel/math/add.c:49-54 | the normalising loop takes exactly as many steps as the mantissa has leading zeros and one exponent unit for each |
| Add.Fadd | kernel/math/add.c:57-92 | with any aliasing of result and operands, the value computed is Sum of the operands as they were, within two units of the exact sum, one if the signs differ |
| Add.Absorbs | kernel/math/add.c:73-76 | an operand 64 or more exponents below the other leaves it bit for bit |
| Add.Commutes | kernel/math/add.c:57-92 | addition is commutative bit for bit, for all operands |
| Add.TotalFits | kernel/math/add.c:78-90 | the signed 64-bit sum never overflows |
| Add.SumIsTotal | kernel/math/add.c:78-92 | the result is exactly the truncated total, normalised, with the right sign, and +0 when it is zero |
| Add.SumError | kernel/math/add.c:57-92 | for operands with any mantissas: error under 2 units of 2^(x+2), under 1 unit when the signs differ |
| Add.SumNormal | kernel/math/add.c:38-92 | the result of normalised or zero operands is normalised or +0 |
| Quads.ShiftLeft | kernel/math/mul.c:13-20 | a 128-bit doubling through four carries |
| Quads.ShiftRight | kernel/math/div.c:22-26 | a 128-bit halving through three rotates |
| Quads.TrySub | kernel/math/div.c:28-38 | succeeds exactly when the subtrahend fits, and then leaves the difference |
| Mul.AddMiddle | kernel/math/mul.c:32-41 | a middle product added with its carries, none lost from the top word |
| Mul.Mul64 | kernel/math/mul.c:22-44 | the exact 128-bit product of the mantissas |
| Mul.Fmul | kernel/math/mul.c:46-73 | told from the operands: too small an exponent gives a signed zero, too large a one OE and no change, and else the result is the exact product truncated in its last place with its sign, normalised unless its exponent is zero |
| Mul.ProductTruncates | kernel/math/mul.c:46-73 | in range: the exact product truncated toward zero to the result's last place, every shift matched by an exponent step |
| Mul.ProductNormal | kernel/math/mul.c:62-72 | a non-zero product is normalised unless the exponent ran out at zero |
| Div.Div64 | kernel/math/div.c:40-61 | M1 * 2^64 = Q * 2 * M2 + rem with rem < 2 * M2, Q in the top words |
| Div.Fdiv | kernel/math/div.c:63-109 | told from the operands: ZE and UE with what is left in the result, and else a quotient below the unit is a signed zero, one of 2^16385 or more raises OE and changes nothing, and any other is truncated at the unit with its sign, DE exactly if it is too small to be normalised; PE is never raised |
| Div.QuotientTruncates | kernel/math/div.c:63-109 | off the exception paths: exactly the quotient truncated to a multiple of 2^(i-16446), i the exponent before the final normalisation |
| Div.BitsUnique | kernel/math/div.c:40-61 | that quotient is floor(M1 * 2^63 / M2) |
| Compare.Normalize | kernel/math/compare.c:15-31 | doubled until the top bit is set or the exponent is used up; zero loses its sign |
| Compare.Ftst | kernel/math/compare.c:33-45 | for every operand, normalised or not: C0 exactly when it is below zero, C3 exactly when it is zero, C2 cleared and no other flag touched |
| Compare.Fcom | kernel/math/compare.c:47-55 | the flags never report a strict order that does not hold, and touch no bit but C0, C2 and C3 |
| Compare.SumSign | kernel/math/compare.c:47-55 | the sign of a truncated sum is never wrong, and a zero sum means less than one unit |
| Compare.CompareSound | kernel/math/compare.c:47-55 | C0 implies src2 < src1, neither flag implies src2 > src1, equal values give C3, and C3 bounds the difference by one unit |
| Convert.LoadShifted | kernel/math/convert.c:127-145 | three words hold the mantissa shifted right, the lowest being 32 fraction bits |
| Convert.RoundWords | kernel/math/convert.c:146-166 | the rounding step on those words, in the mode of the control word |
| Convert.RealToInt | kernel/math/convert.c:116-167 | the stored magnitude and sign, and OE exactly when the value is too large |
| Convert.ToIntCorrect | kernel/math/convert.c:116-167 | correct rounding in all four modes if and only if lost bits are not misjudged |
| Convert.ToIntDelivered | kernel/math/convert.c:116-167 | with an exponent beyond 64 bits zero and OE; else no flag, and the magnitude over 2^(16446-exponent) rounded correctly unless misjudged |
| Fpu.I387.ModeBits | include/linux/math_emu.h:105-115 | bits 10 and 11 of the control word choose nearest, down, up and chop in this order |
| Convert.ToIntGoesWrong | kernel/math/convert.c:147-153 | a number just over a half that is taken down in nearest mode |
| Convert.ToIntExactFraction | kernel/math/convert.c:116-167 | at most 32 fraction bits dropped: always correctly rounded |
| Convert.ToIntNearestError | kernel/math/convert.c:116-167 | nearest mode is within 1/2 + 2^-32 for every representable magnitude |
| Convert.IntToReal | kernel/math/convert.c:169-185 | the integer as a temporary real, through the normalising loop |
| Convert.FromIntExact | kernel/math/convert.c:169-185 | every 64-bit magnitude converts exactly and normalised |
| Convert.IntRoundTrip | kernel/math/convert.c:116-185 | an integer comes back unchanged in every rounding mode |
| Ieee.LongToTemp | kernel/math/convert.c:38-53 | the two-word shifts read sign, exponent and fraction of the 64-bit pattern |
| Ieee.LongToTempExact | kernel/math/convert.c:38-53 | exactly the number the double denotes if and only if it is not denormal |
| Ieee.LongDenormalGoesWrong | kernel/math/convert.c:38-53 | the least positive double is not converted to its value |
| Ieee.TempToLong | kernel/math/convert.c:81-114 | the two-word result, its exponent field wrapping and its rounding carry propagating |
| Ieee.LongRoundTrip | kernel/math/convert.c:38-114 | identity on every 64-bit pattern in nearest and chop modes; in the directed modes exactly off the spoiled patterns |
| Ieee.SpoiledGainsOne | kernel/math/convert.c:101-112 | a spoiled pattern comes back as the next one |
| Ieee.LongGainsOne | kernel/math/convert.c:107-112 | a double that does |
| Ieee.LongValue | kernel/math/convert.c:81-114 | the double's value is the rounded significand in every mode, also when the carry runs into the exponent field |
| Ieee.LongNearestError | kernel/math/convert.c:9-16 | nearest mode is within half a unit in the last place over double's normal range |
| Ieee.LongNearestEven | kernel/math/convert.c:94-100 | nearest-even except exactly on ties above an odd significand; chop truncates |
| Ieee.LongTruncatesTie | kernel/math/convert.c:94-100 | such a tie, and what is stored for it |
| Ieee.LongDirected | kernel/math/convert.c:101-112 | the directed modes round correctly if and only if the bits they test are zero just when the dropped ones are, or the sign asks for truncation |
| Ieee.LongFields | kernel/math/convert.c:81-114 | for every operand, in range or not: sign, wrapped exponent field and fraction bits in chop mode, a signed zero without an exponent, and that pattern or the next in the other modes |
| Ieee.ShortToTemp | kernel/math/convert.c:21-36 | the shifts read sign, exponent and fraction of the 32-bit pattern |
| Ieee.ShortToTempExact | kernel/math/convert.c:21-36 | exactly the number the single denotes if and only if it is not denormal |
| Ieee.ShortDenormalGoesWrong | kernel/math/convert.c:21-36 | the least positive single is not converted to its value |
| Ieee.TempToShort | kernel/math/convert.c:55-79 | the pattern cut from all 64 mantissa bits, or the next one, its sum wrapping at 32 bits |
| Ieee.ShortRoundTrip | kernel/math/convert.c:21-79 | identity on every 32-bit pattern in all four modes |
| Ieee.ShortValue | kernel/math/convert.c:55-79 | over single's normal range the stored word denotes the rounded significand, carry into the exponent included |
| Ieee.ShortNearestEven | kernel/math/convert.c:65-69 | nearest-even except exactly where bits 32 to 39 read one half and the low word is not zero or the significand is odd; chop truncates |
| Ieee.ShortDirected | kernel/math/convert.c:70-77 | the directed modes round correctly if and only if the low word is not all that is dropped, or the sign asks for truncation |
| Ieee.ShortFields | kernel/math/convert.c:55-79 | the same for single precision |
| Ieee.ShortNearestError | kernel/math/convert.c:55-79 | nearest mode is within 1/2 + 2^-8 units in the last place |
| Ieee.ShortDropsLowWord | kernel/math/convert.c:65-69 | a number just over a half unit that is taken down |
| GetPut.GetShortInt | kernel/math/get_put.c:52-64 | the signed 16-bit integer as a temporary real |
| GetPut.GetLongInt | kernel/math/get_put.c:66-78 | the signed 32-bit integer |
| GetPut.GetLongLongInt | kernel/math/get_put.c:80-95 | the signed 64-bit integer, negated across two words |
| GetPut.PutShortInt | kernel/math/get_put.c:168-180 | the low 16 bits of the rounded integer, OE exactly when it does not fit 64 bits |
| GetPut.PutLongInt | kernel/math/get_put.c:182-194 | the low 32 bits, and OE likewise |
| GetPut.PutLongLongInt | kernel/math/get_put.c:196-212 | all 64 bits, and OE likewise |
| GetPut.IntegerRoundTrip | kernel/math/get_put.c:52-95 | every 16-, 32- and 64-bit integer, the most negative included, survives get then put in every mode |
| GetPut.GetIntValue | kernel/math/get_put.c:52-95 | a two's complement word is loaded as exactly the number it stands for |
| GetPut.PutIntIs | kernel/math/get_put.c:168-212 | what is stored is the signed result modulo the width, in range or not |
| GetPut.Mul10 | kernel/math/get_put.c:97-104 | ten times a 64-bit number in two words |
| GetPut.GetBCD | kernel/math/get_put.c:110-129 | nine bytes read downwards and the sign byte give the number as a temporary real |
| GetPut.NumberFits | kernel/math/get_put.c:118-126 | even invalid nibbles never overflow the 64-bit accumulator |
| GetPut.Div10 | kernel/math/get_put.c:214-217 | quotient and remainder by ten of a 64-bit number in two words |
| GetPut.PutBCD | kernel/math/get_put.c:219-240 | ten bytes written, nothing else in memory touched, and OE likewise |
| GetPut.BCDRoundTrip | kernel/math/get_put.c:110-240 | ten bytes survive get_BCD then put_BCD in all four modes if and only if they are valid BCD and not negative zero |
| GetPut.GetBCDDigits | kernel/math/get_put.c:110-129 | the number loaded has the low and high halves of the bytes as its decimal digits, in this order, and the sign of the last byte |
| GetPut.PutBCDDigits | kernel/math/get_put.c:219-240 | each byte stored holds its two decimal digits of the rounded integer, the higher one above, and the last byte the sign |
| GetPut.NegativeZeroLost | kernel/math/get_put.c:110-240 | nine zero bytes and a sign byte do not survive |
| Malloc.FindBucket | lib/malloc.c:127-134 | the smallest bucket that fits; the end marker exactly for more than a page |
| Malloc.LinkPage | lib/malloc.c:105-113 | a descriptor page is linked in order and then to the old pool |
| Malloc.Allocator.InitBucketDesc | lib/malloc.c:97-115 | exactly 256 fresh descriptors join, all in the pool, and every part of the invariant survives |
| Malloc.Allocator.ThreadSlots | lib/malloc.c:160-164 | the loop threads exactly the page's slots and writes on no other page |
| Malloc.Allocator.NewBucket | lib/malloc.c:146-167 | a descriptor with refcnt 0, on a page the source still held and with all its slots free, becomes the head of its chain; no live object changes its descriptor and no page in use is written |
| Malloc.Allocator.FindRoom | lib/malloc.c:139-141 | the first descriptor of the chain whose page has room, and none exactly when no page of it has |
| Malloc.Allocator.TakeSlot | lib/malloc.c:168-170 | the head of the free list becomes live and was not live before |
| Malloc.Allocator.Malloc | lib/malloc.c:117-173 | the first free slot of the first page of the smallest bucket with room, and nothing is taken; the front of a new page at the head of the chain exactly when no page has room; every other object kept with what it holds; panic exactly above a page, changing nothing |
| Malloc.Allocator.Search | lib/malloc.c:188-203 | finds the object's own descriptor, or panics exactly when the size hint exceeds its bucket |
| Malloc.Allocator.ReleaseSlot | lib/malloc.c:205-207 | the object goes back on its page's list and is no longer live |
| Malloc.Allocator.PassesCheck | lib/malloc.c:213-214 | whatever has become of prev, if it still points at bdesc it is the predecessor in that chain |
| Malloc.Allocator.RecheckPrev | lib/malloc.c:209-217 | the re-check and rescan end with the true predecessor, or none exactly for the head of the chain |
| Malloc.Allocator.RemoveFromChain | lib/malloc.c:218-224 | exactly bdesc leaves its chain, in place; the corruption panic is unreachable |
| Malloc.Allocator.Recycle | lib/malloc.c:225-227 | the page goes back to its source and the descriptor to the pool |
| Malloc.Allocator.Commit | lib/malloc.c:204-230 | from cli() on: the object is released, and its descriptor unlinked exactly when it was the last, with any prev that was ever a descriptor |
| Malloc.Allocator.Free | lib/malloc.c:182-231 | exactly this object stops being live, first on its page's list, and the others keep what they hold; the page goes exactly when it was the last; panic exactly for a hint above its bucket |
| Malloc.Allocator.FreeThenMalloc | lib/malloc.c:117-231 | a malloc right after a free that left its page chained in the same bucket takes no page, and gives the object out again if the pages before its own are full |
| Malloc.Allocator.MallocTwice | lib/malloc.c:136-173 | of two mallocs from a bucket without room the first opens a page and the second takes the slot after it |
| Malloc.FirstTwo | lib/malloc.c:117-173 | from boot, two objects of a size stand side by side |
| Malloc.Allocator.FreeInterrupted | lib/malloc.c:182-231 | with any run of complete calls on other objects between the search and cli(), obj stops being live and exactly what is held afterwards or was put aside is live, contents kept |
| Malloc.Allocator.Run | lib/malloc.c:117-231 | every run of malloc, free_s and stores by the holders, interrupted frees included, keeps the invariant; exactly the pointers held or put aside are live, and what is put aside keeps its contents |
| Malloc.Allocator.Store | lib/malloc.c:159-169 | a word stored anywhere in a live object disturbs no free list |
| Malloc.Boot | lib/malloc.c:77-231 | any such run can start from empty buckets; once every pointer handed out has been freed, every bucket page is back with the source and every descriptor in the pool |
| Malloc.Allocator.LiveDisjoint | lib/malloc.c:117-231 | live objects never overlap and never cross their page |
| Malloc.Allocator.RefcntIsLiveCount | lib/malloc.c:170-208 | a chained descriptor's refcnt is the number of live objects on its page, at least 1 |
| Malloc.Allocator.Conservation | lib/malloc.c:97-231 | pool and chains together hold 256 descriptors for each descriptor page |
| Malloc.Allocator.AllFreed | lib/malloc.c:208-228 | with nothing live, every bucket page is back with the source and every descriptor in the pool |
| Screen.Put | kernel/chr_drv/console.c:589-819 | every byte keeps 0 <= x <= columns, y < lines, top < bottom <= lines and npar < NPAR |
| Screen.PannedUp | kernel/chr_drv/console.c:194-213 | the whole screen one line up is the scroll of the full region |
| Screen.RunAppend | kernel/chr_drv/console.c:584-585 | the split of a stream into calls makes no difference |
| Video.Movsl | kernel/chr_drv/console.c:239-249 | the overlapping upward copy moves the old contents |
| Video.MovslDown | kernel/chr_drv/console.c:259-270 | the overlapping downward copy moves the old contents |
| Video.InsertCell | kernel/chr_drv/console.c:464-476 | the line from the cursor shifts right by one and drops its last cell |
| Video.DeleteCell | kernel/chr_drv/console.c:491-504 | the line from the cursor shifts left by one and gains a blank |
| Console.VirtualConsole.GotoXY | kernel/chr_drv/console.c:165-172 | pos follows x and y; a place off the screen moves nothing |
| Console.VirtualConsole.CopyUp | kernel/chr_drv/console.c:224-250 | the copying scroll shows the region one line up, inside this console's slice |
| Console.VirtualConsole.Pan | kernel/chr_drv/console.c:194-223 | the panning scroll shows the same, also when it wraps back to video_mem_start |
| Console.VirtualConsole.ScrUp | kernel/chr_drv/console.c:188-251 | one screen for both cards |
| Console.VirtualConsole.ScrDown | kernel/chr_drv/console.c:253-287 | the region one line down, also for a one-line region |
| Console.VirtualConsole.Lf | kernel/chr_drv/console.c:289-297 | down one line, or the region scrolls |
| Console.VirtualConsole.Ri | kernel/chr_drv/console.c:299-307 | up one line, or the region scrolls down |
| Console.VirtualConsole.Del | kernel/chr_drv/console.c:315-322 | the cell before the cursor is blanked |
| Console.VirtualConsole.CsiJ | kernel/chr_drv/console.c:324-351 | the three erasures of the display, cell for cell |
| Console.VirtualConsole.CsiK | kernel/chr_drv/console.c:353-382 | the three erasures of the line, with the cursor past the edge too |
| Console.VirtualConsole.CsiM | kernel/chr_drv/console.c:384-428 | the attributes after all parameters in order |
| Console.VirtualConsole.InsertOneLine | kernel/chr_drv/console.c:478-489 | the lines below shift down and the scrolling region is restored |
| Console.VirtualConsole.DeleteOneLine | kernel/chr_drv/console.c:506-517 | the lines below shift up on either card, by panning at line 0 |
| Console.VirtualConsole.EditBy | kernel/chr_drv/console.c:519-557 | the edit repeated max(1, n) times, at most a screenful |
| Console.VirtualConsole.Print | kernel/chr_drv/console.c:593-606 | wrap, scroll and store at the cursor |
| Console.VirtualConsole.Tab | kernel/chr_drv/console.c:620-629 | the next tab stop, going on in the next line past the edge |
| Console.VirtualConsole.Final | kernel/chr_drv/console.c:701-796 | the effect of every final byte |
| Console.VirtualConsole.Parameter | kernel/chr_drv/console.c:693-701 | parameters collected, falling through to the final byte |
| Console.VirtualConsole.Bracket | kernel/chr_drv/console.c:682-692 | parameters cleared, the question mark noted, falling through |
| Console.VirtualConsole.PutEscape | kernel/chr_drv/console.c:637-681 | the effect of every byte after ESC |
| Console.VirtualConsole.Put | kernel/chr_drv/console.c:588-819 | one byte does to the shown screen what it does to the flat screen, keeps pos and scr_end exact, and writes only this console's slice |
| Console.VirtualConsole.ConWrite | kernel/chr_drv/console.c:574-822 | the whole queue is run, or nothing when stopped |
| Console.PanShowsTheSame | kernel/chr_drv/console.c:188-251 | a panning and a copying console show the same screen and cursor after every stream, however it is split |
| Console.ConInit | kernel/chr_drv/console.c:887-927 | as many consoles, up to eight, as screens fit the memory, on disjoint slices, each holding its screen and starting at its front, the first with the cursor it was left |
| Console.WriteBeside | kernel/chr_drv/console.c:574-822 | what one console writes changes no other console's screen |
| Vt102.EditsInOneStep | kernel/chr_drv/console.c:519-557 | n single edits move everything exactly n places, or empty what is there |
| Vt102.DownThenUp | kernel/chr_drv/console.c:478-517 | inserting then deleting loses only what was pushed off the end |
| Vt102.DigitsRead | kernel/chr_drv/console.c:697-699 | decimal digits of any length leave their number modulo 2^32 |
| Vt102.CursorAddress | kernel/chr_drv/console.c:740-744 | ESC [ row ; column H goes there if it is on the screen and nowhere otherwise, from any screen and for all numbers |
| Vt102.CursorMoves | kernel/chr_drv/console.c:712-735 | ESC [ n and A to F, a or e: the cursor lands n places away, or stays if that is off the screen, exactly unless the unsigned arithmetic wraps round to the screen |
| Vt102.CursorUpWraps | kernel/chr_drv/console.c:712-715 | ESC [ 4294967295 A moves the cursor down one line |
| Shown.PrintsHere | kernel/chr_drv/console.c:593-606 | a printable byte is stored at the cursor in its character set and attribute, and the cursor steps on |
| Shown.PrintWraps | kernel/chr_drv/console.c:594-598 | past the right edge it does what carriage return, line feed and the byte do |
| Shown.PrintScrolls | kernel/chr_drv/console.c:593-606 | at the end of the region's last line every line of the region moves up and the byte starts a blank one |
| Shown.TextFlows | kernel/chr_drv/console.c:593-606 | text of any length fills the screen in reading order from the cursor on, other cells unchanged, the cursor behind its last character |
| Shown.TextByRows | kernel/chr_drv/console.c:593-606 | byte k from column 0 stands at row y + k / cols and column k % cols, and no other cell changes |
| Shown.FirstText | kernel/chr_drv/console.c:906-920 | the first text on a new console stands from the top left corner in attribute 7 |
| Shown.LineFeed | kernel/chr_drv/console.c:289-297 | LF, VT, FF and ESC D: down a line, or every line of the region holds the next one's cells and the last is blank |
| Shown.ReverseLineFeed | kernel/chr_drv/console.c:299-307 | ESC M: up a line, or every line of the region holds the one before and the first is blank |
| Shown.TabStops | kernel/chr_drv/console.c:620-629 | the next multiple of eight, beyond the edge that many places into the next line |
| Escapes.ErasesDisplay | kernel/chr_drv/console.c:324-351 | ESC [ n J: which rows and columns are blanked, and that no others are |
| Escapes.ErasesLine | kernel/chr_drv/console.c:353-382 | ESC [ n K: which columns of the cursor's line are blanked, and that nothing else is |
| Escapes.InsertsLines | kernel/chr_drv/console.c:529-537 | ESC [ n L: every line below holds the one n above, and n are blank |
| Escapes.DeletesLines | kernel/chr_drv/console.c:549-557 | ESC [ n M: every line from the cursor on holds the one n below, or is blank |
| Escapes.InsertsChars | kernel/chr_drv/console.c:519-527 | ESC [ n @: every cell from the cursor on holds the one n to its left, and n are blank |
| Escapes.DeletesChars | kernel/chr_drv/console.c:539-547 | ESC [ n P: every cell from the cursor on holds the one n to its right, or is blank |
| Escapes.RenditionsInTurn | kernel/chr_drv/console.c:384-428 | several parameters of m do what they do one after the other |
| Escapes.OneRendition | kernel/chr_drv/console.c:384-428 | ESC [ n m changes the attribute and the use of colour, and nothing else that shows |
| Escapes.StyleShades | kernel/chr_drv/console.c:388-415 | for each parameter that is no colour, which bits of the attribute it sets, clears, swaps or takes from the default |
| Escapes.ColourShades | kernel/chr_drv/console.c:416-427 | 30 to 38 set the foreground and 40 to 48 the background, exactly on a card with colour |
| Escapes.UnderlineShows | kernel/chr_drv/console.c:393-407 | underlining in colour differs from the background if and only if the attribute is not 0x87 |
| Escapes.SetsRegion | kernel/chr_drv/console.c:766-774 | ESC [ a ; b r sets lines a to b as the region exactly if it is one |
| Escapes.SavesCursor | kernel/chr_drv/console.c:656-661 | ESC 7 and ESC [ s, and back with ESC 8 and ESC [ u |
| Escapes.SetsBoldColour | kernel/chr_drv/console.c:781-794 | ESC [ b ; b+13 ; b+17 b sets the colour for underlining |
| Escapes.GoesTo | kernel/chr_drv/console.c:708-744 | the addressing letters G, `, d and f |
| Escapes.NoParameter | kernel/chr_drv/console.c:682-701 | a missing parameter is a zero |
| Escapes.PrivateIgnored | kernel/chr_drv/console.c:690-711 | after ESC [ ? the parameters are read and nothing happens |
| Escapes.UnknownIgnored | kernel/chr_drv/console.c:712-796 | every other final byte does nothing, whatever the parameters |
| Escapes.OtherEscapes | kernel/chr_drv/console.c:637-681 | ESC E, c, (, ), P and #: what each does, and that it does no more |
| Escapes.ControlBytes | kernel/chr_drv/console.c:607-635 | carriage return, backspace, erase, SO and SI; every other control byte does nothing |
| Escapes.BreaksOff | kernel/chr_drv/console.c:590-591 | CAN and SUB end any sequence |
| Ring.TtyQueue.Left | include/linux/tty.h:40 | the room left is 1023 less what is queued |
| Ring.TtyQueue.Full | include/linux/tty.h:42 | full means 1023 characters queued |
| Ring.TtyQueue.Last | include/linux/tty.h:41 | the newest character, wrapping at the ends |
| Ring.TtyQueue.Chars | include/linux/tty.h:43 | the number of characters queued |
| Ring.TtyQueue.GetCh | include/linux/tty.h:44-45 | the oldest character leaves the queue |
| Ring.TtyQueue.PutCh | include/linux/tty.h:46-47 | the character joins the queue, which an unchecked put into a full ring empties |
| Ring.TtyQueue.DropLast | include/linux/tty.h:38 | the newest character is taken back |
| Tty.TtyStruct.Write | kernel/chr_drv/console.c:584-588 | the device takes everything queued, in order, unless output is stopped |
| Tty.TtyStruct.KillLine | kernel/chr_drv/tty_io.c:144-160 | the loop erases and echoes back to the boundary |
| Tty.TtyStruct.EditLine | kernel/chr_drv/tty_io.c:143-177 | KILL and ERASE, in canonical mode only |
| Tty.TtyStruct.InsertChar | kernel/chr_drv/tty_io.c:210-226 | count, echo and append |
| Tty.TtyStruct.CopyToCooked | kernel/chr_drv/tty_io.c:120-229 | one step per character until the input is used up or the secondary queue is full |
| Tty.TtyStruct.Burst | kernel/chr_drv/tty_io.c:311-326 | takes what Taken says, returns it without the EOF, and keeps the count of line ends |
| Tty.TtyStruct.Read | kernel/chr_drv/tty_io.c:293-331 | one burst, or nothing exactly where the source would sleep; in canonical mode a line end queued is enough to take something |
| LineDiscipline.StepKeeps | kernel/chr_drv/tty_io.c:128-227 | the secondary queue never overflows and data stays the number of line ends in it |
| LineDiscipline.RunKeeps | kernel/chr_drv/tty_io.c:128-227 | the same for every input, and input is left over only when the queue is full |
| LineDiscipline.RunAppend | kernel/chr_drv/tty_io.c:128-133 | input in pieces does what it does at once |
| LineDiscipline.RunEdits | kernel/chr_drv/tty_io.c:143-226 | the queue is the fold of append, erase one and kill to the boundary over the characters taken |
| LineDiscipline.RunKeepsLines | kernel/chr_drv/tty_io.c:147-165 | no input changes a character at or before the last line end, or one already read |
| LineDiscipline.Taken | kernel/chr_drv/tty_io.c:311-326 | a burst stops only at a line end, an empty queue or a full buffer, and in canonical mode never passes a line end |
| LineDiscipline.ConsumeKeeps | kernel/chr_drv/tty_io.c:313-315 | reading keeps data equal to the number of line ends queued |
| LineDiscipline.CanonicalRead | kernel/chr_drv/tty_io.c:297-326 | with a line waiting, at most that line is returned, no EOF in it and a newline only last |
| Typing.ByteMapped | kernel/chr_drv/tty_io.c:134-142 | what each byte is mapped to under ICRNL, IGNCR, INLCR and IUCLC, for all settings |
| Typing.ReturnIsNewline | kernel/chr_drv/tty_io.c:134-136 | under ICRNL a carriage return does exactly what a newline does with INLCR off |
| Typing.ByteDoes | kernel/chr_drv/tty_io.c:143-226 | KILL empties the line, ERASE takes one character, flow control and signals leave the queue alone, and every other byte joins it and is counted where it ends a line |
| Typing.FlowControl | kernel/chr_drv/tty_io.c:178-209 | STOP and START switch the output under IXON; signal characters change nothing |
| Typing.Silent | kernel/chr_drv/tty_io.c:213-225 | without ECHO typing sends nothing to the device |
| Typing.LineAtBoot | kernel/chr_drv/tty_io.c:134-228 | a printable line and Enter with the settings given at boot: queued with a newline, counted, and returned by a read as it was typed |
| Typing.LineWaiting | kernel/chr_drv/tty_io.c:297-310 | in canonical mode a line end queued means no sleep; without one it sleeps unless the read queue is full |
| Echo.EraseShows | kernel/chr_drv/tty_io.c:151-173 | the rub-outs take exactly the erased character's cells off the screen |
| Echo.LostExactly | include/linux/tty.h:46-47 | for every input and settings: an echo byte is lost if and only if the typing overruns, a count of echo bytes since STOP against the queue's 1023 places |
| Echo.RunFaithful | kernel/chr_drv/tty_io.c:143-226 | for 7-bit input with ECHO, ECHOCTL and ERASE = 127 that does not overrun, STOP and START included, the echo shows exactly the bytes entered since the last newline |
| Echo.RunFlows | kernel/chr_drv/tty_io.c:178-191 | input without a STOP character never overruns and never stops the device |
| Echo.EchoExact | kernel/chr_drv/tty_io.c:143-226 | so from a new terminal, for every 7-bit input that does not overrun, the screen shows the edit buffer, all of it on the device unless that is stopped |
| Echo.BootEcho | kernel/chr_drv/tty_io.c:425-432 | with the settings given at boot, every 7-bit input is shown on the device at once |
| Echo.EchoFits | kernel/chr_drv/tty_io.c:151-224 | nothing overruns while what waits, twice the line and four times the input fit the output queue |
| Echo.EchoOverruns | include/linux/tty.h:46-47 | ^S and 512 times ^A: the echo empties its own queue and the screen no longer shows the line |
| Pty.PtyCopy | kernel/chr_drv/pty.c:20-38 | terminates; the reader ends as if it had cooked the characters moved, and it stops early only when stopped, signalled or full everywhere |
| Pty.RunRaw | kernel/chr_drv/tty_io.c:128-227 | a raw reader passes characters on unchanged and in order |
| Pty.Pipe.Write | kernel/chr_drv/tty_io.c:353-379 | the bytes accepted are a prefix, all of them unless the output queue is full, and join the pipeline's end |
| Pty.Pipe.Read | kernel/chr_drv/tty_io.c:293-332 | what is returned comes next in order, and something is returned whenever anything is on its way |
| Pty.Pipe.Fifo | kernel/chr_drv/pty.c:20-38 | what was returned is a prefix of what was accepted and at most three queues lie between |
| Pty.Pipe.Run | kernel/chr_drv/tty_io.c:293-379 | any sequence of writes and reads: the replies account for everything accepted and returned |
| Pty.Converse | kernel/chr_drv/pty.c:20-38 | from a new pipe, the bytes all reads return are a prefix of the bytes all writes accepted, and lag by at most three queues |
| Vsprintf.Convert | kernel/vsprintf.c:61-65 | the digits fit the buffer for every base and come out least significant first |
| Vsprintf.Number | kernel/vsprintf.c:40-90 | exactly the image is written at str and nothing after it; null exactly for a base outside 2..36 |
| Vsprintf.Width | kernel/vsprintf.c:56-88 | max(size, sign + prefix + max(digits, precision)) characters |
| Vsprintf.RoundTrip | kernel/vsprintf.c:40-90 | reading the output back gives the argument for every flag set, base, size and precision |
| Vsprintf.EveryCharacter | kernel/vsprintf.c:40-90 | for all arguments, the sign character and its place, the prefix, the case of letters, the digits, and where zeros and spaces fill the width |
| Vsprintf.SkipAtoi | kernel/vsprintf.c:18-25 | the number at the pointer when it is in range, and the pointer past its digits |
| Vsprintf.AtoiReadsNumber | kernel/vsprintf.c:18-90 | unpadded unsigned base-10 output is read back |
| Bootsect.ChunkFits | boot/bootsect.S:222-234 | a chunk is not empty, stays in its track and crosses no 64 kB boundary |
| Bootsect.Advance | boot/bootsect.S:236-249 | the next position is the next sector of the disk |
| Bootsect.NextAddress | boot/bootsect.S:250-257 | the next address continues the last, in 16-bit registers |
| Bootsect.ReadIt | boot/bootsect.S:208-257 | terminates for 6 to 127 sectors a track; the reads are sound, consecutive and fill 0x10000 to 0x40000 contiguously |
| Bootsect.EachSectorOnce | boot/bootsect.S:208-257 | every sector of the system is read by exactly one read |

## Left out

- Malloc.Allocator.GetFreePage: the page source is an abstract supplier of pages not handed out yet; running out of memory, sleeping inside it and interruption in the middle of a search are not modelled.
- Malloc.Allocator.FreeInterrupted: other calls come between the search and `cli()`, not in the middle of the search.
- Malloc: a store is one word at one address; overlapping unaligned words are not modelled.
- Malloc: `refcnt` and `bucket_size` are unbounded here; at most 256 objects fit a page, so the 16-bit fields do not wrap.
- Add.SumError: no claim outside the stated exponent range, nor for infinities and NaNs, which the code does not treat specially.
- Ieee.LongValue: no claim where the exponent does not fit the format, which the code does not check; the fields then wrap, as `LongFields` and `ShortFields` say.
- `math_emulate.c`, `ea.c`, user memory access and the real get and put routines that only copy words.
- Console.ConInit: a memory that holds one screen, an even column count of at least 8 and byte-sized dimensions are assumed (with an odd count `movsl` would drop half a long), and so is a share of whole 16-bit cells: 80 columns and 28 lines on a 32 kB card give seven consoles of 4681 bytes, and every other slice then starts at an odd address, which cells cannot express. The card name it writes on the screen is left out.
- Console.VirtualConsole.PutEscape: the answer to ESC Z goes to the terminal's input queue, and ESC c resets only the erase character of the terminal settings; the rest of them is not part of the console model.
- Console: beeping, blanking and the hardware cursor and origin registers.
- Tty.TtyStruct.Read: sleeping, signals, timeouts and VMIN are left out, so one call is at most one burst.
- Tty.TtyStruct.Write: the serial line and the pty ends have other write routines; an echo between two pty ends would recurse and is left out.
- LineDiscipline: the signals of INTR, QUIT and SUSP are dropped, not sent, and the terminal settings stay fixed. Lower-casing treats characters below the table as not upper case.
- Pty.PtyCopy: a reading end without ECHO and IXON, so that cooking its input sends nothing back; whether a signal is pending is a parameter fixed for the call.
- Pty.Pipe.Write: no output processing; `cr_flag` is shared by all terminals.
- Vsprintf.Number: size and precision are unbounded, so their overflow as 32-bit ints is not modelled.
- `vsprintf` itself: the format parser, `%n` and varargs.
- Bootsect.ReadIt: reads succeed; the BIOS call has six bits for the sector number, which the model does not cut, and the check of es at the start is left out.

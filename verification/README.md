# Verified model of the lamp firmware

This project models the algorithmic parts of an ESP8266 lamp firmware, its boot loader and its vendored
libraries, and proves what they are relied upon for. The parts are independent of each other except for the
boot-image chain, which is followed from the image writer through a command in the mailbox to the started
application.

`dafny verify dfyconfig.toml` checks everything.

| file | what it models |
|---|---|
| `BootImage.dfy` | the image writer `write_bin` of `elf2bin.py` |
| `Flash.dfy` | a NOR flash chip behind the SPI calls, which may fail after doing part of their work |
| `EraseArea.dfy` | the planner `SPIEraseAreaEx` |
| `FlashCopy.dfy` | `copy_raw` |
| `Loader.dfy`, `Esp.dfy` | the two readers of an image, `load_app_from_flash_raw` and `getSketchSize` |
| `Bits.dfy`, `Polynomials.dfy`, `Crc.dfy`, `EbootCommand.dfy` | the check value of the command mailbox, and the mailbox |
| `Eboot.dfy` | `main` of the boot loader, and an update from command to started application |
| `Time.dfy` | `breakTime` and `makeTime` |
| `Analog.dfy`, `ComplexNumbers.dfy`, `Spectrum.dfy` | the Fourier transform of the spectrum analyser |
| `Gradient.dfy`, `Palette.dfy`, `Crossfade.dfy` | colour gradients, the palettes made of them, and the fade between palettes |
| `Survival.dfy` | which colours of a gradient palette survive in 16 entries |
| `Button.dfy`, `ButtonHistory.dfy` | the button state machine `GButton`, and what it reports told from the history of its readings |
| `Favorites.dfy` | the text protocol of the favourite modes |
| `Pixels.dfy` | the numbering of the pixels of a matrix |
| `Power.dfy` | the power limiter |
| `NetworkList.dfy` | the sorted list of networks |
| `Octets.dfy`, `Arithmetic.dfy`, `Sequences.dfy`, `Wrappers.dfy` | machine integers, colours, facts about division and sequences, and optional results |

## How to read the model

- Code that changes things in place is a class or works on an `array`; its methods are tied to functions on
  sequences, and what the code is for is proved about those functions.
- 32-bit words of the mailbox are sequences of 32 bits, most significant first, because the check value is about
  bits; everywhere else words are integers and every wrap of the C types is written out (`Wrap32`, `ToInt16`,
  `% 256`).
- The flash is nondeterministic: any call may fail, and a failed erase or write may have done part of its work. The
  chip keeps a log of the erases that succeeded and of the calls that failed, so that a result code can be held
  against what went wrong.
- Readings of the clock and of the pin are parameters; nothing is assumed about the clock, not even that it
  advances. Results of scanning networks are a parameter.
- Larger loops of C are split into a method for the loop and one for its body. The flags and counters of a button
  are grouped into three records.
- Lemmas carry `{:induction false}`: every induction is spelt out.

Three tests in the C code do something else than they seem to, because `!=` binds tighter than `&`. The model follows
the code:

- `hardware/bootloaders/eboot/eboot_command.c:40` only looks at the lowest bit of the magic word. A command that
  has been cleared is therefore accepted again for one value of its stored check value, and such commands exist
  (`ClearedStillAcceptedIff`, `ClearedStillAcceptedExists`); with the test as it was meant none would
  be (`IntendedTestConsumes`).
- `hardware/bootloaders/eboot/eboot.c:97` and `hardware/bootloaders/eboot/flash.c:16` only turn away odd addresses.
  What a copy does and what an erase covers is stated for all others. A copy succeeds without being one for every
  target that is not aligned and for some that are; `CopyIff` says exactly when, and `CoversRequestIff` says the same
  of an erase.

More things that follow from the code and are not obvious:

- A size above 2^32 - 4096 rounds up to 0, so that a copy of that size succeeds without copying a byte
  (`hardware/bootloaders/eboot/eboot.c:101-102`, `RoundedCoversIff`).
- The loader of 16-entry palettes is meant to represent every colour of the gradient
  (`libraries/FastLED/colorutils.h:796-798`). A colour is in the palette, whatever the colours are, exactly when one of
  the two gradients at its stop shows it (`ShownIff`), and for ascending indices this is a condition on the indices
  (`ColorSurvivesIff`). The last stop only ends a gradient, and is reached exactly for four lengths of it, so that few
  lists keep all colours (`AllColorsSurviveIff`); all but the last survive wherever there is room for them
  (`OtherColorsSurviveIff`).
- The Fourier transform advances its twiddle factor before it uses it (`src/analog.cpp:45`), so that entry k of the
  result is the level of frequency k + 1, and the constant part of the signal comes last (`FFT`,
  `ConstantComesLast`).
- Removing duplicate networks also compares names under the index -1 that marks a removed entry
  (`libraries/WiFiManager/WiFiManager.cpp:487`); whatever the library answers for that index, and be it different each
  time, the result is the same (`RemoveDuplicates`).

## Model

| member | source | states |
|---|---|---|
| `Crc.StepReversible` | hardware/bootloaders/eboot/eboot_command.c:11-20 | for an odd polynomial of any width one bit step of the register can be taken back, whatever the input bit |
| `Crc.FeedReversible` | hardware/bootloaders/eboot/eboot_command.c:9-21 | so can any stream: no difference between two registers is ever lost |
| `Crc.FeedLinear` | hardware/bootloaders/eboot/eboot_command.c:9-21 | the check value of the xor of two streams is the xor of their check values |
| `Crc.FeedIsXor` | hardware/bootloaders/eboot/eboot_command.c:9-21 | feeding bits is the same as xoring them into the top of the register and feeding zeros |
| `Crc.WindowInjective` | hardware/bootloaders/eboot/eboot_command.c:9-21 | two inputs as long as the register that lead to the same register are equal |
| `Crc.WindowSolvable` | hardware/bootloaders/eboot/eboot_command.c:9-21 | every register value can be reached by one such input |
| `Crc.BurstDetected` | hardware/bootloaders/eboot/eboot_command.c:3-23 | equal check values of two streams that agree outside one register's width of consecutive bits mean equal streams |
| `Polynomials.RemainderUnique` | hardware/bootloaders/eboot/eboot_command.c:3-23 | quotient and remainder of polynomials over the field of two elements are unique for a divisor with leading coefficient 1 |
| `Crc.FeedIsRemainder` | hardware/bootloaders/eboot/eboot_command.c:9-21 | a stream fed to an empty register of n bits leaves exactly the remainder of the stream times x^n by x^n plus the polynomial |
| `Crc.SeedIsXor` | hardware/bootloaders/eboot/eboot_command.c:3-23 | a register that is not empty counts like the same bits xored into the first bits of the stream |
| `EbootCommand.CrcUpdate` | hardware/bootloaders/eboot/eboot_command.c:3-23 | the two loops feed the bits of the bytes, high bit first, to the register |
| `EbootCommand.CalculateCrc32` | hardware/bootloaders/eboot/eboot_command.c:25-29 | the check value covers all words but the last, each in little-endian byte order |
| `EbootCommand.GeneratorExponents` | hardware/bootloaders/eboot/eboot_command.c:18 | the generator is x^32 + x^26 + x^23 + x^22 + x^16 + x^12 + x^11 + x^10 + x^8 + x^7 + x^5 + x^4 + x^2 + x + 1 |
| `EbootCommand.StreamBit` | hardware/bootloaders/eboot/eboot_command.c:9-13 | the stream takes the bytes of a word from the low one on, and the bits of a byte from the high one on |
| `EbootCommand.CheckIsRemainder` | hardware/bootloaders/eboot/eboot_command.c:3-29 | the check value is exactly the remainder, by that generator, of the stream with its first 32 bits inverted, times x^32 |
| `EbootCommand.EbootCommandRead` | hardware/bootloaders/eboot/eboot_command.c:31-46 | copies the mailbox and accepts exactly records with an even magic word and the right check value |
| `EbootCommand.EbootCommandWrite` | hardware/bootloaders/eboot/eboot_command.c:48-58 | seals the command and puts it in the mailbox |
| `EbootCommand.EbootCommandClear` | hardware/bootloaders/eboot/eboot_command.c:60-64 | clears the magic word and the check value and nothing else |
| `EbootCommand.LowBitMask` | hardware/bootloaders/eboot/eboot_command.c:40 | masking with a truth value tells the lowest bit |
| `EbootCommand.WrittenIsAccepted` | hardware/bootloaders/eboot/eboot_command.c:31-58 | a written command reads back with all its fields |
| `EbootCommand.CorruptWordRejected` | hardware/bootloaders/eboot/eboot_command.c:31-58 | a written command with one of its 32 words replaced is accepted exactly when the word is the same |
| `EbootCommand.CorruptBurstRejected` | hardware/bootloaders/eboot/eboot_command.c:31-58 | a change within 32 consecutive bits of the checked part, across word borders or not, is accepted exactly when nothing has changed |
| `EbootCommand.CheckOfMagic` | hardware/bootloaders/eboot/eboot_command.c:48-64 | the check values with and without the magic word differ by one constant, whatever the command |
| `EbootCommand.ClearedStillAcceptedIff` | hardware/bootloaders/eboot/eboot_command.c:39-64 | a cleared command is accepted again exactly when its check value was that constant |
| `EbootCommand.ClearedStillAcceptedExists` | hardware/bootloaders/eboot/eboot_command.c:39-64 | whatever the rest of a command, exactly one value of its last argument makes that happen |
| `EbootCommand.IntendedTestConsumes` | hardware/bootloaders/eboot/eboot_command.c:39-46 | the mask test as it was meant accepts written commands and rejects all cleared ones |
| `BootImage.Le32RoundTrip` | hardware/tools/elf2bin.py:66-74 | four bytes, low first, hold every 32-bit number |
| `BootImage.LowByteFirst` | hardware/tools/elf2bin.py:66-74 | the first of the four is the low one |
| `BootImage.WriteSegments` | hardware/tools/elf2bin.py:71-87 | appends headers and data of all segments and computes size and checksum, or stops at the first segment whose size does not match its data |
| `BootImage.WritePadding` | hardware/tools/elf2bin.py:88-91 | pads so that the checksum ends a line of sixteen bytes |
| `BootImage.WriteFill` | hardware/tools/elf2bin.py:93-96 | fills up to the given address |
| `BootImage.WriteBin` | hardware/tools/elf2bin.py:64-96 | appends exactly the image of the segments, if there are at most 255 and their sizes match, and says which of the two failed otherwise |
| `BootImage.ImageSize` | hardware/tools/elf2bin.py:69-92 | the image without fill is its content and one byte, rounded up to a multiple of sixteen |
| `BootImage.HeaderBytes` | hardware/tools/elf2bin.py:66-67 | the header starts with 0xe9, the number of segments and the two given bytes, and ends with the entry point |
| `BootImage.ChecksumBit` | hardware/tools/elf2bin.py:71-87 | a bit of the checksum, xored with that of 0xef, tells whether an odd number of all data bytes have it |
| `BootImage.ImageBytes` | hardware/tools/elf2bin.py:64-96 | every byte of the image: header, segments, zeros, the checksum as the last byte of a line of sixteen, and 0xaa up to the given address |
| `Octets.Bitwise` | hardware/tools/elf2bin.py:82-87 | the exclusive or of the checksum, and the conjunction by which flash is written, work bit by bit |
| `Loader.LoadSegment` | hardware/bootloaders/eboot/eboot.c:50-80 | reads a header, loads the data if the address is in one of the three ranges, and moves on in 32 bits; the code tells which read failed |
| `Loader.LoadSegments` | hardware/bootloaders/eboot/eboot.c:46-81 | walks and loads the given number of segments; fails exactly when a read fails |
| `Loader.LinkedSegments` | hardware/tools/sdk/ld/eagle.flash.4m.ld:12-14 | of the segments in the linker's memory map, data and code in RAM pass the filter, and code in flash does not |
| `Loader.LoadAppFromFlashRaw` | hardware/bootloaders/eboot/eboot.c:35-88 | success means that the entry point in the header is reached in memory loaded by that walk; failure that a read failed |
| `Loader.WalkLoadIsWalkThenLoad` | hardware/bootloaders/eboot/eboot.c:46-81 | loading while walking is the same as finding all segments and then loading them in order |
| `Loader.WalkFindsBody` | hardware/bootloaders/eboot/eboot.c:46-81 | on bytes that write_bin produced the walk finds every address, size and data, in order |
| `Loader.WalkLoadsBody` | hardware/bootloaders/eboot/eboot.c:46-81 | and memory becomes the overlay, in order, of exactly the segments whose address passes the filter |
| `Loader.LoadWritten` | hardware/bootloaders/eboot/eboot.c:35-88 | the image round trip: any entry point and any segment list written by write_bin is started as such |
| `Esp.EspClass.SkipSections` | hardware/cores/esp8266/Esp.cpp:504-517 | walks over the headers only |
| `Esp.EspClass.GetSketchSize` | hardware/cores/esp8266/Esp.cpp:490-520 | returns the cached result, or else the rounded end of the walk; 0 exactly when a read failed or the walk ends in the last sixteen bytes of the 32-bit address space |
| `Esp.WalkEndOfBody` | hardware/cores/esp8266/Esp.cpp:504-517 | the walk over a written image ends where its segments end |
| `Esp.SizeOfLine` | hardware/cores/esp8266/Esp.cpp:518 | rounding the end past one more byte is the encoder's plus-one-then-pad rule |
| `Esp.BootLoaderFits` | hardware/tools/elf2bin.py:113-114 | the sketch starts at 4096 exactly when the boot loader's code has at most 4079 bytes |
| `Esp.SketchSizeOfFile` | hardware/cores/esp8266/Esp.cpp:490-520 | then, if no read fails, the sketch size is the length of the whole file, for every segment list |
| `Flash.Flash.SPIEraseSector` | hardware/bootloaders/eboot/flash.h:19 | success sets all bytes of one sector; failure touches no other and is logged |
| `Flash.Flash.SPIEraseBlock` | hardware/bootloaders/eboot/flash.h:18 | the same for a block of sixteen sectors |
| `Flash.Flash.SPIRead` | hardware/bootloaders/eboot/flash.h:20 | success yields the bytes; failure is logged |
| `Flash.Flash.SPIWrite` | hardware/bootloaders/eboot/flash.h:21 | success ands the bytes into the cells; failure touches no others and is logged |
| `EraseArea.HeadCovers` | hardware/bootloaders/eboot/flash.c:25-45 | the three loops plan to erase every sector of the range once, in ascending order, and no other |
| `EraseArea.PlanIsShortest` | hardware/bootloaders/eboot/flash.c:25-45 | no run of sector and block erases that erases exactly the range has fewer commands, even if it repeats some |
| `EraseArea.SPIEraseAreaEx` | hardware/bootloaders/eboot/flash.c:14-48 | success carries out the whole plan and erases exactly the range; after a failure the commands done are the plan up to the one that failed, and nothing outside the range has changed; only odd starts are turned away |
| `EraseArea.ErasedPrefix` | hardware/bootloaders/eboot/flash.c:25-45 | after a failure the erased sectors are the first ones of the range |
| `EraseArea.CoversRequestIff` | hardware/bootloaders/eboot/flash.c:16-23 | the bytes asked for lie in the erased sectors exactly when the start's offset fits the slack of rounding the size, and the size does not wrap |
| `EraseArea.AlignedRequestCovered` | hardware/bootloaders/eboot/flash.c:21-23 | for an aligned start they do, with less than a sector too much |
| `FlashCopy.CopyRaw` | hardware/bootloaders/eboot/eboot.c:92-124 | for all even addresses, aligned or not, the contents after a success are determined by those before; between aligned addresses they have a closed form, and the byte before an unaligned target is erased; on any outcome nothing changes outside the target and the sectors it lies in; the code tells which call failed |
| `FlashCopy.RoundedCoversIff` | hardware/bootloaders/eboot/eboot.c:101-102 | the size rounded up to whole sectors covers the size exactly when this is at most 2^32 - 4096; above, it is 0 |
| `FlashCopy.TurnedIsNext` | hardware/bootloaders/eboot/eboot.c:108-121 | erasing, reading and writing a sector is one more turn, whatever the alignment |
| `FlashCopy.TurnsAligned` | hardware/bootloaders/eboot/eboot.c:108-121 | between aligned addresses any number of turns leaves the closed form: copied, erased for a copy onto itself, periodic for one to a higher address |
| `FlashCopy.ByteBeforeErased` | hardware/bootloaders/eboot/eboot.c:108-121 | the byte before an unaligned target is erased by the first turn and stays so |
| `FlashCopy.SafeCopyMoves` | hardware/bootloaders/eboot/eboot.c:108-121 | to an aligned target a sector or more below the source, or beyond the bytes to be copied, the copy moves the bytes, from any source and even when the areas overlap |
| `FlashCopy.UnsafeCopySpoils` | hardware/bootloaders/eboot/eboot.c:108-121 | for every other pair of areas there are contents that it spoils |
| `FlashCopy.CopyIff` | hardware/bootloaders/eboot/eboot.c:92-124 | for every even source and target and every 32-bit size: a success is a copy of the bytes asked for, whatever the contents, exactly when the size does not wrap and the areas are safe in that sense |
| `Eboot.FetchCommand` | hardware/bootloaders/eboot/eboot.c:135-144 | an accepted command is taken and cleared, otherwise a load from address 0 is made up |
| `Eboot.BootMain` | hardware/bootloaders/eboot/eboot.c:128-170 | an application is started only by the job that the mailbox asked for, with the flash and memory this implies; otherwise a reset follows, and some call has failed unless the job was an unknown one or a copy with an odd address; either way nothing outside the sectors of the target has changed |
| `Eboot.CopyInstalls` | hardware/bootloaders/eboot/eboot.c:146-160 | copying a file that holds an image to a place that is safe for it, from any address, and loading it starts that image |
| `Eboot.UpdateInstalls` | hardware/bootloaders/eboot/eboot.c:128-170 | a written copy command for such a file and place ends, if in a running application, with the file in its new place, nothing else in flash changed, and that image in memory |
| `Time.DaysBeforeYearClosed` | libraries/Time/Time.cpp:147 | the years add up to the closed form of the Gregorian calendar |
| `Time.DaysBeforeMonthClosed` | libraries/Time/Time.cpp:149 | the months add up to a closed form without the table, for every month and both kinds of year |
| `Time.WeekdaysFollow` | libraries/Time/Time.cpp:167 | 1 January 1970 is a Thursday, and every day is followed by the next weekday |
| `Time.BreakYear` | libraries/Time/Time.cpp:170-178 | the year loop ends with a year up to 136 and a day within it |
| `Time.BreakMonth` | libraries/Time/Time.cpp:180-201 | the month loop ends with a month and a day within it |
| `Time.BreakTime` | libraries/Time/Time.cpp:151-202 | every 32-bit time becomes a valid date with that many seconds and the right weekday; the year fits its byte |
| `Time.SecondsToYear` | libraries/Time/Time.cpp:213-218 | 365 days a year and the leap days are the days before a year |
| `Time.MakeTime` | libraries/Time/Time.cpp:204-233 | the loops add up the seconds of the fields, modulo 2^32, for all fields that their types can hold but months beyond 13 |
| `Time.SecondsInOrder` | libraries/Time/Time.cpp:204-233 | valid dates are in order exactly as their seconds are |
| `Time.SecondsDetermine` | libraries/Time/Time.cpp:204-233 | and are determined by them |
| `Time.BreakThenMake` | libraries/Time/Time.cpp:151-233 | breaking and making gives every 32-bit time back |
| `Time.FitsIff` | libraries/Time/Time.cpp:204-233 | a valid date fits 32 bits exactly when it is not after 7 February 2106, 06:28:15 |
| `Time.MakeThenBreak` | libraries/Time/Time.cpp:151-233 | making and breaking gives a valid date back, with its weekday, exactly when it is not after that |
| `Analog.ReversedBits` | src/analog.cpp:13-30 | the reversed index has the bits of the index in reverse order |
| `Analog.ReversedTwice` | src/analog.cpp:13-30 | reversing twice gives the index back |
| `Analog.IncrementReversed` | src/analog.cpp:24-29 | adding at the top bit with the carry running down leads from one reversed number to the next |
| `Analog.Pack` | src/analog.cpp:8-11 | the samples go into the odd slots, zeros into the even ones |
| `Analog.Carry` | src/analog.cpp:24-29 | the inner loop ends and performs that addition |
| `Analog.Visit` | src/analog.cpp:14-30 | visiting a position either swaps it with its mirror image or finds that done |
| `Analog.Reorder` | src/analog.cpp:8-30 | for any power of two, odd slot 2k + 1 ends up with the sample of the reversed index of k, and even slots are zero |
| `Spectrum.TransformSplits` | src/analog.cpp:33-62 | a transform is made of those of the even and of the odd samples at the squared root |
| `Spectrum.Rotate` | src/analog.cpp:43-46 | the recurrence multiplies the twiddle factor by the root of the stage |
| `Spectrum.Butterfly` | src/analog.cpp:49-56 | adds and subtracts the product of the factor and the second number |
| `Spectrum.RunColumn` | src/analog.cpp:48-58 | one butterfly in every block, all in range |
| `Spectrum.RunStage` | src/analog.cpp:34-59 | the two loops turn every block, whose halves are transforms, into one, each pair of slots being visited once |
| `Spectrum.ColumnsAreStage` | src/analog.cpp:40-59 | column after column in place is the same as all butterflies at once |
| `Spectrum.StagesAreRecursive` | src/analog.cpp:32-62 | the stages on reordered samples compute what the recursive transform does, for any table of sines |
| `Spectrum.RecursiveIsTransform` | src/analog.cpp:32-62 | with exact roots, entry k of the recursive transform is the sum of samples times powers of the root at frequency k + 1 |
| `Spectrum.FFT` | src/analog.cpp:3-67 | so each result is the squared size of the transform at frequency k + 1, truncated and shifted: 2^18 times it is at most that square, and 2^18 times one more is above |
| `Spectrum.ReportsIff` | src/analog.cpp:65 | there is one such level for every transform value, the one that the cast and the shift by 18 give |
| `Spectrum.SineTableGivesRoots` | src/analog.h:10 | a table of the sines of exact roots makes the loops use exactly these roots |
| `Spectrum.ConstantComesLast` | src/analog.cpp:3-67 | the last entry is the sum of the samples |
| `Spectrum.LevelsAreMirrored` | src/analog.cpp:63-66 | entries k and N - 2 - k have the same size |
| `Gradient.AccumulatorIsExact` | libraries/FastLED/colorutils.cpp:83-105 | for spans up to 32767 the 16-bit accumulator is the exact one although the step may overflow |
| `Gradient.ChannelIsFaithful` | libraries/FastLED/colorutils.cpp:83-105 | a channel starts exactly, moves one way, stays between its two values and ends within the stated tolerance |
| `Gradient.LongSpanLeavesBand` | libraries/FastLED/colorutils.cpp:87-92 | a span beyond that makes the divisor negative, and a channel leaves the band: an example |
| `Gradient.FaithfulIff` | libraries/FastLED/colorutils.cpp:83-105 | a channel moves in order and within its band exactly when the span is at most 32767 or its two values are too close for the negative divisor to yield a step |
| `Gradient.FillGradientRGB` | libraries/FastLED/colorutils.cpp:65-107 | straightens the ends and gives every pixel between them its colour, and no other pixel |
| `Palette.LastTintStays` | libraries/FastLED/colorutils.h:842-861 | an entry keeps the colour of the last gradient over it |
| `Palette.CountStops` | libraries/FastLED/colorutils.h:828-832 | counts the stops |
| `Palette.LoadPalette16` | libraries/FastLED/colorutils.h:822-863 | ends, and paints the gradients between the slots that the allocator gives the stops, within the palette |
| `Palette.LoadPalette256` | libraries/FastLED/colorutils.h:1469-1487 | ends, and paints the gradients between the stops, within the palette |
| `Palette.EveryEntryWritten` | libraries/FastLED/colorutils.h:822-863 | both loaders write every entry, whatever the order of the stops |
| `Palette.StopsAreExact` | libraries/FastLED/colorutils.h:1469-1487 | with indices increasing from 0 every stop but the last has exactly its colour in the large palette |
| `Palette.LastStopIsNear` | libraries/FastLED/colorutils.h:1469-1487 | and the last one its colour up to the tolerance of its gradient |
| `Survival.ShownIff` | libraries/FastLED/colorutils.h:796-863 | in any order of the indices and for every stop, the last included: the palette has its colour, whatever the colours are, exactly when the gradient from it or the gradient to it shows it, which is when no later gradient covers that end and the end is exact |
| `Survival.KeptIff` | libraries/FastLED/colorutils.h:822-863 | the colour is in the entry where the gradient from the stop starts exactly when that gradient shows it |
| `Survival.EntryIs` | libraries/FastLED/colorutils.h:847-857 | that entry, from the indices alone |
| `Survival.ReachIff` | libraries/FastLED/colorutils.h:849-857 | the entry used up by then is the furthest that any index so far and the gradients since lead to |
| `Survival.UncoveredIff` | libraries/FastLED/colorutils.h:847-858 | with ascending indices, a later gradient covers the entry exactly when, counting one entry a stop from there, the stop that finds none belongs there or before (with 16 or more stops: when the next stop belongs there too) |
| `Survival.ArrivesIff` | libraries/FastLED/colorutils.h:847-858 | and the gradient to a stop shows its colour exactly when its length is 1, 2, 4 or 8 and, but for the last stop, there are fewer than 16 stops, an entry is left after it, and the stop that finds none belongs beyond it |
| `Survival.ColorSurvivesIff` | libraries/FastLED/colorutils.h:796-863 | with ascending indices a stop's colour is in the palette, whatever the colours are, exactly on these conditions on the indices |
| `Survival.OtherColorsSurviveIff` | libraries/FastLED/colorutils.h:796-863 | all stops but the last keep their colours exactly when the gradient to the last stop but two ends in entry 13 at the latest, or exactly in 14 when the next belongs into 15 (with 16 or more stops: when no two but the last belong into one entry) |
| `Survival.AllColorsSurviveIff` | libraries/FastLED/colorutils.h:796-863 | all stops do exactly when the gradient to the last stop but one ends in entry 13, 12, 10 or 6 (with 16 or more stops: when there are 16, each for its own entry) |
| `Survival.LateArrivalShown` | libraries/FastLED/colorutils.h:847-858 | of five stops at 0, 80, 224, 240 and 255 the third survives only where the gradient to it ends, and the last is lost |
| `Survival.CrowdedStopsLost` | libraries/FastLED/colorutils.h:847-858 | of thirteen stops at 0, 100 to 110 and 255 the second to the tenth lose their colours under the last gradient |
| `Survival.LateSpikeLost` | libraries/FastLED/colorutils.h:799-858 | of four stops at 0, 250, 252 and 255 the second loses its colour in all entries |
| `Crossfade.NblendPaletteTowardPalette` | libraries/FastLED/colorutils.cpp:1110-1137 | the loop moves the first differing channels, as many as it may, one step; the palettes may be the same object |
| `Crossfade.NeverOvershoots` | libraries/FastLED/colorutils.cpp:1121-1132 | a channel is left alone or moves towards its goal, not beyond |
| `Crossfade.BlendDoesWork` | libraries/FastLED/colorutils.cpp:1110-1137 | a call changes exactly as many channels as it may and there are, and each change does one unit of the remaining work |
| `Crossfade.CallChanges` | libraries/FastLED/colorutils.cpp:1110-1137 | the first min(max(1, maxChanges), differing) channels that differ change and no others: by one upwards, by two downwards, or by one if only one is missing |
| `Crossfade.ComesCloser` | libraries/FastLED/colorutils.cpp:1110-1137 | the total distance falls unless the palettes are equal |
| `Crossfade.FadeEnds` | libraries/FastLED/colorutils.cpp:1110-1137 | as many calls as there is work reach the target, and too few do not |
| `Crossfade.FadeEndsWithinDistance` | libraries/FastLED/colorutils.cpp:1110-1137 | as many calls as the distance always do, even for a limit of 0 |
| `Crossfade.SlowFadeIsExact` | libraries/FastLED/colorutils.cpp:1110-1137 | with a limit of 0 or 1 the target is reached after exactly the work |
| `Button.GButton.Tick` | libraries/GyverButton/GyverButton.cpp:137-189 | one poll |
| `Button.GButton.TickWith` | libraries/GyverButton/GyverButton.cpp:131-136 | a poll with a given reading |
| `Button.GButton.IsPress` | libraries/GyverButton/GyverButton.cpp:51-57 | polls if automatic, answers, and forgets the press |
| `Button.GButton.IsCount` | libraries/GyverButton/GyverButton.cpp:88-108 | the same for a batch of exactly n clicks |
| `Button.GButton.IsStep` | libraries/GyverButton/GyverButton.cpp:119-126 | during a hold, answers yes and restarts the timer when the step time has passed |
| `Button.RunConserves` | libraries/GyverButton/GyverButton.cpp:137-189 | over every run: presses are releases plus the one under way; presses are clicks and holds plus the one undecided; every click is in a reported batch, a hold's count or the counter, but for wraps at 256; the step flag is the hold flag, and a button that is down is either a possible click or a hold |
| `Button.RunToldOnce` | libraries/GyverButton/GyverButton.cpp:51-115 | over every run, for each of the five kinds of news: the queries that said yes, the one still to be told and those raised again before they were told are together as many as the thing happened |
| `Button.PressIsDebounced` | libraries/GyverButton/GyverButton.cpp:141-155 | a press is raised only when every poll, from one at least the debounce time ago, has seen the button down |
| `Button.HoldIsTimed` | libraries/GyverButton/GyverButton.cpp:171-181 | a hold only when the button has been down for the hold timeout, counted from before the press |
| `Button.PinReading` | libraries/GyverButton/GyverButton.cpp:139 | a normally open button is pressed when the pin is away from the level to which it is pulled, a normally closed one when it is not |
| `Button.GivenReading` | libraries/GyverButton/GyverButton.cpp:131-136 | a reading that is given is taken as it is, or inverted for a normally closed button |
| `ButtonHistory.RunFollows` | libraries/GyverButton/GyverButton.cpp:141-182 | over every run the flags are told by the readings and the clock: pressed and held are what has been due in the stretch of polls that see the button down |
| `ButtonHistory.HappensIff` | libraries/GyverButton/GyverButton.cpp:141-182 | a press is raised exactly by the first poll of a stretch for which the debounce time has passed since its first, a hold likewise for the hold timeout, a release exactly by the poll that ends a stretch with a press, and a click if there was no hold in it |
| `ButtonHistory.RunCounts` | libraries/GyverButton/GyverButton.cpp:156-189 | the number that `getClicks` answers is that of the releases without a hold since the report or hold before, up to the last report, and that of `getHoldClicks` those before the last hold, modulo 256 |
| `ButtonHistory.ReportIff` | libraries/GyverButton/GyverButton.cpp:183-188 | a batch is reported exactly by a poll that raises no hold, when that number is not 0 modulo 256 and the click timeout has passed |
| `ButtonHistory.CountIsTold` | libraries/GyverButton/GyverButton.cpp:88-108 | `isSingle`, `isDouble` and `isTriple` say yes for exactly that number, while the batch has not been told |
| `ButtonHistory.StepIff` | libraries/GyverButton/GyverButton.cpp:119-126 | a step is told exactly in a hold when the step time has passed since the hold was raised or the last step was told |
| `Favorites.AtoiItoa` | src/FavoritesManager.h:31-54 | reading a printed number gives it back |
| `Favorites.Strtok.Next` | src/FavoritesManager.h:252-263 | yields the words of the text one after the other |
| `Favorites.IsStatusTextCorrect` | src/FavoritesManager.h:162-176 | accepts exactly texts with as many words as there are modes and five more; the count does not wrap |
| `Favorites.GetLexNo` | src/FavoritesManager.h:240-266 | yields the word at a position of such a text, and nothing otherwise |
| `Favorites.FavoritesManager.SetStatus` | src/FavoritesManager.h:26-60 | prints the settings |
| `Favorites.FavoritesManager.ConfigureFavorites` | src/FavoritesManager.h:62-79 | takes all settings from the text, and resets the next change when the mode is off |
| `Favorites.WordsOfStatus` | src/FavoritesManager.h:26-60 | the words of the printed text are its fields, for any number of modes |
| `Favorites.StatusLength` | src/FavoritesManager.h:26-60 | the length of the text; at most 189 characters for 85 modes |
| `Favorites.StatusIsWellFormed` | src/FavoritesManager.h:162-238 | a printed text that fits the buffer is accepted and its words fit the buffers of the getters |
| `Favorites.RoundTrip` | src/FavoritesManager.h:26-79 | reading the printed text restores all settings exactly when all flags are 0 or 1, for all intervals and dispersions |
| `Pixels.PixelHasNumber` | src/leds_driver.cpp:73-94 | for all eight orientations and both wirings a pixel's number lies below the area and tells its coordinates |
| `Pixels.NumberHasPixel` | src/leds_driver.cpp:73-94 | and every number below the area is that of a pixel |
| `Pixels.NumberByDistance` | src/leds_driver.cpp:73-94 | the number is told by the distances from the corner in which the strip begins, for all eight types and both wirings |
| `Pixels.StripBegins` | src/leds_driver.cpp:73-94 | LED 0 is at (0, 0) for types 1 and 2, (0, length - 1) for 3 and 4, (width - 1, length - 1) for 5 and 6 and (width - 1, 0) for 7 and 8, and the first run goes on along x for odd types and along y for even ones |
| `Pixels.ZigzagNeighbours` | src/leds_driver.cpp:84-94 | on a zigzag matrix pixels with consecutive numbers are neighbours |
| `Pixels.StepsInX` | src/leds_driver.cpp:84-94 | on a parallel one the number changes by one constant per step in x |
| `Pixels.StepsInY` | src/leds_driver.cpp:84-94 | and by one per step in y |
| `Pixels.XYHasCoordinates` | src/leds_driver.cpp:98-103 | the library's own numbering is that of an upright matrix, and loses no pixel either |
| `Pixels.XYAgreesIff` | src/leds_driver.cpp:73-103 | the two numberings agree on the whole matrix exactly when it is upright and wired as the library was built for, or has a width or length of 1 that makes its turn and wiring irrelevant |
| `Pixels.LedDriver.SetPix` | src/leds_driver.cpp:45-49 | sets the LED of a pixel, and does nothing outside the matrix |
| `Pixels.SetPixChangesOne` | src/leds_driver.cpp:45-49 | that changes this pixel of the picture and no other |
| `Pixels.LedDriver.GetPixColor` | src/leds_driver.cpp:66-70 | yields the packed colour of a pixel, and 0 beyond the array, which a matrix may exceed |
| `Pixels.PackedIsInjective` | src/leds_driver.cpp:69 | the packed colour has red, green and blue in its three bytes from the top, and tells the colour |
| `Pixels.LedDriver.FillStrip` | src/leds_driver.cpp:30-38 | fills rows of a matrix, or, whatever the matrix settings, LEDs of a strip |
| `Pixels.FillStripChangesRows` | src/leds_driver.cpp:30-38 | on a matrix exactly those rows of the picture change |
| `Pixels.BeyondRows` | src/leds_driver.cpp:30-38 | LEDs beyond the matrix are left alone |
| `Power.CalculateUnscaledPower` | libraries/FastLED/power_mgt.cpp:50-77 | in 32 bits the loop computes the power in unbounded arithmetic |
| `Power.UnscaledIsDemand` | libraries/FastLED/power_mgt.cpp:66-74 | the computed power is the demand, short of it by less than three milliwatts |
| `Power.CalculateMaxBrightness` | libraries/FastLED/power_mgt.cpp:84-95 | the brightness is at most the target, keeps the power within the budget, is lowered exactly when the target would not, and is then the largest up to one step |
| `Power.WithinBudget` | libraries/FastLED/power_mgt.cpp:87-92 | dividing by the truncated request stays within the budget |
| `Power.UsesBudget` | libraries/FastLED/power_mgt.cpp:87-92 | and one step more uses it up |
| `NetworkList.SortByRssi` | libraries/WiFiManager/WiFiManager.cpp:467-473 | the exchanges leave a permutation, strongest first |
| `NetworkList.RemoveDuplicates` | libraries/WiFiManager/WiFiManager.cpp:481-493 | an entry is removed exactly when an earlier one has its name |
| `NetworkList.CleanedIsFinished` | libraries/WiFiManager/WiFiManager.cpp:480-493 | then the survivors have different names, are in order, and every name has one, as strong as any network of that name |
| `NetworkList.MakeList` | libraries/WiFiManager/WiFiManager.cpp:458-493 | the whole list, with and without the removal |

## Left out

- Hardware: pins, SPI primitives, the RTC registers as volatile memory, the watchdog, the jump to the entry point,
  and serial output, including `print_version`.
- Loader.LoadAppFromFlashRaw: memory is separate from the loader itself, so a segment that overwrites the running
  loader is not captured.
- BootImage.WriteBin: the flash mode, size and frequency come in as bytes, not as the keys of the encoder's tables;
  reading the ELF files is not part of this model.
- Spectrum.FFT: arithmetic is exact, so rounding of floats is not captured, and the results are not cut to the
  width of an `int`; the statement about frequencies is for a table whose roots are exact, while the firmware's
  table holds six digits.
- Gradient.FillGradientRGB: an end position of 65535 is excluded, because the 16-bit loop counter never passes it.
- Survival.ShownIff: a colour survives if it does so for every colouring of the same indices; which colours happen to
  be matched by those of another stop, or are reached because a channel does not change, is not part of it.
- Survival.ColorSurvivesIff: for indices that do not ascend only `ShownIff` is stated.
- Time.MakeTime: months above 13, which a byte can hold, are excluded, because the code then reads beyond its table of
  month lengths.
- Button.GButton.Tick: the pin mode set by `setType` is hardware; flags start as zero, as for a button in static storage.
- Favorites.FavoritesManager.ConfigureFavorites: texts that the getters' buffers cannot hold, or with another number
  of words, are excluded, because the code then copies from a null pointer or beyond its buffers; the word itself
  stands for the pointer into a dead buffer.
- The cyclic choice of the next favourite mode and its shuffled variant, and everything kept in EEPROM.
- Time: the cached `tm`, the system clock with its synchronisation, and `tmElements_t` as an out-parameter by reference
  (it is returned as a value).
- Power: the sum over all controllers in the two-argument form.
- Pixels: `fillRow`, `setPixOverlap` and the effects that draw on the matrix.
- FastLED's noise, blur, hue conversion and dithering, web pages, MQTT, NTP packets and update transport.

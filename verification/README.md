# Verified models of boot, runtime and driver algorithms

This project models the parts of the Odyssey tree that compute something hard to see from
one body, and proves for-all statements about them. It covers

- the ARM boot loader: the tag list a boot ROM passes in, the environment filled from it,
  the settings read back from the command line, the firmware memory map built on top, and
  text drawn on the frame buffer;
- the C runtime: strings, `_malloca`/`_freea`, `_Pow_int`, variable arguments, wide memory,
  the Newton steps of the float vector classes;
- driver headers: packed ACPI arguments and child records, set-bit counters, and the
  guarded release of SCSI sense buffers.

Machine words are natural numbers with their wrap-around written out, memory is bytes in
little-endian order, and bitwise operators are defined bit by bit in `Bits`. Code that
updates state is a class or an array method proved against a function of the old state;
the theorems are about those functions, over every input, every run or every memory.

Main results:

- **Reads after a boot** (`BootPipeline.BootedRead`, `ReadsAfterBoot`). Walk any encoded
  list of complete tags, from any earlier environment if the list holds a command line, else
  from one whose line buffer is clear or was left by a boot (`BootedSpared`): reading any name
  is safe exactly when its value fits, and after any history of reads it returns what the
  string of the last command line says. In general a read may take bytes from after the string;
  `BootEnvironment.StringDecidesIff` says exactly when.
- **Settings survive a boot** (`BootPipeline.SettingsSurviveBoot`). So settings printed into
  that line read back their values, provided no earlier name contains the name.
  `CommandLine.ReadsBackIff` shows that proviso is exact.
- **The word-level walk is a fold over records** (`BootTagTheory.WalkIsFold`) for every
  framed memory whose records are complete. `LocalIffComplete` shows completeness is exact:
  an incomplete record takes data from whatever follows it, as an empty core tag takes the
  next header's tag number for its page size (`EmptyCoreTakesNextTag`).
- **The usable memory region** (`BootPipeline.BootedRegion`), over all tag contents and both
  boards: exactly when it lies in memory, does not pass 2^32 and is clear of the RAM disk.
  With memory from zero that is when the board makes no 16MB adjustment or the disk is
  larger than 16MB (`MemoryMap.LowMemoryRegion`); where memory starts at or above its size,
  as at 0x80000000, only an empty region qualifies (`HighMemoryHasNoRegion`).
- **The versatile memory map** (`BootPipeline.BootedVersatileMap`) is free of overlaps
  exactly for the stated ends of disk and memory.
- **Marked allocation is safe over all runs** (`MarkedAlloc.FreeIsSafe`, `HeapBalance`,
  `NothingLeaks`, `BytesHoldLastWrite`), as are the sense buffer releases
  (`SenseBuffers.ReleaseIsSafe`, `PoolBalance`, `FreedOnce`, `NoBlockDangles`).
- **Packing then walking** ACPI arguments meets what was packed, after every prefix of
  every run (`AcpiArguments.PackThenWalk`), and every list that fits can be packed (`Pack`).
- **The frame buffer is a text screen** (`TextScreen.EachCellShowsItsLastGlyph`,
  `TypedTextShows`), down to the pixels the drawing loops write, for text with newlines.

Where the code and its comments or formats disagree, the code is modelled: the comment on
the revision tag says page size; the copy of a command line counts the two header words,
so it may read eight bytes past its tag (`BootTagTheory.LineReadsPastTag`); the RAM disk
adjustment reports an empty disk as present with size 0xFF000000 and any disk of 1 byte to
16MB as absent (`BootTagTheory.BeagleRamDisk`); and the memory map takes the memory size for
the top of memory, so a region above it wraps (`MemoryMap.RegionReachesTop`,
`HighDiskWraps`).

## Model

| member | source | states |
|---|---|---|
| CStrings.StrLen | lib/sdk/crt/string/tcslen.h:7-16 | the distance to the first NUL |
| CStrings.StrNCmp | lib/sdk/crt/string/tcsncmp.h:7-19 | the difference of the first characters that differ in the two strings, each cut or NUL-padded to n bytes, or zero, with `char` signed or unsigned |
| CStrings.VerdictZeroIff | lib/sdk/crt/string/tcsncmp.h:7-19 | that verdict is zero exactly on equal strings and changes sign when they are exchanged |
| CStrings.VerdictNegativeIff | lib/sdk/crt/string/tcsncmp.h:7-19 | with unsigned `char` it is negative exactly when the first byte that differs is smaller in the first string; signed, bytes from 0x80 come first |
| CStrings.StrNEqual | lib/sdk/crt/string/strstr.c:29-29 | the test strstr makes is true exactly when the word is a prefix of the string in memory |
| CStrings.StrStr | lib/sdk/crt/string/strstr.c:15-33 | returns the first occurrence, or null exactly when there is none |
| CStrings.FindSound | lib/sdk/crt/string/strstr.c:15-33 | the search result occurs there and nowhere earlier; no result means no occurrence at all |
| CStrings.StrChr | lib/sdk/crt/string/tcschr.h:6-20 | the offset of the first such byte, or of the NUL when that is searched for, or null exactly when there is none |
| CStrings.StrNCpy | lib/sdk/crt/string/tcsncpy.h:7-26 | stores the string cut or NUL-padded to n bytes and leaves the rest of the destination |
| CStrings.PaddedBytes | lib/sdk/crt/string/tcsncpy.h:7-26 | each of the n bytes stored is the string's, or NUL past its end |
| BootTagTheory.DecodeOfEncoded | boot/armllb/inc/envir.h:9-55 | a memory that holds an encoded list and its zero size word decodes to that list, wherever it lies |
| BootTagTheory.EncodeOfDecoded | boot/armllb/inc/envir.h:9-55 | the records of any framed memory encode back to its very words up to the terminator |
| BootEnvironment.Environment.HandleTag | boot/armllb/envir.c:30-81 | one pass of the switch changes the globals as the word-level step does, for every tag readable in memory |
| BootEnvironment.Environment.ParseArguments | boot/armllb/envir.c:20-85 | terminates and leaves the globals of the whole walk, on every memory the walk stays inside |
| BootTagTheory.StepIsApply | boot/armllb/envir.c:30-81 | reading fields at fixed word offsets of a complete tag yields the record's own meaning, command line bytes included |
| BootTagTheory.WalkIsFold | boot/armllb/envir.c:26-85 | for every framed memory with complete records the walk stays inside memory and equals the fold over the decoded records |
| BootTagTheory.WalkOfEncoded | boot/armllb/envir.c:26-85 | walking any encoded complete list folds the list, whatever words follow its terminator |
| BootTagTheory.FiveTagsWalk | boot/armllb/inc/envir.h:57-66 | a list of literal words with all five tags, any values in them, leaves each value in its global and the line a=1 |
| BootTagTheory.LocalIffComplete | boot/armllb/envir.c:31-81 | a tag's effect is independent of the words after it exactly when its payload holds every field read, and for a command line its NUL |
| BootTagTheory.EmptyCoreTakesNextTag | boot/armllb/envir.c:33-37 | a core tag without payload sets the page size to the next header's tag number |
| BootTagTheory.LineReadsPastTag | boot/armllb/envir.c:69-75 | of a line without NUL the copy takes the eight bytes after the tag |
| BootTagTheory.MemorySizeAfter | boot/armllb/envir.c:45-50 | memory size becomes the old size plus the sum of all memory tags, modulo 2^32 |
| BootTagTheory.MemoryStartAfter | boot/armllb/envir.c:45-50 | memory start stays if nonzero, else becomes the first nonzero start in the list |
| BootTagTheory.LatestWins | boot/armllb/envir.c:33-67 | page size, revision and RAM disk come from the last tag of their kind, or stay |
| BootTagTheory.LatestCommandLine | boot/armllb/envir.c:69-75 | the saved line is, as a string, the one in the last command line tag, whatever bytes older lines left behind, and it is padded with NULs to eight bytes more than the tag holds |
| BootTagTheory.FoldConcat | boot/armllb/envir.c:28-85 | parsing a concatenation is parsing the parts in order |
| BootTagTheory.KindsAreIndependent | boot/armllb/envir.c:28-85 | the globals a kind of tag sets depend on the tags of that kind alone |
| BootTagTheory.InterleavingIrrelevant | boot/armllb/envir.c:28-85 | lists that agree kind by kind leave the same environment, so unknown tags are neutral and different kinds commute |
| BootTagTheory.MemorySizePermutes | boot/armllb/envir.c:45-50 | every permutation of a list gives the same memory size |
| BootTagTheory.RoundUpIsLeastMultiple16MB | boot/armllb/envir.c:59-61 | the masked sum is the least multiple of 16MB not below the size exactly up to 2^32 - 16MB, and zero above |
| BootTagTheory.BeagleRamDisk | boot/armllb/envir.c:58-66 | start plus size keeps the end of the rounded disk; the size becomes zero exactly for 1 byte to 16MB, and 0xFF000000 exactly for an empty disk or one above 2^32 - 16MB |
| BootEnvironment.Environment.GetMemoryInformation | boot/armllb/envir.c:95-103 | returns the memory start and size of the environment |
| BootEnvironment.Environment.GetRamDiskInformation | boot/armllb/envir.c:105-123 | reports a disk exactly when its size is nonzero, and a zero base and size otherwise |
| BootEnvironment.Environment.Locate | boot/armllb/envir.c:132-147 | finds the place one past the first occurrence of the name, none exactly when it is absent, and the length of the text there up to the comma or the end |
| BootEnvironment.Environment.Read | boot/armllb/envir.c:125-158 | leaves in the shared buffer the NUL-terminated text after the first occurrence of the name, up to the next comma, and the empty string if there is none; bytes past it stay |
| BootEnvironment.HistoryIndependent | boot/armllb/envir.c:17-18 | after any run of reads from any contents of the value buffer the string returned depends on the line buffer and the last name alone |
| BootEnvironment.StringDecidesIff | boot/armllb/envir.c:132-147 | the string in the line buffer alone decides a read exactly when the name is absent, is not first found at the very end of the string, or no byte and NUL fit after it |
| BootEnvironment.NameAtEndReadsPastString | boot/armllb/envir.c:132-151 | with the string a and one more byte after its NUL in the 256-byte buffer, reading a returns that byte |
| BootEnvironment.PaddedReads | boot/armllb/envir.c:125-158 | in a line stored with a NUL to spare every read is safe exactly when its value fits and returns what the string says |
| CommandLine.OccursInNames | boot/armllb/envir.c:132-134 | in a printed line every occurrence of a name lies inside one of the printed names |
| CommandLine.FoundAtOwnSetting | boot/armllb/envir.c:132-137 | the search finds a setting's own name exactly when no earlier name contains it |
| CommandLine.LookupOwn | boot/armllb/envir.c:132-151 | then the text read is exactly that setting's value |
| CommandLine.LookupAbsent | boot/armllb/envir.c:132-154 | a name contained in no printed name reads as empty |
| CommandLine.ReadsBackIff | boot/armllb/envir.c:125-158 | a name reads back its value for all values exactly when no earlier name contains it |
| CommandLine.ContainedNameReadsEarlierValue | boot/armllb/envir.c:132-151 | in xa=1,a=2 the name a reads 1 |
| BootEnvironment.ReadUndoesPrint | boot/armllb/envir.c:125-158 | in a buffer holding a printed line such a read is within its buffers and returns the value |
| BootEnvironment.ReadAbsent | boot/armllb/envir.c:125-158 | in such a buffer an absent name reads as empty |
| BootPipeline.LineRecordHolds | boot/armllb/envir.c:69-75 | any line of at most 247 bytes packs into a complete command line tag that holds it |
| BootPipeline.LineRecordFitsIff | boot/armllb/envir.c:69-75 | a line packs into a tag whose copy fits the 256-byte buffer exactly up to 247 bytes |
| BootPipeline.PrintedRecord | boot/armllb/envir.c:69-75 | every printed line of at most 247 bytes has such a tag |
| BootPipeline.BootedSpared | boot/armllb/envir.c:69-75 | every boot leaves its line with a NUL to spare, also when an earlier boot wrote it |
| BootPipeline.BootedRead | boot/armllb/envir.c:22-158 | after any boot, for any line and name, the read is safe exactly when its value has at most 31 bytes and returns what the string of the last line says; without a command line tag the line is the one the buffer held with a NUL to spare |
| BootPipeline.ReadsAfterBoot | boot/armllb/envir.c:17-158 | after any boot and any run of reads the value buffer holds what that string says of the last name |
| BootPipeline.SettingsSurviveBoot | boot/armllb/envir.c:22-158 | when the last command line tag holds a printed line, whatever follows its NUL, encode, walk and read return the value of every setting no earlier name contains |
| MemoryMap.Map.Allocate | boot/armllb/os/loader.c:15-34 | appends the entry to those in use, unless its length is zero, counts it either way, and keeps map and count in step with everything allocated |
| MemoryMap.Map.Build | boot/armllb/hw/omap3-beagle/hwinfo.c:99-129 | the map gains the board's table in order and then the region above the reported RAM disk; a fresh map becomes exactly those |
| MemoryMap.CountAgreesIff | boot/armllb/os/loader.c:23-33 | of any run of allocations all are in use exactly when none has length zero; otherwise the zero-length ones make up the difference |
| MemoryMap.Map.CountAgrees | boot/armllb/os/loader.c:23-33 | the count field of any map equals its entries in use exactly when no region of length zero was ever allocated |
| MemoryMap.RegionReachesTop | boot/armllb/hw/versatile/hwinfo.c:89-100 | the region ends at the memory size, or 2^32 past it when the disk ends above it; at the top of memory exactly when memory starts at zero and the disk ends inside |
| MemoryMap.RegionAvoidsDisk | boot/armllb/hw/versatile/hwinfo.c:89-100 | over all words, without the 16MB adjustment: exactly when the region lies in memory, below 2^32 and clear of the disk |
| MemoryMap.BeagleRegionAvoidsDisk | boot/armllb/hw/omap3-beagle/hwinfo.c:117-128 | the same with the adjustment, empty disks, disks up to 16MB and disks above 2^32 - 16MB included |
| MemoryMap.RegionSoundIff | boot/armllb/hw/omap3-beagle/hwinfo.c:117-128 | both boards in one condition on memory start, memory size, disk start and disk size |
| MemoryMap.LowMemoryRegion | boot/armllb/hw/omap3-beagle/hwinfo.c:117-128 | with memory from zero and a disk in it, exactly when there is no adjustment or the disk exceeds 16MB |
| MemoryMap.HighMemoryHasNoRegion | boot/armllb/hw/omap3-beagle/hwinfo.c:117-128 | where memory starts at or above its size, exactly when the region is empty |
| MemoryMap.HighDiskWraps | boot/armllb/hw/omap3-beagle/hwinfo.c:117-128 | 32MB at 0x82000000 in 128MB at 0x80000000 give a region of 0x84000000 bytes at 0x84000000 |
| MemoryMap.SmallDiskOverlaps | boot/armllb/hw/omap3-beagle/hwinfo.c:117-128 | a 16MB disk at 24MB of a 128MB board lies inside the region |
| BootPipeline.BootedRegion | boot/armllb/hw/omap3-beagle/hwinfo.c:117-128 | from the words of any complete tag list and any environment: the region is memory, below 2^32 and clear of the last disk named exactly under that condition on the totals of the tags |
| BootPipeline.BootedRegionWithoutDisk | boot/armllb/hw/omap3-beagle/hwinfo.c:117-128 | without a disk the region is the memory size from zero, which is memory exactly when there is none or it starts at zero |
| MemoryMap.VersatileMapCleanIff | boot/armllb/hw/versatile/hwinfo.c:57-101 | the entries of the versatile map share no address and none passes 2^32 exactly when the region is empty, between the two areas of the table, or above both |
| MemoryMap.TableCovers | boot/armllb/hw/versatile/hwinfo.c:45-69 | the table accounts exactly for 0 to 56MB and 256 to 512MB, and makes exactly 1.25MB to 24MB usable |
| MemoryMap.NoDiskOverlapsTable | boot/armllb/hw/versatile/hwinfo.c:57-101 | with no disk the region starts on top of the table |
| BootPipeline.BootedVersatileMap | boot/armllb/hw/versatile/hwinfo.c:57-101 | the same exact condition after any boot, in the numbers of the tags |
| TextScreen.DrawLine | boot/armllb/hw/video.c:294-301 | eight pixels, read as binary digits with the text colour for one and the leftmost highest, are the font line; the others hold the background and no other pixel changes |
| TextScreen.DrawChar | boot/armllb/hw/video.c:275-306 | sixteen lines one screen width apart show the glyph and no other pixel changes |
| TextScreen.PixelOfCell | boot/armllb/fw.c:67-78 | every pixel of a cell of the display lies in the buffer and belongs to that cell and no other |
| TextScreen.OnScreenIffFits | boot/armllb/fw.c:67-78 | the display has exactly the cells whose 8 by 16 pixels fit the screen |
| TextScreen.CellPixel | boot/armllb/fw.c:67-78 | every pixel that belongs to a cell is one of its sixteen lines of eight |
| TextScreen.AddressExact | boot/armllb/fw.c:104-105 | the 32-bit address of a cell is exact on every screen of at most 2^32 pixels |
| TextScreen.DrawCell | boot/armllb/fw.c:87-109 | changes exactly the pixels of the cell, and its sixteen lines of eight then read as the glyph's lines |
| TextScreen.PutShowsGlyph | boot/armllb/fw.c:87-109 | line y of a cell put, at the width times 16 y0 + y plus 8 x0, reads as line y of the glyph |
| TextScreen.EachCellShowsItsLastGlyph | boot/armllb/fw.c:87-109 | after any sequence of puts on the screen each pixel shows the last glyph put in its cell; all others, margins included, are unchanged |
| TextScreen.Teletype.PutChar | boot/armllb/hw/video.c:347-386 | draws at the cursor's cell and advances it, or moves it to the next line without drawing |
| TextScreen.Teletype.Type | boot/armllb/hw/video.c:347-386 | typing any text, newlines included, leaves the buffer and the cursor of the specification below |
| TextScreen.NewlineStartsNextLine | boot/armllb/hw/video.c:365-369 | a newline leaves the 32-bit cursor in the first cell of the following line, or back in the first line when that starts past 2^32 |
| TextScreen.TypedTextShows | boot/armllb/hw/video.c:347-386 | after any text, newlines included, each pixel shows the last character typed in its cell, where the characters before it moved the cursor; other cells and the margins are unchanged |
| TextScreen.LastTypedIs | boot/armllb/hw/video.c:347-386 | that character lands in the cell and no later one does; no character means none lands there |
| TextScreen.PlainTextShows | boot/armllb/hw/video.c:372-384 | text without newlines shows cell by cell in reading order, wrapping at line ends, and nothing else changes |
| AcpiArguments.SetInteger | include/ddk/acpiioct.h:155-158 | stores the integer record over its eight bytes and nothing else |
| AcpiArguments.SetString | include/ddk/acpiioct.h:160-163 | stores the string with its NUL, as many bytes as the 16-bit length says |
| AcpiArguments.SetBuffer | include/ddk/acpiioct.h:165-168 | stores the bytes, as many as the 16-bit length says |
| AcpiArguments.ArgumentsAreDistinct | include/ddk/acpiioct.h:155-168 | type and data determine the integer, string or buffer passed |
| AcpiArguments.SetReadsBack | include/ddk/acpiioct.h:144-168 | a record just set has its type and data, and the walker steps to the end of its length |
| AcpiArguments.NextExact | include/ddk/acpiioct.h:144-152 | a step is four plus the 16-bit length in the record, or eight when that is below four |
| AcpiArguments.RecordBytes | include/ddk/acpiioct.h:155-168 | the bytes of an integer, a string and a buffer record, type numbers 0, 1 and 2 |
| AcpiArguments.LengthFieldLimit | include/ddk/acpiioct.h:160-168 | the data survives exactly up to 65535 bytes; longer data is cut to its length modulo 2^16 |
| AcpiArguments.PackThenWalk | include/ddk/acpiioct.h:150-168 | after any number of steps of any run, every argument set so far is found in place and the walker steps from it to the next |
| AcpiArguments.PackPosition | include/ddk/acpiioct.h:144-152 | a run stands at the sum of four plus the larger of four and each data length |
| AcpiArguments.PackSteps | include/ddk/acpiioct.h:144-152 | each step of a run is eight bytes for data of at most four and four more than the data otherwise |
| AcpiArguments.PackFrame | include/ddk/acpiioct.h:155-168 | a run changes no byte before its start or after its end |
| AcpiArguments.Pack | include/ddk/acpiioct.h:150-168 | packs every list that fits: each argument is found at its position, positions are 8 apart for data of at most four bytes and four plus the data otherwise, bytes outside are unchanged |
| AcpiArguments.RunExists | include/ddk/acpiioct.h:150-168 | every list that fits has a run from any buffer |
| AcpiArguments.ChildWalkVisitsAll | include/ddk/acpiioct.h:130-175 | stepping over packed child records visits exactly those records in order and ends at the end of the packed area |
| AcpiArguments.ChildFields | include/ddk/acpiioct.h:130-175 | flags in the first four bytes, the name length in the next four, and a step of eight plus that length |
| MarkedAlloc.Runtime.MarkAllocaS | include/crt/malloc.h:112-118 | a null pointer passes through; any other is marked and stepped over by 16 bytes on X64 and 8 elsewhere |
| MarkedAlloc.Runtime.Malloca | include/crt/malloc.h:98-125 | asks for size + 16 bytes on X64 and size + 8 elsewhere, returns the address that much further, and keeps the invariant |
| MarkedAlloc.BlockSizes | include/crt/malloc.h:98-125 | block sizes in the width of size_t, and requests from the stack exactly up to 1008 bytes on X64 and 1016 elsewhere |
| MarkedAlloc.AllocationLayout | include/crt/malloc.h:98-125 | an allocation adds exactly one grant, at 16 or 8 bytes past the address, from the heap exactly when the block exceeds 1024, behind the bytes DD DD 00 00 or CC CC 00 00 |
| MarkedAlloc.AlignedOnX64 | include/crt/malloc.h:105-118 | on X64 a block aligned to 16 gives a pointer aligned to 16 |
| MarkedAlloc.Runtime.Freea | include/crt/malloc.h:129-146 | frees exactly the pointers that came from malloc, with a live base, and keeps the invariant |
| MarkedAlloc.StepKeeps | include/crt/malloc.h:112-146 | every allocation, write inside a grant, release and function return keeps markers in place, grants apart and heap blocks granted |
| MarkedAlloc.FreeIsSafe | include/crt/malloc.h:131-145 | in every run each release finds one of the two markers and calls free exactly for malloc's pointers, with the live base malloc gave |
| MarkedAlloc.NothingLeaks | include/crt/malloc.h:121-145 | when a run leaves no pointer it leaves no heap block |
| MarkedAlloc.HeapBalance | include/crt/malloc.h:121-145 | in every run the blocks malloc handed out are those freed plus those live |
| MarkedAlloc.BytesAreKept | include/crt/malloc.h:112-145 | no step changes a byte of a grant except a write to that byte |
| MarkedAlloc.BytesHoldLastWrite | include/crt/malloc.h:112-145 | in every run, while a pointer is granted each of its bytes holds the last value written to it, or what it held at first |
| MarkedAlloc.UserBytesInsideIff | include/crt/malloc.h:122-125 | the user's bytes lie inside the block exactly when size plus marker does not wrap |
| MarkedAlloc.WrappedBlockIsTiny | include/crt/malloc.h:122-125 | a request of 2^32 - 4 bytes on x86 takes a four-byte stack block |
| IntegerPower.PowInt | include/crt/math.h:228-236 | for any associative product with a unit the loop returns the power, or its inverse for a negative exponent, with exactly floor(log2) squarings and one accumulation per set bit |
| Bits.Log2Bounds | include/crt/math.h:228-236 | the count of squarings n satisfies 2^n <= exponent < 2^(n+1) |
| IntegerPower.WordsAreAMonoid | include/crt/math.h:228-236 | products of unsigned words qualify |
| IntegerPower.WordPower | include/crt/math.h:228-236 | on unsigned words the result is the integer power modulo 2^32 |
| IntegerPower.RealsAreAMonoid | include/crt/math.h:228-236 | products of exact reals qualify |
| IntegerPower.RealInversePower | include/crt/math.h:234-234 | over nonzero reals the division is defined and gives the power of the inverse |
| SetBitCounters.CountOfSetBits | include/ddk/classpnp.h:190-199 | at every width the loop returns the number of set bits, in as many iterations |
| SetBitCounters.ClearingOrderSound | include/ddk/classpnp.h:190-199 | the iterations clear exactly the set bits, each once, lowest first |
| Bits.AndPredecessor | include/ddk/classpnp.h:190-199 | x & (x - 1) is x without its lowest set bit, one set bit fewer |
| Bits.BitCountSplit | include/ddk/classpnp.h:190-199 | a word counts as its high part plus its low part, so the widths agree |
| Bits.BitCountAndOr | include/ddk/classpnp.h:190-199 | the counts of a \| b and a & b add up to those of a and b |
| VarArgs.IntSizeIsWholeInts | include/crt/vadefs.h:75-75 | the masked sum is the multiple of four at least the size and less than four above |
| VarArgs.PtrSizeIsWholePointers | include/crt/vadefs.h:90-90 | the same for multiples of eight |
| VarArgs.IsStructExact | include/crt/vadefs.h:91-91 | false exactly on sizes 1, 2, 4 and 8 |
| VarArgs.PointerWeights | include/crt/vadefs.h:93-95 | the pointer in a slot is its eight bytes by weight, lowest first |
| VarArgs.VaList.Arg32 | include/crt/vadefs.h:86-86 | reads the argument at the cursor and moves it by the rounded size |
| VarArgs.VaList.Arg64 | include/crt/vadefs.h:93-95 | reads in the slot or through it and moves the cursor by one slot |
| VarArgs.Walk32ReadsBack | include/crt/vadefs.h:75-86 | every argument pushed in whole ints is read back in turn, whatever the sizes and padding |
| VarArgs.Start32IsNext | include/crt/vadefs.h:85-86 | started from the last named parameter the cursor walks the variable ones |
| VarArgs.StartThenWalk32 | include/crt/vadefs.h:85-86 | start and walk read back every variable argument |
| VarArgs.ReadAll32 | include/crt/vadefs.h:85-86 | a function that starts after its named parameter and reads the sizes passed gets exactly the arguments pushed |
| VarArgs.Walk64ReadsBack | include/crt/vadefs.h:90-95 | every argument passed by the AMD64 convention is read back in turn, register sizes from the slot and all others through it |
| VarArgs.Start64IsNextIff | include/crt/vadefs.h:90-92 | from a named parameter in its slot, or at a home apart from the slot, the start lands on the next slot exactly when the parameter is of size 1, 2, 4 or 8 |
| VarArgs.ThreeBytesMissNextSlot | include/crt/vadefs.h:90-92 | a named parameter of three bytes starts the cursor eight bytes after its home, not on the next slot |
| VarArgs.StartThenWalk64 | include/crt/vadefs.h:90-95 | after a named parameter of a register size, start and walk read back every variable argument |
| VarArgs.ReadAll64 | include/crt/vadefs.h:90-95 | the same on AMD64, for a named parameter of a register size |
| NewtonStep.PackedReciprocal | include/crt/fvec.h:63-66 | in every lane the error of a * r against 1 is squared |
| NewtonStep.PackedRoot | include/crt/fvec.h:67-73 | in every lane the error e of a * r * r becomes e * e * (3 + e) / 4 |
| NewtonStep.RootsAreSigned | include/crt/fvec.h:67-73 | in every lane a refined root keeps the sign of the estimate exactly while a * r * r is below three, and is zero exactly at three or from zero |
| NewtonStep.ScalarRootIsSigned | include/crt/fvec.h:188-197 | so does the scalar form; at a = 0 the steps give 1.5 and 2 times the estimate |
| NewtonStep.ScalarSteps | include/crt/fvec.h:188-197 | the scalar forms do so in lane 0, keeping the estimate's other lanes or clearing them |
| NewtonStep.ReciprocalBound | include/crt/fvec.h:63-66 | a refined reciprocal is never above the true one and a relative error d becomes at most d * d |
| NewtonStep.RootBound | include/crt/fvec.h:67-73 | for an error below one the refined root's error lies between half its square and its square |
| WideMemory.WMemChr | include/crt/wchar.h:801-801 | finds the first match in the count, or null exactly when there is none |
| WideMemory.WMemCmp | include/crt/wchar.h:802-802 | returns the verdict of the order below, -1, 0 or 1 |
| WideMemory.CompareLessIff | include/crt/wchar.h:802-802 | -1 exactly when the first character that differs is smaller in the first operand, 1 exactly when it is larger |
| WideMemory.CompareZeroIffEqual | include/crt/wchar.h:802-802 | zero exactly on equal prefixes |
| WideMemory.CompareAntisymmetric | include/crt/wchar.h:802-802 | exchanging the operands negates the verdict |
| WideMemory.CompareTransitive | include/crt/wchar.h:802-802 | transitive, strictly if either step is strict |
| WideMemory.CompareExtends | include/crt/wchar.h:802-802 | a verdict other than equal is kept by every longer count |
| WideMemory.WMemSet | include/crt/wchar.h:805-811 | changes exactly the first n cells |
| SenseBuffers.ReleaseDisarms | include/ddk/classpnp.h:1183-1209 | after a release the guard is false by the flag alone and every other flag is kept |
| SenseBuffers.GuardIsBits | include/ddk/classpnp.h:1183-1191 | the guard holds exactly when bits 10 and 21 are set and the buffer is not the device's own |
| SenseBuffers.RequestBlock.FreePortAllocatedSenseBuffer | include/ddk/classpnp.h:1194-1209 | gives back the port's buffer, leaves the device's own with length 18, clears bit 10 and keeps every other bit |
| SenseBuffers.StepKeeps | include/ddk/classpnp.h:1183-1209 | guarded releases and port completions keep armed blocks and allocated buffers in one-to-one ownership |
| SenseBuffers.ReleaseIsSafe | include/ddk/classpnp.h:1183-1209 | in every run a release frees an allocated buffer, never the device's own, and never one already freed |
| SenseBuffers.PoolBalance | include/ddk/classpnp.h:1183-1209 | in every run the buffers at the start plus those attached are those freed plus those still allocated |
| SenseBuffers.FreedOnce | include/ddk/classpnp.h:1183-1209 | in every run a port driver attached a buffer again between two releases of it |
| SenseBuffers.ReleasedStaysOwn | include/ddk/classpnp.h:1194-1209 | in every run a released block refers to the device's own 18 bytes until a port driver attaches a buffer to it |
| SenseBuffers.NoBlockDangles | include/ddk/classpnp.h:1183-1209 | in every run from blocks that refer to their own or an allocated buffer, every block does |
| SenseBuffers.NothingLeaks | include/ddk/classpnp.h:1183-1209 | when no block is armed every buffer has been freed |
| SenseBuffers.TestIsBit | include/ddk/classpnp.h:156-158 | testing a single flag tests its bit |
| SenseBuffers.ClearIsBit | include/ddk/classpnp.h:156-158 | clearing a single flag clears its bit and keeps every other |

## Left out

- The walk is modelled on memories it stays inside: reads past the memory given, and a command line tag whose copy exceeds the 256-byte destination, are preconditions (`Walkable`, `Readable`), as C leaves them undefined.
- A read whose text runs past the line buffer or whose value exceeds 31 bytes is a precondition of `Read` (`ReadSafe`) for the same reason.
- Debug output of the parser, the serial console, the keyboard, clearing the screen and creating colours: device I/O or one-line arithmetic.
- Scrolling: the console has none, so a character put past the last line is a precondition.
- The memory map of the zoom2 board, which adds an entry only in a mixed build configuration.
- LONGLONG fields of the memory map hold only 32-bit values here.
- IntegerPower.PowInt: floating-point rounding is not modelled, because the property is about the exact product; negating the least int wraps to 2^31, which C leaves undefined.
- NewtonStep.PackedReciprocal: exact reals, because the hardware estimate and float rounding have no definition in the tree.
- The IA-64 slot macros and the compiler built-ins of vadefs.h: no walker to model.
- The ACPI driver that consumes the argument macros, and package arguments, which have no setter.
- MarkedAlloc.Runtime.Malloca: malloc and alloca are any allocator that returns memory clear of the live grants; a function return ends any set of stack grants.
- The wide copies wmemcpy and wmemmove, which forward to memcpy and memmove.
- SET_FLAG and the rest of the class driver library: declarations.
- Everything else in the tree: the kernel, drivers, applications and headers without an algorithm above.

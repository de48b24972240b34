# A verified model of eight kernel components

This project models, in Dafny, the parts of the kernel whose correctness is least obvious from
reading them, and proves what they promise. Run `dafny verify dfyconfig.toml` to check everything.

* **Unit numbers** (`UnitLists`, `UnitCollapse`, `UnitEdits`, `UnitNumbers`, `UnitRuns`). The
  allocator keeps its set of numbers as an allocated prefix, a list of runs and bitmaps and a free
  suffix, and rewrites the list to save memory. Over every run, up to a miscount, it behaves as a
  plain set, hands out the least free number and stays short; past a miscount it still hands out no
  number twice. NBITS is 120, from a 16-byte `struct unr` on i386.
* **Page tables** (`PageTables`, `AddressSpaces`, `PageDirectories`). Physical memory is a sequence
  of frames of 1024 words. Every access to a table goes through a virtual address and a pure
  two-level walk (32-bit paging, section 4.3 of the Intel SDM, volume 3A), so the recursive mapping in
  slot 1023 is used and not assumed. The two base addresses are those of
  `Include/X86/Parameters.hh`, lines 43 and 44.
* **Next prime** (`Division`, `Primes`, `PrimeTables`, `LargePrimes`, `NextPrimes`). The wheel of
  numbers coprime to 210 and trial division, for a `size_t` of 32 bits; a certificate proves that
  0xfffffffb is a prime. The 48 unrolled blocks are one inner loop over the 48 increments.
* **ELF translation** (`ElfBytes`, `ElfLayouts`, `ElfConvert`, `ElfTypes`, `ElfXlate`,
  `ElfGnuHash`, `ElfRoundTrips`). A structure is a list of fields, packed in the file and aligned in
  memory for any alignment limit; source and destination lie in one byte array, so converting in
  place is an ordinary case. A table of offsets and sizes, field by field, stands for the gABI.
* **Formatting** (`FormatNumbers`, `FormatFields`, `FormatReading`, `FormatDirectives`,
  `FormatSyntax`, `Formatting`, `FormatShortfalls`, `FormatStandard`). `kprintf` and `vsnprintf` with
  a typed argument list; an argument that is missing or of another type is undefined behaviour and
  has no text. The directives of section 7.19.6.1 of ISO/IEC 9899:1999 are syntax trees, and
  `FormatStandard` reads off them the text the standard gives; a reader in the style of `strtol`
  serves as the inverse of the number conversions.
* **String buffers** (`StringBuffers`, `StringBufferRuns`). The drain is any function that fails or
  takes at least one byte; runs are trees of appends and padded sections.
* **Startup** (`StartupTasks`, `StartupSort`, `Startup`). A task's function is the list of sets it
  passes to `sysinit_add`; the order of the tasks is specified by schedules.
* **Scatter and gather** (`ScatterGather`, `IoTransfers`, `UserIo`). A byte vector denotes a sequence
  of addresses, which may repeat.

## Where the code falls short

* `BsdSupport/subr_unit.c`, line 655, sets `last` to `high - low - i`, which leaves `first` out;
  line 716 computes the intended value. The class `UnrHdr` models both, chosen by `repaired`.
  `AllocUnrSpecificL` states exactly how many units beyond `high` the header describes afterwards;
  `MiscountExample` is a history in which it describes one, and by `AllocateBeyond` further calls
  hand out `high + 1`. `OneUnitAtATime` and `NeverTwice` say what every history keeps all the same.
* `CLibrary/printf.c`, line 466, prints nothing for a zero in alternate octal with a precision of
  zero, where the standard asks for a single 0: `PrintedAlternateOctal` gives the exact condition,
  `OctalZeroExample` the input.
* `CLibrary/printf.c`, line 332, reads `hh` as `h` twice and narrows to `short`, where the standard
  asks for a `char`: `PrintedSignedChar` and `PrintedUnsignedChar` say exactly when the text is the
  right one all the same, `HhExample` gives an input for which it is not. `PrintsStandard` joins the
  two conditions: everywhere else the text is that of the standard.
* `CxxLibrary/hash.cpp`, line 188, checks for overflow only where there are exceptions, and
  `KernelMakefile`, line 46, builds without them. `NextPrime` says that the result is right exactly
  up to 0xfffffffb; for the four larger values it is 1.
* `ElfLibrary/libelf_convert.c`, lines 2595 and 2676, add the sizes of buckets and bloom words in a
  32-bit `size_t`. `LoopsStayInside` says that the copying loops keep to the buffers exactly when
  that sum does not wrap, `WrappedSize` gives a header for which it does.
* `BsdSupport/subr_uio.c`, line 182, bounds a block by `n` and by the iovec but not by `uio_resid`.
  `MovesTheSmaller` says exactly when no more than `uio_resid` is moved, `PassesResidue` gives a
  request that moves more.

## Model

| member | source | states |
|---|---|---|
| UnitRuns.Replay | BsdSupport/subr_unit.c:560-878 | Over any legal sequence of allocations, specific allocations and releases, every result and the final set of allocated numbers are those of a plain set of integers, and `busy` is its size; it stops only in front of a call that would take line 655 with a non-empty prefix |
| UnitRuns.Perform | BsdSupport/subr_unit.c:610-878 | One public call on any header, miscounted or not, answers and changes the allocated set exactly as the set specification says, where allocating the least unit looks as far as high + surplus; it returns to the canonical state, and the surplus grows only where line 655 miscounts |
| UnitRuns.History.Do | BsdSupport/subr_unit.c:560-878 | After any number of calls, each chosen freely once the earlier answers are known, the next call extends the record of sets, surpluses and answers by a step of the set specification, also past any number of miscounts |
| UnitRuns.OneUnitAtATime | BsdSupport/subr_unit.c:560-878 | In every such record a successful allocation adds exactly the unit it returns, which was not allocated, is at most high + surplus and exceeds high by at most high - low; a failed one changes nothing, and a release removes exactly its unit |
| UnitRuns.NeverTwice | BsdSupport/subr_unit.c:560-878 | In every such record no unit is handed out twice: between two calls that return it, it is released |
| UnitRuns.MiscountExample | BsdSupport/subr_unit.c:646-659 | A concrete history (0..9, lowest unit, then unit 5) after which the header describes eleven units, the eleventh free: line 655 leaves `first` out |
| UnitRuns.AllocateBeyond | BsdSupport/subr_unit.c:560-620 | Once a header describes more than low..high, allocating often enough hands out high + 1 |
| UnitRuns.BeyondExample | BsdSupport/subr_unit.c:560-659 | After that history, further calls hand out unit 10 of a range that ends at 9 |
| UnitRuns.LeastFreeIsLeastOutside | BsdSupport/subr_unit.c:557-607 | The lowest clear bit over prefix, list and suffix is the least number outside the allocated set, and there is none exactly when the set is full |
| UnitRuns.SetOfSize | BsdSupport/subr_unit.c:205-228 | The number of set bits is the size of the allocated set |
| UnitNumbers.UnrHdr.AllocUnrL | BsdSupport/subr_unit.c:560-608 | Allocates the least free unit the header describes, or answers -1 exactly when none is free; keeps the canonical form and uses no memory, also after a miscount |
| UnitNumbers.UnrHdr.AllocUnrSpecificL | BsdSupport/subr_unit.c:622-723 | Allocates the unit asked for, or answers -1 exactly when it is out of range or taken, on at most two nodes; the header stays canonical, and how many units beyond high it then describes is given exactly; it describes low..high again if and only if line 655 is repaired, or its branch is not taken, or the prefix is empty |
| UnitNumbers.UnrHdr.AllocListed | BsdSupport/subr_unit.c:660-722 | With entries on the list: the unit is claimed in an entry or behind the last one, and the suffix is cut at line 717 |
| UnitNumbers.UnrHdr.CutLast | BsdSupport/subr_unit.c:715-720 | The cut brings the suffix back to high when it reached beyond, and the list back to the canonical form |
| UnitNumbers.UnrHdr.AllocFar | BsdSupport/subr_unit.c:646-658 | The far branch: the unit is allocated, and the header then describes `first` units beyond high, or none if line 655 is repaired |
| UnitNumbers.UnrHdr.ClaimBeyond | BsdSupport/subr_unit.c:668-680 | A unit behind the list is appended with the gap before it, on at most two nodes |
| UnitNumbers.UnrHdr.ClaimListed | BsdSupport/subr_unit.c:682-713 | A unit inside the list is claimed if it is free: exactly that bit changes |
| UnitNumbers.UnrHdr.CutRun | BsdSupport/subr_unit.c:840-857 | Cutting one unit out of a run gives head, unit and tail in order, one node for each part that is not empty |
| UnitNumbers.UnrHdr.Locate | BsdSupport/subr_unit.c:661-665 | The search finds the entry that holds the unit and its place there, or the end of the list |
| UnitNumbers.UnrHdr.FreeUnrL | BsdSupport/subr_unit.c:753-860 | Releases exactly the given allocated unit, from prefix, run or bitmap, on at most two nodes, back to the canonical state |
| UnitNumbers.UnrHdr.ReleaseListed | BsdSupport/subr_unit.c:797-859 | Inside the list, exactly one bit is cleared on every path, with at most two nodes |
| UnitNumbers.UnrHdr.AllocUnr | BsdSupport/subr_unit.c:610-620 | The entry point: same answer as the locked part, and every block given up has been freed |
| UnitNumbers.UnrHdr.AllocUnrSpecific | BsdSupport/subr_unit.c:725-746 | The entry point: unused nodes are freed, so blocks held equal blocks accounted for |
| UnitNumbers.UnrHdr.FreeUnr | BsdSupport/subr_unit.c:862-878 | The entry point: the unit is free, and no block is lost or left waiting |
| UnitNumbers.UnrHdr.CollapseUnr | BsdSupport/subr_unit.c:488-555 | From any caller, restores the canonical form without changing the allocated set; the optimizing loop ends |
| UnitNumbers.UnrHdr.OptimizeUnr | BsdSupport/subr_unit.c:364-481 | Rewrites the first of the most expensive windows into one bitmap without changing the allocated set, and shortens the list; it declines exactly at the fixpoint |
| UnitNumbers.UnrHdr.FindWindow | BsdSupport/subr_unit.c:375-402 | Finds the first window that saves most memory blocks |
| UnitNumbers.UnrHdr.StartBitmap | BsdSupport/subr_unit.c:409-447 | The first two entries of a window become one bitmap with the same units and the right busy count |
| UnitNumbers.UnrHdr.AbsorbOne | BsdSupport/subr_unit.c:450-479 | A bitmap swallows its right neighbour: units appended in order, blocks given up |
| UnitNumbers.UnrHdr.AbsorbRight | BsdSupport/subr_unit.c:448-481 | A bitmap swallows neighbours exactly as long as they fit |
| UnitNumbers.UnrHdr.Unmix | BsdSupport/subr_unit.c:494-504 | A full or clear bitmap becomes a run of the same units |
| UnitNumbers.UnrHdr.RemoveEmpty | BsdSupport/subr_unit.c:506-514 | An empty entry goes, and its neighbour becomes the one to settle |
| UnitNumbers.UnrHdr.MergeNeighbours | BsdSupport/subr_unit.c:516-530 | Equal neighbouring runs become one; no two equal neighbours remain |
| UnitNumbers.UnrHdr.MergeEnds | BsdSupport/subr_unit.c:532-550 | An allocated head joins the prefix, a free tail the suffix |
| UnitNumbers.RunToBitmap | BsdSupport/subr_unit.c:412-421 | The first run of a window as a bitmap: the fill of one bit too many does no harm |
| UnitNumbers.AppendBits | BsdSupport/subr_unit.c:433-441 | Bits are appended in order and the set ones counted |
| UnitNumbers.FirstClear | BsdSupport/subr_unit.c:599-600 | The first clear bit, or -1 exactly when there is none |
| UnitNumbers.UnrHdr.NewUnr | BsdSupport/subr_unit.c:250-266 | Takes exactly one of the preallocated nodes |
| UnitNumbers.UnrHdr.CleanUnrhdrl | BsdSupport/subr_unit.c:278-291 | Frees every waiting block |
| UnitNumbers.UnrHdr.CheckUnrhdr | BsdSupport/subr_unit.c:198-232 | In every canonical state the recount of units and of blocks agrees with `busy` and `alloc` |
| UnitNumbers.UnrHdr.NothingAllocated | BsdSupport/subr_unit.c:337-347 | With nothing allocated there is no entry and no block left |
| UnitNumbers.UnrHdr.ShortList | BsdSupport/subr_unit.c:552-554 | Any three neighbouring entries cover more than NBITS units, so a list over S units has at most 3*(S/(NBITS+1))+2 entries |
| UnitLists.TightWindows | BsdSupport/subr_unit.c:385-402 | At the fixpoint any three neighbours, and a bitmap with any neighbour, cover more than NBITS units |
| UnitLists.TightBound | BsdSupport/subr_unit.c:553-554 | The bound on the number of entries follows from the fixpoint |
| UnitLists.NonEmptyIsMixed | BsdSupport/subr_unit.c:584-591 | A canonical list that is not empty holds an allocated and a free unit |
| UnitNumbers.UnrHdr.constructor | BsdSupport/subr_unit.c:302-319 | A new header has every unit free and is canonical |
| PageTables.PdeThroughSelfMap | X86/PageDirectory.cc:98-100 | The address computed for a directory entry reaches exactly that entry through the MMU walk |
| PageTables.PteThroughSelfMap | X86/PageDirectory.cc:208-215 | The address computed for a table entry reaches it when its table is there, and faults otherwise |
| PageTables.StorePte | X86/PageDirectory.cc:381 | Storing a table entry changes that entry and no other |
| PageTables.StoreUserBit | X86/PageDirectory.cc:339-342 | Setting the user bit of a directory entry changes no table entry |
| PageTables.InstallTable | X86/PageDirectory.cc:317-337 | Installing a cleared fresh frame as a table changes no table entry of any page |
| AddressSpaces.AddressSpace.EnsureTable | X86/PageDirectory.cc:311-337 | Through the self-map alone, a missing table is installed and zeroed; all translations stay |
| AddressSpaces.AddressSpace.ClearPage | X86/PageDirectory.cc:336 | Zeroing a page through the walk clears its frame and nothing else |
| AddressSpaces.AddressSpace.GrantUser | X86/PageDirectory.cc:339-342 | The directory entry becomes a user entry; all translations stay |
| AddressSpaces.AddressSpace.MapPage | X86/PageDirectory.cc:300-390 | Every bit of the stored entry: frame, writable always, uncacheable, user, lazy and present as the flags say, and no other bit below 4096; the directory entry is kept, or names the spare frame, with the user bit if asked. A non-lazy mapping is an insertion into the partial map from pages to frames, a lazy one leaves the map alone; every other page keeps its entry; it panics exactly when the page is present |
| AddressSpaces.AddressSpace.UnmapPage | X86/PageDirectory.cc:404-432 | Deletes the page from the partial map and changes nothing else; it panics exactly when the page is not present |
| AddressSpaces.AddressSpace.GetPageTableEntry | X86/PageDirectory.cc:434-449 | The entry of the page, or 0 when its table is missing |
| AddressSpaces.AddressSpace.GetPhysicalPage | X86/PageDirectory.cc:451-455 | For a mapped page, the frame address the MMU would use |
| AddressSpaces.AddressSpace.IsMapped | X86/PageDirectory.cc:485-505 | True exactly when the MMU walk does not fault |
| AddressSpaces.WalkIsPte | X86/PageDirectory.cc:200-215 | The two-level walk is the plain table lookup of the page |
| AddressSpaces.MapPageInserts | X86/PageDirectory.cc:361-381 | What is stored makes mapping an insertion |
| AddressSpaces.UnmapPageDeletes | X86/PageDirectory.cc:426-427 | What is stored makes unmapping a deletion |
| AddressSpaces.EntryWord | X86/PageDirectory.cc:361-381 | The stored word names the frame and is present exactly when the mapping is not lazy |
| AddressSpaces.EntryBits | X86/PageDirectory.cc:361-381 | The twelve low bits of the stored word, each in terms of the flags |
| PageDirectories.CreatePageDirectory | X86/PageDirectory.cc:457-483 | The running address space and the kernel directory translate as before; the new directory translates the addresses 0x10000000 to 0x103fffff and 0xbfc00000 to 0xffbfffff as the kernel directory does and no other below 0xffc00000, and the top page is the new directory itself; its 1024 entries are given; all three are proper directories, so the operations work on the new one |
| PageDirectories.FilledWalks | X86/PageDirectory.cc:464-478 | The same of a single address, for the MMU walk through a directory so filled |
| PageDirectories.FillDirectory | X86/PageDirectory.cc:463-478 | The new frame is written completely and no other frame is touched |
| PageDirectories.FilledTranslates | X86/PageDirectory.cc:464-478 | A directory filled that way translates exactly the shared slots |
| PageDirectories.FilledSeparate | X86/PageDirectory.cc:464-478 | A directory filled from a proper one maps itself and uses no frame for two tables |
| PageDirectories.KernelKeeps | X86/PageDirectory.cc:457-483 | The frames and entries that differ afterwards are none the kernel directory translates with |
| NextPrimes.NextPrime | CxxLibrary/hash.cpp:178-568 | For a 32-bit `size_t`, and all of its values: 0 for 0; up to 0xfffffffb the least prime that is at least n; and 1 for the four values above, where the candidate wraps; the search ends |
| NextPrimes.Search | CxxLibrary/hash.cpp:197-568 | From the first candidate on, the search ends with the least prime from n on if and only if n is at most 0xfffffffb, and with 1 otherwise |
| NextPrimes.FirstBeyond | CxxLibrary/hash.cpp:189-196 | Above 0xfffffffb the first candidate is 0xfffffffd, which is a product, or 0x100000001, which is 1 as a `size_t` |
| LargePrimes.LargestIsPrime | CxxLibrary/hash.cpp:158 | The bound of the overflow check, 0xfffffffb, is a prime |
| LargePrimes.Certified | CxxLibrary/hash.cpp:158 | The certificate behind it (Pocklington): an element that has order q modulo every divisor of n, with q at least the square root of n, makes n a prime |
| LargePrimes.OrderIsBelow | CxxLibrary/hash.cpp:158 | An element of order q has q different powers, so the modulus is above q |
| NextPrimes.WheelTrial | CxxLibrary/hash.cpp:215-558 | Trial division along the wheel answers whether the candidate is prime |
| NextPrimes.SmallTrial | CxxLibrary/hash.cpp:206-214 | Division by the small primes decides, or leaves no divisor below 211; it takes 1 for a prime |
| NextPrimes.LowerBound | CxxLibrary/hash.cpp:185-195 | The first place whose value is not below the one sought |
| NextPrimes.FirstCandidate | CxxLibrary/hash.cpp:190-196 | The first candidate skips only numbers that share a factor with 210 |
| NextPrimes.WheelComplete | CxxLibrary/hash.cpp:216-556 | Every number from 211 on that is coprime to 210 is tried |
| NextPrimes.WheelInOrder | CxxLibrary/hash.cpp:216-556 | The divisors tried start at 211 and increase |
| NextPrimes.VisitedNext | CxxLibrary/hash.cpp:226-556 | Between two consecutive divisors no number is coprime to 210 |
| PrimeTables.SmallTable | CxxLibrary/hash.cpp:23-74 | The table holds exactly the primes up to 211, in order |
| PrimeTables.WheelStep | CxxLibrary/hash.cpp:76-129 | The residues are exactly those coprime to 210, and the increments of the unrolled loop lead from each to the next |
| Primes.NoSmallDivisor | CxxLibrary/hash.cpp:199-203 | Stopping when the quotient falls below the divisor is sufficient |
| ElfBytes.SwapReverses | ElfLibrary/libelf_convert.c:47-75 | The swap macros reverse the bytes in storage, for every width |
| ElfBytes.SwapInvolution | ElfLibrary/libelf_convert.c:47-75 | Swapping a value twice gives it back |
| ElfBytes.ConvertTwice | ElfLibrary/libelf_convert.c:47-75 | Converting a field twice gives it back, in either byte order |
| ElfLayouts.FileSizeAtMostMemSize | ElfLibrary/libelf_xlate.c:82-88 | The file form never takes more room than the structure, whatever the alignment rules |
| ElfRoundTrips.MemoryThereAndBack | ElfLibrary/libelf_xlate.c:47-149 | Two translations in a row, to the file form and back, restore every field of every element, in place or not, for the 22 types whose elements have a fixed layout (all of the table but NOTE and GNUHASH); the second succeeds when there is room |
| ElfRoundTrips.FileThereAndBack | ElfLibrary/libelf_xlate.c:47-149 | Two translations in a row, to memory and back, restore every byte, in place or not |
| ElfRoundTrips.ThereAndBack | ElfLibrary/libelf_xlate.c:47-149 | Either way round, what is translated back agrees with what came in between |
| ElfRoundTrips.TableThereAndBack | ElfLibrary/libelf_convert.c:2566-2728 | A GNU hash table of whole words, converted one way and then the other, is back as it was, in place or not, for every size a `size_t` can hold |
| ElfLayouts.MemoryRoundTrip | ElfLibrary/libelf_convert.c:1565-1746 | Structures that agree with the same file bytes have the same fields, element by element |
| ElfLayouts.FileRoundTrip | ElfLibrary/libelf_convert.c:1565-1746 | File bytes that agree with the same structures are the same |
| ElfConvert.ToFileLoop | ElfLibrary/libelf_convert.c:1565-1606 | Walking forwards, the file bytes agree with the structures as they were, also when both start at the same address |
| ElfConvert.ToFile | ElfLibrary/libelf_convert.c:1565-1606 | The converter, for any count; it changes only its destination |
| ElfConvert.ToMemoryLoop | ElfLibrary/libelf_convert.c:1651-1698 | Walking backwards, the structures agree with the file bytes as they were, also in place |
| ElfConvert.ToMemory | ElfLibrary/libelf_convert.c:1651-1698 | The converter fails exactly when the destination is too small, and then changes nothing |
| ElfXlate.Check | ElfLibrary/libelf_xlate.c:55-131 | For the 22 types with a fixed layout, the checks accept exactly the acceptable translations |
| ElfXlate.Xlate | ElfLibrary/libelf_xlate.c:47-149 | For the 22 types with a fixed layout: it succeeds exactly on acceptable descriptors, and then, in either direction, every gABI field of every element has the same value before and after, its bytes in the other order when the encoding is not the native one; otherwise memory and descriptors are unchanged and the error is the one the first failing check sets |
| ElfXlate.PackedIdentityAll | ElfLibrary/libelf_xlate.c:138-140 | Doing nothing is right when nothing is swapped and the layout has no padding |
| ElfXlate.AcceptableMeans | ElfLibrary/libelf_xlate.c:59-131 | The rules a translation must meet, written out: versions, buffers, whole elements, room, overlap and alignment, in either direction |
| ElfTypes.AgreeMeans | ElfLibrary/libelf_convert.c:47-1746 | Whenever structures and file bytes agree, every field of every element has, at the place the gABI gives it, the same value: a field of 2, 4 or 8 bytes read as a number, big-endian in the file if the encoding is the other one, and bytes and e_ident as they are |
| ElfTypes.Tiles | ElfLibrary/sys/elf32.h:55-243 | The layouts the converters follow have exactly the fields of the gABI, each with its size and at its offset, for all types and both classes |
| ElfTypes.FieldsValues | ElfLibrary/libelf_convert.c:1565-1698 | In one element each field has the same value in memory and in the file, whatever real alignment limit the machine has |
| ElfTypes.ElementSizes | ElfLibrary/libelf_fsize.c:45-119 | The file size of an element of each type and class, as a number, and the size of its structure |
| ElfTypes.AlignmentOf | ElfLibrary/libelf_align.c:117-154 | The alignment of each structure, from the widest field the table gives |
| ElfTypes.MoveIsPadded | ElfLibrary/libelf_convert.c:923-954 | A 64-bit move entry is padded in memory, so the two sizes do differ |
| ElfGnuHash.GnuHash | ElfLibrary/libelf_convert.c:2566-2728 | The 64-bit GNU hash converters, with the size sum as a 32-bit `size_t`: on every input the ending is stated exactly; it is a success if and only if the table fits without any wrapping, and header, bloom words, buckets and chains are then moved unit by unit, also in place |
| ElfGnuHash.LoopsStayInside | ElfLibrary/libelf_convert.c:2594-2631 | Once the size checks have passed, the loops over bloom words and buckets stay inside both buffers if and only if the sum of their sizes is below 2^32, so does not wrap |
| ElfGnuHash.ConvertsWhatFits | ElfLibrary/libelf_convert.c:2594-2640 | A conversion succeeds if and only if the unwrapped sizes fit source and destination |
| ElfGnuHash.WrappedSize | ElfLibrary/libelf_convert.c:2594-2631 | A header that announces 0x40000000 buckets in a table of sixteen bytes passes both size checks, and the bucket loop leaves the buffers |
| ElfGnuHash.CopyTable | ElfLibrary/libelf_convert.c:2604-2648 | The copying loops together convert the whole table |
| ElfGnuHash.WordValue | ElfLibrary/libelf_convert.c:2604-2648 | Each header, bucket and chain word of a converted table has the value it had, read big-endian on the other side if swapped |
| ElfGnuHash.BloomValue | ElfLibrary/libelf_convert.c:2613-2618 | So has each 64-bit bloom word |
| ElfGnuHash.CountReads | ElfLibrary/libelf_convert.c:2578-2592 | The counts are the values of the header words |
| ElfGnuHash.CopyUnits | ElfLibrary/libelf_convert.c:2604-2609 | One copying loop converts its units in order, also in place |
| ElfGnuHash.TableTwice | ElfLibrary/libelf_convert.c:2566-2728 | A table of whole words converted twice is itself |
| ElfGnuHash.CountsAgree | ElfLibrary/libelf_convert.c:2592-2597 | Both directions read the same counts, though one swaps them first |
| ElfGnuHash.RoundTrip | ElfLibrary/libelf_convert.c:2566-2728 | Converting a table of whole words with the counts one direction reads, and then with those the other reads, gives it back |
| Formatting.Kprintf | CLibrary/printf.c:217-594 | For every format and argument list with defined behaviour, what is emitted is the text of the format and the value returned is its length |
| Formatting.Vsnprintf | CLibrary/printf.c:134-150 | The buffer gets the text as far as it leaves room for a NUL, then the NUL, and is otherwise unchanged; the full length is returned |
| Formatting.DirectiveRenders | CLibrary/printf.c:255-579 | A directive is replaced by the field its meaning gives, and the format carries on with the next argument |
| Formatting.LiteralText | CLibrary/printf.c:256-261 | A format without directives is its own text |
| Formatting.LonePercent | CLibrary/printf.c:271-272 | A directive that the format ends in prints nothing |
| FormatStandard.RendersStandard | CLibrary/printf.c:255-579 | Wherever it stands in a format, and with all flags, widths, precisions, lengths and conversions, a directive is replaced by the text that section 7.19.6.1 of ISO/IEC 9899:1999 gives it, unless it is one of the two cases where the code differs |
| FormatStandard.PrintsStandard | CLibrary/printf.c:255-579 | The text of a directive is that of the standard if and only if hh leaves the argument its char value and alternate octal does not have to print a lone zero |
| FormatStandard.FieldIsStandard | CLibrary/printf.c:355-579 | The same of one field, with the next argument, in both directions |
| FormatStandard.Gathers | CLibrary/printf.c:271-354 | The state gathered by scanning is what flags, width, precision and length of the directive say |
| FormatStandard.PrintedChar | CLibrary/printf.c:355-359 | %c prints the byte its argument is modulo 256, padded to the width with blanks, or with zeros under the 0 flag |
| FormatStandard.PrintedString | CLibrary/printf.c:410-431 | %s prints the bytes of its argument up to the first NUL or the precision, padded alike; "(null)" for a null pointer |
| FormatStandard.PrintedPointer | CLibrary/printf.c:395-409 | %p prints 0x behind its padding and reads back as the address |
| FormatStandard.PrintedItself | CLibrary/printf.c:509-518 | A character that is no conversion prints itself, padded, and takes no argument |
| FormatStandard.PrintedCase | CLibrary/printf.c:439-444 | x prints no capital and X no small letter |
| FormatStandard.PrintedPrefix | CLibrary/printf.c:445-447 | # puts 0x or 0X in front exactly when the value is not zero |
| FormatSyntax.Spelling | CLibrary/printf.c:273-354 | How each flag, star and length modifier is spelled |
| FormatSyntax.NumberSpelling | CLibrary/printf.c:303-331 | A width or precision is spelled as its decimal numeral, behind any leading zeros |
| Formatting.PrintedIntegerReadsBack | CLibrary/printf.c:360-371 | Whatever flags, width, precision and length, the text of d or i reads back as the argument |
| Formatting.PrintedUnsignedReadsBack | CLibrary/printf.c:388-457 | The text of o, u, x or X reads back as the unsigned argument in its radix |
| FormatSyntax.DirectiveScans | CLibrary/printf.c:271-354 | Scanning the text of any directive of the standard without the modifier L finds its conversion and exactly the meaning of its flags, width, precision and length |
| FormatDirectives.ScanDirective | CLibrary/printf.c:271-354 | The scanning loop never reads past the terminating NUL and gathers the state of the directive |
| FormatDirectives.ReadDecimal | CLibrary/printf.c:308-312 | A digit run is read as its decimal value and ends at the first other character |
| FormatNumbers.Convert | CLibrary/printf.c:457-506 | The digits are stored from the end of the 23-byte buffer without underrun, for every 64-bit value |
| FormatNumbers.BufferFits | CLibrary/printf.c:54 | Every number text fits the buffer, and alternate octal of the largest value fills it |
| FormatNumbers.DigitsDenote | CLibrary/printf.c:472-497 | The digits denote the value, and start with 0 only for 0 |
| FormatNumbers.DigitsUnique | CLibrary/printf.c:472-497 | They are the only numeral for the value without a superfluous zero |
| FormatNumbers.OctalDigits | CLibrary/printf.c:473-477 | The octal digits, leaving room for one more |
| FormatNumbers.DecimalDigits | CLibrary/printf.c:483-490 | The decimal digits |
| FormatNumbers.HexDigits | CLibrary/printf.c:492-497 | The hexadecimal digits |
| Formatting.Output.PutField | CLibrary/printf.c:534-578 | A field is emitted prefix, zeros, body and padding in order, and counted before it is emitted |
| Formatting.Output.PutChar | CLibrary/printf.c:205-212 | The buffer always holds what was emitted as far as it fits |
| Formatting.SplitSign | CLibrary/printf.c:365-369 | The magnitude is right for every 64-bit value, the least one included |
| Formatting.ConvertArgument | CLibrary/printf.c:355-518 | Each conversion yields the field its argument calls for |
| FormatFields.LayoutLength | CLibrary/printf.c:534-541 | The field takes the larger of the width and its real size |
| FormatFields.StringIsLongest | CLibrary/printf.c:410-431 | %s prints the longest NUL-free beginning that the precision allows |
| FormatFields.SignedFits | CLibrary/printf.c:188-195 | A value that fits its length modifier is not changed by it |
| FormatFields.SignedCongruent | CLibrary/printf.c:188-195 | The narrowed value differs from the argument by a multiple of the values of its type |
| FormatReading.FieldReads | CLibrary/printf.c:543-578 | Reading a number field back gives its value whatever surrounds it |
| FormatReading.SignedReadsBack | CLibrary/printf.c:360-371 | d and i print the signed value |
| FormatReading.UnsignedReadsBack | CLibrary/printf.c:388-457 | o, u, x and X print the unsigned value |
| FormatReading.PrecisionIsLeast | CLibrary/printf.c:457-458 | A precision is the least number of digits and switches zero padding off |
| FormatReading.WidthPads | CLibrary/printf.c:543-578 | A width adds blanks on one side of the field, or zeros behind its prefix, and with the minus flag never zeros |
| FormatReading.SignShown | CLibrary/printf.c:365-369 | A minus sign exactly for negative values, otherwise the sign the flags ask for |
| FormatShortfalls.PrintedAlternateOctal | CLibrary/printf.c:388-480 | The text of a whole alternate octal directive, behind its padding, starts with 0 if and only if the argument and the precision are not both zero |
| FormatReading.AlternateOctal | CLibrary/printf.c:466-480 | The numeral of alternate octal starts with 0 if and only if it is not zero under a precision of zero (the standard wants a 0 there too) |
| FormatShortfalls.OctalZeroExample | CLibrary/printf.c:466-480 | Zero under %#.0o prints nothing |
| FormatShortfalls.CharArgument | CLibrary/printf.c:332-334 | With hh the argument is taken as the char the standard asks for if and only if narrowing it to short leaves a char |
| FormatShortfalls.PrintedSignedChar | CLibrary/printf.c:332-371 | The text of an hh directive with d or i reads back as the signed char if and only if the argument, as a short, is in -128..127 |
| FormatShortfalls.PrintedUnsignedChar | CLibrary/printf.c:332-457 | The text of an hh directive with o, u, x or X reads back as the unsigned char if and only if the argument, as an unsigned short, is below 256 |
| FormatShortfalls.HhExample | CLibrary/printf.c:332-371 | 200 under %hhd prints 200, and the standard wants -56 |
| StringBufferRuns.Fixed | BsdSupport/subr_sbuf.c:188-213 | Over any nesting of appends and sections without a drain: a growing buffer ends with the whole text, a fixed one with its first length - 1 bytes, and ENOMEM exactly when that is not all |
| StringBufferRuns.Drained | BsdSupport/subr_sbuf.c:325-383 | Over any such run with a drain that may take a byte at a time, through the caller's buffer or an allocated one: there is an error if and only if the drain has failed, namely minus its first negative answer, and unless it failed it has been given exactly the text; it is never given anything else |
| StringBufferRuns.RunOne | BsdSupport/subr_sbuf.c:781-831 | A section ends with the length of its text, inner sections and padding included, wherever it stands |
| StringBufferRuns.RunAll | BsdSupport/subr_sbuf.c:381-405 | A sequence of appends and sections adds its text, or an error leaves a proper beginning of it |
| StringBufferRuns.SectionIsPadded | BsdSupport/subr_sbuf.c:817-820 | The text of a section is a multiple of its padding, with the least padding |
| StringBuffers.ExtendSize | BsdSupport/subr_sbuf.c:131-146 | The least power of two from 16 on that suffices, or from a page on the least multiple of a page |
| StringBuffers.Sbuf.Extend | BsdSupport/subr_sbuf.c:151-171 | The contents survive, in a buffer large enough; it fails exactly when the buffer may not grow |
| StringBuffers.Sbuf.Drain | BsdSupport/subr_sbuf.c:325-352 | What was drained followed by what is buffered stays the same, also after a partial drain, and without an error something was drained; an error is the negated answer of the drain function |
| StringBuffers.Sbuf.EmptyDrain | BsdSupport/subr_sbuf.c:368-374 | A full buffer is drained while empty exactly when it has one byte |
| StringBuffers.Sbuf.PutByte | BsdSupport/subr_sbuf.c:359-383 | One byte is accepted unless there is an error; an error is never taken back |
| StringBuffers.Sbuf.Bcat | BsdSupport/subr_sbuf.c:388-405 | All bytes are accepted, or an error keeps some out |
| StringBuffers.Sbuf.Finish | BsdSupport/subr_sbuf.c:693-715 | With a drain that does not fail everything is drained, and the error is minus its first negative answer; without one the buffer holds what was accepted and a NUL |
| StringBuffers.Sbuf.StartSection | BsdSupport/subr_sbuf.c:781-800 | A new section begins at the current end, and the count of the enclosing one is saved |
| StringBuffers.Sbuf.EndSection | BsdSupport/subr_sbuf.c:806-831 | Returns the bytes since the matching start, a multiple of the padding, and gives them all to the enclosing section |
| StringBuffers.Sbuf.constructor | BsdSupport/subr_sbuf.c:178-230 | A new buffer is empty, for every length from 0 on; what every operation asserts of it holds exactly when it has at least one byte |
| Startup.Boot.MiStartup | BsdSupport/init_main.c:153-231 | It ends, and what it ran is a complete schedule: every task was pending and least in (subsystem, order) when it ran, and nothing runnable is left |
| Startup.FinishedRun | BsdSupport/init_main.c:153-231 | In plain terms: no task runs twice, the tasks that run are exactly the registered ones of level 2 and up, what a task adds is registered, and neighbours are in order of level and order unless the first added the second |
| Startup.Boot.Traverse | BsdSupport/init_main.c:206-231 | A pass over the sorted tasks runs only tasks that are next in the schedule; without a restart it completes the schedule |
| Startup.Boot.RunTask | BsdSupport/init_main.c:206-229 | A task is run, checked off, and what it registered taken over |
| Startup.Boot.SysinitAdd | BsdSupport/init_main.c:90-119 | The new set goes behind the one added before, or behind the tasks being run; nothing is lost |
| StartupSort.Sort | BsdSupport/init_main.c:158-168 | The exchange sort yields a sorted permutation |
| StartupSort.Exchange | BsdSupport/init_main.c:160-166 | One comparison of the sort |
| StartupTasks.RunsOnce | BsdSupport/init_main.c:206-223 | No task runs twice, and only registered, runnable tasks run |
| StartupTasks.RunsAll | BsdSupport/init_main.c:153-231 | The tasks run are exactly the runnable ones of the least set closed under registration |
| StartupTasks.SameTasks | BsdSupport/init_main.c:153-231 | Which tasks run does not depend on how ties are broken |
| StartupTasks.OrderOfNeighbours | BsdSupport/init_main.c:221-229 | Of two tasks that run one after the other, the first comes before the second in order unless it registered the second itself |
| StartupTasks.RunsInOrder | BsdSupport/init_main.c:153-231 | When no task registers an earlier one, the whole run is in order |
| Startup.TraceIsBounded | BsdSupport/init_main.c:221-229 | Only finitely many tasks can run, so the restarts end |
| Startup.NextTask | BsdSupport/init_main.c:183-207 | In the sorted array the first task that is neither done nor a dummy is the next of the schedule |
| UserIo.Uio.Uiomove | BsdSupport/subr_uio.c:143-218 | For any residue, request and vector: bytes are moved in order and inside the vector, unless one faults, and then none of the bytes moved is one that faults; the smaller of request and residue is moved if and only if the request is no larger or the residue ends at the end of an iovec; residue, offset and vector account for every byte |
| IoTransfers.MovedBytes | BsdSupport/subr_uio.c:185-202 | Byte by byte: a read puts the bytes of the buffer at the addresses of the vector and a write the other way round, and nothing else changes |
| UserIo.MovesTheSmaller | BsdSupport/subr_uio.c:174-183 | When the smaller of request and `uio_resid` is moved; always when `uio_resid` is the length of the vector |
| UserIo.PassesResidue | BsdSupport/subr_uio.c:143-218 | Run on one iovec of ten bytes with a residue of five, a request of ten copies all ten and leaves a residue of -5 |
| UserIo.MoveTwice | BsdSupport/subr_uio.c:143-218 | When `uio_resid` is the length of the vector or covers the request, moving a bytes and then b bytes leaves memory, vector and counters as moving a + b bytes does |
| UserIo.Uio.MoveBlock | BsdSupport/subr_uio.c:182-211 | One block moves the right bytes, or faults and changes nothing |
| IoTransfers.TransferMore | BsdSupport/subr_uio.c:174-212 | Two transfers in a row are one |
| IoTransfers.WriteAfterRead | BsdSupport/subr_uio.c:187-202 | What a read scattered over distinct places a write brings back |
| IoTransfers.CopyBlock | BsdSupport/subr_uio.c:187-202 | Over contiguous addresses the transfer is one block copy |
| ScatterGather.AdvanceTwice | BsdSupport/subr_uio.c:174-212 | Advancing the vector by a and then b is advancing it by a + b |
| ScatterGather.GatherScatter | BsdSupport/subr_uio.c:174-212 | Bytes scattered over distinct addresses are gathered back unchanged |

## Left out

Weaker than the code, or narrower:

- UnitRuns.Replay: stops in front of a call that would miscount, as a set of numbers alone does not determine what follows; `History`, `OneUnitAtATime` and `NeverTwice` go on past it, with the surplus beside the set.
- FormatSyntax.DirectiveScans: the modifier L and the floating conversions are not read by the code.
- UserIo.Uio.Uiomove: what is to be moved must lie inside the vector, as past its end there is no iovec to read; moved bytes and buffer must not overlap, as the copying functions demand.
- UserIo.MoveTwice: without its condition on `uio_resid` the first call can stop at a residue that a single call would pass.
- ElfGnuHash.GnuHash: of a conversion whose loops leave the buffers nothing is shown but that it happens.
- ElfXlate.Xlate: encodings other than the two byte orders and types outside the table cannot be expressed; of the 24 types of the table NOTE and GNUHASH are missing. The converters of single values (BYTE, ADDR, OFF, HALF, WORD, XWORD and the like) use `memcpy` when nothing is swapped and walk forward in both directions; here they take the loops of the structures, backward on the way to memory. The values of the fields are stated for alignment limits of 1, 2 and 4 bytes and from 8 bytes on.
- Formatting.Kprintf: %lc and %ls print bytes, as %c and %s do in the code, where section 7.19.6.1 of ISO/IEC 9899:1999 asks for wide characters; %n has no text, and widths, precisions and the count do not overflow `int`.
- StringBuffers.Sbuf.SetDrain: asks for a buffer of two bytes; with one byte the code calls the drain on an empty buffer (`EmptyDrain`), which its own assertion forbids.
- Startup.Boot.MiStartup: a task's function always registers the same sets, and allocation does not fail.

Not modelled:

- `BsdSupport/subr_unit.c`: mutexes, printing and the random driver; the macros of `sys/bitstring.h` act on booleans instead of bytes; the entry list is a sequence, so pointer manipulation is not shown; memory a bitmap takes over has arbitrary bits.
- `X86/PageDirectory.cc`: `init`, the versions of `mapPage` and `unmapPage` for the initial directory, the TLB and `x86_invlpg`, permission checks, 4 MB pages and the page allocator. Frames from `Memory::getPage` are parameters that must be unused, `memset` is 1024 word stores, and a panic is a result.
- `ElfLibrary/libelf_convert.c`: the NOTE converters and the 32-bit GNU hash converters; `gelf_*` and `elf_update`.
- `CLibrary/printf.c`: the console, locking, real variable argument lists, and the branch for a base that cannot occur.
- `BsdSupport/subr_sbuf.c`: `sbuf_clear`, `sbuf_setpos`, copying from user space, trimming and printing.
- `BsdSupport/init_main.c`: verbose output and everything after the tasks.
- `BsdSupport/subr_uio.c`: the other entry points. Faults are a set of addresses; the `copyin` and `copyout` of `BsdSupport/copyinout.c` never fail.
- `Kernel/Scheduler.cc` queues the thread that is already running (lines 90 to 94), so one place per thread is not what the code keeps; `Kernel/Heap.cc` never splits or merges blocks, so its properties are easy.
- Devices, interrupts, PCI, ACPI and the monitor.

# Vapid GC: a verified model

Vapid GC is a mark-and-compact garbage collector for C programs with its own bump allocator. This
project models the collector in `src/` and the resizing hash table in `lib/`, and proves what they
are for: a collection keeps the reachable object graph, the allocator keeps the heap well formed,
the header codec gives back the C struct layout, and the hash table is a finite map.
`dafny verify dfyconfig.toml` checks everything.

## How the heap is modelled

A heap is an array of 64-bit words, a byte array with one bit for every 16-byte slot (the allocation
map), a bump pointer and a count of used bytes. An object is named by the slot its header word starts
at. A ghost table maps the slots of the objects to their extents and to the words in them that are
pointers; both are what the collector itself computes from the header, `ObjOf(header)`. `Heap.Valid()`
says that objects lie apart, inside pages and inside the heap; that the headers describe them; that
pointers into the heap point at objects; that a map bit is set exactly when an object covers the slot;
and that the used bytes are the payload bytes of the table.

Machine arithmetic is explicit: `ToWord` and `ToByte` wrap at 64 and 8 bits. The C functions that
change the heap, a queue or a table are methods that change fields and arrays; their specifications are
functions and relations on sequences and maps, and the theorems are about those. The word in front of
an address outside the heap, which the pointer-update pass reads, is the parameter `foreign`; the root
pointers found on the stack are a queue of payload addresses.

## Modules

- `Words`, `Layout`: wrap-around; the C struct layout of a list of members, the reference for the codec.
- `FormatSize`: the size of the struct a format string describes.
- `PartCodec`, `VectorReader`: the 2-bit part vector, and reading size and pointers back from it.
- `FormatEncoding`: from a format string to a vector. `PartLayout`, `PartWindow`: the layout of a list of parts
  against that of the struct, with all its parts and with the first ones missing. `EncodingSimulation`: the
  conversion followed on lists. `EncodingLayout`: when the header has the layout of the struct. `Acceptance`: which
  formats get a vector at all. `EncodingExamples`: formats for which header or vector is wrong. `Letters`: what letters and numerals
  stand for.
- `FormatPointers`: the pointers of an object read from its format string.
- `Header`: tags, packed addresses, sizes in slots. `PtrQueues`: the sorted queue of pointers.
- `HeapModel`, `Graph`, `Compaction`, `Relocation`: geometry, reachability, sliding and redirecting, on values.
- `AllocationMap`, `Heaps`, `Allocation`: the bitmap, the heap structure, the first-fit search.
- `Marking`, `Compacting`, `Updating`, `Collector`: the phases of a collection, and the collection.
- `Garbage`: that a collection leaves none.
- `HeapRuns`, `Allocator`, `AllocationExamples`: heap states and runs; the allocation functions; what becomes of an
  object whose header is wrong.
- `HashChains`, `HashTables`: chained hashing on values, and the linked table that refines it.

## Where the code departs from its documentation

The model follows the code. Each departure has a condition that is proved exact, or a concrete input.

- A successful conversion of a format with pointers gives a faithful header exactly when no counter wraps
  (`Counted`), no compaction loses parts (`Lossless`), all segments agree (`AllAgree`), and no part is missed in the
  header (`Kept`); otherwise the header is too small (`HeaderKeepsLayout`). The four conditions stand for four
  departures:
  - Counters of the conversion have 8 bits: `"290c*"` is encoded as 34 chars. A wrap on a digit goes
    unnoticed exactly under the condition of `ByteNumeralUnnoticed`, and is always fatal (`WrappedHeader`).
  - `compact_fours` subtracts the bits it frees, and loses parts when what is left is too little. It is right
    exactly when the bits left are not between two and three times the fours it replaces (`CompactExact`);
    `"14id*"` gets a header of 16 bytes instead of 72.
  - 4-byte members do not flush pending chars. A segment agrees when it takes as much room in the struct as
    its chars and its 4-byte members take separately; `"cic*"` gets 16 bytes instead of 24.
  - When the bits left are fewer than twice the fours, the subtraction wraps around and the conversion goes on with
    256 bits too many (`CompactExact`). It then accepts more than thirty parts, and the first ones are shifted out of
    the word or of the header: `"22id20*"` gets 240 bytes instead of 256. No part is missed if none is dropped, or
    if just one is and the first 8-byte member is a pointer behind an even number of 4-byte parts, not none: then
    padding takes the place of the one that is gone. As long as no subtraction wraps, nothing is dropped
    (`BackedDropsNothing`, `BackedHeader`).
- Compaction subtracts the bits it frees, so a format may be refused although its parts would fit. A conversion
  succeeds without loss or wrap exactly when no numeral is noticed and two bits for every part, and four more for
  every 4-byte part that is compacted, come to 60 at most (`AcceptedExactly`); `"10id20*"` has 26 parts and is refused
  (`CompactionRefuses`).
- Allocation reserves slots for the size of the struct, and the collector reads the extent from the header. Placing an
  object keeps the heap well formed exactly when the two are the same (`PlacementGood`, and `AllocStruct` with
  `ExtentRecovered`). For `"14id*"` five slots are reserved and two are read back (`ExtentMissed`). `Encodable` is
  about the extent only, and the pointers may still be wrong: for `"cic*"`, the pointer at offset 16 is taken to be at 8
  (`ExtentHitPointerMissed`).
- For one aligned struct size, 2^64 - 8, adding the header wraps around to 0, so that it is not too large for a page. A
  search for one slot then decides; if it succeeds, the object runs past the heap (`overruns` in `AllocStruct`).
- `get_pointers_from_format_string` queues a pointer before it aligns the offset. The pointers are found where
  the struct has them exactly when each follows a member that ends at a multiple of 8 (`SoughtWhereTheyAre`);
  in `"c31*"`, which has too many parts for a vector, the pointer at offset 8 is looked for at offset 1
  (`PointerSoughtInPadding`).
- The wrap-around test on 64-bit numerals has the same flaw as the one on 8 bits (`NumeralWrapExample`). The size
  of a struct is right exactly when no numeral exceeds 64 bits, or a wrap of one is noticed, or the members that
  the wrapped numerals stand for are too big in turn (`SizeRightExact`).
- Rounding a request up to whole slots wraps for the eight largest sizes (`AlignCoversRequest`).
- Removing an absent key takes out the first link of its bucket, if there is one (`RemovalCorrect`,
  `RemovalLosesAnother`, `RemovalKeepsOther`).
- Allocation counts the header twice, so it looks for a place with one slot more than it uses; an object
  that fills a page exactly is refused. The contracts say so (`AllocatedAt`, `Outcome`).
- After a failed search the bump pointer stays past the free space it has skipped, with less behind it than was
  asked for (`SearchFailed`); only a collection brings it back, right behind the last object that is not a root
  (`BumpLeft`). Until then every allocation of as much or more is
  refused, unless used bytes, to which alone the threshold test looks, call for a collection (`FullUntilCollected`,
  `RefusedUntilCollected`).
- The pointer-update pass does not check that an address is in the heap. A foreign address survives
  exactly under the condition of `ForeignFieldSurvives`, and is overwritten with 32 when the word in front of it is
  33 (`ForeignFieldLost`); `Gc` asks for the word in front of it to be inert.

## Model

| member | source | states |
|---|---|---|
| Layout.PaddingReachesRoundUp | src/format_encoding.c:69-70 | the padding formula reaches the least multiple of the alignment |
| FormatSize.QuotientTest | src/format_encoding.c:72-73 | the division test is true exactly when the product exceeds 64 bits |
| FormatSize.WrapTestExact | src/format_encoding.c:69-73 | the wrap-around tests together fire exactly when the mathematical size exceeds 64 bits |
| FormatSize.UpdateSize | src/format_encoding.c:58-79 | adds a run of members with padding, or reports exactly that 64 bits are too few |
| FormatSize.AddFields | src/format_encoding.c:94-122 | one letter: end offset and alignment of the struct read so far |
| FormatSize.PadToAlignment | src/format_encoding.c:134-145 | the final padding gives the struct size, or reports exactly that it does not fit |
| FormatSize.FinishSize | src/format_encoding.c:124-145 | the end of the string: trailing numeral as chars, then padding |
| FormatSize.SizeFromString | src/format_encoding.c:81-163 | struct size of the members read, failing exactly when they cannot be sized |
| FormatSize.SizeFromStringExact | src/format_encoding.c:81-163 | for numerals below 2^64: the size of the expanded member list, failing exactly when it exceeds 2^64-1 |
| FormatSize.WrapNoticedExact | src/format_encoding.c:147-153 | reading the numerals fails exactly when nine times some numeral, plus its digit, does not make up for a wrap |
| FormatSize.HugeNumeral | src/format_encoding.c:112-122 | a numeral past 64 bits stands for a struct whose size is past 64 bits |
| FormatSize.SizeRightExact | src/format_encoding.c:81-163 | for every format: success and size are right exactly when no numeral exceeds 64 bits, a wrap is noticed, or the wrapped members are too big in turn |
| FormatSize.NumeralWrapExample | src/format_encoding.c:150-153 | a format of 3*10^19 chars that is sized as 3*10^19 - 2^64 |
| Letters.DecimalRead | src/format_encoding.c:147-153 | the digits of a number are read as that number |
| Letters.LetterSizes | src/format_encoding.c:94-132 | `i` and `f` stand for 4 bytes, `l`, `d` and `*` for 8, `c` and a numeral at the end for one, times the numeral; refused exactly when 64 bits do not hold the product |
| Letters.LetterOffsets | src/format_encoding.c:499-552 | `ff*` has its pointer at 8; `fl*` and `ll*` have it at 16 |
| Letters.HeaderWord | src/header.c:16-22 | the header of `ff*`, bit by bit |
| PartCodec.PackDecode | src/format_encoding.c:186-228 | any 31 parts or fewer are recovered in order by skipping zero pairs and shifting left |
| PartCodec.PackFits | src/format_encoding.c:494-494 | thirty parts fit in the 60 bits of a vector |
| VectorReader.FindStart | src/format_encoding.c:195-202 | the skipping loop stops on every word, in front of the first part |
| VectorReader.AddPart | src/format_encoding.c:205-228 | one part advances the running size to the end offset of the parts read, and never overflows |
| VectorReader.SizeFromVector | src/format_encoding.c:168-236 | terminates on every word with the size that the vector stands for |
| VectorReader.EnqueueField | src/format_encoding.c:642-649 | a pointer part queues the address of its field, behind those before it |
| VectorReader.GetPointersFromBitVector | src/format_encoding.c:602-664 | the queue holds exactly the addresses of the pointer fields, in order |
| VectorReader.PointerOffsetsPlaced | src/format_encoding.c:642-649 | pointer fields are 8-aligned, in ascending order, inside the struct |
| FormatPointers.SoughtWhereTheyAre | src/format_encoding.c:735-745 | the offsets queued are those of the struct exactly when every pointer follows a member that ends at a multiple of 8 |
| FormatPointers.SoughtInside | src/format_encoding.c:735-745 | pointers are looked for inside the struct |
| FormatPointers.CharBeforePointers | src/format_encoding.c:739-742 | a char before a run of pointers: the first is looked for at offset 1 and placed at offset 8, the others are found |
| EncodingExamples.PointerSoughtInPadding | src/format_encoding.c:676-758 | `c31*`: no vector, so the format string is read, and the first pointer is looked for at offset 1 instead of 8 |
| FormatPointers.RoundUpToMultiple | src/format_encoding.c:666-674 | the least multiple that is not smaller |
| FormatPointers.AddMembers | src/format_encoding.c:690-745 | one letter: the offset reached, and the pointers queued on the way |
| FormatPointers.GetPointersFromFormatString | src/format_encoding.c:676-758 | the queue holds exactly the addresses that are looked for, in order |
| FormatEncoding.AddParts | src/format_encoding.c:289-335 | a run of parts is pushed, or nothing when the bits do not suffice |
| FormatEncoding.AddExtraBytes | src/format_encoding.c:349-360 | pending chars become the 4-byte parts that hold them |
| FormatEncoding.CompactFours | src/format_encoding.c:373-403 | compaction as the code does it, with its bit accounting |
| FormatEncoding.CompactExact | src/format_encoding.c:373-403 | compaction turns pairs of trailing fours into eights exactly outside the range of bits left from 2f to 3f; what bits are left, also after the subtraction has wrapped around |
| FormatEncoding.CompactDrops | src/format_encoding.c:396-400 | in that range the fours are removed and nothing replaces them |
| FormatEncoding.UpdateBitVector | src/format_encoding.c:426-469 | chars, 4-byte and 8-byte members, each with its own treatment of pending chars and fours |
| FormatEncoding.AddPointers | src/format_encoding.c:528-552 | the pointer branch: flush, then pointers, or too big |
| FormatEncoding.ContainsPointers | src/format_encoding.c:243-258 | finds a pointer letter exactly when there is one |
| FormatEncoding.StepEncoder | src/format_encoding.c:499-581 | one character of the conversion |
| FormatEncoding.FinishVector | src/format_encoding.c:554-570 | the end of the format |
| FormatEncoding.ConvertToBitVector | src/format_encoding.c:472-588 | success and vector of the whole conversion |
| PartLayout.CompactKeepsLayout | src/format_encoding.c:373-403 | compaction behind a multiple of 8 keeps the end offset rounded to 8, and the pointers |
| PartLayout.MirrorsSmall | src/format_encoding.c:438-464 | small members keep vector and struct level |
| PartLayout.MirrorsWide | src/format_encoding.c:455-460 | a flushed segment and 8-byte members: level exactly if the segment takes the same room in both |
| PartLayout.FinishedLayout | src/format_encoding.c:554-570 | the finished parts have the struct's size exactly when all segments agree, and then its pointers |
| PartLayout.OneSidedAgrees | src/format_encoding.c:438-464 | chars only before or only behind the 4-byte members of a segment agree |
| FormatEncoding.PushPartsPack | src/format_encoding.c:300-303 | pushing a run onto the vector of some parts gives the vector of the parts and the run |
| PartLayout.DroppedBehind | src/format_encoding.c:396-400 | a vector whose pairs of fours are lost is strictly behind the struct when that happens; `MirrorsWide` says that it stays behind |
| EncodingSimulation.LetterStep | src/format_encoding.c:499-552 | an accepted letter whose counters do not wrap: the vector still ends in the parts of the members read, and how many are missing in front is counted |
| EncodingSimulation.EndStep | src/format_encoding.c:554-570 | the trailing numeral and the pending chars end up in the vector |
| EncodingSimulation.EncodedMirrors | src/format_encoding.c:472-588 | every successful conversion without counter wraps ends with the last parts of a line that mirrors the whole member list, however many were accepted |
| EncodingSimulation.BackedDropsNothing | src/format_encoding.c:396-396 | as long as no subtraction of bits wraps around, no part is dropped, and the finished vector has thirty parts at most |
| PartWindow.FrontShift | src/format_encoding.c:186-228 | without its first part a vector has the same size and pointers exactly behind an even lead of fours, and otherwise 8 bytes less |
| PartWindow.DropTwo | src/format_encoding.c:186-228 | without two parts or more a vector is at least 8 bytes behind |
| PartWindow.WindowLayout | src/header.c:16-22 | the last thirty parts against the struct: same size, and then same pointers, exactly when at most a padded one is missing |
| EncodingLayout.CreateHeaderStruct | src/header.c:16-39 | a bit-vector header exactly when the conversion succeeds, else the tagged string address |
| EncodingLayout.HeaderKeepsLayout | src/format_encoding.c:472-588 | codec round trip for every accepted format: size and pointer offsets read back are those of the struct exactly when no counter wraps, no compaction loses parts, all segments agree and no part is missed; otherwise the header is too small |
| EncodingLayout.WrappedHeader | src/format_encoding.c:441-442 | a counter that wraps makes the header smaller than 256 bytes and the struct at least 256 |
| EncodingLayout.VectorHeader | src/header.c:16-22 | a header of up to 32 parts gives back size and pointers of the last thirty |
| EncodingLayout.BackedHeader | src/format_encoding.c:472-588 | as long as no subtraction of bits wraps around, three of the conditions remain |
| EncodingLayout.HeaderKeepsSize | src/format_encoding.c:475-488 | without pointers the header gives back the size, and exists exactly for sizes below 2^60 |
| EncodingLayout.OneSidedFaithful | src/format_encoding.c:438-464 | formats without chars on both sides of a 4-byte member are encoded faithfully exactly when no counter wraps and no parts are lost or missed |
| EncodingLayout.CountedNumerals | src/format_encoding.c:572-578 | a conversion without wraps has read every numeral exactly |
| EncodingLayout.ByteNumeralUnnoticed | src/format_encoding.c:268-277 | exactly when the 8-bit numeral test misses a wrap |
| Acceptance.AcceptedExactly | src/format_encoding.c:472-588 | a conversion succeeds without loss or wrap exactly when no numeral is noticed and the bits asked for, compaction's included, are 60 at most; the vector then has the parts counted |
| Acceptance.BitsAskedSplit | src/format_encoding.c:396-400 | the bits asked for are two for every finished part and four for every 4-byte part compacted |
| Acceptance.SoundStep | src/format_encoding.c:499-578 | one character: sound exactly when its bits are left, and then it takes just those |
| Acceptance.SoundHeader | src/format_encoding.c:472-588 | a format that asks for 60 bits at most gets a header, faithful exactly when no counter wraps and all segments agree |
| EncodingExamples.CompactionRefuses | src/format_encoding.c:396-400 | `10id20*`: 26 parts, and no vector |
| EncodingExamples.CharsAroundFour | src/format_encoding.c:462-465 | `cic*`: a 24-byte struct with a 16-byte header, and its pointer at 8 instead of 16 |
| EncodingExamples.ByteNumeralWraps | src/format_encoding.c:575-578 | `290c*`: a 304-byte struct with a 48-byte header |
| EncodingExamples.CompactionDropsParts | src/format_encoding.c:396-400 | `14id*`: a 72-byte struct with a 16-byte header, and its pointer at 8 instead of 64 |
| EncodingExamples.PartsFallOff | src/format_encoding.c:396-396 | `22id20*`: nothing wraps in a counter, nothing is lost in compaction and all segments agree, but a 256-byte struct has a 240-byte header |
| Header.PackedPointer | src/get_header.c:61-112 | a 4-aligned address survives being packed with a tag |
| Header.TagVectorRoundTrip | src/header.c:16-22 | tags and body of a vector header are recovered |
| Header.AlignCoversRequest | src/allocation.c:209-220 | the aligned size covers the request exactly when adding the header does not wrap, and by less than a slot |
| Header.AlignIdempotent | src/allocation.c:209-220 | aligning an aligned size changes nothing, exactly when its header still fits |
| Header.AlignedSlots | src/compacting.c:278-283 | the collector gets a whole number of slots from every header |
| Header.ObjWellPlaced | src/header.c:63-80 | the fields a header describes lie inside the payload, in ascending order |
| Header.CreateHeaderRaw | src/header.c:55-59 | a pointer-free header of the given size, exactly for sizes below 2^60 |
| PtrQueues.InsertKeepsOrder | src/ptr_queue.c:52-74 | insertion keeps the queue ascending and free of duplicates, and adds just the one element |
| PtrQueues.PtrQueue.constructor | src/ptr_queue.c:21-25 | an empty queue |
| PtrQueues.PtrQueue.Enqueue | src/ptr_queue.c:52-74 | inserts in order, and reports exactly whether the pointer was new |
| PtrQueues.PtrQueue.Dequeue | src/ptr_queue.c:76-90 | takes out the smallest pointer, or NULL from an empty queue |
| PtrQueues.PtrQueue.Get | src/ptr_queue.c:92-111 | the pointer at an index, or NULL past the end |
| AllocationMap.MapBytesLeast | src/allocation_map.c:12-41 | the map has a bit for every slot, and no byte too many |
| AllocationMap.WithBitRead | src/allocation_map.c:59-107 | setting or clearing a bit changes what is read for that slot and no other |
| AllocationMap.ReadBit | src/allocation_map.c:99-107 | any offset inside a slot reads the bit of the slot |
| AllocationMap.UpdateAllocMap | src/allocation_map.c:76-97 | exactly one bit of the map takes the given value |
| AllocationMap.ResetAllocationMap | src/allocation_map.c:43-57 | all bits are clear |
| Heaps.Heap.constructor | src/gc.c:54-100 | a well-formed empty heap, its size rounded up to slots |
| Allocation.StepOver | src/allocation.c:131-135 | stepping one byte past an occupied slot skips no place |
| Allocation.SkipPage | src/allocation.c:151-157 | skipping to the next page skips no place |
| Allocation.DoesAllocFit | src/allocation.c:116-138 | free for as far as needed, or the first occupied slot |
| Allocation.SkipOnPageOverlap | src/allocation.c:146-160 | moves to the next page exactly when the rest of this one is too short |
| Allocation.SearchRound | src/allocation.c:178-195 | one round keeps the search complete and makes progress |
| Allocation.MoveToNextAvailableSpace | src/allocation.c:174-207 | terminates at the first aligned place that is free and inside one page, and fails only when there is none; either way the bump pointer is where the search ends, at the first place there would be in a longer heap |
| Compaction.OriginFits | src/compacting.c:286-292 | an object that waits to be moved can always stay where it is |
| Compaction.SearchSucceeds | src/compacting.c:285-292 | the search finds a place at or before the origin: `abort` is not reached |
| Compaction.FreeIsClear | src/compacting.c:294-327 | a free place is clear of placed objects, forwarding headers, roots and waiting objects |
| Compaction.PlaceNext | src/compacting.c:294-342 | placing the next object keeps every placement invariant, moved or too close to move |
| Compaction.MoveNext | src/compacting.c:327-339 | moving an object leaves every copy, waiting object and forwarding header intact |
| Compaction.CompactNext | src/compacting.c:241-345 | one object of the queue goes to the first place, or stays if that place reaches into it, and everything compaction keeps is kept |
| Compaction.WentFirstNext | src/compacting.c:285-304 | one more object in address order keeps the rule: first free place from the bump pointer, or the origin if that place reaches into it |
| Compaction.MovesWhenItCan | src/compacting.c:294-304 | an object below which a place was free, wholly and from the bump pointer on, has moved there or before |
| Compaction.PlacesDetermined | src/compacting.c:151-229 | live objects and roots alone decide where everything goes |
| Graph.ReachableUnique | src/compacting.c:82-146 | the set of reachable objects is determined by the roots |
| Graph.NewTableOk | src/compacting.c:294-344 | the moved objects lie apart, inside pages and heap |
| Graph.NewTableSum | src/compacting.c:227-228 | moving keeps the payload bytes of live objects |
| Graph.NewImageFields | src/compacting.c:387-430 | every field points at an object's new place, or where it pointed outside the heap |
| Marking.PathStays | src/compacting.c:108-146 | a path from a root stays in every closed set that contains the roots |
| Marking.ReachedIsReachable | src/compacting.c:82-146 | what the search has queued is the least closed set that contains the roots |
| Marking.GetPointersInAllocation | src/header.c:63-93 | the addresses of an object's pointer fields, from its header |
| Marking.RecurseFindPointer | src/compacting.c:107-146 | queues an object and all it reaches; terminates on cyclic heaps |
| Marking.MarkChildren | src/compacting.c:127-145 | follows every field of an object |
| Marking.FindLivingObjects | src/compacting.c:82-96 | queues exactly the reachable objects, in ascending order |
| Compacting.CalcAllocSize | src/allocation.c:42-51 | the payload size from the header |
| Compacting.AlignedExtent | src/compacting.c:278-283 | the slots of an object from its header |
| Compacting.MarkAllocated | src/allocation.c:228-245 | sets the bits of a range of slots and no others |
| Compacting.ChooseDestination | src/compacting.c:286-304 | with the first place wholly below the object the destination is that place, otherwise the origin; never `abort` |
| Compacting.MoveObject | src/compacting.c:327-339 | the copy and the forwarding header |
| Compacting.CompactPtr | src/compacting.c:241-345 | places one object: moved exactly when the first place lies wholly below it; memory, map, bump pointer, used bytes |
| Compacting.PinRoots | src/compacting.c:163-189 | exactly the roots are shown as allocated and counted |
| Compacting.IsRoot | src/compacting.c:200-209 | the linear search finds an object exactly when it is a root |
| Compacting.CompactQueue | src/compacting.c:196-217 | all live objects end up placed, roots where they were |
| Compacting.CompactObjects | src/compacting.c:151-229 | the phase as a whole: every object where the rule puts it, the bump pointer right behind the last one, and the bytes reported |
| Relocation.ChildHeader | src/compacting.c:409-418 | the header in front of an old address says where the object is now |
| Relocation.FieldRewritten | src/compacting.c:401-418 | following the header gives each field the value it must have |
| Relocation.ForeignFieldSurvives | src/compacting.c:409-418 | exactly when an address outside the heap survives the pass |
| Relocation.ForeignFieldLost | src/compacting.c:409-418 | a foreign address behind the word 33 is overwritten with 32 |
| Relocation.AllRewritten | src/compacting.c:377-430 | with all fields visited, the graph is the old one at its new place |
| Updating.FollowForwarding | src/compacting.c:401-418 | reads the header of the child and stores the forwarded address |
| Updating.VisitChild | src/compacting.c:420-425 | visits an object once; terminates on cyclic graphs |
| Updating.ApplyToPointerInAllocation | src/compacting.c:386-430 | finishes an object's fields and everything behind them, and touches no visited object |
| Updating.ApplyToField | src/compacting.c:399-428 | one field rewritten, and the object behind it visited |
| Updating.VisitedClosed | src/compacting.c:386-430 | the visited objects are closed under pointers |
| Updating.AllVisited | src/compacting.c:354-375 | every live object has been visited and all its fields rewritten |
| Updating.UpdateForwardedPointers | src/compacting.c:354-375 | afterwards the graph is preserved at its new place |
| Collector.FreeOne | src/compacting.c:446-455 | freeing one forwarding slot frees no part of a relocated object |
| Collector.AllFreed | src/compacting.c:432-462 | with all forwarding slots freed, a bit is set exactly when an object covers the slot |
| Collector.RemoveForwarding | src/compacting.c:439-455 | the slot of an old header is freed exactly when the object has moved |
| Collector.RemoveForwardingAllocations | src/compacting.c:432-462 | frees every forwarding header, emptying the queue |
| Collector.NewImageOk | src/gc.c:637-661 | what a collection leaves is a well-formed heap image |
| Collector.NoFieldForwards | src/compacting.c:386-430 | no field of a live object holds the old address of an object that moved |
| Collector.PayloadSumSplit | src/compacting.c:227-228 | payload bytes split into those of live and of dropped objects |
| Collector.MarkAndCompact | src/gc.c:642-647 | marking and compaction hand the update pass what it needs |
| Collector.UpdateAndFree | src/gc.c:651-655 | redirecting and freeing preserve the graph and make the map exact |
| Collector.Gc | src/gc.c:623-661 | one collection: reachable graph preserved, roots pinned, objects slid down in order, each to the first place free then, bump pointer right behind the last one or at the start, dropped bytes reported, heap well formed |
| Garbage.OriginsClosed | src/compacting.c:386-430 | a closed set of objects after a collection, pulled back to where they came from, was closed before |
| Garbage.NothingUnreachable | src/gc.c:623-661 | after a collection every object is reachable from the roots |
| Garbage.SecondCollection | src/gc.c:623-661 | a second collection with the same roots keeps every object and frees no bytes |
| HeapRuns.AddObject | src/allocation.c:310-317 | a new object in a free place keeps the heap well formed |
| HeapRuns.SpaceConserved | src/gc.c:176-195 | used bytes, free bytes and eight for each object make up the heap |
| HeapRuns.AllocationGood | src/allocation.c:320-350 | an allocation step keeps the heap well formed |
| HeapRuns.PlacementGood | src/allocation.c:310-317 | placing an object keeps the heap well formed exactly when the slots reserved are those the collector reads from its header |
| HeapRuns.FullUntilCollected | src/allocation.c:174-207 | after a failed search, along every run without a collection, there is no place for as many slots or more |
| HeapRuns.CollectionGood | src/gc.c:623-661 | a collection step keeps the heap well formed: image, exact map and used bytes follow from where the objects are and which forwarding slots are freed |
| HeapRuns.CollectionDetermined | src/gc.c:623-661 | two collections of the same heap with the same roots agree: survivors, places, map, used bytes, bump pointer |
| HeapRuns.StoreGood | lib/hash_table.c:715-723 | a client's stores into the payloads of its objects keep the heap well formed |
| HeapRuns.RunsStayGood | src/gc.c:176-209 | every run of allocations, collections and stores keeps the heap well formed and conserves space |
| Allocator.AlignedExtentRecovered | src/allocation.c:323-349 | the collector finds in a raw header the extent that was reserved |
| Allocator.RecoveredExactly | src/compacting.c:278-283 | the collector finds the reserved extent exactly when it reads the reserved number of slots |
| Allocator.HeaderNeverLarger | src/allocation.c:278-289 | without wraps of numerals or sizes, a struct's header never tells more slots than were reserved |
| Allocator.PlainEncodable | src/allocation.c:278-289 | structs without pointers get a header with the reserved extent |
| Allocator.StructEncodable | src/allocation.c:278-289 | structs with pointers too, when nothing wraps, is lost or is missed and all segments agree, with the right pointer offsets |
| Allocator.HAvail | src/gc.c:176-189 | the free bytes, and that with used bytes and headers they make up the heap |
| Allocator.WriteObject | src/allocation.c:340-349 | header and zeroed payload, nothing else |
| Allocator.PlaceObject | src/allocation.c:340-349 | the new object: memory, map, table, counters |
| Allocator.TriggerGcOnThresholdReached | src/allocation.c:74-85 | a collection step when used bytes and request together are at least the threshold's part of the heap, and otherwise nothing |
| Allocator.RatioReached | src/allocation.c:77-84 | the ratio reaches the threshold exactly when the bytes reach that part of the heap |
| Allocator.DueStaysDue | src/allocation.c:77-84 | with more used bytes or a larger request a collection stays due |
| Allocator.MoveToValidSpaceIfAllocPossible | src/allocation.c:255-272 | too large for a page, or a collection if due and the first place with a slot to spare, or proof that there is none, and where the bump pointer is left |
| Allocator.AllocRaw | src/allocation.c:320-350 | raw allocation: refused, placed, or no space, with the whole new state |
| Allocator.AllocStruct | src/allocation.c:274-318 | struct allocation for formats that get a bit-vector header, right or wrong: refused, placed, or no space, with the whole new state; the heap stays well formed exactly when nothing was placed or the header tells the reserved extent |
| AllocationExamples.ExtentMissed | src/allocation.c:278-317 | `14id*`: five slots reserved, two read back |
| AllocationExamples.ExtentHitPointerMissed | src/allocation.c:278-317 | `cic*`: the right extent, and the pointer in the wrong place |
| Allocator.NewObjectFresh | src/allocation.c:94-106 | the place was free, the new payload is zero, all other objects are untouched |
| Allocator.OutcomeGood | src/allocation.c:255-350 | after an allocation the heap is well formed, unless an object was placed whose header tells another extent |
| Allocator.OutcomeIsRun | src/allocation.c:255-350 | every allocation whose header tells the reserved extent is a run of at most two steps |
| Allocator.LargestObject | src/allocation.c:255-263 | 128 slots or more are refused and change nothing; up to 127 only lack of space refuses |
| Allocator.AllocatesFromStart | src/allocation.c:255-272 | after a collection that leaves only roots, an allocation succeeds exactly when some place in the heap is free, with a slot to spare |
| Allocator.RefusedUntilCollected | src/allocation.c:74-85 | below the threshold, an allocation fails if a search for as many slots or fewer has failed since the last collection |
| HashChains.PutRepresents | lib/hash_table.c:172-188 | insertion refines map update: other bindings survive, keys stay unique, every link is in bucket hash modulo count, the count is exact |
| HashChains.DropRepresents | lib/hash_table.c:285-298 | what removal takes out of the map, in every case |
| HashChains.RemovalCorrect | lib/hash_table.c:276-301 | removal is map removal exactly when the key is present or bucket hash modulo count is empty |
| HashChains.RemovalKeepsOther | lib/hash_table.c:276-301 | removing an absent key whose bucket is empty changes nothing, whatever the other buckets hold |
| HashChains.TwoBuckets | lib/hash_table.c:276-301 | two buckets: an odd key survives the removal of an even one |
| HashChains.RemovalLosesAnother | lib/hash_table.c:276-301 | one bucket with one key: removing any other key loses it |
| HashChains.ListsPaired | lib/hash_table.c:887-895 | position by position, the key and value lists hold the two halves of one pair |
| HashChains.ListsGiveMap | lib/hash_table.c:868-895 | inserting the two lists in order gives back the map |
| HashChains.OverloadedMeans | lib/hash_table.c:166-170 | the load test in whole numbers |
| HashChains.RehashNeverOverloads | lib/hash_table.c:859-895 | rehashing into the doubled table never triggers another resize |
| HashTables.HashTable.constructor | lib/hash_table.c:841-852 | an empty table with the given buckets |
| HashTables.HashTable.LinkInBucket | lib/hash_table.c:757-760 | every link sits in bucket hash modulo count of its key |
| HashTables.HashTable.ApplyToOne | lib/hash_table.c:614-629 | the walk ends at the link with the key, or at NULL |
| HashTables.HashTable.UpdateValue | lib/hash_table.c:576-580 | one link changes its value, nothing else changes |
| HashTables.HashTable.Prepend | lib/hash_table.c:176-186 | a new link in front of its bucket |
| HashTables.HashTable.FindPreviousPointer | lib/hash_table.c:801-828 | the slot that holds the link, or the first slot of the bucket |
| HashTables.HashTable.Unlink | lib/hash_table.c:285-298 | takes out the link in that slot and counts it |
| HashTables.HashTable.Remove | lib/hash_table.c:275-301 | the key, or else the first key of bucket hash modulo count, leaves the map; from an empty bucket nothing |
| HashTables.HashTable.Lookup | lib/hash_table.c:191-216 | the value under a key exactly when it is present |
| HashTables.HashTable.Keys | lib/hash_table.c:218-244 | all keys, in reverse order of the links |
| HashTables.HashTable.Values | lib/hash_table.c:246-273 | all values, in the same order |
| HashTables.HashTable.ClearBucket | lib/hash_table.c:559-565 | saving the successor, every link of a bucket is removed once |
| HashTables.HashTable.Clear | lib/hash_table.c:422-437 | all buckets empty, no keys |
| HashTables.HashTable.InsertLink | lib/hash_table.c:172-188 | insertion when no resize is due refines map update |
| HashTables.HashTable.Insert | lib/hash_table.c:155-189 | insertion refines map update, resizes included; the recursion is one level deep and the load stays bounded |
| HashTables.HashTable.Fill | lib/hash_table.c:887-895 | rehashing gives the new table the map of the lists, without a resize |
| HashTables.HashTable.Resize | lib/hash_table.c:854-908 | twice the buckets, the same map |

## Left out

- `new src/`: an unfinished rewrite.
- The stack scan, register dump and Valgrind requests: roots are given as payload addresses of objects. Interior and accidental root values are not modelled.
- Safe-stack mode: the source does not implement pointer rewriting for it.
- Format-string headers in the heap: the copy of the string and its part in a collection. The source notes as an open problem that a pinned object's header is not redirected when its string moves.
- FormatPointers.GetPointersFromFormatString: does not model numerals and offsets past 64 bits, because allocation has sized the format before.
- Allocator.AllocStruct: does not model the fallback to a format-string header, because the collector's part of it is left out; `HasVector` is the condition. Nor what happens once an object runs past the heap (`overruns`).
- Collector.Gc: asks that fields of reachable objects are NULL, objects, or outside addresses with an inert word in front, because the update pass reads that word unchecked. The address just past the heap is not counted as outside.
- Allocator.TriggerGcOnThresholdReached: does not model floating-point rounding, because the threshold is compared over the reals.
- PtrQueues.PtrQueue.Enqueue: the queue's links are a sequence, so sharing and update in place of single links are not modelled.
- The old `h_mark_pages` and `h_compact` path, `src/move_data.c` and the page-movability map: not used by `h_gc`.
- `h_delete`, `h_delete_dbg` and the release of queues: memory that is given back to the system.
- HashTables.HashTable.constructor: does not model the status codes for NULL arguments and for zero buckets, because they only end the call.
- HashTables.HashTable.Insert: does not model failing allocations, nor the wrap of the bucket count and the flag that stops resizing, because the source assumes fewer than 10^9 buckets. Keys are compared with equality, and the hash is a function of the key.
- HashTables.HashTable.Keys: the list and iterator structures are sequences, because on their own they add nothing to the table.
- Predicates over tables and values (`all`, `any`, `has_value`): traversals like those of keys and values.
- `demo/`, `lib/utils.c`, `lib/fifo_queue.c` and the test programs: driven by input and output.

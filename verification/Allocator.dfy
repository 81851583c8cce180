/** Allocating raw memory and structs: header, first fit, zeroed payload; a collection first if memory is short. */
module Allocator {
  import opened Words
  import opened Layout
  import opened FormatSize
  import opened PartLayout
  import opened FormatEncoding
  import opened EncodingSimulation
  import opened EncodingLayout
  import opened Header
  import opened PtrQueues
  import opened HeapModel
  import opened Compaction
  import opened Graph
  import opened AllocationMap
  import opened Heaps
  import opened Allocation
  import opened Marking
  import opened Compacting
  import opened Collector
  import opened HeapRuns

  ghost function StateOf(h: Heap): HeapState
    requires h.Shape()
    reads h, h.memory, h.allocMap
  {
    HeapState(h.Snapshot(), h.Bitmap(), h.nextEmpty, h.usedBytes)
  }

  lemma ValidIsGood(h: Heap)
    requires h.Shape()
    ensures h.Valid() <==> StateOf(h).Good()
  {
    SizeInSlots(h.size);
  }

  // ---------------------------------------------------------------- the extent of an object

  /** The collector finds in the header the slots that allocation reserves for `size` bytes. */
  ghost predicate ExtentRecovered(header: Word, size: Word) {
    && HeaderType(header) == HEADER_BIT_VECTOR
    && HeaderSize(header) < WORD_MODULUS
    && AlignAllocSize(HeaderSize(header)) == AlignAllocSize(size)
    && SLOT_BYTES * ObjOf(header).slots == AlignAllocSize(size) + HEADER_BYTES
  }

  /** Slots reserved for a payload. */
  function Reserved(size: Word): nat {
    (AlignAllocSize(size) + HEADER_BYTES) / SLOT_BYTES
  }

  lemma ReservedSlots(size: Word)
    ensures AlignAllocSize(size) + HEADER_BYTES == SLOT_BYTES * Reserved(size) && Reserved(size) > 0
  {
    hide AlignAllocSize;
    AlignCoversRequest(size);
  }

  /** The extent is recovered exactly when the slots reserved are those that the header tells. */
  lemma RecoveredExactly(header: Word, size: Word)
    requires HeaderType(header) == HEADER_BIT_VECTOR
    ensures ExtentRecovered(header, size) <==> ObjOf(header).slots == Reserved(size)
  {
    hide AlignAllocSize, ObjOf, HeaderSize, Reserved;
    ReservedSlots(size);
    AlignedSlots(header);
  }

  /** A header holding the aligned size. */
  lemma AlignedExtentRecovered(size: Word, header: Word)
    requires AlignAllocSize(size) < 0x1000_0000_0000_0000
    requires HeaderType(header) == HEADER_BIT_VECTOR && HeaderSize(header) == AlignAllocSize(size)
    ensures ExtentRecovered(header, size)
  {
    AlignIdempotent(size);
    AlignedSlots(header);
  }

  /** A header holding the size itself. */
  lemma SizeExtentRecovered(size: Word, header: Word)
    requires HeaderType(header) == HEADER_BIT_VECTOR && HeaderSize(header) == size
    ensures ExtentRecovered(header, size)
  {
    AlignedSlots(header);
  }

  /** Formats whose struct, when it can be sized at all, gets a bit-vector header with the right extent. */
  ghost predicate Encodable(format: string)
    requires ValidFormat(format)
  {
    SizeFits(format) ==>
      var size: Word := StructSize(MachineFields(format, 0).value);
      && StructHeader(format, AlignAllocSize(size)).Some?
      && ExtentRecovered(StructHeader(format, AlignAllocSize(size)).value, size)
  }

  /** Structs without pointers, as long as 60 bits hold their size. */
  lemma PlainEncodable(format: string)
    requires ValidFormat(format) && !HasPointers(format)
    requires SizeFits(format) ==> AlignAllocSize(StructSize(MachineFields(format, 0).value)) < 0x1000_0000_0000_0000
    ensures Encodable(format)
  {
    if SizeFits(format) {
      var size: Word := StructSize(MachineFields(format, 0).value);
      HeaderKeepsSize(format, AlignAllocSize(size));
      AlignedExtentRecovered(size, StructHeader(format, AlignAllocSize(size)).value);
    }
  }

  /** Structs with pointers, when the conversion succeeds unharmed, misses no part, and all segments agree. */
  lemma StructEncodable(format: string)
    requires ValidFormat(format) && HasPointers(format) && Encoded(format, START).Some?
    requires Counted(format, START) && Lossless(format, START) && Kept(format)
    requires AllAgree(Expand(format, 0))
    ensures SizeFits(format) && MachineFields(format, 0).value == Expand(format, 0)
    ensures Encodable(format)
    ensures var size := AlignAllocSize(StructSize(Expand(format, 0)));
            HeaderFaithful(StructHeader(format, size).value, Expand(format, 0))
  {
    hide Counted, Lossless, Kept, Encoded, Expand, AllAgree, StructSize, HeaderSize, ObjOf, HeaderPointers;
    hide AlignAllocSize;
    CountedNumerals(format, START);
    SizeFromStringExact(format);
    HeaderKeepsLayout(format, 0);
    AlignedSlots(StructHeader(format, 0).value);
    var size: Word := StructSize(Expand(format, 0));
    BitVectorHeader(format, AlignAllocSize(size));
    HeaderKeepsLayout(format, AlignAllocSize(size));
    SizeExtentRecovered(size, StructHeader(format, AlignAllocSize(size)).value);
  }

  lemma BitVectorHeader(format: string, size: Word)
    requires ValidFormat(format) && HasPointers(format) && Encoded(format, START).Some?
    ensures StructHeader(format, size).Some?
    ensures HeaderType(StructHeader(format, size).value) == HEADER_BIT_VECTOR
  {
    hide SetHeaderType, HeaderType, ToWord, Encoded;
    TypeIsSet(ToWord(4 * (FormatVector(format, size).value as nat)), HEADER_BIT_VECTOR);
  }

  /** A header never tells more slots than are reserved, as long as no numeral and no size wraps. */
  lemma HeaderNeverLarger(format: string, size: Word)
    requires ValidFormat(format) && HasPointers(format) && Encoded(format, START).Some?
    requires NumeralsBelow(format, 0, WORD_MODULUS) && size == StructSize(Expand(format, 0))
    requires size + HEADER_BYTES < WORD_MODULUS
    ensures StructHeader(format, AlignAllocSize(size)).Some?
    ensures ObjOf(StructHeader(format, AlignAllocSize(size)).value).slots <= Reserved(size)
  {
    hide Counted, Lossless, Kept, Encoded, Expand, AllAgree, StructSize, HeaderSize, HeaderPointers, HeaderFaithful;
    hide AlignAllocSize, Reserved;
    var allocSize := AlignAllocSize(size);
    BitVectorHeader(format, allocSize);
    HeaderKeepsLayout(format, allocSize);
    var header := StructHeader(format, allocSize).value;
    FaithfulSize(header, Expand(format, 0));
    ReservedSlots(size);
    AlignCoversRequest(size);
    SlotsFit(HeaderSize(header), Reserved(size));
  }

  lemma FaithfulSize(header: Word, fs: seq<Field>)
    ensures HeaderFaithful(header, fs) ==> HeaderSize(header) == StructSize(fs)
  {
  }

  lemma SlotsFit(size: nat, n: nat)
    requires size + HEADER_BYTES <= SLOT_BYTES * n
    ensures SlotsFor(size) <= n
  {
  }

  // ---------------------------------------------------------------- space

  /** `h_avail`: what is free, so that nothing of the heap is unaccounted for. */
  method HAvail(h: Heap) returns (freeBytes: nat)
    requires h.Valid()
    ensures freeBytes == SLOT_BYTES * CountFree(h.Bitmap())
    ensures h.usedBytes + freeBytes + HEADER_BYTES * |h.table| == h.size
  {
    ghost var bits := h.Bitmap();
    freeBytes := 0;
    var offset := 0;
    ghost var k := 0;
    while offset < h.size
      invariant offset == SLOT_BYTES * k && k <= |bits|
      invariant freeBytes == SLOT_BYTES * CountFree(bits[..k])
    {
      ReadBit(h.allocMap[..], h.Slots(), offset);
      assert bits[..k + 1][..k] == bits[..k];
      if !IsOffsetAllocated(h.allocMap[..], offset) {
        freeBytes := freeBytes + HEAP_ALIGNMENT;
      }
      offset := offset + HEAP_ALIGNMENT;
      k := k + 1;
    }
    assert bits[..k] == bits;
    SizeInSlots(h.size);
    SpaceConserved(h.table, bits);
  }

  // ---------------------------------------------------------------- the bump allocation

  /** Writes header and zeroes over `n` slots. */
  method WriteObject(h: Heap, header: Word, allocSize: nat, ghost s: nat, ghost n: nat)
    requires h.Shape() && h.nextEmpty == SLOT_BYTES * s && allocSize + HEADER_BYTES == SLOT_BYTES * n
    requires s + n <= h.Slots()
    modifies h.memory
    ensures h.memory[..] == WithObject(old(h.memory[..]), s, header, n)
  {
    SizeInSlots(h.size);
    var start := h.nextEmpty / 8;
    assert start == 2 * s && allocSize / 8 == 2 * n - 1;
    h.memory[start] := header;
    forall k | 0 <= k < allocSize / 8 {
      h.memory[start + 1 + k] := 0;
    }
  }

  /** Puts an object at the bump pointer, where it fits. */
  method PlaceObject(h: Heap, header: Word, allocSize: nat, ghost s: nat, ghost n: nat) returns (address: nat)
    requires h.Shape() && h.nextEmpty == SLOT_BYTES * s && allocSize + HEADER_BYTES == SLOT_BYTES * n
    requires Fits(h.Bitmap(), s, n)
    modifies h, h.memory, h.allocMap
    ensures address == Address(h.heapStart, s)
    ensures StateOf(h) == HeapState(ImagePlaced(old(h.Snapshot()), s, header, n), SetRange(old(h.Bitmap()), s, n),
                                    SLOT_BYTES * (s + n), old(h.usedBytes) + SLOT_BYTES * n - HEADER_BYTES)
  {
    hide ObjOf, Fits, WithObject, SetRange;
    ghost var image, bits := h.Snapshot(), h.Bitmap();
    FitsInside(bits, s, n);
    WriteObject(h, header, allocSize, s, n);
    h.nextEmpty := h.nextEmpty + HEADER_BYTES;
    MarkAllocated(h, h.nextEmpty - HEADER_BYTES, allocSize + HEADER_BYTES, s, n);
    address := h.heapStart + h.nextEmpty;
    h.usedBytes := h.usedBytes + allocSize;
    h.nextEmpty := h.nextEmpty + allocSize;
    h.table := h.table[s := ObjOf(header)];
    assert h.Snapshot() == ImagePlaced(image, s, header, n);
  }

  lemma FitsInside(bits: seq<bool>, s: nat, n: nat)
    requires Fits(bits, s, n)
    ensures s + n <= |bits|
  {
  }

  // ---------------------------------------------------------------- collecting first

  /** The ratio reaches the threshold exactly when the bytes reach that part of the heap. */
  lemma RatioReached(bytes: real, size: nat, threshold: real)
    requires size > 0
    ensures bytes / size as real >= threshold <==> bytes >= threshold * size as real
  {
    var ratio := bytes / size as real;
    assert bytes == ratio * size as real;
    if ratio >= threshold {
      assert ratio * size as real >= threshold * size as real;
    } else {
      assert ratio * size as real < threshold * size as real;
    }
  }

  /** More used bytes, or a larger request, never keep a collection from being due. */
  lemma DueStaysDue(used: int, request: nat, used': int, request': nat, size: nat, threshold: real)
    requires used <= used' && request <= request'
    requires (used + request) as real >= threshold * size as real
    ensures (used' + request') as real >= threshold * size as real
  {
  }

  /** What is there to allocate from: the heap as it was, or what a collection has left of it. */
  ghost predicate MaybeCollected(before: HeapState, mid: HeapState, roots: set<nat>, collects: bool) {
    if collects then exists live, moved :: CollectedTo(before, mid, roots, live, moved) else mid == before
  }

  /** Collects if the new object would bring the heap to the threshold. */
  method TriggerGcOnThresholdReached(h: Heap, newAllocSize: nat, roots: PtrQueue, foreign: nat -> Word)
    requires h.Valid() && roots.Valid() && OnlyObjects(h.Snapshot(), roots.elems)
    requires SafeFields(h.Snapshot(), Queued(h.Snapshot(), roots.elems), foreign)
    modifies h, h.memory, h.allocMap
    ensures h.Valid()
    ensures (old(h.usedBytes) + newAllocSize) as real >= h.gcThreshold * h.size as real ==>
              exists live, moved ::
                CollectedTo(old(StateOf(h)), StateOf(h), Queued(old(h.Snapshot()), roots.elems), live, moved)
    ensures (old(h.usedBytes) + newAllocSize) as real < h.gcThreshold * h.size as real ==>
              StateOf(h) == old(StateOf(h))
  {
    hide Image.Ok, Image.FieldsOk, MapExact, PayloadSum, Collected, BitsLeft, SafeFields, OnlyObjects, NewTable;
    hide BumpLeft, HeapState.Good, MovesDistinct;
    ghost var before, rootSet := StateOf(h), Queued(h.Snapshot(), roots.elems);
    ValidIsGood(h);
    var sizeAfterAlloc := h.usedBytes + newAllocSize;
    RatioReached(sizeAfterAlloc as real, h.size, h.gcThreshold);
    if sizeAfterAlloc as real / h.size as real >= h.gcThreshold {
      var collected;
      ghost var live, moved;
      collected, live, moved := Gc(h, roots, foreign);
      ValidIsGood(h);
      assert CollectedTo(before, StateOf(h), rootSet, live, moved);
    }
  }

  /** No place for `n` slots, with one to spare, from the bump pointer on. */
  ghost predicate NoSpace(mid: HeapState, after: HeapState, n: nat) {
    SearchFailed(mid, after, n) && NoFit(mid.bits, mid.bump / SLOT_BYTES, n + 1, |mid.bits|)
  }

  /** The outcome of looking for space for `n` slots: the place found, or proof that there is none. */
  ghost predicate SpaceSought(mid: HeapState, after: HeapState, n: nat, found: bool) {
    if found then
      BumpMoved(mid, after, n + 1) && FirstFit(mid.bits, mid.bump / SLOT_BYTES, n + 1, after.bump / SLOT_BYTES)
    else NoSpace(mid, after, n)
  }

  /** Looks for space for `n` slots, and half a slot to spare. Objects larger than a page are refused. */
  method MoveToValidSpaceIfAllocPossible(h: Heap, allocSize: nat, roots: PtrQueue, foreign: nat -> Word, ghost n: nat)
    returns (found: bool, ghost mid: HeapState)
    requires allocSize == SLOT_BYTES * n
    requires h.Valid() && roots.Valid() && OnlyObjects(h.Snapshot(), roots.elems)
    requires SafeFields(h.Snapshot(), Queued(h.Snapshot(), roots.elems), foreign)
    modifies h, h.memory, h.allocMap
    ensures h.Valid()
    ensures allocSize + HEADER_BYTES > PAGE_SIZE ==> !found && StateOf(h) == old(StateOf(h))
    ensures allocSize + HEADER_BYTES <= PAGE_SIZE ==>
              && MaybeCollected(old(StateOf(h)), mid, Queued(old(h.Snapshot()), roots.elems),
                                (old(h.usedBytes) + allocSize + HEADER_BYTES) as real >= h.gcThreshold * h.size as real)
              && SpaceSought(mid, StateOf(h), n, found)
  {
    hide Image.Ok, Image.FieldsOk, MapExact, PayloadSum, CollectedTo, SafeFields, OnlyObjects, FirstFit, NoFit;
    var allocSizeWithMetadata := allocSize + HEADER_BYTES;
    mid := StateOf(h);
    if allocSizeWithMetadata > PAGE_SIZE {
      return false, mid;
    }
    TriggerGcOnThresholdReached(h, allocSizeWithMetadata, roots, foreign);
    mid := StateOf(h);
    ValidIsGood(h);
    assert SlotsTouched(allocSizeWithMetadata) == n + 1;
    found := MoveToNextAvailableSpace(h, allocSizeWithMetadata);
    ValidIsGood(h);
  }

  // ---------------------------------------------------------------- the allocation functions

  /**
   The outcome of an allocation of `n` slots with `header`: refused, or the heap, collected first
   when memory is short, has the new object at the first place found, or has no place for it.
   */
  ghost predicate Outcome(before: HeapState, mid: HeapState, after: HeapState, roots: set<nat>, header: Word, n: nat,
                          collects: bool, address: nat, s: nat) {
    if SLOT_BYTES * n + HEADER_BYTES > PAGE_SIZE then address == 0 && after == before
    else
      && MaybeCollected(before, mid, roots, collects)
      && if address != 0 then address == Address(before.image.base, s) && PlacedIn(mid, after, header, s, n)
         else NoSpace(mid, after, n)
  }

  lemma PlacedOutcome(mid: HeapState, sought: HeapState, after: HeapState, header: Word, s: nat, n: nat)
    requires HeaderType(header) == HEADER_BIT_VECTOR
    requires SpaceSought(mid, sought, n, true) && sought.bump == SLOT_BYTES * s
    requires after == HeapState(ImagePlaced(sought.image, s, header, n), SetRange(sought.bits, s, n),
                                SLOT_BYTES * (s + n), sought.used + SLOT_BYTES * n - HEADER_BYTES)
    ensures PlacedIn(mid, after, header, s, n)
  {
    hide ObjOf, FirstFit, SetRange, ImagePlaced;
    assert sought.bump / SLOT_BYTES == s;
  }

  /** After an allocation the heap is well formed, unless an object was placed whose header tells another extent. */
  lemma OutcomeGood(before: HeapState, mid: HeapState, after: HeapState, roots: set<nat>, header: Word, n: nat,
                    collects: bool, address: nat, s: nat)
    requires before.Good() && Outcome(before, mid, after, roots, header, n, collects, address, s) && n > 0
    ensures after.Good() <==> address == 0 || ObjOf(header).slots == n
  {
    hide HeapState.Good, CollectedTo, PlacedIn, NoFit, SearchFailed, ObjOf;
    if SLOT_BYTES * n + HEADER_BYTES <= PAGE_SIZE {
      if collects {
        var live, moved :| CollectedTo(before, mid, roots, live, moved);
        CollectionGood(before, mid, roots, live, moved);
      }
      if address != 0 {
        PlacementGood(mid, after, header, s, n);
      } else {
        SearchFailedGood(mid, after, n);
      }
    }
  }

  lemma SoughtFits(mid: HeapState, sought: HeapState, n: nat) returns (s: nat)
    requires SpaceSought(mid, sought, n, true)
    ensures sought.bump == SLOT_BYTES * s && Fits(sought.bits, s, n)
  {
    s := sought.bump / SLOT_BYTES;
    FitsLess(mid.bits, s, n);
  }

  /** Allocation with a finished header: space, header, zeroes, map bits, counters. */
  method AllocateWithHeader(h: Heap, header: Word, allocSize: nat, roots: PtrQueue, foreign: nat -> Word, ghost n: nat)
    returns (address: nat, ghost mid: HeapState, ghost s: nat)
    requires HeaderType(header) == HEADER_BIT_VECTOR && allocSize + HEADER_BYTES == SLOT_BYTES * n
    requires h.Valid() && roots.Valid() && OnlyObjects(h.Snapshot(), roots.elems)
    requires SafeFields(h.Snapshot(), Queued(h.Snapshot(), roots.elems), foreign)
    modifies h, h.memory, h.allocMap
    ensures h.Valid() <==> address == 0 || ObjOf(header).slots == n
    ensures Outcome(old(StateOf(h)), mid, StateOf(h), Queued(old(h.Snapshot()), roots.elems), header, n,
                    (old(h.usedBytes) + allocSize + SLOT_BYTES) as real >= h.gcThreshold * h.size as real, address, s)
  {
    hide Image.Ok, Image.FieldsOk, MapExact, PayloadSum, CollectedTo, SafeFields, OnlyObjects, FirstFit, NoFit;
    hide MaybeCollected, HeapState.Good;
    hide SpaceSought, Fits, PlacedIn, ObjOf, ImagePlaced, SetRange;
    ghost var before, rootSet := StateOf(h), Queued(h.Snapshot(), roots.elems);
    ghost var collects := (h.usedBytes + allocSize + SLOT_BYTES) as real >= h.gcThreshold * h.size as real;
    ValidIsGood(h);
    var isAllocPossible;
    isAllocPossible, mid := MoveToValidSpaceIfAllocPossible(h, allocSize + HEADER_BYTES, roots, foreign, n);
    address, s := 0, 0;
    if isAllocPossible {
      ghost var sought := StateOf(h);
      s := SoughtFits(mid, sought, n);
      address := PlaceObject(h, header, allocSize, s, n);
      PlacedOutcome(mid, sought, StateOf(h), header, s, n);
    } else {
      NotFound(mid, StateOf(h), n, allocSize + HEADER_BYTES);
    }
    ValidIsGood(h);
    OutcomeGood(before, mid, StateOf(h), rootSet, header, n, collects, address, s);
  }

  lemma NotFound(mid: HeapState, after: HeapState, n: nat, allocSize: nat)
    requires allocSize + HEADER_BYTES <= PAGE_SIZE ==> SpaceSought(mid, after, n, false)
    ensures allocSize + HEADER_BYTES <= PAGE_SIZE ==> NoSpace(mid, after, n)
  {
  }

  /** Raw memory: pointer-free, zeroed, at least the size asked for unless adding the header wraps around. */
  method AllocRaw(h: Heap, bytes: Word, roots: PtrQueue, foreign: nat -> Word)
    returns (address: nat, ghost mid: HeapState, ghost s: nat, ghost header: Word)
    requires h.Valid() && roots.Valid() && OnlyObjects(h.Snapshot(), roots.elems)
    requires SafeFields(h.Snapshot(), Queued(h.Snapshot(), roots.elems), foreign)
    modifies h, h.memory, h.allocMap
    ensures h.Valid()
    ensures AlignAllocSize(bytes) >= 0x1000_0000_0000_0000 ==> address == 0 && StateOf(h) == old(StateOf(h))
    ensures AlignAllocSize(bytes) < 0x1000_0000_0000_0000 ==>
              && ExtentRecovered(header, bytes) && HeaderPointers(header) == []
              && Outcome(old(StateOf(h)), mid, StateOf(h), Queued(old(h.Snapshot()), roots.elems), header,
                         ObjOf(header).slots,
                         (old(h.usedBytes) + AlignAllocSize(bytes) + SLOT_BYTES) as real >=
                           h.gcThreshold * h.size as real,
                         address, s)
  {
    hide Image.Ok, Image.FieldsOk, MapExact, PayloadSum, SafeFields, OnlyObjects, Outcome, ObjOf, AlignAllocSize;
    var allocSize := AlignAllocSize(bytes);
    var success, newHeader := CreateHeaderRaw(allocSize);
    header, mid, s := newHeader, StateOf(h), 0;
    if !success {
      return 0, mid, s, header;
    }
    AlignedExtentRecovered(bytes, newHeader);
    address, mid, s := AllocateWithHeader(h, newHeader, allocSize, roots, foreign, ObjOf(newHeader).slots);
  }

  /** Formats whose struct, when it can be sized at all, gets a bit-vector header. */
  ghost predicate HasVector(format: string)
    requires ValidFormat(format)
  {
    SizeFits(format) ==>
      var size: Word := StructSize(MachineFields(format, 0).value);
      StructHeader(format, AlignAllocSize(size)).Some?
  }

  /**
   A struct. `layout` is the address of the format string. Formats whose header would have to point at
   a copy of the string are excluded. A header with the wrong extent is not: then the heap is no longer
   well formed. For one aligned size, adding the header wraps around to 0. The search then looks for
   next to nothing, and if it succeeds the object runs past the heap: `overruns`.
   */
  method AllocStruct(h: Heap, format: string, layout: Word, roots: PtrQueue, foreign: nat -> Word)
    returns (address: nat, overruns: bool, ghost mid: HeapState, ghost s: nat, ghost header: Word)
    requires ValidFormat(format) && HasVector(format)
    requires h.Valid() && roots.Valid() && OnlyObjects(h.Snapshot(), roots.elems)
    requires SafeFields(h.Snapshot(), Queued(h.Snapshot(), roots.elems), foreign)
    modifies h, h.memory, h.allocMap
    ensures !SizeFits(format) ==> address == 0 && !overruns && h.Valid() && StateOf(h) == old(StateOf(h))
    ensures SizeFits(format) ==>
              var size: Word := StructSize(MachineFields(format, 0).value);
              StructHeader(format, AlignAllocSize(size)) == Some(header)
    ensures SizeFits(format) ==>
              var size: Word := StructSize(MachineFields(format, 0).value);
              AlignAllocSize(size) + HEADER_BYTES < WORD_MODULUS ==>
                && !overruns && (h.Valid() <==> address == 0 || ExtentRecovered(header, size))
                && Outcome(old(StateOf(h)), mid, StateOf(h), Queued(old(h.Snapshot()), roots.elems), header,
                           Reserved(size),
                           (old(h.usedBytes) + AlignAllocSize(size) + SLOT_BYTES) as real >=
                             h.gcThreshold * h.size as real,
                           address, s)
    ensures SizeFits(format) ==>
              var size: Word := StructSize(MachineFields(format, 0).value);
              AlignAllocSize(size) + HEADER_BYTES >= WORD_MODULUS ==>
                && address == 0 && h.Valid()
                && MaybeCollected(old(StateOf(h)), mid, Queued(old(h.Snapshot()), roots.elems),
                                  (old(h.usedBytes) + HEADER_BYTES) as real >= h.gcThreshold * h.size as real)
                && SpaceSought(mid, StateOf(h), 0, overruns)
  {
    hide Image.Ok, Image.FieldsOk, MapExact, PayloadSum, SafeFields, OnlyObjects, Outcome, ObjOf, AlignAllocSize;
    hide StructHeader, ExtentRecovered, Reserved, MaybeCollected, SpaceSought;
    var success, size := SizeFromString(format);
    overruns, header, mid, s := false, 0, StateOf(h), 0;
    if !success {
      return 0, overruns, mid, s, header;
    }
    var allocSize := AlignAllocSize(size);
    var newHeader := CreateHeaderStruct(format, layout, allocSize);
    header := newHeader;
    ReservedSlots(size);
    if allocSize + HEADER_BYTES >= WORD_MODULUS {
      HeaderSumWraps(size);
      overruns, mid := MoveToValidSpaceIfAllocPossible(h, ToWord(allocSize + HEADER_BYTES), roots, foreign, 0);
      return 0, overruns, mid, s, header;
    }
    RecoveredExactly(header, size);
    address, mid, s := AllocateWithHeader(h, newHeader, allocSize, roots, foreign, Reserved(size));
  }

  lemma HeaderSumWraps(size: Word)
    requires AlignAllocSize(size) + HEADER_BYTES >= WORD_MODULUS
    ensures ToWord(AlignAllocSize(size) + HEADER_BYTES) == 0
  {
    hide AlignAllocSize, ToWord;
    AlignCoversRequest(size);
    WrapsToZero(AlignAllocSize(size) + HEADER_BYTES);
  }

  lemma WrapsToZero(sum: nat)
    requires WORD_MODULUS <= sum < WORD_MODULUS + HEADER_BYTES && sum % SLOT_BYTES == 0
    ensures ToWord(sum) == 0
  {
  }

  // ---------------------------------------------------------------- what an outcome means

  /**
   A successful allocation returns a place that no object had; the payload is zero, every word of
   every other object is what it was, and the new object is the only new entry of the table.
   */
  lemma NewObjectFresh(mid: HeapState, after: HeapState, header: Word, s: nat, n: nat)
    requires mid.Good() && PlacedIn(mid, after, header, s, n) && n > 0
    ensures s !in mid.image.table && after.image.table == mid.image.table[s := ObjOf(header)]
    ensures forall i :: 1 <= i < 2 * n ==> WordIs(after.image, s, i, 0)
    ensures forall t, i :: t in mid.image.table && 0 <= i < 2 * mid.image.table[t].slots ==>
              WordKept(mid.image, after.image, t, i)
  {
    hide Image.Ok, Image.FieldsOk, MapExact, PayloadSum, ObjOf, TableOk, NoFit;
    GoodTable(mid);
    FitsLess(mid.bits, s, n);
    NotThere(mid.image.table, mid.bits, s, n);
    forall t, i | t in mid.image.table && 0 <= i < 2 * mid.image.table[t].slots
      ensures WordKept(mid.image, after.image, t, i)
    {
      OtherWords(mid.image, mid.bits, s, header, n, t, i);
    }
  }

  lemma GoodTable(state: HeapState)
    requires state.Good()
    ensures |state.image.mem| == 2 * |state.bits| && TableOk(state.image.table, |state.bits|)
  {
  }

  ghost predicate WordIs(image: Image, s: nat, i: nat, value: Word) {
    2 * s + i < |image.mem| && image.mem[2 * s + i] == value
  }

  ghost predicate WordKept(before: Image, after: Image, t: nat, i: nat) {
    2 * t + i < |before.mem| && WordIs(after, t, i, before.mem[2 * t + i])
  }

  /** Every outcome is a run of at most two steps, if the header tells the slots reserved. */
  lemma OutcomeIsRun(before: HeapState, mid: HeapState, after: HeapState, roots: set<nat>, header: Word, n: nat,
                     collects: bool, address: nat, s: nat)
    requires Outcome(before, mid, after, roots, header, n, collects, address, s) && ObjOf(header).slots == n
    ensures after == before || HeapStep(before, after) || (HeapStep(before, mid) && HeapStep(mid, after))
  {
    hide CollectedTo, PlacedIn, SearchFailed, NoFit, ObjOf;
    if SLOT_BYTES * n + HEADER_BYTES <= PAGE_SIZE {
      assert address != 0 ==> AllocatedAt(mid, after, header, s);
      assert HeapStep(mid, after);
      if collects {
        assert HeapStep(before, mid);
      }
    }
  }

  /** A page has 128 slots, and an object gets 127 of them at most: larger ones are refused, and nothing happens. */
  lemma LargestObject(before: HeapState, mid: HeapState, after: HeapState, roots: set<nat>, header: Word, n: nat,
                      collects: bool, address: nat, s: nat)
    requires Outcome(before, mid, after, roots, header, n, collects, address, s)
    ensures n >= 128 ==> address == 0 && after == before
    ensures n <= 127 && address == 0 ==> NoSpace(mid, after, n)
  {
    hide NoSpace, PlacedIn, CollectedTo;
  }

  /**
   When a collection comes first and all that is reachable are roots, the search covers the whole heap:
   an allocation that is not too large for a page succeeds exactly when some place is free, with a slot
   to spare.
   */
  lemma AllocatesFromStart(before: HeapState, mid: HeapState, after: HeapState, roots: set<nat>, header: Word, n: nat,
                           address: nat, s: nat)
    requires Outcome(before, mid, after, roots, header, n, true, address, s)
    requires SLOT_BYTES * n + HEADER_BYTES <= PAGE_SIZE && before.image.Reachable(roots, roots)
    ensures mid.bump == 0
    ensures address != 0 <==> SomePlace(mid.bits, n + 1)
  {
    hide PlacedIn, SearchFailed, Fits, Collected;
    var live, moved :| CollectedTo(before, mid, roots, live, moved);
    OnlyRootsLive(before.image, roots, live, moved, mid.image.mem);
    if address != 0 {
      PlacedFits(mid, after, header, s, n);
    } else {
      NoFitAnywhere(mid.bits, n + 1);
    }
  }

  ghost predicate SomePlace(bits: seq<bool>, n: nat) {
    exists e :: Fits(bits, e, n)
  }

  lemma OnlyRootsLive(image: Image, roots: set<nat>, live: Table, moved: Moves, after: seq<Word>)
    requires Collected(image, roots, live, moved, after) && image.Reachable(roots, roots)
    ensures live.Keys == roots
  {
    ReachableUnique(image, roots, live.Keys, roots);
  }

  lemma PlacedFits(mid: HeapState, after: HeapState, header: Word, s: nat, n: nat)
    requires PlacedIn(mid, after, header, s, n)
    ensures Fits(mid.bits, s, n + 1)
  {
  }

  lemma NoFitAnywhere(bits: seq<bool>, n: nat)
    requires n > 0 && NoFit(bits, 0, n, |bits|)
    ensures !SomePlace(bits, n)
  {
    assert forall e: nat :: Fits(bits, e, n) ==> e < |bits|;
  }

  /**
   Below the threshold, which looks at used bytes only, an allocation is refused when a search for as
   many slots or fewer has failed since the last collection.
   */
  lemma RefusedUntilCollected(before: HeapState, states: seq<HeapState>, n: nat, mid: HeapState, after: HeapState,
                              roots: set<nat>, header: Word, m: nat, address: nat, s: nat)
    requires IsPlainRun(states) && SearchFailed(before, states[0], n) && n <= m
    requires Outcome(states[|states| - 1], mid, after, roots, header, m, false, address, s)
    ensures address == 0
  {
    hide IsPlainRun, PlacedIn, SearchFailed, NoFit;
    FullUntilCollected(before, states, n, m);
  }
}

/** The compaction phase: live objects slide down, roots stay, old headers become forwarding headers. */
module Compacting {
  import opened Words
  import opened Header
  import opened VectorReader
  import opened HeapModel
  import opened Compaction
  import opened Graph
  import opened AllocationMap
  import opened PtrQueues
  import opened Heaps
  import opened Allocation
  import opened Marking

  // ---------------------------------------------------------------- one object

  lemma SlotMultiple(k: nat)
    ensures (SLOT_BYTES * k) % SLOT_BYTES == 0 && (SLOT_BYTES * k) / SLOT_BYTES == k
  {
  }

  /** Payload bytes of an object, from its header. */
  method CalcAllocSize(h: Heap, alloc: nat, ghost s: nat) returns (size: Word)
    requires h.Shape() && alloc == Address(h.heapStart, s) && 2 * s < h.memory.Length
    requires HeaderType(h.memory[2 * s]) == HEADER_BIT_VECTOR
    ensures size == HeaderSize(h.memory[2 * s])
  {
    WordIndex(h.heapStart, 2 * s, alloc - HEADER_BYTES);
    var header := ReadWord(h, alloc - HEADER_BYTES);
    size := SizeFromVector(header / 4);
  }

  /** Bytes an object takes, its header included: a whole number of slots. */
  method AlignedExtent(h: Heap, alloc: nat, ghost s: nat) returns (allocSize: nat)
    requires h.Shape() && alloc == Address(h.heapStart, s) && 2 * s < h.memory.Length
    requires HeaderType(h.memory[2 * s]) == HEADER_BIT_VECTOR
    ensures allocSize == SLOT_BYTES * ObjOf(h.memory[2 * s]).slots
  {
    AlignedSlots(h.memory[2 * s]);
    var size := CalcAllocSize(h, alloc, s);
    allocSize := AlignAllocSize(size);
    allocSize := allocSize + HEADER_BYTES;
  }

  /** Marks the slots of `bytes` bytes as allocated. */
  method MarkAllocated(h: Heap, offset: nat, bytes: nat, ghost d: nat, ghost n: nat)
    requires h.Shape() && offset == SLOT_BYTES * d && bytes == SLOT_BYTES * n
    requires d + n <= h.Slots()
    modifies h.allocMap
    ensures h.Bitmap() == SetRange(old(h.Bitmap()), d, n)
  {
    ghost var before := h.Bitmap();
    var i := 0;
    ghost var k := 0;
    assert SetRange(before, d, 0) == before;
    while i < bytes
      invariant i == SLOT_BYTES * k && k <= n
      invariant h.Bitmap() == SetRange(before, d, k)
    {
      UpdateAllocMap(h.allocMap, offset + i, true, h.Slots());
      assert (offset + i) / 16 == d + k;
      assert SetRange(before, d, k)[d + k := true] == SetRange(before, d, k + 1);
      i := i + MIN_ALLOC_OBJECT_SIZE;
      k := k + 1;
    }
  }

  /** Where the object goes: the first place that fits it, or its origin when that place reaches into it. */
  method ChooseDestination(h: Heap, origin: nat, allocSize: nat, ghost s: nat, ghost n: nat, ghost b: nat)
    returns (dest: nat, ghost first: nat, ghost d: nat)
    requires h.Shape() && h.nextEmpty == SLOT_BYTES * b
    requires origin == SLOT_BYTES * s && allocSize == SLOT_BYTES * n && n > 0
    requires b <= s && Fits(h.Bitmap(), s, n)
    modifies h`nextEmpty
    ensures FirstFit(h.Bitmap(), b, n, first) && first <= s
    ensures first + n <= s ==> dest == SLOT_BYTES * first
    ensures first + n > s ==> dest == origin
    ensures dest == SLOT_BYTES * d == h.nextEmpty && GoesTo(s, n, first, d)
  {
    SlotMultiple(b);
    var spaceFound := MoveToNextAvailableSpace(h, allocSize);
    assert SlotsTouched(allocSize) == n;
    if !spaceFound {
      // where the program aborts: the object's own place is always free
      assert false;
    }
    dest := h.nextEmpty;
    first := dest / SLOT_BYTES;
    assert first <= s;
    if origin - dest < allocSize {
      dest := origin;
      h.nextEmpty := origin;
    }
    d := dest / SLOT_BYTES;
  }

  /** Copies the object and overwrites its old header with the address of the copy. */
  method MoveObject(h: Heap, origin: nat, dest: nat, allocSize: nat, ghost s: nat, ghost d: nat, ghost n: nat)
    requires h.Shape() && n > 0
    requires origin == SLOT_BYTES * s && dest == SLOT_BYTES * d && allocSize == SLOT_BYTES * n
    requires d + n <= s && s + n <= h.Slots()
    modifies h.memory
    ensures 2 * (s + n) <= old(|h.memory[..]|)
    ensures h.memory[..] == Relocate(h.heapStart, old(h.memory[..]), s, d, n)
  {
    SizeInSlots(h.size);
    var from, to, words := origin / 8, dest / 8, allocSize / 8;
    assert from == 2 * s && to == 2 * d && words == 2 * n;
    forall k | 0 <= k < words {
      h.memory[to + k] := h.memory[from + k];
    }
    var newAlloc: Word := h.heapStart + dest + HEADER_BYTES;
    assert newAlloc == Address(h.heapStart, d);
    h.memory[from] := SetHeaderType(newAlloc, HEADER_FORWARDING_ADDRESS);
  }

  /**
   Places one live object that is not pinned. Objects with a format string are not modelled, so
   the header is always a bit vector.
   */
  method CompactPtr(h: Heap, alloc: nat, ghost s: nat, ghost n: nat, ghost b: nat)
    returns (moved: bool, ghost first: nat, ghost d: nat)
    requires h.Shape() && alloc == Address(h.heapStart, s) && 2 * s < h.memory.Length
    requires HeaderType(h.memory[2 * s]) == HEADER_BIT_VECTOR && n == ObjOf(h.memory[2 * s]).slots && n > 0
    requires h.nextEmpty == SLOT_BYTES * b && b <= s && Fits(h.Bitmap(), s, n)
    modifies h`nextEmpty, h`usedBytes, h.memory, h.allocMap
    ensures FirstFit(old(h.Bitmap()), b, n, first) && first <= s
    ensures first + n <= s ==> moved && h.nextEmpty == SLOT_BYTES * (first + n)
    ensures first + n > s ==> !moved && h.nextEmpty == SLOT_BYTES * (s + n)
    ensures GoesTo(s, n, first, d) && (moved <==> d != s)
    ensures && h.Bitmap() == BitsAfter(old(h.Bitmap()), s, d, n)
            && 2 * (s + n) <= old(|h.memory[..]|)
            && h.memory[..] == MemoryAfter(h.heapStart, old(h.memory[..]), s, d, n)
            && h.nextEmpty == SLOT_BYTES * (d + n)
            && h.usedBytes == old(h.usedBytes) + SLOT_BYTES * n - HEADER_BYTES
  {
    SizeInSlots(h.size);
    var allocSize := AlignedExtent(h, alloc, s);
    var origin := alloc - HEADER_BYTES - h.heapStart;
    var dest;
    dest, first, d := ChooseDestination(h, origin, allocSize, s, n, b);
    ghost var bits := h.Bitmap();
    MarkAllocated(h, dest, allocSize, d, n);
    if origin == dest {
      h.usedBytes := h.usedBytes + allocSize - HEADER_BYTES;
      h.nextEmpty := h.nextEmpty + allocSize;
      assert SetRange(bits, d, n) == BitsAfter(bits, s, d, n);
      return false, first, d;
    }
    UpdateAllocMap(h.allocMap, origin, true, h.Slots());
    assert SetRange(bits, d, n)[s := true] == BitsAfter(bits, s, d, n);
    MoveObject(h, origin, dest, allocSize, s, d, n);
    h.usedBytes := h.usedBytes + allocSize - HEADER_BYTES;
    h.nextEmpty := h.nextEmpty + allocSize;
    return true, first, d;
  }

  // ---------------------------------------------------------------- all objects

  lemma DistinctAt(image: Image, elems: seq<nat>, i: nat, s: nat)
    requires StrictlyAscending(elems) && i < |elems| && elems[i] == Address(image.base, s)
    ensures s !in Queued(image, elems[..i])
  {
  }

  /** The roots in `done` are shown as allocated and counted, and nothing else is. */
  ghost predicate ShowsPinned(live: Table, done: set<nat>, bits: seq<bool>, used: int) {
    && done <= live.Keys
    && BitsShow(live, Pinned(done), bits)
    && used == PayloadSum(Part(live, done))
  }

  lemma NothingPinned(live: Table, slots: nat)
    ensures ShowsPinned(live, {}, seq(slots, _ => false), 0)
  {
    assert Part(live, {}) == map[];
  }

  lemma PinStep(live: Table, done: set<nat>, s: nat, bits: seq<bool>, used: int)
    requires s in live && s !in done && live[s].slots > 0
    requires ShowsPinned(live, done, bits, used)
    ensures ShowsPinned(live, done + {s}, BitsAfter(bits, s, s, live[s].slots), used + PayloadBytes(live[s]))
  {
    var moved := Pinned(done);
    BitsAfterPlacing(live, moved, bits, s, s);
    PartAdd(live, moved, s, s);
    assert moved[s := s] == Pinned(done + {s});
  }

  /** The next root, and that it has not been dealt with. */
  lemma NextRoot(image: Image, elems: seq<nat>, i: nat) returns (s: nat)
    requires OnlyObjects(image, elems) && StrictlyAscending(elems) && i < |elems|
    ensures s in Queued(image, elems) && elems[i] == Address(image.base, s)
    ensures s !in Queued(image, elems[..i])
    ensures Queued(image, elems[..i + 1]) == Queued(image, elems[..i]) + {s}
  {
    s := RootAt(image, elems, i);
    DistinctAt(image, elems, i, s);
  }

  /** Shows the roots as allocated where they are. */
  method PinRoots(h: Heap, roots: PtrQueue, ghost image: Image, ghost live: Table)
    requires h.Shape() && image == h.Snapshot() && Describes(image.mem, live)
    requires roots.Valid() && OnlyObjects(image, roots.elems)
    requires Queued(image, roots.elems) <= live.Keys && TableOk(live, h.Slots())
    requires h.Bitmap() == seq(h.Slots(), _ => false) && h.usedBytes == 0
    modifies h.allocMap, h`usedBytes
    ensures ShowsPinned(live, Queued(image, roots.elems), h.Bitmap(), h.usedBytes)
  {
    var i := 0;
    ghost var done: set<nat> := {};
    NothingPinned(live, h.Slots());
    while i < |roots.elems|
      invariant 0 <= i <= |roots.elems|
      invariant done == Queued(image, roots.elems[..i])
      invariant ShowsPinned(live, done, h.Bitmap(), h.usedBytes)
    {
      var rootPtr := roots.Get(i);
      ghost var s := NextRoot(image, roots.elems, i);
      ghost var bits, used := h.Bitmap(), h.usedBytes;
      PinOne(h, rootPtr, s, live);
      PinStep(live, done, s, bits, used);
      done := done + {s};
      i := i + 1;
    }
    assert roots.elems[..i] == roots.elems;
  }

  /** Shows one root as allocated where it is. */
  method PinOne(h: Heap, rootPtr: nat, ghost s: nat, ghost live: Table)
    requires h.Shape() && s in live && rootPtr == Address(h.heapStart, s)
    requires Describes(h.memory[..], live) && TableOk(live, h.Slots())
    modifies h.allocMap, h`usedBytes
    ensures live[s].slots > 0
    ensures h.Bitmap() == BitsAfter(old(h.Bitmap()), s, s, live[s].slots)
    ensures h.usedBytes == old(h.usedBytes) + PayloadBytes(live[s])
  {
    assert DescribesAt(h.memory[..], s, live[s]) && InPlace(s, live[s], h.Slots());
    ghost var n, bits := live[s].slots, h.Bitmap();
    var objOffsetFromStart := rootPtr - h.heapStart - HEADER_BYTES;
    var allocSize := AlignedExtent(h, rootPtr, s);
    MarkAllocated(h, objOffsetFromStart, allocSize, s, n);
    assert SetRange(bits, s, n) == BitsAfter(bits, s, s, n);
    h.usedBytes := h.usedBytes + allocSize - HEADER_BYTES;
  }

  /** Linear search through the roots. */
  method IsRoot(roots: PtrQueue, ptr: nat) returns (isRootObj: bool)
    ensures isRootObj <==> ptr in roots.elems
  {
    isRootObj := false;
    for i := 0 to |roots.elems|
      invariant ptr !in roots.elems[..i]
    {
      var rootPtr := roots.Get(i);
      if rootPtr == ptr {
        return true;
      }
    }
  }

  /** The `i`th object of the queue is the next one, once those before it have been dealt with. */
  lemma NextInQueue(image: Image, elems: seq<nat>, i: nat, s: nat, roots: set<nat>, live: Table, moved: Moves)
    requires StrictlyAscending(elems) && i < |elems| && elems[i] == Address(image.base, s)
    requires live.Keys == Queued(image, elems) && s in live && s !in roots
    requires DealtWith(image, elems, i, roots, moved)
    ensures IsNext(live, moved, s)
  {
    DistinctAt(image, elems, i, s);
    assert forall q :: 0 <= q < i ==> elems[q] in elems[..i];
    forall u | u in live && u !in moved
      ensures s <= u
    {
      var k :| 0 <= k < |elems| && elems[k] == Address(image.base, u);
      assert Address(image.base, u) !in elems[..i];
    }
  }

  lemma CompactionLengths(base: nat, before: seq<Word>, live: Table, roots: set<nat>, moved: Moves,
                          mem: seq<Word>, bits: seq<bool>, b: nat, used: int)
    requires CompactionOk(base, before, live, roots, moved, mem, bits, b, used)
    ensures |mem| == |before| == 2 * |bits|
  {
  }

  lemma NextDescribed(before: seq<Word>, live: Table, moved: Moves, s: nat)
    requires Describes(before, live) && IsNext(live, moved, s)
    ensures s in live && s !in moved && 2 * s < |before|
    ensures HeaderType(before[2 * s]) == HEADER_BIT_VECTOR && ObjOf(before[2 * s]) == live[s]
  {
    assert DescribesAt(before, s, live[s]);
  }

  /** Deals with the next object of the queue. */
  method CompactNextObject(h: Heap, alloc: nat, ghost s: nat, ghost image: Image, ghost live: Table,
                           ghost roots: set<nat>, ghost moved: Moves, ghost b: nat)
    returns (ghost moved': Moves, ghost b': nat)
    requires h.Shape() && image.base == h.heapStart && alloc == Address(image.base, s)
    requires TableOk(live, h.Slots()) && Describes(image.mem, live)
    requires IsNext(live, moved, s) && s !in roots
    requires h.nextEmpty == SLOT_BYTES * b
    requires CompactionOk(image.base, image.mem, live, roots, moved, h.memory[..], h.Bitmap(), b, h.usedBytes)
    modifies h`nextEmpty, h`usedBytes, h.memory, h.allocMap
    ensures moved'.Keys == moved.Keys + {s}
    ensures h.nextEmpty == SLOT_BYTES * b'
    ensures CompactionOk(image.base, image.mem, live, roots, moved', h.memory[..], h.Bitmap(), b', h.usedBytes)
  {
    hide CompactionOk, TableOk, Describes, IsNext, Fits, FirstFit, BitsAfter, MemoryAfter, ObjOf, Holds, GoesTo;
    ghost var mem, bits, used := h.memory[..], h.Bitmap(), h.usedBytes;
    SizeInSlots(h.size);
    CompactionLengths(image.base, image.mem, live, roots, moved, mem, bits, b, used);
    NextDescribed(image.mem, live, moved, s);
    NextReady(image.base, image.mem, live, roots, moved, mem, bits, b, used, s);
    ghost var n := live[s].slots;
    var isMoved;
    ghost var first, d;
    isMoved, first, d := CompactPtr(h, alloc, s, n, b);
    CompactNext(image.base, image.mem, live, roots, moved, mem, bits, b, used, s, first, d);
    moved', b' := moved[s := d], d + n;
  }

  /** The roots and the first `i` objects of the queue have been dealt with. */
  ghost predicate DealtWith(image: Image, elems: seq<nat>, i: nat, roots: set<nat>, moved: Moves)
    requires i <= |elems|
  {
    moved.Keys == roots + Queued(image, elems[..i])
  }

  lemma DealtNext(image: Image, elems: seq<nat>, i: nat, s: nat, roots: set<nat>, before: Moves, after: Moves)
    requires i < |elems| && DealtWith(image, elems, i, roots, before)
    requires Queued(image, elems[..i + 1]) == Queued(image, elems[..i]) + {s}
    requires after.Keys == before.Keys + {s} || (s in roots && after == before)
    ensures DealtWith(image, elems, i + 1, roots, after)
  {
  }

  lemma QueueStep(image: Image, elems: seq<nat>, i: nat, rootElems: seq<nat>, live: Table, moved: Moves)
    returns (s: nat)
    requires StrictlyAscending(elems) && OnlyObjects(image, elems) && live.Keys == Queued(image, elems)
    requires i < |elems| && DealtWith(image, elems, i, Queued(image, rootElems), moved)
    ensures elems[i] == Address(image.base, s) && s in live
    ensures Queued(image, elems[..i + 1]) == Queued(image, elems[..i]) + {s}
    ensures s in Queued(image, rootElems) <==> elems[i] in rootElems
    ensures s !in Queued(image, rootElems) ==> IsNext(live, moved, s)
  {
    s := NextRoot(image, elems, i);
    if s !in Queued(image, rootElems) {
      NextInQueue(image, elems, i, s, Queued(image, rootElems), live, moved);
    }
  }

  /** One entry of the queue: roots are skipped. */
  method CompactEntry(h: Heap, roots: PtrQueue, queue: PtrQueue, i: nat, ghost image: Image, ghost live: Table,
                      ghost rootSet: set<nat>, ghost moved: Moves, ghost b: nat)
    returns (ghost moved': Moves, ghost b': nat)
    requires h.Shape() && image.base == h.heapStart
    requires TableOk(live, h.Slots()) && Describes(image.mem, live)
    requires queue.Valid() && OnlyObjects(image, queue.elems) && live.Keys == Queued(image, queue.elems)
    requires rootSet == Queued(image, roots.elems)
    requires i < |queue.elems| && DealtWith(image, queue.elems, i, rootSet, moved)
    requires h.nextEmpty == SLOT_BYTES * b
    requires CompactionOk(image.base, image.mem, live, rootSet, moved, h.memory[..], h.Bitmap(), b, h.usedBytes)
    modifies h`nextEmpty, h`usedBytes, h.memory, h.allocMap
    ensures DealtWith(image, queue.elems, i + 1, rootSet, moved')
    ensures h.nextEmpty == SLOT_BYTES * b'
    ensures CompactionOk(image.base, image.mem, live, rootSet, moved', h.memory[..], h.Bitmap(), b', h.usedBytes)
  {
    ghost var s := QueueStep(image, queue.elems, i, roots.elems, live, moved);
    var internalPointer := queue.Get(i);
    var isRootObj := IsRoot(roots, internalPointer);
    moved', b' := moved, b;
    if !isRootObj {
      moved', b' := CompactNextObject(h, internalPointer, s, image, live, rootSet, moved, b);
    }
    DealtNext(image, queue.elems, i, s, rootSet, moved, moved');
  }

  /** Slides every live object that is not a root. */
  method CompactQueue(h: Heap, roots: PtrQueue, queue: PtrQueue, ghost image: Image, ghost live: Table,
                      ghost rootSet: set<nat>)
    returns (ghost moved: Moves, ghost b: nat)
    requires h.Shape() && image.base == h.heapStart
    requires TableOk(live, h.Slots()) && Describes(image.mem, live)
    requires queue.Valid() && OnlyObjects(image, queue.elems) && live.Keys == Queued(image, queue.elems)
    requires rootSet == Queued(image, roots.elems) && rootSet <= live.Keys
    requires h.nextEmpty == 0
    requires CompactionOk(image.base, image.mem, live, rootSet, Pinned(rootSet), h.memory[..], h.Bitmap(), 0,
                          h.usedBytes)
    modifies h`nextEmpty, h`usedBytes, h.memory, h.allocMap
    ensures moved.Keys == live.Keys
    ensures h.nextEmpty == SLOT_BYTES * b
    ensures CompactionOk(image.base, image.mem, live, rootSet, moved, h.memory[..], h.Bitmap(), b, h.usedBytes)
  {
    hide CompactionOk, TableOk, Describes;
    moved, b := Pinned(rootSet), 0;
    var i := 0;
    while i < |queue.elems|
      invariant 0 <= i <= |queue.elems|
      invariant DealtWith(image, queue.elems, i, rootSet, moved)
      invariant h.nextEmpty == SLOT_BYTES * b
      invariant CompactionOk(image.base, image.mem, live, rootSet, moved, h.memory[..], h.Bitmap(), b, h.usedBytes)
    {
      moved, b := CompactEntry(h, roots, queue, i, image, live, rootSet, moved, b);
      i := i + 1;
    }
    assert queue.elems[..i] == queue.elems;
  }

  /** Compaction as a whole: all live objects have been placed, and the freed bytes are reported. */
  method CompactObjects(h: Heap, roots: PtrQueue, queue: PtrQueue, ghost image: Image, ghost live: Table)
    returns (collected: int, ghost moved: Moves, ghost b: nat)
    requires h.Shape() && image == h.Snapshot() && image.Ok()
    requires TableOk(live, h.Slots()) && Describes(image.mem, live)
    requires queue.Valid() && OnlyObjects(image, queue.elems) && live.Keys == Queued(image, queue.elems)
    requires roots.Valid() && OnlyObjects(image, roots.elems) && Queued(image, roots.elems) <= live.Keys
    modifies h`nextEmpty, h`usedBytes, h.memory, h.allocMap
    ensures moved.Keys == live.Keys
    ensures h.nextEmpty == SLOT_BYTES * b
    ensures CompactionOk(image.base, image.mem, live, Queued(image, roots.elems), moved, h.memory[..], h.Bitmap(), b,
                         h.usedBytes)
    ensures collected == old(h.usedBytes) - h.usedBytes
  {
    ResetAllocationMap(h.allocMap, h.Slots());
    h.nextEmpty := 0;
    var oldSize := h.usedBytes;
    h.usedBytes := 0;
    PinRoots(h, roots, image, live);
    ghost var rootSet := Queued(image, roots.elems);
    PinnedPlaces(live, rootSet, h.Bitmap());
    SizeInSlots(h.size);
    PinnedMemory(image.base, image.mem, live, rootSet);
    moved, b := CompactQueue(h, roots, queue, image, live, rootSet);
    collected := oldSize - h.usedBytes;
  }
}

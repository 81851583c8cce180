/** The collection cycle: mark, compact, redirect, free the forwarding headers. */
module Collector {
  import opened Words
  import opened Header
  import opened HeapModel
  import opened Compaction
  import opened Graph
  import opened Relocation
  import opened AllocationMap
  import opened PtrQueues
  import opened Heaps
  import opened Marking
  import opened Compacting
  import opened Updating

  // ---------------------------------------------------------------- freeing forwarding headers

  /** The header at the old place of a live object is a forwarding header exactly when it moved. */
  lemma OldHeaderType(pass: Pass, mem: seq<Word>, done: set<nat>, s: nat)
    requires pass.Ok() && pass.Rewritten(mem, done) && pass.OnlyFields(done) && s in pass.live
    ensures 2 * s < |mem|
    ensures HeaderType(mem[2 * s]) == HEADER_FORWARDING_ADDRESS <==> IsForwarding(pass.moved, s)
  {
    AboutObject(pass, s);
    OldHeader(pass, s);
    ForwardingHeaderRead(pass.image.base, pass.moved[s]);
  }

  /** The map shows the placed objects, and the forwarding headers that have not been freed. */
  ghost predicate BitsLeft(live: Table, moved: Moves, freed: set<nat>, bits: seq<bool>)
    requires moved.Keys <= live.Keys
  {
    forall k :: 0 <= k < |bits| ==>
      (bits[k] <==> PlacedAt(live, moved, k) || (IsForwarding(moved, k) && k !in freed))
  }

  lemma ForwardingIsApart(live: Table, moved: Moves, s: nat)
    requires moved.Keys <= live.Keys && ForwardingKept(live, moved) && IsForwarding(moved, s)
    ensures !PlacedAt(live, moved, s)
  {
    forall t | t in moved
      ensures !(moved[t] <= s < moved[t] + live[t].slots)
    {
      assert Apart(moved[t], live[t].slots, s, 1);
    }
  }

  /** Freeing one forwarding header frees nothing else. */
  lemma FreeOne(live: Table, moved: Moves, freed: set<nat>, bits: seq<bool>, s: nat, bits': seq<bool>)
    requires moved.Keys <= live.Keys && ForwardingKept(live, moved)
    requires BitsLeft(live, moved, freed, bits) && s < |bits|
    requires bits' == if IsForwarding(moved, s) then bits[s := false] else bits
    ensures BitsLeft(live, moved, freed + {s}, bits')
  {
    if IsForwarding(moved, s) {
      ForwardingIsApart(live, moved, s);
    }
  }

  /** With all forwarding headers freed, the map is exact for the objects at their new places. */
  lemma AllFreed(live: Table, moved: Moves, bits: seq<bool>)
    requires moved.Keys == live.Keys && MovesDistinct(moved)
    requires BitsLeft(live, moved, live.Keys, bits)
    ensures MapExact(bits, NewTable(live, moved))
  {
    var table := NewTable(live, moved);
    NewTableEntries(live, moved);
    forall k | 0 <= k < |bits|
      ensures bits[k] <==> Covered(table, k)
    {
      if PlacedAt(live, moved, k) {
        var s :| s in moved && moved[s] <= k < moved[s] + live[s].slots;
        assert moved[s] in table && table[moved[s]] == live[s];
      }
      if Covered(table, k) {
        var d :| d in table && d <= k < d + table[d].slots;
        var s :| s in live && moved[s] == d && table[d] == live[s];
      }
    }
  }

  lemma HeaderPlace(h: Heap, alloc: nat, s: nat)
    requires h.Shape() && alloc == Address(h.heapStart, s) && 2 * s < h.memory.Length
    ensures HEADER_BYTES <= alloc && h.heapStart <= alloc - HEADER_BYTES
    ensures (alloc - HEADER_BYTES - h.heapStart) / 8 == 2 * s
    ensures (alloc - HEADER_BYTES - h.heapStart) / 16 == s < h.Slots() <= BOOLEANS_PER_BYTE * h.allocMap.Length
  {
    SizeInSlots(h.size);
  }

  /** Frees the slot of the old header of one object, if the object has moved. */
  method RemoveForwarding(h: Heap, alloc: nat, ghost pass: Pass, ghost done: set<nat>, ghost s: nat,
                          ghost freed: set<nat>)
    requires h.Shape() && pass.Ok() && pass.image.base == h.heapStart
    requires pass.Rewritten(h.memory[..], done) && pass.OnlyFields(done)
    requires s in pass.live && alloc == Address(pass.image.base, s)
    requires BitsLeft(pass.live, pass.moved, freed, h.Bitmap())
    modifies h.allocMap
    ensures BitsLeft(pass.live, pass.moved, freed + {s}, h.Bitmap())
  {
    OldHeaderType(pass, h.memory[..], done, s);
    ForwardingParts(pass);
    HeaderPlace(h, alloc, s);
    ghost var bits := h.Bitmap();
    FreeForwarding(h, alloc, s);
    FreeOne(pass.live, pass.moved, freed, bits, s, h.Bitmap());
  }

  /** Frees the slot of a forwarding header. */
  method FreeForwarding(h: Heap, alloc: nat, ghost s: nat)
    requires h.Shape() && alloc == Address(h.heapStart, s) && 2 * s < h.memory.Length
    modifies h.allocMap
    ensures s < h.Slots()
    ensures h.Bitmap() == if HeaderType(h.memory[2 * s]) == HEADER_FORWARDING_ADDRESS then old(h.Bitmap())[s := false]
                          else old(h.Bitmap())
  {
    HeaderPlace(h, alloc, s);
    var header := ReadWord(h, alloc - HEADER_BYTES);
    if HeaderType(header) == HEADER_FORWARDING_ADDRESS {
      var offset := alloc - HEADER_BYTES - h.heapStart;
      UpdateAllocMap(h.allocMap, offset, false, h.Slots());
    }
  }

  lemma ForwardingParts(pass: Pass)
    requires pass.Ok()
    ensures pass.moved.Keys == pass.live.Keys && ForwardingKept(pass.live, pass.moved)
    ensures |pass.mid| == |pass.image.mem|
  {
  }

  /** Frees all forwarding headers, emptying the queue. */
  method RemoveForwardingAllocations(h: Heap, queue: PtrQueue, ghost pass: Pass, ghost done: set<nat>)
    requires h.Shape() && pass.Ok() && pass.image.base == h.heapStart
    requires pass.Rewritten(h.memory[..], done) && pass.OnlyFields(done)
    requires queue.Valid() && OnlyObjects(pass.image, queue.elems)
    requires pass.live.Keys == Queued(pass.image, queue.elems)
    requires BitsLeft(pass.live, pass.moved, {}, h.Bitmap())
    modifies h.allocMap, queue
    ensures BitsLeft(pass.live, pass.moved, pass.live.Keys, h.Bitmap())
  {
    hide Pass.Ok, Pass.Rewritten, Pass.OnlyFields, BitsLeft;
    ghost var elems := queue.elems;
    ForwardingParts(pass);
    NothingQueued(pass.image, elems);
    var forwardedAlloc := queue.Dequeue();
    ghost var i := 0;
    while forwardedAlloc != 0
      invariant i <= |elems| && queue.Valid()
      invariant AtField(elems, i, forwardedAlloc, queue.elems)
      invariant BitsLeft(pass.live, pass.moved, Queued(pass.image, elems[..i]), h.Bitmap())
      decreases |elems| - i
    {
      ghost var s := RootAt(pass.image, elems, i);
      RemoveForwarding(h, forwardedAlloc, pass, done, s, Queued(pass.image, elems[..i]));
      ghost var p, rest := forwardedAlloc, queue.elems;
      forwardedAlloc := queue.Dequeue();
      NextField(elems, i, p, rest, forwardedAlloc, queue.elems);
      i := i + 1;
    }
    LastField(elems, i, forwardedAlloc, queue.elems);
    assert elems[..i] == elems;
  }

  // ---------------------------------------------------------------- the cycle

  /** The values a field may hold: NULL, an object, or an address outside the heap that looks inert. */
  ghost predicate SafeValue(image: Image, foreign: nat -> Word, p: nat) {
    p == 0 || IsPayload(image.base, image.table, p) || (image.IsForeign(p) && InertHeader(foreign(p)))
  }

  ghost predicate SafeObject(image: Image, foreign: nat -> Word, s: nat)
    requires s in image.table
  {
    forall w :: w in image.table[s].fields ==>
      2 * s + w < |image.mem| && SafeValue(image, foreign, image.mem[2 * s + w])
  }

  /** Every object that a path from a root reaches has only such fields. */
  ghost predicate SafeFields(image: Image, roots: set<nat>, foreign: nat -> Word) {
    forall s :: s in image.table && Reached(image, roots, s) ==> SafeObject(image, foreign, s)
  }

  /** What one collection does to the heap image. */
  ghost predicate Collected(image: Image, roots: set<nat>, live: Table, moved: Moves, after: seq<Word>) {
    && live == Restrict(image.table, live.Keys)
    && image.Reachable(roots, live.Keys)
    && live.Keys == moved.Keys
    && MovesDistinct(moved)
    && RootsPinned(roots, moved)
    && SlidDown(live, moved)
    && PlacedApart(live, moved)
    && ForwardingKept(live, moved)
    && OrderKept(live, roots, moved)
    && AllWentFirst(live, roots, moved, image.Slots())
    && GraphPreserved(image, live, moved, after)
  }

  /** The bump pointer is right behind the last live object that is not a root, or at the start of the heap. */
  ghost predicate BumpLeft(live: Table, roots: set<nat>, moved: Moves, bump: nat)
    requires live.Keys == moved.Keys
  {
    && (forall s :: s in live && s !in roots ==> SLOT_BYTES * (moved[s] + live[s].slots) <= bump)
    && (bump == 0 || exists s :: s in live && s !in roots && SLOT_BYTES * (moved[s] + live[s].slots) == bump)
  }

  lemma BumpInBytes(live: Table, roots: set<nat>, moved: Moves, b: nat, bump: nat)
    requires live.Keys == moved.Keys && BumpAt(live, roots, moved, b) && bump == SLOT_BYTES * b
    ensures BumpLeft(live, roots, moved, bump) && bump % SLOT_BYTES == 0
  {
    SlotMultiple(b);
    if bump != 0 {
      var u :| u in moved && u !in roots && moved[u] + live[u].slots == b;
      assert SLOT_BYTES * (moved[u] + live[u].slots) == bump;
    }
  }

  /** Reachable objects are reached by paths. */
  lemma LiveReached(image: Image, roots: set<nat>, live: set<nat>)
    requires image.FieldsOk() && image.Reachable(roots, live)
    ensures forall s :: s in live ==> Reached(image, roots, s)
  {
    var c := set s | s in image.table && Reached(image, roots, s);
    forall s | s in roots
      ensures s in c
    {
      RootReached(image, roots, s);
    }
    forall s, w | s in c && s in image.table && w in image.table[s].fields
      ensures image.TargetIn(s, w, c)
    {
      assert image.FieldOk(s, w);
      if InRange(image.base, image.Slots(), image.mem[2 * s + w]) {
        StepReached(image, roots, s, w, SlotOf(image.base, image.mem[2 * s + w]));
      }
    }
    assert image.Closed(c);
  }

  /** A safe value of a live object is safe for the redirecting pass. */
  lemma LiveValueSafe(pass: Pass, s: nat, w: nat)
    requires pass.image.Ok()
    requires s in pass.image.table && w in pass.image.table[s].fields
    requires pass.live == Restrict(pass.image.table, pass.live.Keys)
    requires SafeObject(pass.image, pass.foreign, s) && pass.image.TargetIn(s, w, pass.live.Keys)
    ensures pass.FieldSafeAt(s, w)
  {
    hide Image.Ok, IsPayload, InRange, InertHeader, Image.IsForeign, SlotOf, Restrict;
    var p := pass.image.mem[2 * s + w];
    assert SafeValue(pass.image, pass.foreign, p);
    if IsPayload(pass.image.base, pass.image.table, p) {
      PayloadInRange(pass.image, p);
      PayloadOfLive(pass.image.base, pass.image.table, pass.live, p);
    }
  }

  lemma PayloadOfLive(base: nat, table: Table, live: Table, p: nat)
    requires base <= p && IsPayload(base, table, p) && SlotOf(base, p) in live
    ensures IsPayload(base, live, p)
  {
  }

  /** So the fields of live objects are safe for the redirecting pass. */
  lemma LiveFieldsSafe(pass: Pass, roots: set<nat>)
    requires pass.image.Ok() && pass.image.FieldsOk()
    requires pass.image.Reachable(roots, pass.live.Keys)
    requires pass.live == Restrict(pass.image.table, pass.live.Keys)
    requires SafeFields(pass.image, roots, pass.foreign)
    ensures pass.FieldsSafe()
  {
    LiveReached(pass.image, roots, pass.live.Keys);
    hide Image.Ok, Image.FieldsOk, Reached, SafeObject, Pass.FieldSafeAt, Image.TargetIn;
    forall s, w | s in pass.live && w in pass.live[s].fields
      ensures pass.FieldSafeAt(s, w)
    {
      assert SafeObject(pass.image, pass.foreign, s);
      assert pass.image.TargetIn(s, w, pass.live.Keys);
      LiveValueSafe(pass, s, w);
    }
  }

  lemma PayloadInRange(image: Image, p: nat)
    requires image.Ok() && IsPayload(image.base, image.table, p)
    ensures image.base <= p && InRange(image.base, image.Slots(), p)
  {
    PayloadAddress(image.base, image.table, p);
    assert InPlace(SlotOf(image.base, p), image.table[SlotOf(image.base, p)], image.Slots());
  }

  /** The table of live objects inherits its layout from the whole table. */
  lemma LiveTable(image: Image, live: Table)
    requires image.Ok() && live == Restrict(image.table, live.Keys)
    ensures TableOk(live, image.Slots()) && Describes(image.mem, live)
  {
    forall s | s in live
      ensures InPlace(s, live[s], image.Slots()) && DescribesAt(image.mem, s, live[s])
    {
      assert InPlace(s, image.table[s], image.Slots());
    }
  }

  lemma {:induction false} PayloadSumSplit(table: Table, live: Table)
    requires live == Restrict(table, live.Keys)
    ensures PayloadSum(table) == PayloadSum(live) + PayloadSum(table - live.Keys)
    decreases |live.Keys|
  {
    if live == map[] {
      assert table - live.Keys == table;
    } else {
      var s :| s in live;
      var live' := live - {s};
      RemoveCount(live, s);
      PayloadSumSplit(table, live');
      PayloadSumRemove(live, s);
      PayloadSumRemove(table - live'.Keys, s);
      assert table - live'.Keys - {s} == table - live.Keys;
    }
  }

  lemma BitsStart(live: Table, moved: Moves, bits: seq<bool>)
    requires moved.Keys <= live.Keys && BitsShow(live, moved, bits)
    ensures BitsLeft(live, moved, {}, bits)
  {
  }

  /** What complete compaction means for the objects' places. */
  lemma CompactionEnds(base: nat, before: seq<Word>, live: Table, roots: set<nat>, moved: Moves, mem: seq<Word>,
                       bits: seq<bool>, b: nat, used: int)
    requires CompactionOk(base, before, live, roots, moved, mem, bits, b, used) && moved.Keys == live.Keys
    ensures |mem| == |before| && AddressesFit(base, |mem|)
    ensures SlidDown(live, moved) && PlacedApart(live, moved) && ForwardingKept(live, moved)
    ensures RootsPinned(roots, moved) && OrderKept(live, roots, moved)
    ensures AllWentFirst(live, roots, moved, |before| / 2) && BumpAt(live, roots, moved, b)
    ensures MemoryShows(base, before, live, moved, mem)
    ensures BitsLeft(live, moved, {}, bits) && used == PayloadSum(live)
  {
    hide AllWentFirst, BumpAt;
    assert Part(live, moved.Keys) == live;
    BitsStart(live, moved, bits);
  }

  /** Compaction hands the redirecting pass what it needs. */
  lemma PassReady(image: Image, roots: set<nat>, live: Table, moved: Moves, mem: seq<Word>, bits: seq<bool>, b: nat,
                  used: int, foreign: nat -> Word)
    requires image.Ok() && image.FieldsOk() && image.Reachable(roots, live.Keys)
    requires live == Restrict(image.table, live.Keys) && moved.Keys == live.Keys
    requires CompactionOk(image.base, image.mem, live, roots, moved, mem, bits, b, used)
    requires SafeFields(image, roots, foreign)
    ensures Pass(image, live, moved, mem, foreign).Ok() && Pass(image, live, moved, mem, foreign).FieldsSafe()
    ensures MovesDistinct(moved) && RootsPinned(roots, moved) && OrderKept(live, roots, moved)
    ensures AllWentFirst(live, roots, moved, image.Slots()) && BumpAt(live, roots, moved, b)
    ensures BitsLeft(live, moved, {}, bits) && used == PayloadSum(live)
  {
    LiveTable(image, live);
    CompactionEnds(image.base, image.mem, live, roots, moved, mem, bits, b, used);
    MovesInjective(live, moved, image.Slots());
    LiveFieldsSafe(Pass(image, live, moved, mem, foreign), roots);
    hide CompactionOk, Image.Ok, Image.FieldsOk, Image.Closed, SafeFields, Pass.FieldsSafe, BitsLeft;
    hide TableOk, SlidDown, PlacedApart, ForwardingKept, OrderKept, MemoryShows, RootsPinned, MovesDistinct;
    hide AllWentFirst, BumpAt;
  }

  /** The first half of the cycle. */
  method MarkAndCompact(h: Heap, roots: PtrQueue, foreign: nat -> Word)
    returns (queue: PtrQueue, collected: int, ghost pass: Pass, ghost b: nat)
    requires h.Valid() && roots.Valid() && OnlyObjects(h.Snapshot(), roots.elems)
    requires SafeFields(h.Snapshot(), Queued(h.Snapshot(), roots.elems), foreign)
    modifies h`nextEmpty, h`usedBytes, h.memory, h.allocMap
    ensures fresh(queue) && queue.Valid()
    ensures pass.image == old(h.Snapshot()) && h.memory[..] == pass.mid && pass.foreign == foreign
    ensures pass.Ok() && pass.FieldsSafe()
    ensures MovesDistinct(pass.moved) && RootsPinned(Queued(pass.image, roots.elems), pass.moved)
    ensures pass.live.Keys == pass.moved.Keys && OrderKept(pass.live, Queued(pass.image, roots.elems), pass.moved)
    ensures pass.image.Reachable(Queued(pass.image, roots.elems), pass.live.Keys)
    ensures OnlyObjects(pass.image, queue.elems) && pass.live.Keys == Queued(pass.image, queue.elems)
    ensures BitsLeft(pass.live, pass.moved, {}, h.Bitmap())
    ensures AllWentFirst(pass.live, Queued(pass.image, roots.elems), pass.moved, pass.image.Slots())
    ensures BumpAt(pass.live, Queued(pass.image, roots.elems), pass.moved, b)
    ensures h.nextEmpty == SLOT_BYTES * b && h.usedBytes == PayloadSum(pass.live)
    ensures collected == old(h.usedBytes) - h.usedBytes
  {
    hide *;
    ValidParts(h);
    ghost var image := h.Snapshot();
    ghost var rootSet := Queued(image, roots.elems);
    queue := FindLivingObjects(h, roots);
    ghost var live := Restrict(image.table, Queued(image, queue.elems));
    LiveTable(image, live);
    assert live.Keys == Queued(image, queue.elems);
    ghost var moved;
    collected, moved, b := CompactObjects(h, roots, queue, image, live);
    pass := Pass(image, live, moved, h.memory[..], foreign);
    PassReady(image, rootSet, live, moved, h.memory[..], h.Bitmap(), b, h.usedBytes, foreign);
  }

  /** The second half. */
  method UpdateAndFree(h: Heap, roots: PtrQueue, queue: PtrQueue, foreign: nat -> Word, ghost pass: Pass)
    requires SeenBy(h, pass, foreign) && h.memory[..] == pass.mid
    requires roots.Valid() && OnlyObjects(pass.image, roots.elems)
    requires pass.image.Reachable(Queued(pass.image, roots.elems), pass.live.Keys)
    requires MovesDistinct(pass.moved) && RootsPinned(Queued(pass.image, roots.elems), pass.moved)
    requires queue.Valid() && queue != roots
    requires OnlyObjects(pass.image, queue.elems) && pass.live.Keys == Queued(pass.image, queue.elems)
    requires pass.live.Keys == pass.moved.Keys && BitsLeft(pass.live, pass.moved, {}, h.Bitmap())
    modifies h.memory, h.allocMap, queue
    ensures GraphPreserved(pass.image, pass.live, pass.moved, h.memory[..])
    ensures BitsLeft(pass.live, pass.moved, pass.live.Keys, h.Bitmap())
    ensures MapExact(h.Bitmap(), NewTable(pass.live, pass.moved))
  {
    hide Pass.Ok, Pass.Rewritten, Pass.OnlyFields, BitsLeft, Pass.FieldsSafe, OnlyObjects, Image.Reachable;
    hide GraphPreserved, MovesDistinct, RootsPinned, MapExact, NewTable;
    SeenFacts(h, pass, foreign);
    ghost var done := UpdateForwardedPointers(h, roots, foreign, pass);
    RemoveForwardingAllocations(h, queue, pass, done);
    AllFreed(pass.live, pass.moved, h.Bitmap());
  }

  /** The image a collection leaves is a well-formed heap. */
  lemma NewImageOk(image: Image, roots: set<nat>, live: Table, moved: Moves, after: seq<Word>)
    requires image.Ok() && image.FieldsOk() && |after| == |image.mem|
    requires Collected(image, roots, live, moved, after)
    ensures Image(image.base, after, NewTable(live, moved)).Ok()
    ensures Image(image.base, after, NewTable(live, moved)).FieldsOk()
    ensures PayloadSum(NewTable(live, moved)) == PayloadSum(live)
  {
    LiveTable(image, live);
    forall s | s in live
      ensures WellPlaced(live[s])
    {
      assert InPlace(s, live[s], image.Slots());
    }
    NewTableOk(live, moved, image.Slots());
    NewImageDescribed(image, live, moved, after);
    NewImageFields(image, live, moved, after);
    NewTableSum(live, moved);
  }

  lemma LiveInPlace(image: Image, live: Table, s: nat)
    requires image.Ok() && live == Restrict(image.table, live.Keys) && s in live
    ensures InPlace(s, live[s], image.Slots())
  {
    assert InPlace(s, image.table[s], image.Slots());
  }

  /** No object is where another one left a forwarding header: old addresses are retired. */
  lemma OldAddressesRetired(live: Table, moved: Moves, s: nat, t: nat)
    requires live.Keys == moved.Keys && ForwardingKept(live, moved)
    requires s in live && live[s].slots > 0 && t in live && moved[t] != t
    ensures moved[s] != t
  {
    assert Apart(moved[s], live[s].slots, t, 1);
  }

  /** A redirected pointer is not the old address of an object that moved. */
  lemma RedirectNotOld(base: nat, live: Table, moved: Moves, p: nat, t: nat)
    requires live.Keys == moved.Keys && ForwardingKept(live, moved)
    requires forall s :: s in live ==> live[s].slots > 0
    requires t in live && moved[t] != t
    ensures Redirect(base, live, moved, p) != Address(base, t)
  {
    AddressSlot(base, t);
    if IsPayload(base, live, p) {
      AddressSlot(base, moved[SlotOf(base, p)]);
      OldAddressesRetired(live, moved, SlotOf(base, p), t);
    }
  }

  /** After a collection, no field of a live object holds the old address of an object that moved. */
  lemma NoFieldForwards(image: Image, roots: set<nat>, live: Table, moved: Moves, after: seq<Word>,
                        s: nat, w: nat, t: nat)
    requires image.Ok() && Collected(image, roots, live, moved, after)
    requires s in live && w in live[s].fields && t in live && moved[t] != t
    ensures 2 * moved[s] + w < |after| && after[2 * moved[s] + w] != Address(image.base, t)
  {
    hide Image.Ok, Image.Reachable, MovesDistinct, RootsPinned, SlidDown, PlacedApart, OrderKept, Redirect, Restrict;
    hide ForwardingKept, Address;
    forall u | u in live
      ensures live[u].slots > 0 && (u == s ==> w < 2 * live[s].slots)
    {
      LiveInPlace(image, live, u);
    }
    assert WordPreserved(image, live, moved, after, s, w);
    RedirectNotOld(image.base, live, moved, image.mem[2 * s + w], t);
  }

  lemma CollectedFrom(pass: Pass, roots: set<nat>, after: seq<Word>)
    requires pass.Ok() && pass.image.Reachable(roots, pass.live.Keys)
    requires pass.live.Keys == pass.moved.Keys
    requires MovesDistinct(pass.moved) && RootsPinned(roots, pass.moved) && OrderKept(pass.live, roots, pass.moved)
    requires AllWentFirst(pass.live, roots, pass.moved, pass.image.Slots())
    requires GraphPreserved(pass.image, pass.live, pass.moved, after)
    ensures Collected(pass.image, roots, pass.live, pass.moved, after)
    ensures pass.image.Ok() && pass.image.FieldsOk()
    ensures PayloadSum(pass.image.table) == PayloadSum(pass.live) + PayloadSum(pass.image.table - pass.live.Keys)
  {
    hide AllWentFirst;
    PayloadSumSplit(pass.image.table, pass.live);
  }

  /** All phases, before the table is brought up to date. */
  method RunPhases(h: Heap, roots: PtrQueue, foreign: nat -> Word)
    returns (collected: int, ghost pass: Pass, ghost b: nat)
    requires h.Valid() && roots.Valid() && OnlyObjects(h.Snapshot(), roots.elems)
    requires SafeFields(h.Snapshot(), Queued(h.Snapshot(), roots.elems), foreign)
    modifies h`nextEmpty, h`usedBytes, h.memory, h.allocMap
    ensures pass.image == old(h.Snapshot())
    ensures pass.live.Keys == pass.moved.Keys && MovesDistinct(pass.moved)
    ensures Collected(pass.image, Queued(pass.image, roots.elems), pass.live, pass.moved, h.memory[..])
    ensures pass.image.Ok() && pass.image.FieldsOk()
    ensures BitsLeft(pass.live, pass.moved, pass.live.Keys, h.Bitmap())
    ensures MapExact(h.Bitmap(), NewTable(pass.live, pass.moved))
    ensures BumpAt(pass.live, Queued(pass.image, roots.elems), pass.moved, b)
    ensures h.nextEmpty == SLOT_BYTES * b && h.usedBytes == PayloadSum(pass.live)
    ensures PayloadSum(pass.image.table) == PayloadSum(pass.live) + PayloadSum(pass.image.table - pass.live.Keys)
    ensures collected == old(h.usedBytes) - h.usedBytes
  {
    hide *;
    ValidParts(h);
    var queue;
    ghost var rootSet := Queued(h.Snapshot(), roots.elems);
    queue, collected, pass, b := MarkAndCompact(h, roots, foreign);
    SeenByPass(h, pass, foreign);
    UpdateAndFree(h, roots, queue, foreign, pass);
    CollectedFrom(pass, rootSet, h.memory[..]);
  }

  /** Brings the table up to date; the heap is well formed again. */
  method FinishGc(h: Heap, ghost image: Image, ghost roots: set<nat>, ghost live: Table, ghost moved: Moves,
                  ghost b: nat)
    requires h.Shape() && image.base == h.heapStart && |image.mem| == h.memory.Length
    requires image.Ok() && image.FieldsOk()
    requires live.Keys == moved.Keys && MovesDistinct(moved)
    requires Collected(image, roots, live, moved, h.memory[..])
    requires MapExact(h.Bitmap(), NewTable(live, moved))
    requires h.nextEmpty == SLOT_BYTES * b && h.usedBytes == PayloadSum(live)
    modifies h`table
    ensures h.Valid() && h.table == NewTable(live, moved)
  {
    hide *;
    NewImageOk(image, roots, live, moved, h.memory[..]);
    h.table := NewTable(live, moved);
    ValidAgain(h, b);
  }

  /**
   One collection with pinned roots. The reachable part of the object graph survives, moved only
   down and in order, each to the first place that was free, the roots not at all; everything else
   is dropped, its payload bytes are reported, the bump pointer is right behind the last object that
   is not a root, and the heap is well formed again. `foreign` gives the words outside the heap.
   */
  method Gc(h: Heap, roots: PtrQueue, foreign: nat -> Word)
    returns (collected: int, ghost live: Table, ghost moved: Moves)
    requires h.Valid() && roots.Valid() && OnlyObjects(h.Snapshot(), roots.elems)
    requires SafeFields(h.Snapshot(), Queued(h.Snapshot(), roots.elems), foreign)
    modifies h, h.memory, h.allocMap
    ensures h.Valid()
    ensures live.Keys == moved.Keys && MovesDistinct(moved)
    ensures Collected(old(h.Snapshot()), Queued(old(h.Snapshot()), roots.elems), live, moved, h.memory[..])
    ensures h.table == NewTable(live, moved)
    ensures BitsLeft(live, moved, live.Keys, h.Bitmap())
    ensures h.usedBytes == PayloadSum(live) && h.nextEmpty % SLOT_BYTES == 0
    ensures BumpLeft(live, Queued(old(h.Snapshot()), roots.elems), moved, h.nextEmpty)
    ensures collected == PayloadSum(old(h.table) - live.Keys)
    ensures collected == old(h.usedBytes) - h.usedBytes
  {
    hide *;
    ghost var image := h.Snapshot();
    ghost var rootSet := Queued(image, roots.elems);
    ValidParts(h);
    ghost var pass, b;
    collected, pass, b := RunPhases(h, roots, foreign);
    live, moved := pass.live, pass.moved;
    FinishGc(h, image, rootSet, live, moved, b);
    BumpInBytes(live, rootSet, moved, b, h.nextEmpty);
  }

  lemma ValidParts(h: Heap)
    requires h.Valid()
    ensures h.Shape() && h.usedBytes == PayloadSum(h.table)
    ensures h.Snapshot().Ok() && h.Snapshot().FieldsOk() && h.Snapshot().Slots() == h.Slots()
    ensures h.Snapshot().base == h.heapStart && |h.Snapshot().mem| == h.memory.Length && h.Snapshot().table == h.table
  {
    SizeInSlots(h.size);
  }

  lemma SeenByPass(h: Heap, pass: Pass, foreign: nat -> Word)
    requires h.Shape() && pass.Ok() && pass.FieldsSafe() && pass.foreign == foreign
    requires pass.image.base == h.heapStart && |pass.image.mem| == h.memory.Length
    ensures SeenBy(h, pass, foreign)
  {
  }

  lemma ValidAgain(h: Heap, b: nat)
    requires h.Shape() && Image(h.heapStart, h.memory[..], h.table).Ok()
    requires Image(h.heapStart, h.memory[..], h.table).FieldsOk()
    requires MapExact(h.Bitmap(), h.table) && h.nextEmpty == SLOT_BYTES * b && h.usedBytes == PayloadSum(h.table)
    ensures h.Valid()
  {
    SlotMultiple(b);
  }
}

/** The mark phase: a depth-first search that queues every live object in address order. */
module Marking {
  import opened Words
  import opened Header
  import opened VectorReader
  import opened HeapModel
  import opened Graph
  import opened PtrQueues
  import opened Heaps

  // ---------------------------------------------------------------- what the queue holds

  /** The objects whose payload address is queued. */
  ghost function Queued(image: Image, elems: seq<nat>): set<nat> {
    set s | s in image.table && Address(image.base, s) in elems
  }

  /** Only payload addresses of objects are queued. */
  ghost predicate OnlyObjects(image: Image, elems: seq<nat>) {
    forall a :: a in elems ==> IsPayload(image.base, image.table, a)
  }

  ghost predicate ChildrenIn(image: Image, t: nat, v: set<nat>)
    requires t in image.table
  {
    forall w :: w in image.table[t].fields ==> image.TargetIn(t, w, v)
  }

  /** Every queued object, except those whose fields are still being visited, has its children queued. */
  ghost predicate MarkedOk(image: Image, elems: seq<nat>, active: set<nat>) {
    && OnlyObjects(image, elems)
    && forall t :: t in Queued(image, elems) && t !in active ==> ChildrenIn(image, t, Queued(image, elems))
  }

  /** The word `w` of the object at `s` points into the heap, at slot `t`. */
  ghost predicate Points(image: Image, s: nat, w: nat, t: nat) {
    && 2 * s + w < |image.mem|
    && InRange(image.base, image.Slots(), image.mem[2 * s + w])
    && t == SlotOf(image.base, image.mem[2 * s + w])
  }

  ghost predicate Edge(image: Image, s: nat, t: nat) {
    s in image.table && exists w :: w in image.table[s].fields && Points(image, s, w, t)
  }

  /** A path along pointers from a root to `t`. */
  ghost predicate IsPath(image: Image, roots: set<nat>, path: seq<nat>, t: nat) {
    && path != []
    && path[0] in roots
    && path[|path| - 1] == t
    && forall i :: 0 <= i < |path| - 1 ==> Edge(image, path[i], path[i + 1])
  }

  ghost predicate Reached(image: Image, roots: set<nat>, t: nat) {
    exists path :: IsPath(image, roots, path, t)
  }

  /** Everything queued can be reached from a root. */
  ghost predicate AllReached(image: Image, roots: set<nat>, elems: seq<nat>) {
    forall t :: t in Queued(image, elems) ==> Reached(image, roots, t)
  }

  lemma RootReached(image: Image, roots: set<nat>, t: nat)
    requires t in roots
    ensures Reached(image, roots, t)
  {
    assert IsPath(image, roots, [t], t);
  }

  lemma StepReached(image: Image, roots: set<nat>, s: nat, w: nat, t: nat)
    requires Reached(image, roots, s)
    requires s in image.table && w in image.table[s].fields && Points(image, s, w, t)
    ensures Reached(image, roots, t)
  {
    var path :| IsPath(image, roots, path, s);
    assert Edge(image, s, t);
    assert IsPath(image, roots, path + [t], t);
  }

  /** A path never leaves a closed set that contains the roots. */
  lemma {:induction false} PathStays(image: Image, roots: set<nat>, path: seq<nat>, t: nat, c: set<nat>)
    requires IsPath(image, roots, path, t)
    requires roots <= c && image.Closed(c)
    ensures t in c
  {
    if |path| > 1 {
      var init, s := path[..|path| - 1], path[|path| - 2];
      PathStays(image, roots, init, s, c);
      assert Edge(image, s, path[|path| - 2 + 1]);
      var w :| w in image.table[s].fields && Points(image, s, w, t);
      assert image.TargetIn(s, w, c);
    }
  }

  /** A closed set of reached objects that contains the roots is the set of reachable objects. */
  lemma ReachedIsReachable(image: Image, roots: set<nat>, elems: seq<nat>)
    requires MarkedOk(image, elems, {}) && AllReached(image, roots, elems)
    requires roots <= Queued(image, elems)
    ensures image.Reachable(roots, Queued(image, elems))
  {
    var live := Queued(image, elems);
    forall s, w | s in live && s in image.table && w in image.table[s].fields
      ensures image.TargetIn(s, w, live)
    {
      assert ChildrenIn(image, s, live);
    }
    forall c: set<nat> | roots <= c && image.Closed(c)
      ensures live <= c
    {
      forall t | t in live
        ensures t in c
      {
        var path :| IsPath(image, roots, path, t);
        PathStays(image, roots, path, t, c);
      }
    }
  }

  lemma QueuedInsert(image: Image, elems: seq<nat>, elems': seq<nat>, s: nat)
    requires image.base > 0 && s in image.table && OnlyObjects(image, elems)
    requires forall a :: a in elems' <==> a in elems || a == Address(image.base, s)
    ensures Queued(image, elems') == Queued(image, elems) + {s}
    ensures OnlyObjects(image, elems')
  {
    AddressSlot(image.base, s);
    forall t | t in Queued(image, elems')
      ensures t in Queued(image, elems) + {s}
    {
      if Address(image.base, t) == Address(image.base, s) {
        AddressSlot(image.base, t);
      }
    }
  }

  // ---------------------------------------------------------------- reading objects

  lemma WordIndex(base: nat, k: nat, address: nat)
    requires address == base + 8 * k
    ensures (address - base) / 8 == k
  {
  }

  /** The word at an address inside the heap. */
  method ReadWord(h: Heap, address: nat) returns (w: Word)
    requires h.Shape() && h.heapStart <= address && (address - h.heapStart) / 8 < h.memory.Length
    ensures w == h.memory[(address - h.heapStart) / 8]
  {
    w := h.memory[(address - h.heapStart) / 8];
  }

  /** The pointer fields of an allocation, by its header. Format strings are not modelled. */
  method GetPointersInAllocation(header: Word, alloc: nat) returns (pointers: PtrQueue)
    requires alloc > 0 && HeaderType(header) != HEADER_POINTER_TO_FORMAT_STRING
    ensures fresh(pointers) && pointers.Valid()
    ensures pointers.elems == Shifted(HeaderPointers(header), alloc)
  {
    if HeaderType(header) == HEADER_BIT_VECTOR {
      pointers := GetPointersFromBitVector(header / 4, alloc);
    } else {
      pointers := new PtrQueue();
    }
  }

  /** The addresses of the fields of the object at slot `s`, from the `j`th on. */
  ghost function FieldAddresses(base: nat, s: nat, fields: seq<nat>): (r: seq<nat>)
    ensures |r| == |fields|
  {
    seq(|fields|, i requires 0 <= i < |fields| => base + 8 * (2 * s + fields[i]))
  }

  lemma PointersAreFields(image: Image, s: nat)
    requires image.Ok() && s in image.table
    ensures 2 * s < |image.mem|
    ensures HeaderType(image.mem[2 * s]) == HEADER_BIT_VECTOR
    ensures Shifted(HeaderPointers(image.mem[2 * s]), Address(image.base, s)) ==
            FieldAddresses(image.base, s, image.table[s].fields)
  {
    assert DescribesAt(image.mem, s, image.table[s]);
    hide Image.Ok, HeaderPointers, DescribesAt, HeaderType;
    HeaderFields(image.base, s, image.mem[2 * s]);
  }

  /** The pointer fields of a header, as addresses. */
  lemma HeaderFields(base: nat, d: nat, header: Word)
    ensures Shifted(HeaderPointers(header), Address(base, d)) == FieldAddresses(base, d, ObjOf(header).fields)
  {
    var offsets := HeaderPointers(header);
    forall i | 0 <= i < |offsets|
      ensures Address(base, d) + offsets[i] == base + 8 * (2 * d + FieldWord(offsets[i]))
    {
      PointerOffsetAligned(header, i);
    }
    hide HeaderPointers;
  }

  lemma PointerOffsetAligned(header: Word, i: nat)
    requires i < |HeaderPointers(header)|
    ensures HeaderPointers(header)[i] % 8 == 0
  {
    var offsets := HeaderPointers(header);
    PointerOffsetsPlaced(PartFields(PartCodec.DecodeParts(header / 4 / 4)));
    assert offsets[i] in offsets;
  }

  // ---------------------------------------------------------------- the search

  /** `p` is the `j`th field address, and the later ones are still queued. */
  ghost predicate AtField(addresses: seq<nat>, j: nat, p: nat, rest: seq<nat>) {
    if j < |addresses| then p == addresses[j] && rest == addresses[j + 1..]
    else j == |addresses| && p == 0 && rest == []
  }

  lemma NextField(addresses: seq<nat>, j: nat, p: nat, rest: seq<nat>, p': nat, rest': seq<nat>)
    requires AtField(addresses, j, p, rest) && p != 0
    requires rest == [] ==> p' == 0 && rest' == []
    requires rest != [] ==> rest == [p'] + rest'
    ensures j < |addresses| && AtField(addresses, j + 1, p', rest')
  {
    if rest != [] {
      assert rest[0] == addresses[j + 1] && rest[1..] == addresses[j + 2..];
    }
  }

  lemma LastField(addresses: seq<nat>, j: nat, p: nat, rest: seq<nat>)
    requires AtField(addresses, j, p, rest) && p == 0
    requires forall a :: a in addresses ==> a != 0
    ensures j == |addresses|
  {
    assert forall i :: 0 <= i < |addresses| ==> addresses[i] in addresses;
  }

  /** The first `j` fields of the object at `s` have been followed. */
  ghost predicate FollowedUpTo(image: Image, s: nat, j: nat, v: set<nat>)
    requires s in image.table && j <= |image.table[s].fields|
  {
    forall i :: 0 <= i < j ==> image.TargetIn(s, image.table[s].fields[i], v)
  }

  lemma FieldIndex(image: Image, s: nat, j: nat)
    requires image.FieldsOk() && s in image.table && j < |image.table[s].fields|
    ensures image.FieldOk(s, image.table[s].fields[j])
  {
    assert image.table[s].fields[j] in image.table[s].fields;
  }

  /** Reads the `j`th field. If it points into the heap, it points at an object. */
  method ReadField(h: Heap, structPointerPtr: nat, ghost image: Image, ghost s: nat, ghost j: nat)
    returns (structPointer: Word, inHeap: bool, ghost t: nat)
    requires h.Shape() && image == h.Snapshot() && image.Ok() && image.FieldsOk()
    requires s in image.table && j < |image.table[s].fields|
    requires structPointerPtr == image.base + 8 * (2 * s + image.table[s].fields[j])
    ensures inHeap ==>
              && t in image.table && structPointer == Address(image.base, t)
              && Points(image, s, image.table[s].fields[j], t)
    ensures inHeap ==> forall v: set<nat> :: t in v ==> image.TargetIn(s, image.table[s].fields[j], v)
    ensures !inHeap ==> forall v: set<nat> :: image.TargetIn(s, image.table[s].fields[j], v)
  {
    hide Image.Ok, ObjOf, HeaderType;
    ghost var w := image.table[s].fields[j];
    FieldIndex(image, s, j);
    WordIndex(h.heapStart, 2 * s + w, structPointerPtr);
    structPointer := ReadWord(h, structPointerPtr);
    inHeap := h.heapStart <= structPointer < h.heapStart + h.size;
    SizeInSlots(h.size);
    assert inHeap <==> InRange(image.base, image.Slots(), structPointer);
    t := 0;
    if inHeap {
      t := SlotOf(image.base, structPointer);
      PayloadAddress(image.base, image.table, structPointer);
    }
  }

  /** The field addresses of the object at slot `s`, read from its header. */
  method FieldsOfObject(h: Heap, alloc: nat, ghost image: Image, ghost s: nat) returns (pointers: PtrQueue)
    requires h.Shape() && image == h.Snapshot() && image.Ok()
    requires s in image.table && alloc == Address(image.base, s)
    ensures fresh(pointers) && pointers.Valid()
    ensures pointers.elems == FieldAddresses(image.base, s, image.table[s].fields)
  {
    PointersAreFields(image, s);
    var header := ReadWord(h, alloc - HEADER_BYTES);
    pointers := GetPointersInAllocation(header, alloc);
  }

  /** Objects that are not queued yet are in `unseen`, which the search uses up. */
  ghost predicate Unseen(image: Image, elems: seq<nat>, unseen: set<nat>) {
    forall t :: t in image.table ==> t in unseen || t in Queued(image, elems)
  }

  /** What a search keeps, while the fields of the `active` objects are being followed. */
  ghost predicate Searching(image: Image, roots: set<nat>, elems: seq<nat>, active: set<nat>, unseen: set<nat>) {
    && StrictlyAscending(elems)
    && MarkedOk(image, elems, active)
    && AllReached(image, roots, elems)
    && Unseen(image, elems, unseen)
  }

  /** Newly queued, an object still has its fields to be followed. */
  lemma AfterEnqueue(image: Image, roots: set<nat>, elems: seq<nat>, s: nat, active: set<nat>, unseen: set<nat>)
    requires image.base > 0 && s in image.table && Reached(image, roots, s)
    requires Searching(image, roots, elems, active, unseen)
    ensures var elems' := Insert(elems, Address(image.base, s));
            && Searching(image, roots, elems', active + {s}, unseen - {s})
            && Queued(image, elems') == Queued(image, elems) + {s}
    ensures Address(image.base, s) in elems <==> s in Queued(image, elems)
    ensures s !in Queued(image, elems) ==> s in unseen
  {
    InsertKeepsOrder(elems, Address(image.base, s));
    QueuedInsert(image, elems, Insert(elems, Address(image.base, s)), s);
  }

  lemma ChildrenFollowed(image: Image, roots: set<nat>, s: nat, elems: seq<nat>, active: set<nat>, unseen: set<nat>)
    requires s in image.table && Searching(image, roots, elems, active + {s}, unseen)
    requires FollowedUpTo(image, s, |image.table[s].fields|, Queued(image, elems))
    ensures Searching(image, roots, elems, active, unseen)
  {
    assert ChildrenIn(image, s, Queued(image, elems));
  }

  lemma MoreUnseen(image: Image, roots: set<nat>, elems: seq<nat>, active: set<nat>, unseen: set<nat>, more: set<nat>)
    requires Searching(image, roots, elems, active, unseen) && unseen <= more
    ensures Searching(image, roots, elems, active, more)
  {
  }

  /** Queues everything reachable from an object, stopping at objects that are queued already. */
  method RecurseFindPointer(h: Heap, alloc: nat, living: PtrQueue, ghost image: Image, ghost s: nat,
                            ghost roots: set<nat>, ghost active: set<nat>, ghost unseen: set<nat>)
    requires h.Shape() && image == h.Snapshot() && image.Ok() && image.FieldsOk()
    requires s in image.table && alloc == Address(image.base, s) && Reached(image, roots, s)
    requires living.Valid() && Searching(image, roots, living.elems, active, unseen)
    modifies living
    ensures living.Valid() && Searching(image, roots, living.elems, active, unseen)
    ensures old(Queued(image, living.elems)) + {s} <= Queued(image, living.elems)
    decreases unseen, 0
  {
    AfterEnqueue(image, roots, living.elems, s, active, unseen);
    var isNewPtr := living.Enqueue(alloc);
    if isNewPtr {
      var possiblePointers := FieldsOfObject(h, alloc, image, s);
      MarkChildren(h, possiblePointers, living, image, s, roots, active, unseen - {s});
      MoreUnseen(image, roots, living.elems, active, unseen - {s}, unseen);
    }
  }

  method MarkChildren(h: Heap, pointers: PtrQueue, living: PtrQueue, ghost image: Image, ghost s: nat,
                      ghost roots: set<nat>, ghost active: set<nat>, ghost unseen: set<nat>)
    requires h.Shape() && image == h.Snapshot() && image.Ok() && image.FieldsOk()
    requires s in Queued(image, living.elems) && pointers != living
    requires pointers.Valid() && pointers.elems == FieldAddresses(image.base, s, image.table[s].fields)
    requires living.Valid() && Searching(image, roots, living.elems, active + {s}, unseen)
    modifies pointers, living
    ensures living.Valid() && Searching(image, roots, living.elems, active, unseen)
    ensures old(Queued(image, living.elems)) <= Queued(image, living.elems)
    decreases unseen, 2
  {
    ghost var before, fields := Queued(image, living.elems), image.table[s].fields;
    ghost var addresses := pointers.elems;
    var structPointerPtr := pointers.Dequeue();
    ghost var j := 0;
    while structPointerPtr != 0
      invariant j <= |fields| && pointers.Valid()
      invariant AtField(addresses, j, structPointerPtr, pointers.elems)
      invariant living.Valid() && Searching(image, roots, living.elems, active + {s}, unseen)
      invariant before <= Queued(image, living.elems)
      invariant FollowedUpTo(image, s, j, Queued(image, living.elems))
      decreases |fields| - j
    {
      MarkField(h, structPointerPtr, living, image, s, j, roots, active, unseen);
      ghost var p, rest := structPointerPtr, pointers.elems;
      structPointerPtr := pointers.Dequeue();
      NextField(addresses, j, p, rest, structPointerPtr, pointers.elems);
      j := j + 1;
    }
    ChildrenFollowed(image, roots, s, living.elems, active, unseen);
  }

  lemma StillFollowed(image: Image, s: nat, j: nat, before: set<nat>, after: set<nat>)
    requires s in image.table && j < |image.table[s].fields|
    requires FollowedUpTo(image, s, j, before) && before <= after
    requires image.TargetIn(s, image.table[s].fields[j], after)
    ensures FollowedUpTo(image, s, j + 1, after)
  {
    forall i | 0 <= i < j
      ensures image.TargetIn(s, image.table[s].fields[i], after)
    {
      assert image.TargetIn(s, image.table[s].fields[i], before);
    }
  }

  /** Follows the `j`th field, if it points into the heap. */
  method MarkField(h: Heap, structPointerPtr: nat, living: PtrQueue, ghost image: Image, ghost s: nat, ghost j: nat,
                   ghost roots: set<nat>, ghost active: set<nat>, ghost unseen: set<nat>)
    requires h.Shape() && image == h.Snapshot() && image.Ok() && image.FieldsOk()
    requires s in Queued(image, living.elems) && j < |image.table[s].fields|
    requires structPointerPtr == image.base + 8 * (2 * s + image.table[s].fields[j])
    requires living.Valid() && Searching(image, roots, living.elems, active + {s}, unseen)
    requires FollowedUpTo(image, s, j, Queued(image, living.elems))
    modifies living
    ensures living.Valid() && Searching(image, roots, living.elems, active + {s}, unseen)
    ensures old(Queued(image, living.elems)) <= Queued(image, living.elems)
    ensures FollowedUpTo(image, s, j + 1, Queued(image, living.elems))
    decreases unseen, 1
  {
    var structPointer, inHeap;
    ghost var t;
    structPointer, inHeap, t := ReadField(h, structPointerPtr, image, s, j);
    ghost var before := Queued(image, living.elems);
    if inHeap {
      StepReached(image, roots, s, image.table[s].fields[j], t);
      RecurseFindPointer(h, structPointer, living, image, t, roots, active + {s}, unseen);
    }
    StillFollowed(image, s, j, before, Queued(image, living.elems));
  }

  lemma RootAt(image: Image, elems: seq<nat>, i: nat) returns (s: nat)
    requires OnlyObjects(image, elems) && i < |elems|
    ensures s in Queued(image, elems) && elems[i] == Address(image.base, s)
    ensures Queued(image, elems[..i + 1]) == Queued(image, elems[..i]) + {s}
  {
    assert elems[i] in elems;
    s := SlotOf(image.base, elems[i]);
    PayloadAddress(image.base, image.table, elems[i]);
    forall t | t in Queued(image, elems[..i + 1])
      ensures t in Queued(image, elems[..i]) + {s}
    {
      AddressSlot(image.base, t);
      AddressSlot(image.base, s);
    }
  }

  /** Queues exactly the objects reachable from the roots. */
  method FindLivingObjects(h: Heap, roots: PtrQueue) returns (living: PtrQueue)
    requires h.Shape() && h.Snapshot().Ok() && h.Snapshot().FieldsOk()
    requires roots.Valid() && OnlyObjects(h.Snapshot(), roots.elems)
    ensures fresh(living) && living.Valid()
    ensures OnlyObjects(h.Snapshot(), living.elems)
    ensures h.Snapshot().Reachable(Queued(h.Snapshot(), roots.elems), Queued(h.Snapshot(), living.elems))
  {
    ghost var image := h.Snapshot();
    ghost var rootSet := Queued(image, roots.elems);
    living := new PtrQueue();
    var i := 0;
    while i < |roots.elems|
      invariant 0 <= i <= |roots.elems|
      invariant fresh(living) && living.Valid() && Searching(image, rootSet, living.elems, {}, image.table.Keys)
      invariant Queued(image, roots.elems[..i]) <= Queued(image, living.elems)
    {
      var rootObject := roots.Get(i);
      ghost var s := RootAt(image, roots.elems, i);
      RootReached(image, rootSet, s);
      RecurseFindPointer(h, rootObject, living, image, s, rootSet, {}, image.table.Keys);
      i := i + 1;
    }
    assert roots.elems[..i] == roots.elems;
    ReachedIsReachable(image, rootSet, living.elems);
  }
}

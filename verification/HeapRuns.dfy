/** The states a heap goes through: what each operation does, and what every run keeps. */
module HeapRuns {
  import opened Words
  import opened Header
  import opened HeapModel
  import opened Compaction
  import opened Graph
  import opened Collector

  /** A heap image with its allocation map, its bump pointer, and its count of used bytes. */
  datatype HeapState = HeapState(image: Image, bits: seq<bool>, bump: nat, used: int)
  {
    ghost predicate Good() {
      && image.Ok()
      && image.FieldsOk()
      && |bits| == image.Slots()
      && MapExact(bits, image.table)
      && bump % SLOT_BYTES == 0
      && used == PayloadSum(image.table)
    }
  }

  // ---------------------------------------------------------------- a new object

  /** A header, and zeroes in the rest of its `n` slots. */
  function WithObject(mem: seq<Word>, s: nat, header: Word, n: nat): (r: seq<Word>)
    ensures |r| == |mem|
  {
    seq(|mem|, k requires 0 <= k < |mem| =>
      if k == 2 * s then header else if 2 * s < k < 2 * (s + n) then 0 else mem[k])
  }

  /** A header put in front of `n` slots. The table gets what the collector reads from it. */
  function ImagePlaced(image: Image, s: nat, header: Word, n: nat): Image {
    Image(image.base, WithObject(image.mem, s, header, n), image.table[s := ObjOf(header)])
  }

  function ImageWith(image: Image, s: nat, header: Word): Image {
    ImagePlaced(image, s, header, ObjOf(header).slots)
  }

  lemma SlotTaken(table: Table, bits: seq<bool>, t: nat, k: nat)
    requires MapExact(bits, table) && t in table && t <= k < t + table[t].slots && k < |bits|
    ensures bits[k]
  {
    assert Covered(table, k);
  }

  /** A free place lies apart from every object. */
  lemma FreePlaceApart(table: Table, bits: seq<bool>, s: nat, n: nat, t: nat)
    requires TableOk(table, |bits|) && MapExact(bits, table)
    requires Fits(bits, s, n) && n > 0 && t in table
    ensures t != s && (t < s ==> t + table[t].slots <= s) && (s < t ==> s + n <= t)
  {
    assert InPlace(t, table[t], |bits|);
    var k := if s < t then t else s;
    if t <= k < t + table[t].slots && k < s + n {
      SlotTaken(table, bits, t, k);
    }
  }

  lemma AddTableOk(table: Table, bits: seq<bool>, s: nat, o: Obj)
    requires TableOk(table, |bits|) && MapExact(bits, table)
    requires WellPlaced(o) && Fits(bits, s, o.slots)
    ensures s !in table && TableOk(table[s := o], |bits|)
  {
    forall t | t in table
      ensures t != s && (t < s ==> t + table[t].slots <= s) && (s < t ==> s + o.slots <= t)
      ensures InPlace(t, table[t], |bits|)
    {
      FreePlaceApart(table, bits, s, o.slots, t);
    }
  }

  lemma AddMap(table: Table, bits: seq<bool>, s: nat, o: Obj)
    requires MapExact(bits, table) && s !in table
    ensures MapExact(SetRange(bits, s, o.slots), table[s := o])
  {
    var table' := table[s := o];
    forall k | 0 <= k < |bits|
      ensures Covered(table', k) <==> Covered(table, k) || s <= k < s + o.slots
    {
      if Covered(table, k) {
        var t :| t in table && t <= k < t + table[t].slots;
        assert t in table' && table'[t] == table[t];
      }
      if s <= k < s + o.slots {
        assert s in table' && table'[s] == o;
      }
    }
  }

  /** The words of other objects are not touched. */
  lemma OtherWords(image: Image, bits: seq<bool>, s: nat, header: Word, n: nat, t: nat, i: nat)
    requires image.Ok() && |bits| == image.Slots() && MapExact(bits, image.table)
    requires Fits(bits, s, n) && n > 0 && t in image.table && i < 2 * image.table[t].slots
    ensures t != s
    ensures 2 * t + i < |image.mem| && ImagePlaced(image, s, header, n).mem[2 * t + i] == image.mem[2 * t + i]
  {
    assert InPlace(t, image.table[t], |bits|);
    FreePlaceApart(image.table, bits, s, n, t);
  }

  lemma AddDescribed(image: Image, bits: seq<bool>, s: nat, header: Word)
    requires image.Ok() && |bits| == image.Slots() && MapExact(bits, image.table)
    requires Fits(bits, s, ObjOf(header).slots) && HeaderType(header) == HEADER_BIT_VECTOR
    ensures Describes(ImageWith(image, s, header).mem, ImageWith(image, s, header).table)
  {
    var image' := ImageWith(image, s, header);
    ObjWellPlaced(header);
    hide ObjOf;
    forall t | t in image'.table
      ensures DescribesAt(image'.mem, t, image'.table[t])
    {
      if t != s {
        assert DescribesAt(image.mem, t, image.table[t]) && InPlace(t, image.table[t], |bits|);
        OtherWords(image, bits, s, header, ObjOf(header).slots, t, 0);
      }
    }
  }

  /** The fields of the new object are NULL, and those of the others are as before. */
  lemma AddField(image: Image, bits: seq<bool>, s: nat, header: Word, t: nat, w: nat)
    requires image.Ok() && image.FieldsOk() && |bits| == image.Slots() && MapExact(bits, image.table)
    requires Fits(bits, s, ObjOf(header).slots)
    requires t in ImageWith(image, s, header).table && w in ImageWith(image, s, header).table[t].fields
    ensures ImageWith(image, s, header).FieldOk(t, w)
  {
    ObjWellPlaced(header);
    hide ObjOf;
    if t != s {
      assert image.FieldOk(t, w) && InPlace(t, image.table[t], |bits|);
      OtherWords(image, bits, s, header, ObjOf(header).slots, t, w);
    }
  }

  /** A new object in a free place keeps everything. */
  lemma AddObject(image: Image, bits: seq<bool>, s: nat, header: Word)
    requires image.Ok() && image.FieldsOk() && |bits| == image.Slots() && MapExact(bits, image.table)
    requires Fits(bits, s, ObjOf(header).slots) && HeaderType(header) == HEADER_BIT_VECTOR
    ensures s !in image.table
    ensures ImageWith(image, s, header).Ok() && ImageWith(image, s, header).FieldsOk()
    ensures MapExact(SetRange(bits, s, ObjOf(header).slots), ImageWith(image, s, header).table)
    ensures PayloadSum(ImageWith(image, s, header).table) == PayloadBytes(ObjOf(header)) + PayloadSum(image.table)
  {
    var o := ObjOf(header);
    ObjWellPlaced(header);
    AddTableOk(image.table, bits, s, o);
    AddMap(image.table, bits, s, o);
    PayloadSumAdd(image.table, s, o);
    AddDescribed(image, bits, s, header);
    hide ObjOf, Fits, MapExact, TableOk, Describes, WithObject, PayloadSum;
    forall t, w | t in ImageWith(image, s, header).table && w in ImageWith(image, s, header).table[t].fields
      ensures ImageWith(image, s, header).FieldOk(t, w)
    {
      AddField(image, bits, s, header, t, w);
    }
  }

  // ---------------------------------------------------------------- space

  /** Free slots. */
  function CountFree(bits: seq<bool>): (n: nat)
    ensures n <= |bits|
  {
    if bits == [] then 0 else CountFree(bits[..|bits| - 1]) + if bits[|bits| - 1] then 0 else 1
  }

  lemma {:induction false} CountTaken(bits: seq<bool>, k: nat)
    requires k < |bits| && !bits[k]
    ensures CountFree(bits[k := true]) == CountFree(bits) - 1
  {
    var init := bits[..|bits| - 1];
    if k < |bits| - 1 {
      CountTaken(init, k);
      assert bits[k := true][..|bits| - 1] == init[k := true];
    } else {
      assert bits[k := true][..|bits| - 1] == init;
    }
  }

  lemma {:induction false} CountRange(bits: seq<bool>, d: nat, n: nat)
    requires d + n <= |bits| && Free(bits, d, n)
    ensures CountFree(SetRange(bits, d, n)) == CountFree(bits) - n
  {
    if n == 0 {
      assert SetRange(bits, d, 0) == bits;
    } else {
      CountRange(bits, d, n - 1);
      CountTaken(SetRange(bits, d, n - 1), d + n - 1);
      assert SetRange(bits, d, n - 1)[d + n - 1 := true] == SetRange(bits, d, n);
    }
  }

  lemma {:induction false} AllFree(bits: seq<bool>)
    requires forall k :: 0 <= k < |bits| ==> !bits[k]
    ensures CountFree(bits) == |bits|
  {
    if bits != [] {
      AllFree(bits[..|bits| - 1]);
    }
  }

  /** The map without one object. */
  lemma MapWithout(table: Table, bits: seq<bool>, s: nat) returns (bits': seq<bool>)
    requires TableOk(table, |bits|) && MapExact(bits, table) && s in table
    ensures |bits'| == |bits| && TableOk(table - {s}, |bits|) && MapExact(bits', table - {s})
    ensures s + table[s].slots <= |bits| && Free(bits', s, table[s].slots)
    ensures bits == SetRange(bits', s, table[s].slots)
  {
    var n, rest := table[s].slots, table - {s};
    assert InPlace(s, table[s], |bits|);
    bits' := seq(|bits|, k requires 0 <= k < |bits| => bits[k] && !(s <= k < s + n));
    forall t | t in rest
      ensures InPlace(t, rest[t], |bits|) && Apart(t, rest[t].slots, s, n)
    {
      assert InPlace(t, table[t], |bits|);
    }
    forall k | 0 <= k < |bits|
      ensures Covered(rest, k) <==> bits'[k]
    {
      if s <= k < s + n {
        assert Covered(table, k);
      } else if bits[k] {
        var t :| t in table && t <= k < t + table[t].slots;
        assert t in rest;
      }
      if Covered(rest, k) {
        var t :| t in rest && t <= k < t + rest[t].slots;
        assert t in table && Apart(t, rest[t].slots, s, n);
        assert Covered(table, k);
      }
    }
    assert forall k :: s <= k < s + n ==> Covered(table, k);
  }

  /** Payload bytes, headers, and free slots make up the whole heap. */
  lemma {:induction false} SpaceConserved(table: Table, bits: seq<bool>)
    requires TableOk(table, |bits|) && MapExact(bits, table)
    ensures PayloadSum(table) + SLOT_BYTES * CountFree(bits) + HEADER_BYTES * |table| == SLOT_BYTES * |bits|
    decreases |table|
  {
    if table == map[] {
      forall k | 0 <= k < |bits|
        ensures !bits[k]
      {
        assert !Covered(table, k);
      }
      AllFree(bits);
    } else {
      var s :| s in table;
      var bits' := MapWithout(table, bits, s);
      CountRange(bits', s, table[s].slots);
      RemoveCount(table, s);
      SpaceConserved(table - {s}, bits');
      PayloadSumRemove(table, s);
    }
  }

  // ---------------------------------------------------------------- the operations

  /** An object gets `n` slots in the first place from the bump pointer that has a slot to spare. */
  ghost predicate PlacedIn(before: HeapState, after: HeapState, header: Word, s: nat, n: nat) {
    && HeaderType(header) == HEADER_BIT_VECTOR
    && FirstFit(before.bits, before.bump / SLOT_BYTES, n + 1, s)
    && after == HeapState(ImagePlaced(before.image, s, header, n), SetRange(before.bits, s, n), SLOT_BYTES * (s + n),
                          before.used + SLOT_BYTES * n - HEADER_BYTES)
  }

  /** An allocation: the slots are those that the collector reads from the header. */
  ghost predicate AllocatedAt(before: HeapState, after: HeapState, header: Word, s: nat) {
    PlacedIn(before, after, header, s, ObjOf(header).slots)
  }

  /** A search for `n` slots changes nothing but the bump pointer, and that only forward, to where it ends. */
  ghost predicate BumpMoved(before: HeapState, after: HeapState, n: nat) {
    && after == before.(bump := after.bump) && before.bump <= after.bump
    && SearchEnds(before.bits, before.bump / SLOT_BYTES, n, after.bump)
  }

  /** A failed search for `n` slots, with half a slot to spare, leaves less than that behind the bump pointer. */
  ghost predicate SearchFailed(before: HeapState, after: HeapState, n: nat) {
    BumpMoved(before, after, n + 1) && after.bump + SLOT_BYTES * n + HEADER_BYTES > SLOT_BYTES * |before.bits|
  }

  /**
   A collection with the given roots: the map shows the objects at their new places, used bytes are
   their payloads, no forwarding header is left, and the bump pointer is behind the last object moved.
   */
  ghost predicate CollectedTo(before: HeapState, after: HeapState, roots: set<nat>, live: Table, moved: Moves) {
    && live.Keys == moved.Keys && MovesDistinct(moved)
    && Collected(before.image, roots, live, moved, after.image.mem)
    && after.image == Image(before.image.base, after.image.mem, NewTable(live, moved))
    && |after.image.mem| == |before.image.mem|
    && |after.bits| == |before.bits| && BitsLeft(live, moved, live.Keys, after.bits)
    && after.used == PayloadSum(live)
    && after.bump % SLOT_BYTES == 0 && BumpLeft(live, roots, moved, after.bump)
  }

  /**
   The program stores a word into the payload of an object; into a pointer field only NULL, an
   object, or an outside address.
   */
  ghost predicate Stored(before: HeapState, after: HeapState, s: nat, w: nat, value: Word) {
    && s in before.image.table && 1 <= w < 2 * before.image.table[s].slots
    && (w in before.image.table[s].fields && InRange(before.image.base, before.image.Slots(), value) ==>
          IsPayload(before.image.base, before.image.table, value))
    && 2 * s + w < |before.image.mem|
    && after == before.(image := before.image.(mem := before.image.mem[2 * s + w := value]))
  }

  ghost predicate HeapStep(before: HeapState, after: HeapState) {
    || (exists header, s :: AllocatedAt(before, after, header, s))
    || (exists n :: SearchFailed(before, after, n))
    || (exists roots, live, moved :: CollectedTo(before, after, roots, live, moved))
    || (exists s, w, value :: Stored(before, after, s, w, value))
  }

  // ---------------------------------------------------------------- every run

  lemma FitsLess(bits: seq<bool>, s: nat, n: nat)
    requires Fits(bits, s, n + 1)
    ensures Fits(bits, s, n)
  {
  }

  lemma AllocationGood(before: HeapState, after: HeapState, header: Word, s: nat)
    requires before.Good() && AllocatedAt(before, after, header, s)
    ensures after.Good()
  {
    hide ObjOf, Fits, MapExact, Image.Ok, Image.FieldsOk, WithObject, PayloadSum, NoFit;
    FitsLess(before.bits, s, ObjOf(header).slots);
    AddObject(before.image, before.bits, s, header);
  }

  /** A table that overlaps itself, or a map that shows too much, gives the wrong extent away. */
  lemma ExtentDecides(table: Table, bits: seq<bool>, s: nat, o: Obj, n: nat)
    requires TableOk(table, |bits|) && MapExact(bits, table)
    requires Fits(bits, s, n) && n > 0 && o.slots != n
    ensures !(TableOk(table[s := o], |bits|) && MapExact(SetRange(bits, s, n), table[s := o]))
  {
    var table', bits' := table[s := o], SetRange(bits, s, n);
    NotThere(table, bits, s, n);
    if TableOk(table', |bits|) && MapExact(bits', table') {
      if o.slots < n {
        CoversNoMore(table, s, o, s + o.slots);
      } else {
        CoversAlone(table, s, o, |bits|, s + n);
      }
    }
  }

  lemma NotThere(table: Table, bits: seq<bool>, s: nat, n: nat)
    requires TableOk(table, |bits|) && MapExact(bits, table) && Fits(bits, s, n) && n > 0
    ensures s !in table
  {
    if s in table {
      FreePlaceApart(table, bits, s, n, s);
    }
  }

  /** Behind the new object the table covers what it covered before. */
  lemma CoversNoMore(table: Table, s: nat, o: Obj, k: nat)
    requires s !in table && s + o.slots <= k
    ensures Covered(table[s := o], k) ==> Covered(table, k)
  {
    if Covered(table[s := o], k) {
      var t :| t in table[s := o] && t <= k < t + table[s := o][t].slots;
      assert t in table && table[t] == table[s := o][t];
    }
  }

  /** Slots of the new object are slots of no other one. */
  lemma CoversAlone(table: Table, s: nat, o: Obj, slots: nat, k: nat)
    requires s !in table && TableOk(table[s := o], slots) && s <= k < s + o.slots
    ensures k < slots && Covered(table[s := o], k) && !Covered(table, k)
  {
    var table' := table[s := o];
    assert InPlace(s, table'[s], slots);
    forall t | t in table
      ensures !(t <= k < t + table[t].slots)
    {
      assert t in table' && table'[t] == table[t];
    }
  }

  /**
   Placing an object keeps the heap well formed exactly when the slots reserved for it are those
   that the collector reads from its header.
   */
  lemma PlacementGood(before: HeapState, after: HeapState, header: Word, s: nat, n: nat)
    requires before.Good() && PlacedIn(before, after, header, s, n) && n > 0
    ensures after.Good() <==> ObjOf(header).slots == n
  {
    hide ObjOf, Fits, MapExact, TableOk, Image.FieldsOk, WithObject, PayloadSum, NoFit, Describes;
    FitsLess(before.bits, s, n);
    if ObjOf(header).slots == n {
      AllocationGood(before, after, header, s);
    } else {
      ExtentDecides(before.image.table, before.bits, s, ObjOf(header), n);
    }
  }

  lemma CollectionGood(before: HeapState, after: HeapState, roots: set<nat>, live: Table, moved: Moves)
    requires before.Good() && CollectedTo(before, after, roots, live, moved)
    ensures after.Good()
  {
    hide Fits, MapExact, Image.Ok, Image.FieldsOk, PayloadSum, Collected, NewTable, BitsLeft;
    NewImageOk(before.image, roots, live, moved, after.image.mem);
    AllFreed(live, moved, after.bits);
  }

  /** A collection leaves no choice: what survives, where it goes and where the bump pointer is are decided. */
  lemma CollectionDetermined(before: HeapState, after: HeapState, after': HeapState, roots: set<nat>,
                             live: Table, moved: Moves, live': Table, moved': Moves)
    requires CollectedTo(before, after, roots, live, moved)
    requires CollectedTo(before, after', roots, live', moved')
    ensures live == live' && moved == moved'
    ensures after.image.table == after'.image.table && after.bits == after'.bits
    ensures after.used == after'.used && after.bump == after'.bump
  {
    hide NewTable, PayloadSum, GraphPreserved, SlidDown, PlacedApart, ForwardingKept, OrderKept, Image.Reachable;
    hide BitsLeft, BumpLeft, MovesDistinct, RootsPinned, AllWentFirst;
    ReachableUnique(before.image, roots, live.Keys, live'.Keys);
    assert live == live';
    forall s | s in moved
      ensures moved[s] == moved'[s]
    {
      PlacesDetermined(live, roots, moved, moved', before.image.Slots(), s);
    }
    assert moved == moved';
    SameEnd(live, roots, moved, after, after');
  }

  lemma SameEnd(live: Table, roots: set<nat>, moved: Moves, after: HeapState, after': HeapState)
    requires live.Keys == moved.Keys && |after.bits| == |after'.bits|
    requires BumpLeft(live, roots, moved, after.bump) && BumpLeft(live, roots, moved, after'.bump)
    requires BitsLeft(live, moved, live.Keys, after.bits) && BitsLeft(live, moved, live.Keys, after'.bits)
    ensures after.bits == after'.bits && after.bump == after'.bump
  {
    assert forall k :: 0 <= k < |after.bits| ==> (after.bits[k] <==> after'.bits[k]);
  }

  /** Header words are not payload words. */
  lemma StoreMissesHeader(image: Image, s: nat, w: nat, t: nat)
    requires image.Ok() && s in image.table && t in image.table && 1 <= w < 2 * image.table[s].slots
    ensures 2 * t != 2 * s + w
    ensures forall v :: v in image.table[t].fields && 2 * t + v == 2 * s + w ==> t == s && v == w
  {
    assert InPlace(s, image.table[s], image.Slots()) && InPlace(t, image.table[t], image.Slots());
  }

  lemma StoreGood(before: HeapState, after: HeapState, s: nat, w: nat, value: Word)
    requires before.Good() && Stored(before, after, s, w, value)
    ensures after.Good()
  {
    hide MapExact, PayloadSum, ObjOf, TableOk, AddressesFit;
    var image, image' := before.image, after.image;
    forall t | t in image.table
      ensures DescribesAt(image'.mem, t, image.table[t])
    {
      assert DescribesAt(image.mem, t, image.table[t]);
      StoreMissesHeader(image, s, w, t);
    }
    forall t, v | t in image.table && v in image.table[t].fields
      ensures image'.FieldOk(t, v)
    {
      assert image.FieldOk(t, v);
      StoreMissesHeader(image, s, w, t);
    }
  }

  lemma StepGood(before: HeapState, after: HeapState)
    requires before.Good() && HeapStep(before, after)
    ensures after.Good()
  {
    hide HeapState.Good, AllocatedAt, SearchFailed, CollectedTo, Stored;
    if header, s :| AllocatedAt(before, after, header, s) {
      AllocationGood(before, after, header, s);
    } else if roots, live, moved :| CollectedTo(before, after, roots, live, moved) {
      CollectionGood(before, after, roots, live, moved);
    } else if s, w, value :| Stored(before, after, s, w, value) {
      StoreGood(before, after, s, w, value);
    } else {
      var n :| SearchFailed(before, after, n);
      SearchFailedGood(before, after, n);
    }
  }

  lemma SearchFailedGood(before: HeapState, after: HeapState, n: nat)
    requires before.Good() && SearchFailed(before, after, n)
    ensures after.Good()
  {
  }

  ghost predicate IsRun(states: seq<HeapState>) {
    && states != []
    && forall i :: 0 <= i < |states| - 1 ==> HeapStep(states[i], states[i + 1])
  }

  /**
   Every run of allocations, collections and stores keeps the heap well formed, and conserves
   space: used bytes, free bytes and one header for each object make up the heap.
   */
  lemma {:induction false} RunsStayGood(states: seq<HeapState>)
    requires IsRun(states) && states[0].Good()
    ensures var last := states[|states| - 1];
            && last.Good()
            && last.used + SLOT_BYTES * CountFree(last.bits) + HEADER_BYTES * |last.image.table| ==
               SLOT_BYTES * |last.bits|
  {
    hide HeapStep;
    var last := states[|states| - 1];
    if |states| > 1 {
      var init := states[..|states| - 1];
      RunsStayGood(init);
      assert HeapStep(states[|states| - 2], states[|states| - 2 + 1]);
      StepGood(states[|states| - 2], last);
    }
    SpaceConserved(last.image.table, last.bits);
  }

  // ---------------------------------------------------------------- runs without a collection

  /** Any placement, failed search or store. */
  ghost predicate PlainStep(before: HeapState, after: HeapState) {
    || (exists header, s, n :: PlacedIn(before, after, header, s, n))
    || (exists n :: SearchFailed(before, after, n))
    || (exists s, w, value :: Stored(before, after, s, w, value))
  }

  ghost predicate IsPlainRun(states: seq<HeapState>) {
    && states != []
    && forall i :: 0 <= i < |states| - 1 ==> PlainStep(states[i], states[i + 1])
  }

  lemma PlainBump(before: HeapState, after: HeapState)
    requires PlainStep(before, after) && before.bump % SLOT_BYTES == 0
    ensures before.bump <= after.bump && after.bump % SLOT_BYTES == 0 && |after.bits| == |before.bits|
  {
    hide NoFit, Fits, ImagePlaced;
  }

  lemma {:induction false} PlainRunBump(states: seq<HeapState>)
    requires IsPlainRun(states) && states[0].bump % SLOT_BYTES == 0
    ensures var last := states[|states| - 1];
            states[0].bump <= last.bump && last.bump % SLOT_BYTES == 0 && |last.bits| == |states[0].bits|
  {
    hide PlainStep;
    if |states| > 1 {
      PlainRunBump(states[..|states| - 1]);
      assert PlainStep(states[|states| - 2], states[|states| - 2 + 1]);
      PlainBump(states[|states| - 2], states[|states| - 1]);
    }
  }

  /**
   After a failed search, and until a collection, there is no place for as many slots or more: only a
   collection brings the bump pointer back.
   */
  lemma FullUntilCollected(before: HeapState, states: seq<HeapState>, n: nat, m: nat)
    requires IsPlainRun(states) && SearchFailed(before, states[0], n) && n <= m
    ensures var last := states[|states| - 1];
            && NoFit(last.bits, last.bump / SLOT_BYTES, m + 1, |last.bits|)
            && forall after, header, s :: !PlacedIn(last, after, header, s, m)
  {
    hide PlainStep, ImagePlaced, SetRange, Free, NoFit;
    PlainRunBump(states);
    var last := states[|states| - 1];
    TooClose(last.bits, last.bump / SLOT_BYTES, m + 1);
  }

  lemma TooClose(bits: seq<bool>, b: nat, n: nat)
    requires b + n > |bits|
    ensures NoFit(bits, b, n, |bits|)
    ensures forall e: nat :: Fits(bits, e, n) ==> e < b
  {
  }
}

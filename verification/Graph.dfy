/** The object graph of a heap image: reachability, and what a collection must preserve of it. */
module Graph {
  import opened Words
  import opened Header
  import opened HeapModel
  import opened Compaction

  /** The heap image a collection starts from. */
  datatype Image = Image(base: nat, mem: seq<Word>, table: Table)
  {
    function Slots(): nat {
      |mem| / 2
    }

    ghost predicate Ok() {
      && base > 0
      && |mem| % 2 == 0
      && AddressesFit(base, |mem|)
      && TableOk(table, Slots())
      && Describes(mem, table)
    }

    /** An address outside the heap whose preceding word lies outside the heap too. */
    predicate IsForeign(p: nat) {
      HEADER_BYTES <= p && (p < base || base + SLOT_BYTES * Slots() + HEADER_BYTES <= p)
    }

    /** Fields that point into the heap point at objects. */
    ghost predicate FieldsOk() {
      forall s, w :: s in table && w in table[s].fields ==> FieldOk(s, w)
    }

    ghost predicate FieldOk(s: nat, w: nat) {
      && 2 * s + w < |mem|
      && (InRange(base, Slots(), mem[2 * s + w]) ==> IsPayload(base, table, mem[2 * s + w]))
    }

    /** `c` contains every object that a field of one of its objects points to. */
    ghost predicate Closed(c: set<nat>) {
      forall s, w :: s in c && s in table && w in table[s].fields ==> TargetIn(s, w, c)
    }

    ghost predicate TargetIn(s: nat, w: nat, c: set<nat>) {
      && 2 * s + w < |mem|
      && (InRange(base, Slots(), mem[2 * s + w]) ==> SlotOf(base, mem[2 * s + w]) in c)
    }

    /** `live` is the least closed set of objects that contains the roots. */
    ghost predicate Reachable(roots: set<nat>, live: set<nat>) {
      && roots <= live <= table.Keys
      && Closed(live)
      && forall c: set<nat> :: roots <= c && Closed(c) ==> live <= c
    }
  }

  function Restrict(table: Table, live: set<nat>): (r: Table)
    ensures r.Keys == table.Keys * live
    ensures forall s :: s in r ==> r[s] == table[s]
  {
    map s | s in table && s in live :: table[s]
  }

  /** There is only one such set. */
  lemma ReachableUnique(image: Image, roots: set<nat>, live: set<nat>, live': set<nat>)
    requires image.Reachable(roots, live) && image.Reachable(roots, live')
    ensures live == live'
  {
  }

  // ---------------------------------------------------------------- after the move

  /** The pointer `p`, redirected to where its object is now; other values are left alone. */
  function Redirect(base: nat, live: Table, moved: Moves, p: nat): nat
    requires live.Keys <= moved.Keys
  {
    if IsPayload(base, live, p) then Address(base, moved[SlotOf(base, p)]) else p
  }

  /**
   Every live object is at its new place with its old header and contents, except that its
   pointers have been redirected.
   */
  ghost predicate GraphPreserved(image: Image, live: Table, moved: Moves, after: seq<Word>)
    requires live.Keys <= moved.Keys
  {
    forall s, i :: s in live && 0 <= i < 2 * live[s].slots ==> WordPreserved(image, live, moved, after, s, i)
  }

  ghost predicate WordPreserved(image: Image, live: Table, moved: Moves, after: seq<Word>, s: nat, i: nat)
    requires live.Keys <= moved.Keys && s in live
  {
    && 2 * moved[s] + i < |after| && 2 * s + i < |image.mem|
    && after[2 * moved[s] + i] ==
         if i in live[s].fields then Redirect(image.base, live, moved, image.mem[2 * s + i])
         else image.mem[2 * s + i]
  }

  ghost predicate MovesDistinct(moved: Moves) {
    forall s, t :: s in moved && t in moved && moved[s] == moved[t] ==> s == t
  }

  /** Where the objects are after the collection. */
  function NewTable(live: Table, moved: Moves): Table
    requires live.Keys == moved.Keys
    requires MovesDistinct(moved)
  {
    map s | s in live :: moved[s] := live[s]
  }

  lemma NewTableEntries(live: Table, moved: Moves)
    requires live.Keys == moved.Keys && MovesDistinct(moved)
    ensures var r := NewTable(live, moved);
            && (forall s :: s in live ==> moved[s] in r && r[moved[s]] == live[s])
            && (forall d :: d in r ==> exists s :: s in live && moved[s] == d && r[d] == live[s])
  {
  }

  lemma MovesInjective(live: Table, moved: Moves, slots: nat)
    requires TableOk(live, slots) && live.Keys == moved.Keys
    requires SlidDown(live, moved) && PlacedApart(live, moved)
    ensures MovesDistinct(moved)
  {
    forall s, t | s in moved && t in moved && s != t
      ensures moved[s] != moved[t]
    {
      assert InPlace(s, live[s], slots) && InPlace(t, live[t], slots);
      assert Apart(moved[s], live[s].slots, moved[t], live[t].slots);
    }
  }

  lemma NewTableOk(live: Table, moved: Moves, slots: nat)
    requires TableOk(live, slots) && live.Keys == moved.Keys
    requires SlidDown(live, moved) && PlacedApart(live, moved) && MovesDistinct(moved)
    ensures TableOk(NewTable(live, moved), slots)
  {
    hide InPlace, SlidDown, PlacedApart, NewTable, WellPlaced, MovesDistinct;
    NewTableEntries(live, moved);
    forall s | s in live
      ensures InPlace(moved[s], live[s], slots)
    {
      MovedInPlace(live, moved, slots, s);
    }
    forall s, t | s in live && t in live && moved[s] < moved[t]
      ensures moved[s] + live[s].slots <= moved[t]
    {
      MovedApart(live, moved, slots, s, t);
    }
  }

  lemma MovedInPlace(live: Table, moved: Moves, slots: nat, s: nat)
    requires TableOk(live, slots) && live.Keys == moved.Keys && SlidDown(live, moved) && s in live
    ensures InPlace(moved[s], live[s], slots)
  {
    assert InPlace(s, live[s], slots);
    assert SlidDownOne(s, moved[s], live[s].slots);
  }

  lemma MovedApart(live: Table, moved: Moves, slots: nat, s: nat, t: nat)
    requires TableOk(live, slots) && live.Keys == moved.Keys && PlacedApart(live, moved)
    requires s in live && t in live && moved[s] < moved[t]
    ensures moved[s] + live[s].slots <= moved[t]
  {
    assert InPlace(t, live[t], slots);
    assert Apart(moved[s], live[s].slots, moved[t], live[t].slots);
  }

  lemma NewTableRemove(live: Table, moved: Moves, s: nat)
    requires live.Keys == moved.Keys && MovesDistinct(moved) && s in live
    ensures NewTable(live, moved) - {moved[s]} == NewTable(live - {s}, moved - {s})
  {
    var whole, rest := NewTable(live, moved), NewTable(live - {s}, moved - {s});
    NewTableEntries(live, moved);
    NewTableEntries(live - {s}, moved - {s});
    forall d | d in whole && d != moved[s]
      ensures d in rest && rest[d] == whole[d]
    {
      var t :| t in live && moved[t] == d && whole[d] == live[t];
      assert t in live - {s};
    }
    forall d | d in rest
      ensures d in whole && d != moved[s]
    {
      var t :| t in live - {s} && (moved - {s})[t] == d && rest[d] == (live - {s})[t];
    }
  }

  /** A collection neither loses nor invents payload bytes of live objects. */
  lemma {:induction false} NewTableSum(live: Table, moved: Moves)
    requires live.Keys == moved.Keys && MovesDistinct(moved)
    ensures PayloadSum(NewTable(live, moved)) == PayloadSum(live)
    decreases live.Keys
  {
    if live == map[] {
      assert NewTable(live, moved) == map[];
    } else {
      var s :| s in live;
      NewTableEntries(live, moved);
      NewTableRemove(live, moved, s);
      NewTableSum(live - {s}, moved - {s});
      PayloadSumRemove(live, s);
      PayloadSumRemove(NewTable(live, moved), moved[s]);
    }
  }

  lemma RemoveCount(table: Table, s: nat)
    requires s in table
    ensures |table - {s}| == |table| - 1
  {
    assert (table - {s}).Keys == table.Keys - {s};
  }

  // ---------------------------------------------------------------- the new image is a heap again

  lemma NewImageDescribed(image: Image, live: Table, moved: Moves, after: seq<Word>)
    requires live.Keys == moved.Keys && MovesDistinct(moved)
    requires Describes(image.mem, live)
    requires forall s :: s in live ==> WellPlaced(live[s])
    requires GraphPreserved(image, live, moved, after)
    ensures Describes(after, NewTable(live, moved))
  {
    var table := NewTable(live, moved);
    NewTableEntries(live, moved);
    forall s | s in live
      ensures DescribesAt(after, moved[s], live[s])
    {
      assert WellPlaced(live[s]);
      assert WordPreserved(image, live, moved, after, s, 0);
      assert DescribesAt(image.mem, s, live[s]);
    }
  }

  /** A redirected field points at an object at its new place, or outside the heap. */
  lemma RedirectLands(image: Image, live: Table, moved: Moves, s: nat, w: nat)
    requires live.Keys == moved.Keys && MovesDistinct(moved)
    requires live == Restrict(image.table, live.Keys)
    requires image.FieldOk(s, w) && image.TargetIn(s, w, live.Keys)
    ensures var q := Redirect(image.base, live, moved, image.mem[2 * s + w]);
            InRange(image.base, image.Slots(), q) ==> IsPayload(image.base, NewTable(live, moved), q)
  {
    var p := image.mem[2 * s + w];
    NewTableEntries(live, moved);
    if IsPayload(image.base, live, p) {
      AddressSlot(image.base, moved[SlotOf(image.base, p)]);
    }
  }

  /** Fields that pointed at live objects point at their new places, and at nothing else in the heap. */
  lemma NewImageFields(image: Image, live: Table, moved: Moves, after: seq<Word>)
    requires live.Keys == moved.Keys && MovesDistinct(moved)
    requires |after| == |image.mem|
    requires forall s :: s in live ==> WellPlaced(live[s])
    requires live == Restrict(image.table, live.Keys)
    requires image.FieldsOk() && image.Closed(live.Keys)
    requires GraphPreserved(image, live, moved, after)
    ensures Image(image.base, after, NewTable(live, moved)).FieldsOk()
  {
    var image' := Image(image.base, after, NewTable(live, moved));
    NewTableEntries(live, moved);
    forall s, w | s in live && w in live[s].fields
      ensures image'.FieldOk(moved[s], w)
    {
      assert WellPlaced(live[s]);
      assert image.FieldOk(s, w) && image.TargetIn(s, w, live.Keys);
      assert WordPreserved(image, live, moved, after, s, w);
      RedirectLands(image, live, moved, s, w);
    }
  }
}

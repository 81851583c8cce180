/** A collection leaves no garbage: what is there afterwards is what the roots reach. */
module Garbage {
  import opened Words
  import opened HeapModel
  import opened Compaction
  import opened Graph
  import opened Collector
  import opened HeapRuns

  /** The objects whose new places are in a set. */
  function Origins(moved: Moves, c: set<nat>): set<nat> {
    set s | s in moved && moved[s] in c
  }

  /** A pointer between live objects leads from new place to new place. */
  lemma PointerFollows(image: Image, live: Table, moved: Moves, after: seq<Word>, s: nat, w: nat)
    requires live.Keys == moved.Keys && live == Restrict(image.table, live.Keys)
    requires s in live && w in live[s].fields && WordPreserved(image, live, moved, after, s, w)
    requires w < 2 * live[s].slots
    requires image.FieldOk(s, w) && image.TargetIn(s, w, live.Keys)
    requires InRange(image.base, image.Slots(), image.mem[2 * s + w])
    ensures SlotOf(image.base, image.mem[2 * s + w]) in live
    ensures after[2 * moved[s] + w] == Address(image.base, moved[SlotOf(image.base, image.mem[2 * s + w])])
  {
  }

  lemma PlaceInRange(base: nat, slots: nat, d: nat)
    requires d < slots
    ensures InRange(base, slots, Address(base, d)) && SlotOf(base, Address(base, d)) == d
  {
    AddressSlot(base, d);
  }

  /** What a live object points to is live, and its new place is where the redirected pointer leads. */
  lemma OriginTarget(image: Image, live: Table, moved: Moves, after: seq<Word>, c: set<nat>, s: nat, w: nat)
    requires image.Ok() && image.FieldsOk() && image.Closed(live.Keys)
    requires live.Keys == moved.Keys && MovesDistinct(moved) && SlidDown(live, moved)
    requires live == Restrict(image.table, live.Keys)
    requires GraphPreserved(image, live, moved, after) && |after| == |image.mem|
    requires Image(image.base, after, NewTable(live, moved)).Closed(c)
    requires s in Origins(moved, c) && w in live[s].fields
    ensures image.TargetIn(s, w, Origins(moved, c))
  {
    assert s in live;
    hide *;
    LiveField(image, live, moved, after, s, w);
    NewField(image, live, moved, after, c, s, w);
    OriginFound(image, live, moved, after, c, s, w);
  }

  /** What is known about one field of a live object. */
  lemma LiveField(image: Image, live: Table, moved: Moves, after: seq<Word>, s: nat, w: nat)
    requires image.Ok() && image.FieldsOk() && image.Closed(live.Keys)
    requires live.Keys == moved.Keys && live == Restrict(image.table, live.Keys)
    requires GraphPreserved(image, live, moved, after)
    requires s in live && w in live[s].fields
    ensures w < 2 * live[s].slots && TableOk(live, image.Slots())
    ensures image.FieldOk(s, w) && image.TargetIn(s, w, live.Keys) && WordPreserved(image, live, moved, after, s, w)
  {
    hide Image.Ok, TableOk, Image.FieldOk, Image.TargetIn, WordPreserved;
    LiveTable(image, live);
    LiveInPlace(image, live, s);
  }

  lemma NewField(image: Image, live: Table, moved: Moves, after: seq<Word>, c: set<nat>, s: nat, w: nat)
    requires live.Keys == moved.Keys && MovesDistinct(moved)
    requires Image(image.base, after, NewTable(live, moved)).Closed(c)
    requires s in Origins(moved, c) && s in live && w in live[s].fields
    ensures Image(image.base, after, NewTable(live, moved)).TargetIn(moved[s], w, c)
  {
    hide NewTable, MovesDistinct, Image.TargetIn;
    NewTableEntries(live, moved);
  }

  lemma OriginFound(image: Image, live: Table, moved: Moves, after: seq<Word>, c: set<nat>, s: nat, w: nat)
    requires live.Keys == moved.Keys && live == Restrict(image.table, live.Keys)
    requires MovesDistinct(moved) && SlidDown(live, moved) && TableOk(live, image.Slots())
    requires s in live && w in live[s].fields && w < 2 * live[s].slots && |after| == |image.mem|
    requires image.FieldOk(s, w) && image.TargetIn(s, w, live.Keys) && WordPreserved(image, live, moved, after, s, w)
    requires Image(image.base, after, NewTable(live, moved)).TargetIn(moved[s], w, c)
    ensures image.TargetIn(s, w, Origins(moved, c))
  {
    hide TableOk, SlidDown, WordPreserved, Restrict, NewTable, MovesDistinct, InRange, Address, Image.FieldOk;
    if InRange(image.base, image.Slots(), image.mem[2 * s + w]) {
      var t := SlotOf(image.base, image.mem[2 * s + w]);
      PointerFollows(image, live, moved, after, s, w);
      MovedInPlace(live, moved, image.Slots(), t);
      PlaceInRange(image.base, image.Slots(), moved[t]);
    }
  }

  /** A closed set of the new image, pulled back, is closed in the old one. */
  lemma OriginsClosed(image: Image, live: Table, moved: Moves, after: seq<Word>, c: set<nat>)
    requires image.Ok() && image.FieldsOk() && image.Closed(live.Keys)
    requires live.Keys == moved.Keys && MovesDistinct(moved) && SlidDown(live, moved)
    requires live == Restrict(image.table, live.Keys)
    requires GraphPreserved(image, live, moved, after) && |after| == |image.mem|
    requires Image(image.base, after, NewTable(live, moved)).Closed(c)
    ensures image.Closed(Origins(moved, c))
  {
    hide Image.Ok, Image.FieldsOk, SlidDown, NewTable, MovesDistinct, GraphPreserved, Image.TargetIn;
    forall s, w | s in Origins(moved, c) && s in image.table && w in image.table[s].fields
      ensures image.TargetIn(s, w, Origins(moved, c))
    {
      OriginTarget(image, live, moved, after, c, s, w);
    }
  }

  lemma AllClosed(image: Image)
    requires image.FieldsOk()
    ensures image.Closed(image.table.Keys)
  {
    forall s, w | s in image.table && w in image.table[s].fields
      ensures image.TargetIn(s, w, image.table.Keys)
    {
      assert image.FieldOk(s, w);
    }
  }

  lemma RootsStay(image: Image, roots: set<nat>, live: Table, moved: Moves)
    requires image.Reachable(roots, live.Keys) && live.Keys == moved.Keys
    requires MovesDistinct(moved) && RootsPinned(roots, moved)
    ensures roots <= NewTable(live, moved).Keys
    ensures forall c :: roots <= c ==> roots <= Origins(moved, c)
  {
    NewTableEntries(live, moved);
    forall r | r in roots
      ensures r in NewTable(live, moved) && r in moved && moved[r] == r
    {
      assert r in live;
    }
  }

  /** After a collection every object is reachable from the roots. */
  lemma NothingUnreachable(image: Image, roots: set<nat>, live: Table, moved: Moves, after: seq<Word>)
    requires image.Ok() && image.FieldsOk() && |after| == |image.mem|
    requires Collected(image, roots, live, moved, after)
    ensures Image(image.base, after, NewTable(live, moved)).Reachable(roots, NewTable(live, moved).Keys)
  {
    var image' := Image(image.base, after, NewTable(live, moved));
    NewImageOk(image, roots, live, moved, after);
    AllClosed(image');
    RootsStay(image, roots, live, moved);
    NewTableEntries(live, moved);
    hide Image.Ok, Image.FieldsOk, SlidDown, NewTable, MovesDistinct, GraphPreserved, Image.Closed;
    hide PlacedApart, ForwardingKept, OrderKept, RootsPinned;
    forall c: set<nat> | roots <= c && image'.Closed(c)
      ensures image'.table.Keys <= c
    {
      OriginsClosed(image, live, moved, after, c);
      assert live.Keys <= Origins(moved, c);
      forall d | d in image'.table
        ensures d in c
      {
        var s :| s in live && moved[s] == d;
      }
    }
  }

  /** A second collection with the same roots finds nothing to collect. */
  lemma SecondCollection(before: HeapState, mid: HeapState, after: HeapState, roots: set<nat>,
                         live: Table, moved: Moves, live': Table, moved': Moves)
    requires before.Good() && CollectedTo(before, mid, roots, live, moved)
    requires CollectedTo(mid, after, roots, live', moved')
    ensures live' == mid.image.table && after.used == mid.used
  {
    hide Image.Ok, Image.FieldsOk, NewTable, PayloadSum, BitsLeft, MapExact, GraphPreserved, MovesDistinct, SlidDown;
    hide PlacedApart, ForwardingKept, OrderKept, RootsPinned, Image.Reachable;
    CollectionGood(before, mid, roots, live, moved);
    NothingUnreachable(before.image, roots, live, moved, mid.image.mem);
    ReachableUnique(mid.image, roots, live'.Keys, mid.image.table.Keys);
    assert live' == mid.image.table;
  }
}

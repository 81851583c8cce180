/** The pointer-update phase: a second depth-first search, which follows forwarding headers. */
module Updating {
  import opened Words
  import opened Header
  import opened VectorReader
  import opened HeapModel
  import opened Compaction
  import opened Graph
  import opened Relocation
  import opened PtrQueues
  import opened Heaps
  import opened Marking

  // ---------------------------------------------------------------- what the search keeps

  /** The live objects, by their old slot, whose new address is in the visited queue. */
  ghost function Visited(pass: Pass, elems: seq<nat>): set<nat>
    requires pass.live.Keys <= pass.moved.Keys
  {
    set s | s in pass.live && Address(pass.image.base, pass.moved[s]) in elems
  }

  ghost predicate ChildrenVisited(pass: Pass, s: nat, v: set<nat>)
    requires s in pass.live
  {
    forall w :: w in pass.live[s].fields ==> ChildVisited(pass, s, w, v)
  }

  ghost predicate ChildVisited(pass: Pass, s: nat, w: nat, v: set<nat>) {
    && 2 * s + w < |pass.image.mem|
    && (IsPayload(pass.image.base, pass.live, pass.image.mem[2 * s + w]) ==>
          SlotOf(pass.image.base, pass.image.mem[2 * s + w]) in v)
  }

  /** Visited objects that are not being worked on are finished; the others have not been begun. */
  ghost predicate Progress(pass: Pass, elems: seq<nat>, done: set<nat>, active: set<nat>)
    requires pass.live.Keys <= pass.moved.Keys
  {
    && (forall s :: s in Visited(pass, elems) && s !in active ==>
          pass.AllDone(s, done) && ChildrenVisited(pass, s, Visited(pass, elems)))
    && (forall s :: s in pass.live && s !in Visited(pass, elems) ==> pass.NoneDone(s, done))
  }

  /** Addresses the search may still visit, which it uses up. */
  ghost predicate Unvisited(pass: Pass, elems: seq<nat>, unseen: set<nat>)
    requires pass.live.Keys <= pass.moved.Keys
  {
    && (forall s :: s in pass.live ==>
          Address(pass.image.base, pass.moved[s]) in unseen || Address(pass.image.base, pass.moved[s]) in elems)
    && (forall s, w :: s in pass.live && w in pass.live[s].fields ==> ForeignSeen(pass, s, w, elems, unseen))
  }

  ghost predicate ForeignSeen(pass: Pass, s: nat, w: nat, elems: seq<nat>, unseen: set<nat>) {
    && 2 * s + w < |pass.image.mem|
    && (pass.IsForeign(pass.image.mem[2 * s + w]) ==>
          pass.image.mem[2 * s + w] in unseen || pass.image.mem[2 * s + w] in elems)
  }

  ghost predicate Rewriting(pass: Pass, elems: seq<nat>, mem: seq<Word>, done: set<nat>, active: set<nat>,
                            unseen: set<nat>)
    requires pass.live.Keys <= pass.moved.Keys
  {
    && StrictlyAscending(elems)
    && pass.Rewritten(mem, done)
    && pass.OnlyFields(done)
    && Progress(pass, elems, done, active)
    && Unvisited(pass, elems, unseen)
  }

  /** A search finishes new objects only: the fields of the others are as done as they were. */
  ghost predicate OthersKept(pass: Pass, v: set<nat>, done: set<nat>, done': set<nat>)
    requires pass.live.Keys <= pass.moved.Keys
  {
    && done <= done'
    && forall t, w :: t in v && t in pass.live && w in pass.live[t].fields && pass.Index(t, w) in done' ==>
         pass.Index(t, w) in done
  }

  /** Exactly the first `j` fields of the object have been done. */
  ghost predicate DoneUpTo(pass: Pass, s: nat, j: nat, done: set<nat>)
    requires s in pass.live && pass.live.Keys <= pass.moved.Keys && j <= |pass.live[s].fields|
  {
    forall i :: 0 <= i < |pass.live[s].fields| ==> (pass.Index(s, pass.live[s].fields[i]) in done <==> i < j)
  }

  ghost predicate ChildrenUpTo(pass: Pass, s: nat, j: nat, v: set<nat>)
    requires s in pass.live && j <= |pass.live[s].fields|
  {
    forall i :: 0 <= i < j ==> ChildVisited(pass, s, pass.live[s].fields[i], v)
  }

  /** The search is at field `j` of the object at `s`. */
  ghost predicate AtChild(pass: Pass, s: nat, j: nat, elems: seq<nat>, done: set<nat>)
    requires pass.live.Keys <= pass.moved.Keys
  {
    && s in Visited(pass, elems)
    && j <= |pass.live[s].fields|
    && DoneUpTo(pass, s, j, done)
    && ChildrenUpTo(pass, s, j, Visited(pass, elems))
  }

  // ---------------------------------------------------------------- steps

  lemma VisitedInsert(pass: Pass, elems: seq<nat>, c: nat)
    requires pass.Ok() && StrictlyAscending(elems) && c in pass.live
    ensures var elems' := Insert(elems, Address(pass.image.base, pass.moved[c]));
            Visited(pass, elems') == Visited(pass, elems) + {c} && StrictlyAscending(elems')
  {
    var a := Address(pass.image.base, pass.moved[c]);
    InsertKeepsOrder(elems, a);
    MovesInjective(pass.live, pass.moved, pass.image.Slots());
    forall t | t in Visited(pass, Insert(elems, a))
      ensures t in Visited(pass, elems) + {c}
    {
      AddressSlot(pass.image.base, pass.moved[t]);
      AddressSlot(pass.image.base, pass.moved[c]);
    }
  }

  /** A foreign address is no object's new address. */
  lemma VisitedForeign(pass: Pass, elems: seq<nat>, p: nat)
    requires pass.Ok() && StrictlyAscending(elems) && pass.IsForeign(p)
    ensures Visited(pass, Insert(elems, p)) == Visited(pass, elems) && StrictlyAscending(Insert(elems, p))
  {
    InsertKeepsOrder(elems, p);
    forall t | t in pass.live
      ensures Address(pass.image.base, pass.moved[t]) != p
    {
      assert InPlace(t, pass.live[t], pass.image.Slots());
      assert SlidDownOne(t, pass.moved[t], pass.live[t].slots);
    }
  }

  lemma UnvisitedInsert(pass: Pass, elems: seq<nat>, unseen: set<nat>, p: nat)
    requires pass.live.Keys <= pass.moved.Keys && StrictlyAscending(elems)
    requires Unvisited(pass, elems, unseen)
    ensures Unvisited(pass, Insert(elems, p), unseen - {p})
  {
    InsertKeepsOrder(elems, p);
    forall s, w | s in pass.live && w in pass.live[s].fields
      ensures ForeignSeen(pass, s, w, Insert(elems, p), unseen - {p})
    {
      assert ForeignSeen(pass, s, w, elems, unseen);
    }
  }

  lemma ProgressMore(pass: Pass, elems: seq<nat>, elems': seq<nat>, done: set<nat>, active: set<nat>, c: set<nat>)
    requires pass.live.Keys <= pass.moved.Keys
    requires Progress(pass, elems, done, active)
    requires Visited(pass, elems') == Visited(pass, elems) + c
    ensures Progress(pass, elems', done, active + c)
  {
    forall s | s in Visited(pass, elems') && s !in active + c
      ensures ChildrenVisited(pass, s, Visited(pass, elems'))
    {
      forall w | w in pass.live[s].fields
        ensures ChildVisited(pass, s, w, Visited(pass, elems'))
      {
        assert ChildVisited(pass, s, w, Visited(pass, elems));
      }
    }
  }

  /** Queueing an object that has not been visited: its fields are still to be done. */
  lemma EnqueueObject(pass: Pass, elems: seq<nat>, mem: seq<Word>, done: set<nat>, active: set<nat>,
                      unseen: set<nat>, c: nat)
    requires pass.Ok() && Rewriting(pass, elems, mem, done, active, unseen) && c in pass.live
    ensures var a := Address(pass.image.base, pass.moved[c]);
            && Rewriting(pass, Insert(elems, a), mem, done, active + {c}, unseen - {a})
            && Visited(pass, Insert(elems, a)) == Visited(pass, elems) + {c}
            && (a !in elems ==> a in unseen && c !in Visited(pass, elems) && DoneUpTo(pass, c, 0, done))
            && (a in elems ==> c in Visited(pass, elems))
  {
    var a := Address(pass.image.base, pass.moved[c]);
    VisitedInsert(pass, elems, c);
    UnvisitedInsert(pass, elems, unseen, a);
    ProgressMore(pass, elems, Insert(elems, a), done, active, {c});
    if a !in elems {
      assert pass.NoneDone(c, done);
      forall i | 0 <= i < |pass.live[c].fields|
        ensures pass.Index(c, pass.live[c].fields[i]) !in done
      {
        assert pass.live[c].fields[i] in pass.live[c].fields;
      }
    }
  }

  lemma EnqueueForeign(pass: Pass, elems: seq<nat>, mem: seq<Word>, done: set<nat>, active: set<nat>,
                       unseen: set<nat>, p: nat)
    requires pass.Ok() && Rewriting(pass, elems, mem, done, active, unseen) && pass.IsForeign(p)
    requires p in unseen || p in elems
    ensures Rewriting(pass, Insert(elems, p), mem, done, active, unseen - {p})
    ensures Visited(pass, Insert(elems, p)) == Visited(pass, elems)
    ensures p !in elems ==> p in unseen
  {
    VisitedForeign(pass, elems, p);
    UnvisitedInsert(pass, elems, unseen, p);
    ProgressMore(pass, elems, Insert(elems, p), done, active, {});
    assert active + {} == active;
  }

  lemma AtChildField(pass: Pass, elems: seq<nat>, s: nat, j: nat, done: set<nat>)
    requires pass.Ok() && AtChild(pass, s, j, elems, done) && j < |pass.live[s].fields|
    ensures pass.live[s].fields[j] in pass.live[s].fields
    ensures pass.live[s].fields[j] < 2 * pass.live[s].slots
    ensures pass.Index(s, pass.live[s].fields[j]) !in done
    ensures pass.Index(s, pass.live[s].fields[j]) < |pass.mid|
    ensures 2 * s + pass.live[s].fields[j] < |pass.image.mem|
  {
    PlaceOf(pass, s);
    var w := pass.live[s].fields[j];
    assert w in pass.live[s].fields;
    FieldInside(pass, s, w);
  }

  lemma SafeField(pass: Pass, s: nat, w: nat)
    requires pass.FieldsSafe() && s in pass.live && w in pass.live[s].fields
    ensures 2 * s + w < |pass.image.mem| && pass.FieldSafe(pass.image.mem[2 * s + w])
  {
    assert pass.FieldSafeAt(s, w);
  }

  lemma SeenField(pass: Pass, elems: seq<nat>, unseen: set<nat>, s: nat, w: nat)
    requires pass.live.Keys <= pass.moved.Keys && Unvisited(pass, elems, unseen)
    requires s in pass.live && w in pass.live[s].fields
    ensures ForeignSeen(pass, s, w, elems, unseen)
  {
  }

  lemma RewrittenLength(pass: Pass, mem: seq<Word>, done: set<nat>)
    requires pass.live.Keys <= pass.moved.Keys && pass.Rewritten(mem, done)
    ensures |mem| == |pass.mid|
  {
  }

  /** A field that has not been visited still holds its old value. */
  lemma FieldHolds(pass: Pass, mem: seq<Word>, done: set<nat>, s: nat, w: nat, k: nat)
    requires pass.Ok() && pass.Rewritten(mem, done)
    requires s in pass.live && w in pass.live[s].fields
    requires s in pass.moved && k == pass.Index(s, w) && k !in done
    ensures k < |mem| == |pass.image.mem| && 2 * s + w < |pass.image.mem|
    ensures mem[k] == pass.image.mem[2 * s + w]
  {
    PlaceOf(pass, s);
    UnvisitedField(pass, mem, done, s, w);
  }

  /** What the pass makes of it. */
  lemma AboutField(pass: Pass, elems: seq<nat>, mem: seq<Word>, done: set<nat>, unseen: set<nat>, s: nat, w: nat,
                   p: Word)
    requires pass.Ok() && pass.FieldsSafe() && pass.Rewritten(mem, done) && pass.OnlyFields(done)
    requires Unvisited(pass, elems, unseen)
    requires s in pass.live && w in pass.live[s].fields
    requires 2 * s + w < |pass.image.mem| && p == pass.image.mem[2 * s + w]
    ensures ForeignSeen(pass, s, w, elems, unseen)
    ensures pass.FieldSafe(p) && |mem| == |pass.image.mem| && pass.Final(p) == Followed(pass, mem, p)
  {
    SafeField(pass, s, w);
    SeenField(pass, elems, unseen, s, w);
    FieldRewritten(pass, mem, done, p);
  }

  lemma ProgressField(pass: Pass, elems: seq<nat>, done: set<nat>, active: set<nat>, s: nat, w: nat)
    requires pass.live.Keys == pass.moved.Keys && PlacedApart(pass.live, pass.moved)
    requires forall t :: t in pass.live ==> WellPlaced(pass.live[t])
    requires Progress(pass, elems, done, active)
    requires s in Visited(pass, elems) && s in active && w in pass.live[s].fields
    ensures Progress(pass, elems, done + {pass.Index(s, w)}, active)
  {
    forall t, v | t in pass.live && v in pass.live[t].fields && t != s
      ensures pass.Index(t, v) != pass.Index(s, w)
    {
      assert WellPlaced(pass.live[t]) && WellPlaced(pass.live[s]);
      FieldsApart(pass, t, v, s, w);
    }
    forall t | t in Visited(pass, elems) && t !in active
      ensures pass.AllDone(t, done + {pass.Index(s, w)})
    {
      assert pass.AllDone(t, done);
    }
    forall t | t in pass.live && t !in Visited(pass, elems)
      ensures pass.NoneDone(t, done + {pass.Index(s, w)})
    {
      assert pass.NoneDone(t, done);
    }
  }

  lemma DoneOneMore(pass: Pass, s: nat, j: nat, done: set<nat>)
    requires s in pass.live && pass.live.Keys <= pass.moved.Keys && j < |pass.live[s].fields|
    requires StrictlyAscending(pass.live[s].fields) && DoneUpTo(pass, s, j, done)
    ensures DoneUpTo(pass, s, j + 1, done + {pass.Index(s, pass.live[s].fields[j])})
  {
  }

  lemma OthersUntouched(pass: Pass, s: nat, w: nat, done: set<nat>)
    requires pass.live.Keys == pass.moved.Keys && PlacedApart(pass.live, pass.moved)
    requires forall t :: t in pass.live ==> WellPlaced(pass.live[t])
    requires s in pass.live && w in pass.live[s].fields
    ensures OthersKept(pass, pass.live.Keys - {s}, done, done + {pass.Index(s, w)})
  {
    forall t, v | t in pass.live.Keys - {s} && v in pass.live[t].fields
      ensures pass.Index(t, v) != pass.Index(s, w)
    {
      assert WellPlaced(pass.live[t]) && WellPlaced(pass.live[s]);
      FieldsApart(pass, t, v, s, w);
    }
  }

  lemma PassPlaces(pass: Pass)
    requires pass.Ok()
    ensures pass.live.Keys == pass.moved.Keys && PlacedApart(pass.live, pass.moved)
    ensures |pass.mid| == |pass.image.mem|
    ensures forall t :: t in pass.live ==> WellPlaced(pass.live[t])
  {
    forall t | t in pass.live
      ensures WellPlaced(pass.live[t])
    {
      PlaceOf(pass, t);
    }
  }

  lemma OneMoreField(pass: Pass, done: set<nat>, s: nat, w: nat)
    requires pass.live.Keys <= pass.moved.Keys && pass.OnlyFields(done)
    requires s in pass.live && w in pass.live[s].fields
    ensures pass.OnlyFields(done + {pass.Index(s, w)})
  {
    assert pass.IsField(pass.Index(s, w));
  }

  /** Writing the field at hand. */
  lemma WriteField(pass: Pass, elems: seq<nat>, mem: seq<Word>, done: set<nat>, active: set<nat>, unseen: set<nat>,
                   s: nat, j: nat, q: Word)
    requires pass.Ok() && Rewriting(pass, elems, mem, done, active, unseen)
    requires AtChild(pass, s, j, elems, done) && j < |pass.live[s].fields| && s in active
    requires pass.Index(s, pass.live[s].fields[j]) < |mem|
    requires q == pass.Final(mem[pass.Index(s, pass.live[s].fields[j])])
    ensures var k := pass.Index(s, pass.live[s].fields[j]);
            && Rewriting(pass, elems, mem[k := q], done + {k}, active, unseen)
            && DoneUpTo(pass, s, j + 1, done + {k})
            && OthersKept(pass, pass.live.Keys - {s}, done, done + {k})
  {
    PassPlaces(pass);
    AtChildField(pass, elems, s, j, done);
    hide Pass.Ok, Progress, Unvisited, OthersKept, DoneUpTo, Pass.Rewritten, Pass.OnlyFields;
    var w := pass.live[s].fields[j];
    RewriteField(pass, mem, done, pass.Index(s, w), q);
    ProgressField(pass, elems, done, active, s, w);
    DoneOneMore(pass, s, j, done);
    OneMoreField(pass, done, s, w);
    OthersUntouched(pass, s, w, done);
  }

  // ---------------------------------------------------------------- the methods

  /** The heap, as the pass sees it. */
  ghost predicate SeenBy(h: Heap, pass: Pass, foreign: nat -> Word) {
    && h.Shape()
    && pass.image.base == h.heapStart
    && |pass.image.mem| == h.memory.Length
    && pass.foreign == foreign
    && pass.Ok() && pass.FieldsSafe()
  }

  lemma SeenFacts(h: Heap, pass: Pass, foreign: nat -> Word)
    requires SeenBy(h, pass, foreign)
    ensures h.Shape() && pass.Ok() && pass.FieldsSafe()
    ensures pass.live.Keys == pass.moved.Keys
    ensures pass.image.base == h.heapStart && |pass.image.mem| == h.memory.Length
  {
  }

  /** The word in front of an address, wherever it is. */
  method ReadHeader(h: Heap, p: nat, foreign: nat -> Word, ghost pass: Pass) returns (header: Word)
    requires SeenBy(h, pass, foreign) && p > 0
    ensures header == pass.HeaderAt(h.memory[..], p)
  {
    SizeInSlots(h.size);
    if h.heapStart + HEADER_BYTES <= p < h.heapStart + h.size + HEADER_BYTES {
      header := h.memory[(p - HEADER_BYTES - h.heapStart) / 8];
    } else {
      header := foreign(p);
    }
  }

  /** Follows the forwarding header, if there is one, and stores the new address in the field. */
  method FollowForwarding(h: Heap, internalPointer: nat, foreign: nat -> Word, ghost pass: Pass, ghost k: nat,
                          ghost mem: seq<Word>)
    returns (child: Word)
    requires SeenBy(h, pass, foreign) && mem == h.memory[..]
    requires internalPointer == h.heapStart + 8 * k && k < |mem|
    modifies h.memory
    ensures |mem| == |pass.image.mem| && child == Followed(pass, mem, mem[k])
    ensures h.memory[..] == mem[k := child]
  {
    WordIndex(h.heapStart, k, internalPointer);
    child := ReadWord(h, internalPointer);
    if child != 0 {
      var header := ReadHeader(h, child, foreign, pass);
      if HeaderType(header) == HEADER_FORWARDING_ADDRESS {
        child := PointerInHeader(header);
        h.memory[(internalPointer - h.heapStart) / 8] := child;
      }
    }
  }

  /** The address is a live object's new address, or an inert foreign one. */
  ghost predicate Node(pass: Pass, address: nat, isObject: bool, c: nat)
    requires pass.live.Keys <= pass.moved.Keys
  {
    if isObject then c in pass.live && address == Address(pass.image.base, pass.moved[c])
    else address > 0 && pass.IsForeign(address) && pass.Inert(address)
  }

  function Working(active: set<nat>, isObject: bool, c: nat): set<nat> {
    if isObject then active + {c} else active
  }

  ghost function NodeFields(pass: Pass, isObject: bool, c: nat): seq<nat>
    requires isObject ==> c in pass.live
  {
    if isObject then pass.live[c].fields else []
  }

  ghost function NodeFieldAddresses(pass: Pass, isObject: bool, c: nat): seq<nat>
    requires isObject ==> c in pass.live && c in pass.moved
  {
    if isObject then FieldAddresses(pass.image.base, pass.moved[c], pass.live[c].fields) else []
  }

  lemma EnqueueNode(pass: Pass, elems: seq<nat>, mem: seq<Word>, done: set<nat>, active: set<nat>,
                    unseen: set<nat>, a: nat, isObject: bool, c: nat)
    requires pass.Ok() && Rewriting(pass, elems, mem, done, active, unseen) && Node(pass, a, isObject, c)
    requires !isObject ==> a in unseen || a in elems
    ensures Rewriting(pass, Insert(elems, a), mem, done, Working(active, isObject, c), unseen - {a})
    ensures Visited(pass, Insert(elems, a)) == Working(Visited(pass, elems), isObject, c)
    ensures a !in elems ==> a in unseen
    ensures a !in elems && isObject ==> c !in Visited(pass, elems) && AtChild(pass, c, 0, Insert(elems, a), done)
    ensures a in elems && isObject ==> c in Visited(pass, elems)
  {
    if isObject {
      EnqueueObject(pass, elems, mem, done, active, unseen, c);
    } else {
      EnqueueForeign(pass, elems, mem, done, active, unseen, a);
    }
  }

  lemma WorkingMore(before: set<nat>, isObject: bool, c: nat)
    ensures before <= Working(before, isObject, c) && (isObject ==> c in Working(before, isObject, c))
    ensures isObject && c in before ==> Working(before, isObject, c) == before
    ensures isObject && c !in before ==> Working(before, isObject, c) - {c} == before
    ensures !isObject ==> Working(before, isObject, c) == before && before - {} == before
  {
  }

  lemma MoreRewriting(pass: Pass, elems: seq<nat>, mem: seq<Word>, done: set<nat>, active: set<nat>,
                      unseen: set<nat>, more: set<nat>)
    requires pass.live.Keys <= pass.moved.Keys
    requires Rewriting(pass, elems, mem, done, active, unseen) && unseen <= more
    ensures Rewriting(pass, elems, mem, done, active, more)
  {
    forall s, w | s in pass.live && w in pass.live[s].fields
      ensures ForeignSeen(pass, s, w, elems, more)
    {
      assert ForeignSeen(pass, s, w, elems, unseen);
    }
  }

  /** All fields of an object done: it is no longer being worked on. */
  lemma FinishNode(pass: Pass, elems: seq<nat>, mem: seq<Word>, done: set<nat>, active: set<nat>,
                   unseen: set<nat>, isObject: bool, c: nat)
    requires pass.live.Keys <= pass.moved.Keys && (isObject ==> c in pass.live)
    requires Rewriting(pass, elems, mem, done, Working(active, isObject, c), unseen)
    requires isObject ==> AtChild(pass, c, |pass.live[c].fields|, elems, done)
    ensures Rewriting(pass, elems, mem, done, active, unseen)
  {
    if isObject {
      assert pass.AllDone(c, done);
      assert ChildrenVisited(pass, c, Visited(pass, elems));
    }
  }

  lemma OthersKeptChain(pass: Pass, v: set<nat>, v': set<nat>, d0: set<nat>, d1: set<nat>, d2: set<nat>)
    requires pass.live.Keys <= pass.moved.Keys
    requires OthersKept(pass, v, d0, d1) && OthersKept(pass, v', d1, d2) && v <= v'
    ensures OthersKept(pass, v, d0, d2)
  {
  }

  /** A live object's header is still what it was, at the new place. */
  lemma ObjectHeader(pass: Pass, mem: seq<Word>, done: set<nat>, c: nat)
    requires pass.Ok() && pass.Rewritten(mem, done) && pass.OnlyFields(done)
    requires c in pass.live && c in pass.moved
    ensures |mem| == |pass.image.mem| && 2 * pass.moved[c] < |mem| && 2 * c < |pass.image.mem|
    ensures mem[2 * pass.moved[c]] == pass.image.mem[2 * c]
    ensures HeaderType(pass.image.mem[2 * c]) == HEADER_BIT_VECTOR && ObjOf(pass.image.mem[2 * c]) == pass.live[c]
  {
    hide *;
    ObjectDescribed(pass, c);
    HeaderNotField(pass, c);
    NotVisited(pass, mem, done, pass.Index(c, 0));
    HeaderIndex(pass, c);
  }

  lemma HeaderIndex(pass: Pass, c: nat)
    requires c in pass.moved
    ensures pass.Index(c, 0) == 2 * pass.moved[c]
  {
  }

  lemma HeaderNotField(pass: Pass, c: nat)
    requires pass.Ok() && c in pass.live
    ensures pass.live.Keys <= pass.moved.Keys && |pass.mid| == |pass.image.mem|
    ensures pass.Index(c, 0) < |pass.mid| && 2 * c < |pass.image.mem| && !pass.IsField(pass.Index(c, 0))
    ensures pass.mid[pass.Index(c, 0)] == pass.image.mem[2 * c]
  {
    hide Pass.Ok, Pass.IsField, PlacedApart;
    PassPlaces(pass);
    PlaceOf(pass, c);
    assert WellPlaced(pass.live[c]);
    FieldInside(pass, c, 0);
    OtherWordsNotFields(pass, c, 0);
  }

  lemma NotVisited(pass: Pass, mem: seq<Word>, done: set<nat>, k: nat)
    requires pass.live.Keys <= pass.moved.Keys && pass.Rewritten(mem, done) && pass.OnlyFields(done)
    requires k < |pass.mid| && !pass.IsField(k)
    ensures |mem| == |pass.mid| && mem[k] == pass.mid[k]
  {
    hide Pass.IsField, Pass.Final;
  }

  lemma ObjectDescribed(pass: Pass, c: nat)
    requires pass.Ok() && c in pass.live
    ensures 2 * c < |pass.image.mem|
    ensures HeaderType(pass.image.mem[2 * c]) == HEADER_BIT_VECTOR && ObjOf(pass.image.mem[2 * c]) == pass.live[c]
  {
    assert DescribesAt(pass.image.mem, c, pass.image.table[c]);
  }

  /** The header in front of a node, and the fields it describes. */
  lemma NodeHeader(pass: Pass, mem: seq<Word>, done: set<nat>, a: nat, isObject: bool, c: nat)
    requires pass.Ok() && pass.Rewritten(mem, done) && pass.OnlyFields(done)
    requires Node(pass, a, isObject, c)
    ensures |mem| == |pass.image.mem| && a > 0
    ensures var header := pass.HeaderAt(mem, a);
            && HeaderType(header) != HEADER_POINTER_TO_FORMAT_STRING
            && Shifted(HeaderPointers(header), a) == NodeFieldAddresses(pass, isObject, c)
  {
    hide Pass.Ok, Pass.Rewritten, Pass.OnlyFields, ObjOf, HeaderPointers, FieldAddresses, Pass.HeaderAt, Shifted;
    BasePositive(pass);
    RewrittenLength(pass, mem, done);
    if isObject {
      ObjectHeader(pass, mem, done, c);
      HeaderAtPayload(pass, mem, pass.moved[c]);
      HeaderFields(pass.image.base, pass.moved[c], mem[2 * pass.moved[c]]);
    } else {
      HeaderAtForeign(pass, mem, a);
      NoPointers(a);
    }
  }

  lemma HeaderAtForeign(pass: Pass, mem: seq<Word>, a: nat)
    requires |mem| == |pass.image.mem| && pass.IsForeign(a)
    ensures pass.HeaderAt(mem, a) == pass.foreign(a)
  {
  }

  lemma NoPointers(a: nat)
    ensures Shifted([], a) == []
  {
  }

  lemma RewritingFacts(pass: Pass, elems: seq<nat>, mem: seq<Word>, done: set<nat>, active: set<nat>, unseen: set<nat>)
    requires pass.live.Keys <= pass.moved.Keys && Rewriting(pass, elems, mem, done, active, unseen)
    ensures pass.Rewritten(mem, done) && pass.OnlyFields(done)
  {
  }

  lemma NodeIsObject(pass: Pass, a: nat, isObject: bool, c: nat)
    requires pass.live.Keys <= pass.moved.Keys && Node(pass, a, isObject, c)
    ensures isObject ==> c in pass.live
  {
  }

  /** The object at `c` is the one that the word `w` of the object at `s` points at, if any. */
  ghost predicate IsChild(pass: Pass, s: nat, w: nat, isObject: bool, c: nat) {
    && 2 * s + w < |pass.image.mem|
    && (IsPayload(pass.image.base, pass.live, pass.image.mem[2 * s + w]) ==>
          isObject && c == SlotOf(pass.image.base, pass.image.mem[2 * s + w]))
  }

  /** What the search finds behind a field. */
  lemma ChildNode(pass: Pass, p: Word, child: nat, elems: seq<nat>, unseen: set<nat>, s: nat, w: nat)
    returns (isObject: bool, c: nat)
    requires pass.live.Keys <= pass.moved.Keys && pass.image.base > 0
    requires pass.FieldSafe(p) && child == pass.Final(p)
    requires ForeignSeen(pass, s, w, elems, unseen) && p == pass.image.mem[2 * s + w]
    ensures child == 0 ==> !isObject
    ensures IsChild(pass, s, w, isObject, c)
    ensures child != 0 ==> Node(pass, child, isObject, c)
    ensures child != 0 && !isObject ==> child in unseen || child in elems
  {
    isObject := IsPayload(pass.image.base, pass.live, p);
    c := if isObject then SlotOf(pass.image.base, p) else 0;
  }

  /** One more field done, and the object behind it visited. */
  lemma FieldFinished(pass: Pass, s: nat, j: nat, elems: seq<nat>, elems': seq<nat>, done: set<nat>, mid: set<nat>,
                      done': set<nat>)
    requires pass.live.Keys <= pass.moved.Keys
    requires AtChild(pass, s, j, elems, done) && j < |pass.live[s].fields|
    requires DoneUpTo(pass, s, j + 1, mid) && OthersKept(pass, pass.live.Keys - {s}, done, mid)
    requires OthersKept(pass, Visited(pass, elems), mid, done')
    requires Visited(pass, elems) <= Visited(pass, elems')
    requires ChildVisited(pass, s, pass.live[s].fields[j], Visited(pass, elems'))
    ensures AtChild(pass, s, j + 1, elems', done')
    ensures OthersKept(pass, Visited(pass, elems) - {s}, done, done')
  {
    forall i | 0 <= i < |pass.live[s].fields|
      ensures pass.Index(s, pass.live[s].fields[i]) in done' <==> i < j + 1
    {
      assert pass.live[s].fields[i] in pass.live[s].fields;
    }
    forall i | 0 <= i < j + 1
      ensures ChildVisited(pass, s, pass.live[s].fields[i], Visited(pass, elems'))
    {
      if i < j {
        assert ChildVisited(pass, s, pass.live[s].fields[i], Visited(pass, elems));
      }
    }
  }

  // ---------------------------------------------------------------- the recursion

  /** Visits the object a field points at, unless it has been visited before. */
  method VisitChild(h: Heap, child: nat, visited: PtrQueue, foreign: nat -> Word, ghost pass: Pass,
                    ghost isObject: bool, ghost c: nat, ghost active: set<nat>, ghost unseen: set<nat>,
                    ghost done: set<nat>)
    returns (ghost done': set<nat>)
    requires SeenBy(h, pass, foreign) && visited.Valid() && child != 0
    requires Node(pass, child, isObject, c) && (!isObject ==> child in unseen || child in visited.elems)
    requires Rewriting(pass, visited.elems, h.memory[..], done, active, unseen)
    modifies h.memory, visited
    ensures visited.Valid() && Rewriting(pass, visited.elems, h.memory[..], done', active, unseen)
    ensures old(Visited(pass, visited.elems)) <= Visited(pass, visited.elems)
    ensures isObject ==> c in Visited(pass, visited.elems)
    ensures OthersKept(pass, old(Visited(pass, visited.elems)), done, done')
    decreases unseen, 0
  {
    hide *;
    SeenFacts(h, pass, foreign);
    BasePositive(pass);
    ghost var before := Visited(pass, visited.elems);
    EnqueueNode(pass, visited.elems, h.memory[..], done, active, unseen, child, isObject, c);
    WorkingMore(before, isObject, c);
    WorkingMore(active, isObject, c);
    var isNew := visited.Enqueue(child);
    done' := done;
    if isNew {
      done' := ApplyToPointerInAllocation(h, child, visited, foreign, pass, isObject, c, active, unseen - {child},
                                          done);
      MoreRewriting(pass, visited.elems, h.memory[..], done', active, unseen - {child}, unseen);
    } else {
      AlreadyVisited(pass, before, done);
    }
  }

  lemma AlreadyVisited(pass: Pass, v: set<nat>, done: set<nat>)
    requires pass.live.Keys <= pass.moved.Keys
    ensures OthersKept(pass, v, done, done)
  {
  }

  /** Rewrites the fields of one object, and of everything reached from it that has not been visited. */
  method ApplyToPointerInAllocation(h: Heap, alloc: nat, visited: PtrQueue, foreign: nat -> Word, ghost pass: Pass,
                                    ghost isObject: bool, ghost c: nat, ghost active: set<nat>,
                                    ghost unseen: set<nat>, ghost done: set<nat>)
    returns (ghost done': set<nat>)
    requires SeenBy(h, pass, foreign) && visited.Valid()
    requires Node(pass, alloc, isObject, c)
    requires Rewriting(pass, visited.elems, h.memory[..], done, Working(active, isObject, c), unseen)
    requires isObject ==> AtChild(pass, c, 0, visited.elems, done)
    modifies h.memory, visited
    ensures visited.Valid() && Rewriting(pass, visited.elems, h.memory[..], done', active, unseen)
    ensures old(Visited(pass, visited.elems)) <= Visited(pass, visited.elems)
    ensures OthersKept(pass, old(Visited(pass, visited.elems)) - (if isObject then {c} else {}), done, done')
    decreases unseen, 3
  {
    hide *;
    SeenFacts(h, pass, foreign);
    RewritingFacts(pass, visited.elems, h.memory[..], done, Working(active, isObject, c), unseen);
    NodeHeader(pass, h.memory[..], done, alloc, isObject, c);
    NodeIsObject(pass, alloc, isObject, c);
    var header := ReadHeader(h, alloc, foreign, pass);
    var internalPointers := GetPointersInAllocation(header, alloc);
    done' := ApplyToFields(h, internalPointers, visited, foreign, pass, isObject, c, active, unseen, done);
  }

  method ApplyToFields(h: Heap, pointers: PtrQueue, visited: PtrQueue, foreign: nat -> Word, ghost pass: Pass,
                       ghost isObject: bool, ghost c: nat, ghost active: set<nat>, ghost unseen: set<nat>,
                       ghost done: set<nat>)
    returns (ghost done': set<nat>)
    requires SeenBy(h, pass, foreign) && visited.Valid() && pointers.Valid() && pointers != visited
    requires isObject ==> c in pass.live
    requires pointers.elems == NodeFieldAddresses(pass, isObject, c)
    requires Rewriting(pass, visited.elems, h.memory[..], done, Working(active, isObject, c), unseen)
    requires isObject ==> AtChild(pass, c, 0, visited.elems, done)
    modifies h.memory, visited, pointers
    ensures visited.Valid() && Rewriting(pass, visited.elems, h.memory[..], done', active, unseen)
    ensures old(Visited(pass, visited.elems)) <= Visited(pass, visited.elems)
    ensures OthersKept(pass, old(Visited(pass, visited.elems)) - (if isObject then {c} else {}), done, done')
    decreases unseen, 2
  {
    hide *;
    SeenFacts(h, pass, foreign);
    BasePositive(pass);
    ghost var addresses := pointers.elems;
    ghost var before := Visited(pass, visited.elems);
    ghost var others := before - (if isObject then {c} else {});
    var internalPointer := pointers.Dequeue();
    FirstField(addresses, internalPointer, pointers.elems);
    ghost var j := 0;
    done' := done;
    AlreadyVisited(pass, others, done);
    while internalPointer != 0
      invariant j <= |NodeFields(pass, isObject, c)| && pointers.Valid() && visited.Valid()
      invariant AtField(addresses, j, internalPointer, pointers.elems)
      invariant Rewriting(pass, visited.elems, h.memory[..], done', Working(active, isObject, c), unseen)
      invariant isObject ==> AtChild(pass, c, j, visited.elems, done')
      invariant before <= Visited(pass, visited.elems)
      invariant OthersKept(pass, others, done, done')
      decreases |NodeFields(pass, isObject, c)| - j
    {
      NodeFieldAt(pass, isObject, c, j, internalPointer, pointers.elems);
      ObjectWorks(active, isObject, c);
      ghost var soFar, soFarDone := Visited(pass, visited.elems), done';
      done' := ApplyToField(h, internalPointer, visited, foreign, pass, c, j, Working(active, isObject, c), unseen,
                            done');
      OthersKeptChain(pass, others, soFar - {c}, done, soFarDone, done');
      ghost var p, rest := internalPointer, pointers.elems;
      internalPointer := pointers.Dequeue();
      NextField(addresses, j, p, rest, internalPointer, pointers.elems);
      j := j + 1;
    }
    NodeFieldAt(pass, isObject, c, j, internalPointer, pointers.elems);
    FinishNode(pass, visited.elems, h.memory[..], done', active, unseen, isObject, c);
  }

  lemma FirstField(addresses: seq<nat>, p: nat, rest: seq<nat>)
    requires addresses == [] ==> p == 0 && rest == []
    requires addresses != [] ==> addresses == [p] + rest
    ensures AtField(addresses, 0, p, rest)
  {
  }

  /** A pointer that is not NULL is the address of the `j`th field; NULL means that there is none left. */
  lemma NodeFieldAt(pass: Pass, isObject: bool, c: nat, j: nat, p: nat, rest: seq<nat>)
    requires pass.image.base > 0 && (isObject ==> c in pass.live && c in pass.moved)
    requires AtField(NodeFieldAddresses(pass, isObject, c), j, p, rest)
    ensures isObject ==> NodeFields(pass, isObject, c) == pass.live[c].fields
    ensures p == 0 ==> j == |NodeFields(pass, isObject, c)|
    ensures p != 0 ==> isObject && j < |pass.live[c].fields|
    ensures p != 0 ==> p == pass.image.base + 8 * pass.Index(c, pass.live[c].fields[j])
  {
  }

  lemma ObjectWorks(active: set<nat>, isObject: bool, c: nat)
    ensures isObject ==> c in Working(active, isObject, c)
  {
  }

  /** The field at hand before it is written, and what writing it achieves. */
  lemma OpenField(pass: Pass, elems: seq<nat>, mem: seq<Word>, done: set<nat>, active: set<nat>, unseen: set<nat>,
                  s: nat, j: nat, w: nat, k: nat) returns (p: Word, q: Word)
    requires pass.Ok() && pass.FieldsSafe() && s in active
    requires Rewriting(pass, elems, mem, done, active, unseen)
    requires AtChild(pass, s, j, elems, done) && j < |pass.live[s].fields|
    requires w == pass.live[s].fields[j] && k == pass.Index(s, w)
    ensures k < |mem| == |pass.image.mem| && p == mem[k]
    ensures 2 * s + w < |pass.image.mem| && p == pass.image.mem[2 * s + w]
    ensures ForeignSeen(pass, s, w, elems, unseen) && pass.FieldSafe(p)
    ensures q == pass.Final(p) == Followed(pass, mem, p)
    ensures Rewriting(pass, elems, mem[k := q], done + {k}, active, unseen)
    ensures DoneUpTo(pass, s, j + 1, done + {k})
    ensures OthersKept(pass, pass.live.Keys - {s}, done, done + {k})
  {
    FinalIsWord(pass);
    AtChildField(pass, elems, s, j, done);
    hide Pass.Ok, Pass.FieldsSafe, Pass.Final, Followed, Progress, Unvisited, DoneUpTo, OthersKept, ChildrenUpTo;
    hide Pass.Rewritten, Pass.OnlyFields;
    FieldHolds(pass, mem, done, s, w, k);
    p := mem[k];
    AboutField(pass, elems, mem, done, unseen, s, w, p);
    q := pass.Final(p);
    WriteField(pass, elems, mem, done, active, unseen, s, j, q);
  }

  /** Rewrites one field. */
  method StoreField(h: Heap, internalPointer: nat, foreign: nat -> Word, ghost pass: Pass, ghost elems: seq<nat>,
                    ghost s: nat, ghost j: nat, ghost active: set<nat>, ghost unseen: set<nat>, ghost done: set<nat>)
    returns (child: nat, ghost isObject: bool, ghost c: nat)
    requires SeenBy(h, pass, foreign) && s in active && s in pass.live
    requires Rewriting(pass, elems, h.memory[..], done, active, unseen)
    requires AtChild(pass, s, j, elems, done) && j < |pass.live[s].fields|
    requires internalPointer == pass.image.base + 8 * pass.Index(s, pass.live[s].fields[j])
    modifies h.memory
    ensures var done' := done + {pass.Index(s, pass.live[s].fields[j])};
            && Rewriting(pass, elems, h.memory[..], done', active, unseen)
            && DoneUpTo(pass, s, j + 1, done')
            && OthersKept(pass, pass.live.Keys - {s}, done, done')
    ensures IsChild(pass, s, pass.live[s].fields[j], isObject, c)
    ensures child == 0 ==> !isObject
    ensures child != 0 ==> Node(pass, child, isObject, c) && (!isObject ==> child in unseen || child in elems)
  {
    hide *;
    SeenFacts(h, pass, foreign);
    BasePositive(pass);
    ghost var w := pass.live[s].fields[j];
    ghost var mem, k := h.memory[..], pass.Index(s, w);
    ghost var p, q := OpenField(pass, elems, mem, done, active, unseen, s, j, w, k);
    child := FollowForwarding(h, internalPointer, foreign, pass, k, mem);
    isObject, c := ChildNode(pass, p, child, elems, unseen, s, w);
  }

  lemma ChildIsVisited(pass: Pass, s: nat, w: nat, isObject: bool, c: nat, v: set<nat>)
    requires IsChild(pass, s, w, isObject, c) && (isObject ==> c in v)
    ensures ChildVisited(pass, s, w, v)
  {
  }

  /** Rewrites one field and visits the object it points at. */
  method ApplyToField(h: Heap, internalPointer: nat, visited: PtrQueue, foreign: nat -> Word, ghost pass: Pass,
                      ghost s: nat, ghost j: nat, ghost active: set<nat>, ghost unseen: set<nat>,
                      ghost done: set<nat>)
    returns (ghost done': set<nat>)
    requires SeenBy(h, pass, foreign) && visited.Valid() && s in active && s in pass.live
    requires Rewriting(pass, visited.elems, h.memory[..], done, active, unseen)
    requires AtChild(pass, s, j, visited.elems, done) && j < |pass.live[s].fields|
    requires internalPointer == pass.image.base + 8 * pass.Index(s, pass.live[s].fields[j])
    modifies h.memory, visited
    ensures visited.Valid() && Rewriting(pass, visited.elems, h.memory[..], done', active, unseen)
    ensures AtChild(pass, s, j + 1, visited.elems, done')
    ensures old(Visited(pass, visited.elems)) <= Visited(pass, visited.elems)
    ensures OthersKept(pass, old(Visited(pass, visited.elems)) - {s}, done, done')
    decreases unseen, 1
  {
    hide *;
    SeenFacts(h, pass, foreign);
    BasePositive(pass);
    ghost var w, elems := pass.live[s].fields[j], visited.elems;
    ghost var mid := done + {pass.Index(s, w)};
    var child;
    ghost var isObject, c;
    child, isObject, c := StoreField(h, internalPointer, foreign, pass, elems, s, j, active, unseen, done);
    done' := mid;
    AlreadyVisited(pass, Visited(pass, elems), mid);
    if child != 0 {
      done' := VisitChild(h, child, visited, foreign, pass, isObject, c, active, unseen, mid);
    }
    ChildIsVisited(pass, s, w, isObject, c, Visited(pass, visited.elems));
    FieldFinished(pass, s, j, elems, visited.elems, done, mid, done');
  }

  lemma FinalIsWord(pass: Pass)
    requires pass.Ok()
    ensures forall p: Word :: 0 <= pass.Final(p) < WORD_MODULUS
  {
    forall c | c in pass.live
      ensures Address(pass.image.base, pass.moved[c]) < WORD_MODULUS
    {
      assert InPlace(c, pass.live[c], pass.image.Slots());
      assert SlidDownOne(c, pass.moved[c], pass.live[c].slots);
    }
  }

  lemma BasePositive(pass: Pass)
    requires pass.Ok()
    ensures pass.image.base > 0 && pass.live.Keys == pass.moved.Keys
    ensures |pass.mid| == |pass.image.mem| && |pass.image.mem| % 2 == 0
  {
  }

  // ---------------------------------------------------------------- the whole phase

  /** Addresses the search can meet at all. */
  ghost function AllAddresses(pass: Pass): set<nat>
    requires pass.live.Keys <= pass.moved.Keys
  {
    (set s | s in pass.live :: Address(pass.image.base, pass.moved[s])) + (set p | p in pass.image.mem)
  }

  lemma StartRewriting(pass: Pass)
    requires pass.Ok()
    ensures pass.live.Keys <= pass.moved.Keys
    ensures Rewriting(pass, [], pass.mid, {}, {}, AllAddresses(pass))
  {
    hide Pass.Ok, Unvisited, Progress, Pass.Rewritten, Pass.OnlyFields;
    BasePositive(pass);
    StartUnvisited(pass);
    NothingVisited(pass);
    NothingRewritten(pass);
  }

  lemma StartUnvisited(pass: Pass)
    requires pass.Ok()
    ensures Unvisited(pass, [], AllAddresses(pass))
  {
    forall s, w | s in pass.live && w in pass.live[s].fields
      ensures ForeignSeen(pass, s, w, [], AllAddresses(pass))
    {
      PlaceOf(pass, s);
      FieldInside(pass, s, w);
    }
  }

  lemma NothingVisited(pass: Pass)
    requires pass.live.Keys <= pass.moved.Keys
    ensures Progress(pass, [], {}, {})
  {
    assert Visited(pass, []) == {};
  }

  lemma NothingRewritten(pass: Pass)
    requires pass.live.Keys <= pass.moved.Keys
    ensures pass.Rewritten(pass.mid, {}) && pass.OnlyFields({})
  {
  }

  /** A live object that a field of a visited object points at has been visited. */
  lemma ChildTarget(pass: Pass, s: nat, w: nat, v: set<nat>)
    requires pass.live == Restrict(pass.image.table, pass.live.Keys)
    requires ChildVisited(pass, s, w, v)
    requires pass.image.FieldOk(s, w) && pass.image.TargetIn(s, w, pass.live.Keys)
    ensures pass.image.TargetIn(s, w, v)
  {
  }

  /** The visited objects are closed under pointers. */
  lemma VisitedClosed(pass: Pass, elems: seq<nat>, done: set<nat>)
    requires pass.Ok() && pass.image.Closed(pass.live.Keys) && pass.live.Keys <= pass.moved.Keys
    requires Progress(pass, elems, done, {})
    ensures pass.image.Closed(Visited(pass, elems))
  {
    LiveRestricts(pass);
    hide Pass.Ok, ChildVisited, Image.TargetIn, Image.FieldOk, Pass.AllDone, Pass.NoneDone;
    var v := Visited(pass, elems);
    forall s, w | s in v && s in pass.image.table && w in pass.image.table[s].fields
      ensures pass.image.TargetIn(s, w, v)
    {
      assert ChildrenVisited(pass, s, v) && ChildVisited(pass, s, w, v);
      assert pass.image.FieldOk(s, w) && pass.image.TargetIn(s, w, pass.live.Keys);
      ChildTarget(pass, s, w, v);
    }
  }

  lemma LiveRestricts(pass: Pass)
    requires pass.Ok()
    ensures pass.live == Restrict(pass.image.table, pass.live.Keys) && pass.image.FieldsOk()
  {
  }

  /** Once the search is over, everything live has been visited. */
  lemma AllVisited(pass: Pass, roots: set<nat>, elems: seq<nat>, mem: seq<Word>, done: set<nat>, unseen: set<nat>)
    requires pass.Ok() && pass.image.Reachable(roots, pass.live.Keys)
    requires Rewriting(pass, elems, mem, done, {}, unseen)
    requires roots <= Visited(pass, elems)
    ensures forall s :: s in pass.live ==> pass.AllDone(s, done)
  {
    BasePositive(pass);
    hide Pass.Ok, Pass.AllDone, Pass.NoneDone, Image.Closed, Pass.Rewritten, Pass.OnlyFields, Unvisited;
    VisitedClosed(pass, elems, done);
  }

  /** The new address of a pinned root is its old one. */
  lemma RootNode(pass: Pass, rootElems: seq<nat>, i: nat) returns (s: nat)
    requires pass.Ok() && OnlyObjects(pass.image, rootElems) && i < |rootElems|
    requires pass.image.Reachable(Queued(pass.image, rootElems), pass.live.Keys)
    requires RootsPinned(Queued(pass.image, rootElems), pass.moved)
    ensures Node(pass, rootElems[i], true, s) && rootElems[i] != 0
    ensures Queued(pass.image, rootElems[..i + 1]) == Queued(pass.image, rootElems[..i]) + {s}
  {
    s := RootAt(pass.image, rootElems, i);
  }

  lemma NothingQueued(image: Image, elems: seq<nat>)
    ensures Queued(image, elems[..0]) == {}
  {
  }

  /** Visits one root. */
  method VisitRoot(h: Heap, roots: PtrQueue, i: nat, visited: PtrQueue, foreign: nat -> Word, ghost pass: Pass,
                   ghost unseen: set<nat>, ghost done: set<nat>)
    returns (ghost done': set<nat>)
    requires SeenBy(h, pass, foreign) && visited.Valid() && roots != visited
    requires i < |roots.elems| && OnlyObjects(pass.image, roots.elems)
    requires pass.image.Reachable(Queued(pass.image, roots.elems), pass.live.Keys)
    requires RootsPinned(Queued(pass.image, roots.elems), pass.moved)
    requires Rewriting(pass, visited.elems, h.memory[..], done, {}, unseen)
    requires Queued(pass.image, roots.elems[..i]) <= Visited(pass, visited.elems)
    modifies h.memory, visited
    ensures visited.Valid() && Rewriting(pass, visited.elems, h.memory[..], done', {}, unseen)
    ensures Queued(pass.image, roots.elems[..i + 1]) <= Visited(pass, visited.elems)
  {
    hide *;
    SeenFacts(h, pass, foreign);
    var rootObj := roots.Get(i);
    ghost var s := RootNode(pass, roots.elems, i);
    done' := VisitChild(h, rootObj, visited, foreign, pass, true, s, {}, unseen, done);
  }

  /** Redirects the fields of every object reachable from the roots. */
  method UpdateForwardedPointers(h: Heap, roots: PtrQueue, foreign: nat -> Word, ghost pass: Pass)
    returns (ghost done: set<nat>)
    requires SeenBy(h, pass, foreign) && h.memory[..] == pass.mid
    requires roots.Valid() && OnlyObjects(pass.image, roots.elems)
    requires pass.image.Reachable(Queued(pass.image, roots.elems), pass.live.Keys)
    requires RootsPinned(Queued(pass.image, roots.elems), pass.moved)
    modifies h.memory
    ensures pass.live.Keys <= pass.moved.Keys
    ensures GraphPreserved(pass.image, pass.live, pass.moved, h.memory[..])
    ensures pass.Rewritten(h.memory[..], done) && pass.OnlyFields(done)
  {
    hide *;
    SeenFacts(h, pass, foreign);
    StartRewriting(pass);
    NothingQueued(pass.image, roots.elems);
    ghost var unseen := AllAddresses(pass);
    var visited := new PtrQueue();
    done := {};
    var i := 0;
    while i < |roots.elems|
      invariant 0 <= i <= |roots.elems|
      invariant fresh(visited) && visited.Valid()
      invariant Rewriting(pass, visited.elems, h.memory[..], done, {}, unseen)
      invariant Queued(pass.image, roots.elems[..i]) <= Visited(pass, visited.elems)
    {
      done := VisitRoot(h, roots, i, visited, foreign, pass, unseen, done);
      i := i + 1;
    }
    assert roots.elems[..i] == roots.elems;
    RewritingDone(pass, Queued(pass.image, roots.elems), visited.elems, h.memory[..], done, unseen);
  }

  lemma RewritingDone(pass: Pass, roots: set<nat>, elems: seq<nat>, mem: seq<Word>, done: set<nat>, unseen: set<nat>)
    requires pass.Ok() && pass.image.Reachable(roots, pass.live.Keys)
    requires Rewriting(pass, elems, mem, done, {}, unseen)
    requires roots <= Visited(pass, elems)
    ensures pass.live.Keys <= pass.moved.Keys
    ensures GraphPreserved(pass.image, pass.live, pass.moved, mem)
    ensures pass.Rewritten(mem, done) && pass.OnlyFields(done)
  {
    BasePositive(pass);
    AllVisited(pass, roots, elems, mem, done, unseen);
    hide Pass.Ok, Progress, Unvisited;
    AllRewritten(pass, mem, done);
  }
}

/**
 The pointer-rewriting pass, which follows forwarding headers. `mid` is the image compaction
 left; `done` collects the word indices of the fields that have been visited.
 */
module Relocation {
  import opened Words
  import opened Header
  import opened HeapModel
  import opened Compaction
  import opened Graph

  /** A word that, read as a header, neither forwards nor describes pointers. */
  predicate InertHeader(header: Word) {
    HeaderType(header) >= HEADER_UNUSED && HeaderPointers(header) == []
  }

  /** What the pass knows while it runs. */
  datatype Pass = Pass(image: Image, live: Table, moved: Moves, mid: seq<Word>, foreign: nat -> Word)
  {
    /** Compaction is complete: every live object has been placed. */
    ghost predicate Ok() {
      && image.Ok() && image.FieldsOk()
      && TableOk(live, image.Slots()) && live == Restrict(image.table, live.Keys)
      && image.Closed(live.Keys)
      && live.Keys == moved.Keys
      && SlidDown(live, moved) && PlacedApart(live, moved) && ForwardingKept(live, moved)
      && |mid| == |image.mem|
      && MemoryShows(image.base, image.mem, live, moved, mid)
    }

    /** Index of the word `w` of the object that was at slot `s`, at its new place. */
    function Index(s: nat, w: nat): nat
      requires s in moved
    {
      2 * moved[s] + w
    }

    /** The value the pass must leave in a word. */
    function Final(p: Word): nat
      requires live.Keys <= moved.Keys
    {
      Redirect(image.base, live, moved, p)
    }

    /** The object that was at slot `s` is intact at its new place. */
    ghost predicate Sits(s: nat) {
      && s in live && s in moved
      && WellPlaced(live[s])
      && SlidDownOne(s, moved[s], live[s].slots)
      && Holds(mid, moved[s], image.mem, s, live[s].slots)
    }

    /** Exactly the visited fields have been rewritten. */
    ghost predicate Rewritten(mem: seq<Word>, done: set<nat>)
      requires live.Keys <= moved.Keys
    {
      && |mem| == |mid|
      && forall k :: 0 <= k < |mem| ==> mem[k] == if k in done then Final(mid[k]) else mid[k]
    }

    /** Only fields of live objects have been visited. */
    ghost predicate OnlyFields(done: set<nat>)
      requires live.Keys <= moved.Keys
    {
      forall k :: k in done ==> IsField(k)
    }

    ghost predicate IsField(k: nat)
      requires live.Keys <= moved.Keys
    {
      exists s, w :: s in live && w in live[s].fields && k == Index(s, w)
    }

    /** All fields of the object have been visited. */
    ghost predicate AllDone(s: nat, done: set<nat>)
      requires s in live && live.Keys <= moved.Keys
    {
      forall w :: w in live[s].fields ==> Index(s, w) in done
    }

    ghost predicate NoneDone(s: nat, done: set<nat>)
      requires s in live && live.Keys <= moved.Keys
    {
      forall w :: w in live[s].fields ==> Index(s, w) !in done
    }

    // ------------------------------------------------------------ pointers out of the heap

    predicate IsForeign(p: nat) {
      image.IsForeign(p)
    }

    /** The word in front of `p` neither forwards nor describes pointers. */
    predicate Inert(p: nat) {
      InertHeader(foreign(p))
    }

    /** The values a field of a live object may hold: NULL, an object, or an inert foreign address. */
    ghost predicate FieldSafe(p: nat) {
      p == 0 || IsPayload(image.base, live, p) || (IsForeign(p) && Inert(p))
    }

    ghost predicate FieldsSafe() {
      forall s, w :: s in live && w in live[s].fields ==> FieldSafeAt(s, w)
    }

    ghost predicate FieldSafeAt(s: nat, w: nat) {
      && 2 * s + w < |image.mem|
      && FieldSafe(image.mem[2 * s + w])
    }

    /** The word the pass reads in front of the address `p`. */
    function HeaderAt(mem: seq<Word>, p: nat): Word
      requires |mem| == |image.mem|
    {
      if image.base + HEADER_BYTES <= p < image.base + SLOT_BYTES * image.Slots() + HEADER_BYTES then
        mem[(p - HEADER_BYTES - image.base) / 8]
      else foreign(p)
    }
  }

  // ---------------------------------------------------------------- where fields and headers are

  lemma HoldsWord(mem: seq<Word>, d: nat, before: seq<Word>, s: nat, n: nat, w: nat)
    requires Holds(mem, d, before, s, n) && w < 2 * n
    ensures mem[2 * d + w] == before[2 * s + w]
  {
    assert mem[2 * d..2 * (d + n)][w] == before[2 * s..2 * (s + n)][w];
  }

  /** Where a live object is. */
  lemma PlaceOf(pass: Pass, s: nat)
    requires pass.Ok() && s in pass.live
    ensures pass.Sits(s)
  {
    assert InPlace(s, pass.live[s], pass.image.Slots());
  }

  lemma FieldInside(pass: Pass, s: nat, w: nat)
    requires pass.Sits(s) && w < 2 * pass.live[s].slots
    ensures pass.Index(s, w) < |pass.mid| && 2 * s + w < |pass.image.mem|
    ensures pass.mid[pass.Index(s, w)] == pass.image.mem[2 * s + w]
  {
    HoldsWord(pass.mid, pass.moved[s], pass.image.mem, s, pass.live[s].slots, w);
  }

  lemma WordsApart(d: nat, n: nat, w: nat, e: nat, m: nat, v: nat)
    requires Apart(d, n, e, m) && w < 2 * n && v < 2 * m
    ensures 2 * d + w != 2 * e + v
  {
  }

  /** Words of different objects are different words. */
  lemma FieldsApart(pass: Pass, s: nat, w: nat, t: nat, v: nat)
    requires pass.live.Keys == pass.moved.Keys && PlacedApart(pass.live, pass.moved)
    requires s in pass.live && t in pass.live && s != t
    requires w < 2 * pass.live[s].slots && v < 2 * pass.live[t].slots
    ensures pass.Index(s, w) != pass.Index(t, v)
  {
    assert Apart(pass.moved[s], pass.live[s].slots, pass.moved[t], pass.live[t].slots);
  }

  /** No field lies over a header, old or new. */
  lemma HeadersAreNotFields(pass: Pass, s: nat)
    requires pass.live.Keys == pass.moved.Keys && s in pass.live
    requires forall t :: t in pass.live ==> WellPlaced(pass.live[t])
    requires PlacedApart(pass.live, pass.moved) && ForwardingKept(pass.live, pass.moved)
    ensures !pass.IsField(2 * s)
  {
    forall t, w | t in pass.live && w in pass.live[t].fields
      ensures 2 * s != pass.Index(t, w)
    {
      assert WellPlaced(pass.live[t]) && WellPlaced(pass.live[s]);
      if pass.moved[s] != s {
        WordsApart(pass.moved[t], pass.live[t].slots, w, s, 1, 0);
      } else if s != t {
        FieldsApart(pass, t, w, s, 0);
      }
    }
  }

  /** A field that has not been visited still holds its old value. */
  lemma UnvisitedField(pass: Pass, mem: seq<Word>, done: set<nat>, s: nat, w: nat)
    requires pass.Sits(s) && w in pass.live[s].fields
    requires pass.live.Keys == pass.moved.Keys && pass.Rewritten(mem, done)
    requires pass.Index(s, w) !in done
    ensures pass.Index(s, w) < |mem| && 2 * s + w < |pass.image.mem|
    ensures mem[pass.Index(s, w)] == pass.image.mem[2 * s + w]
  {
    FieldInside(pass, s, w);
  }

  lemma ForwardingHeaderRead(base: nat, d: nat)
    requires base % SLOT_BYTES == 0 && Address(base, d) < WORD_MODULUS
    ensures HeaderType(ForwardingHeader(base, d)) == HEADER_FORWARDING_ADDRESS
    ensures PointerInHeader(ForwardingHeader(base, d)) == Address(base, d)
  {
    assert Address(base, d) == 4 * (4 * (base / 16) + 4 * d + 2);
    PackedPointer(Address(base, d), HEADER_FORWARDING_ADDRESS);
  }

  /** The word at the old header of a live object: a forwarding header if it moved, its own header if not. */
  lemma OldHeader(pass: Pass, c: nat)
    requires pass.Sits(c) && pass.live.Keys == pass.moved.Keys
    requires DescribesAt(pass.image.mem, c, pass.live[c])
    requires AddressesFit(pass.image.base, |pass.mid|)
    requires IsForwarding(pass.moved, c) ==> ForwardsTo(pass.image.base, pass.mid, c, pass.moved[c])
    ensures 2 * c < |pass.mid|
    ensures Address(pass.image.base, pass.moved[c]) < WORD_MODULUS
    ensures if pass.moved[c] != c then pass.mid[2 * c] == ForwardingHeader(pass.image.base, pass.moved[c])
            else HeaderType(pass.mid[2 * c]) == HEADER_BIT_VECTOR
  {
    FieldInside(pass, c, 0);
    assert pass.moved[c] != c ==> IsForwarding(pass.moved, c);
  }

  lemma HeaderAtPayload(pass: Pass, mem: seq<Word>, c: nat)
    requires |mem| == |pass.image.mem| && 2 * c < |mem| && |mem| % 2 == 0
    ensures pass.HeaderAt(mem, Address(pass.image.base, c)) == mem[2 * c]
  {
  }

  /** The facts about one live object that the pass relies on. */
  lemma AboutObject(pass: Pass, c: nat)
    requires pass.Ok() && c in pass.live
    ensures pass.Sits(c)
    ensures DescribesAt(pass.image.mem, c, pass.live[c])
    ensures AddressesFit(pass.image.base, |pass.mid|) && |pass.mid| == |pass.image.mem| && |pass.mid| % 2 == 0
    ensures IsForwarding(pass.moved, c) ==> ForwardsTo(pass.image.base, pass.mid, c, pass.moved[c])
    ensures !pass.IsField(2 * c)
  {
    PlaceOf(pass, c);
    assert DescribesAt(pass.image.mem, c, pass.image.table[c]);
    forall t | t in pass.live
      ensures WellPlaced(pass.live[t])
    {
      assert InPlace(t, pass.live[t], pass.image.Slots());
    }
    HeadersAreNotFields(pass, c);
  }

  /** The header in front of the old address of a live object says where it is now. */
  lemma ChildHeader(pass: Pass, mem: seq<Word>, done: set<nat>, p: nat)
    requires pass.Ok() && pass.Rewritten(mem, done) && pass.OnlyFields(done)
    requires IsPayload(pass.image.base, pass.live, p)
    ensures var h := pass.HeaderAt(mem, p);
            pass.Final(p) == if HeaderType(h) == HEADER_FORWARDING_ADDRESS then PointerInHeader(h) else p
  {
    var c := SlotOf(pass.image.base, p);
    PayloadAddress(pass.image.base, pass.live, p);
    AboutObject(pass, c);
    OldHeader(pass, c);
    HeaderAtPayload(pass, mem, c);
    ForwardingHeaderRead(pass.image.base, pass.moved[c]);
  }

  /** What the pass does to the value of a field. */
  function Followed(pass: Pass, mem: seq<Word>, p: nat): nat
    requires |mem| == |pass.image.mem|
  {
    if p == 0 then 0
    else
      var h := pass.HeaderAt(mem, p);
      if HeaderType(h) == HEADER_FORWARDING_ADDRESS then PointerInHeader(h) else p
  }

  lemma NullStays(pass: Pass)
    requires pass.live.Keys <= pass.moved.Keys && pass.image.base > 0
    ensures pass.Final(0) == 0
  {
  }

  /** Outside the heap nothing is redirected, so an inert address stays. */
  lemma ForeignStays(pass: Pass, mem: seq<Word>, p: Word)
    requires pass.live.Keys <= pass.moved.Keys && |mem| == |pass.image.mem| && p != 0
    requires pass.IsForeign(p) && pass.Inert(p)
    requires !IsPayload(pass.image.base, pass.live, p)
    ensures pass.Final(p) == Followed(pass, mem, p)
  {
  }

  /** One visited field: NULL stays, an object's old address is redirected, a foreign address stays. */
  lemma FieldRewritten(pass: Pass, mem: seq<Word>, done: set<nat>, p: Word)
    requires pass.Ok() && pass.Rewritten(mem, done) && pass.OnlyFields(done)
    requires pass.FieldSafe(p)
    ensures pass.Final(p) == Followed(pass, mem, p)
  {
    NullStays(pass);
    if IsPayload(pass.image.base, pass.live, p) {
      ChildHeader(pass, mem, done, p);
    } else if p != 0 {
      ForeignStays(pass, mem, p);
    }
  }

  /**
   A foreign address survives the pass exactly when the word in front of it is not tagged as a
   forwarding header, or happens to forward to the address itself.
   */
  lemma ForeignFieldSurvives(pass: Pass, mem: seq<Word>, p: nat)
    requires |mem| == |pass.image.mem| && pass.IsForeign(p)
    ensures Followed(pass, mem, p) == p <==>
            HeaderType(pass.foreign(p)) != HEADER_FORWARDING_ADDRESS || pass.foreign(p) == p + 1
  {
  }

  /**
   The word in front of ordinary memory is often odd: 33 is the size of a 32-byte block, marked as in
   use. Read as a header it forwards to the address 32.
   */
  lemma ForeignFieldLost(pass: Pass, mem: seq<Word>, p: nat)
    requires |mem| == |pass.image.mem| && pass.IsForeign(p)
    requires pass.foreign(p) == 33 && p != 32
    ensures Followed(pass, mem, p) == 32 != p
  {
  }

  lemma RewriteField(pass: Pass, mem: seq<Word>, done: set<nat>, k: nat, q: Word)
    requires pass.live.Keys <= pass.moved.Keys
    requires pass.Rewritten(mem, done)
    requires k < |mem| && k !in done && q == pass.Final(mem[k])
    ensures pass.Rewritten(mem[k := q], done + {k})
  {
  }

  // ---------------------------------------------------------------- the whole pass

  lemma OtherWordsNotFields(pass: Pass, s: nat, i: nat)
    requires pass.live.Keys == pass.moved.Keys && s in pass.live
    requires forall t :: t in pass.live ==> WellPlaced(pass.live[t])
    requires PlacedApart(pass.live, pass.moved)
    requires i < 2 * pass.live[s].slots && i !in pass.live[s].fields
    ensures !pass.IsField(pass.Index(s, i))
  {
    forall t, w | t in pass.live && w in pass.live[t].fields
      ensures pass.Index(s, i) != pass.Index(t, w)
    {
      assert WellPlaced(pass.live[t]);
      if s != t {
        FieldsApart(pass, s, i, t, w);
      }
    }
  }

  lemma WordFinal(pass: Pass, mem: seq<Word>, done: set<nat>, s: nat, i: nat)
    requires pass.live.Keys == pass.moved.Keys
    requires pass.Sits(s) && pass.Rewritten(mem, done) && pass.OnlyFields(done)
    requires forall t :: t in pass.live ==> WellPlaced(pass.live[t])
    requires PlacedApart(pass.live, pass.moved)
    requires pass.AllDone(s, done) && i < 2 * pass.live[s].slots
    ensures WordPreserved(pass.image, pass.live, pass.moved, mem, s, i)
  {
    FieldInside(pass, s, i);
    if i !in pass.live[s].fields {
      OtherWordsNotFields(pass, s, i);
    }
  }

  /** When every field has been visited, the graph is the old one at its new place. */
  lemma AllRewritten(pass: Pass, mem: seq<Word>, done: set<nat>)
    requires pass.Ok() && pass.Rewritten(mem, done) && pass.OnlyFields(done)
    requires forall s :: s in pass.live ==> pass.AllDone(s, done)
    ensures GraphPreserved(pass.image, pass.live, pass.moved, mem)
  {
    forall t | t in pass.live
      ensures pass.Sits(t)
    {
      PlaceOf(pass, t);
    }
    forall s, i | s in pass.live && 0 <= i < 2 * pass.live[s].slots
      ensures WordPreserved(pass.image, pass.live, pass.moved, mem, s, i)
    {
      WordFinal(pass, mem, done, s, i);
    }
  }
}

/**
 The sliding of live objects, as a relation between the heap image before the collection and
 the image while it runs. `live` is the table of live objects; `moved` says where each object
 that has been dealt with now is. Pinned roots are dealt with from the start, at their origin.
 */
module Compaction {
  import opened Words
  import opened Header
  import opened HeapModel

  type Moves = map<nat, nat>

  // ---------------------------------------------------------------- what compaction keeps

  /** Objects only slide down, either not at all or clear of their origin, and stay inside one page. */
  ghost predicate SlidDown(live: Table, moved: Moves) {
    forall s :: s in moved ==> s in live && SlidDownOne(s, moved[s], live[s].slots)
  }

  ghost predicate SlidDownOne(s: nat, d: nat, n: nat) {
    && (d == s || d + n <= s)
    && d % PAGE_SLOTS + n <= PAGE_SLOTS
  }

  ghost predicate Apart(d: nat, n: nat, e: nat, m: nat) {
    d + n <= e || e + m <= d
  }

  /** Objects that have been placed do not overlap. */
  ghost predicate PlacedApart(live: Table, moved: Moves)
    requires moved.Keys <= live.Keys
  {
    forall s, t :: s in moved && t in moved && s != t ==> Apart(moved[s], live[s].slots, moved[t], live[t].slots)
  }

  /** Nothing was placed over a forwarding header. */
  ghost predicate ForwardingKept(live: Table, moved: Moves)
    requires moved.Keys <= live.Keys
  {
    forall s, t :: s in moved && t in moved && moved[t] != t ==> Apart(moved[s], live[s].slots, t, 1)
  }

  /** Nothing was placed over an object that is still waiting. */
  ghost predicate WaitingKept(live: Table, moved: Moves)
    requires moved.Keys <= live.Keys
  {
    forall s, t :: s in moved && t in live && t !in moved ==> Apart(moved[s], live[s].slots, t, live[t].slots)
  }

  /** The bump pointer has not passed an object that is still waiting. */
  ghost predicate BumpBehind(live: Table, moved: Moves, b: nat) {
    forall t :: t in live && t !in moved ==> b <= t
  }

  ghost predicate PlacedAt(live: Table, moved: Moves, k: nat)
    requires moved.Keys <= live.Keys
  {
    exists s :: s in moved && moved[s] <= k < moved[s] + live[s].slots
  }

  ghost predicate IsForwarding(moved: Moves, k: nat) {
    k in moved && moved[k] != k
  }

  /** The allocation map shows the objects that have been placed, and the forwarding headers. */
  ghost predicate BitsShow(live: Table, moved: Moves, bits: seq<bool>)
    requires moved.Keys <= live.Keys
  {
    forall k :: 0 <= k < |bits| ==> (bits[k] <==> PlacedAt(live, moved, k) || IsForwarding(moved, k))
  }

  /** The slots from `d` hold what the slots from `s` held before. */
  ghost predicate Holds(mem: seq<Word>, d: nat, before: seq<Word>, s: nat, n: nat) {
    && 2 * (d + n) <= |mem|
    && 2 * (s + n) <= |before|
    && mem[2 * d..2 * (d + n)] == before[2 * s..2 * (s + n)]
  }

  /** The header an object leaves behind when it moves to slot `d`. */
  function ForwardingHeader(base: nat, d: nat): Word
    requires Address(base, d) < WORD_MODULUS
  {
    SetHeaderType(Address(base, d), HEADER_FORWARDING_ADDRESS)
  }

  ghost predicate AddressesFit(base: nat, words: nat) {
    && base % SLOT_BYTES == 0
    && base + 8 * words < WORD_MODULUS
  }

  ghost predicate ForwardsTo(base: nat, mem: seq<Word>, s: nat, d: nat)
    requires AddressesFit(base, |mem|)
  {
    && d <= s
    && 2 * s < |mem|
    && mem[2 * s] == ForwardingHeader(base, d)
  }

  /** Placed objects are intact copies, moved objects left a forwarding header, waiting ones are untouched. */
  ghost predicate MemoryShows(base: nat, before: seq<Word>, live: Table, moved: Moves, mem: seq<Word>)
    requires AddressesFit(base, |mem|) && moved.Keys <= live.Keys
  {
    && (forall s :: s in moved ==> Holds(mem, moved[s], before, s, live[s].slots))
    && (forall s :: IsForwarding(moved, s) ==> ForwardsTo(base, mem, s, moved[s]))
    && (forall t :: t in live && t !in moved ==> Holds(mem, t, before, t, live[t].slots))
  }

  /** Objects that are not pinned keep their order. */
  ghost predicate OrderKept(live: Table, roots: set<nat>, moved: Moves)
    requires moved.Keys <= live.Keys
  {
    forall s, t :: s in moved && t in moved && s !in roots && t !in roots && s < t ==>
      moved[s] + live[s].slots <= moved[t]
  }

  /** Objects are dealt with in address order. */
  ghost predicate QueueOrder(live: Table, roots: set<nat>, moved: Moves) {
    forall s, u :: s in moved && s !in roots && u in live && u !in moved ==> s < u
  }

  ghost predicate PlacedBehind(live: Table, roots: set<nat>, moved: Moves, b: nat)
    requires moved.Keys <= live.Keys
  {
    forall s :: s in moved && s !in roots ==> moved[s] + live[s].slots <= b
  }

  ghost predicate RootsPinned(roots: set<nat>, moved: Moves) {
    forall s :: s in roots ==> s in moved && moved[s] == s
  }

  /** Everything about the places of objects. */
  ghost predicate PlacesOk(live: Table, roots: set<nat>, moved: Moves, bits: seq<bool>, b: nat) {
    && SlidDown(live, moved)
    && PlacedApart(live, moved)
    && ForwardingKept(live, moved)
    && WaitingKept(live, moved)
    && BumpBehind(live, moved, b)
    && BitsShow(live, moved, bits)
    && OrderKept(live, roots, moved)
    && QueueOrder(live, roots, moved)
    && PlacedBehind(live, roots, moved, b)
    && RootsPinned(roots, moved)
  }

  // ---------------------------------------------------------------- one step

  function SetRange(bits: seq<bool>, d: nat, n: nat): (r: seq<bool>)
    ensures |r| == |bits|
  {
    seq(|bits|, k requires 0 <= k < |bits| => bits[k] || d <= k < d + n)
  }

  /** The allocation map after an object has been placed; a moved object keeps its old header slot. */
  function BitsAfter(bits: seq<bool>, origin: nat, d: nat, n: nat): (r: seq<bool>)
    ensures |r| == |bits|
  {
    seq(|bits|, k requires 0 <= k < |bits| => bits[k] || d <= k < d + n || k == (if d == origin then d else origin))
  }

  /** The next object in address order. */
  ghost predicate IsNext(live: Table, moved: Moves, t: nat) {
    && t in live && t !in moved
    && forall u :: u in live && u !in moved ==> t <= u
  }

  /** An object that waits can always stay where it is. */
  lemma OriginFits(live: Table, roots: set<nat>, moved: Moves, bits: seq<bool>, b: nat, t: nat)
    requires TableOk(live, |bits|)
    requires PlacesOk(live, roots, moved, bits, b)
    requires IsNext(live, moved, t)
    ensures Fits(bits, t, live[t].slots)
    ensures b <= t
  {
    assert InPlace(t, live[t], |bits|);
    forall k | t <= k < t + live[t].slots
      ensures !bits[k]
    {
      forall s | s in moved
        ensures !(moved[s] <= k < moved[s] + live[s].slots)
        ensures s != k
      {
        assert Apart(moved[s], live[s].slots, t, live[t].slots);
        assert InPlace(s, live[s], |bits|);
      }
      assert !PlacedAt(live, moved, k);
    }
  }

  /** So the search always succeeds, at or before the origin: compaction never aborts. */
  lemma SearchSucceeds(live: Table, roots: set<nat>, moved: Moves, bits: seq<bool>, b: nat, t: nat)
    requires TableOk(live, |bits|)
    requires PlacesOk(live, roots, moved, bits, b)
    requires IsNext(live, moved, t)
    ensures !NoFit(bits, b, live[t].slots, t + 1)
    ensures forall d: nat :: FirstFit(bits, b, live[t].slots, d) ==> d <= t
  {
    OriginFits(live, roots, moved, bits, b, t);
  }

  /** The place `d` for the object at `t` is clear of everything that must not be overwritten. */
  ghost predicate ClearPlace(live: Table, moved: Moves, t: nat, d: nat)
    requires moved.Keys <= live.Keys && t in live
  {
    && (forall s :: s in moved ==>
          && Apart(moved[s], live[s].slots, d, live[t].slots)
          && Apart(moved[s], live[s].slots, t, live[t].slots)
          && (moved[s] != s ==> Apart(d, live[t].slots, s, 1)))
    && (forall u :: u in live && u !in moved && u != t ==> t + live[t].slots <= u)
  }

  lemma FreeIsClear(live: Table, roots: set<nat>, moved: Moves, bits: seq<bool>, b: nat, t: nat, d: nat)
    requires TableOk(live, |bits|)
    requires PlacesOk(live, roots, moved, bits, b)
    requires IsNext(live, moved, t)
    requires Fits(bits, d, live[t].slots)
    ensures ClearPlace(live, moved, t, d)
  {
    assert InPlace(t, live[t], |bits|);
    var n := live[t].slots;
    forall s | s in moved
      ensures Apart(moved[s], live[s].slots, d, n)
      ensures moved[s] != s ==> Apart(d, n, s, 1)
    {
      assert InPlace(s, live[s], |bits|);
      assert SlidDownOne(s, moved[s], live[s].slots);
      assert PlacedAt(live, moved, moved[s]);
      assert !PlacedAt(live, moved, d);
      assert moved[s] != s ==> IsForwarding(moved, s);
    }
  }

  lemma PlacesAfter(live: Table, moved: Moves, t: nat, d: nat)
    requires moved.Keys <= live.Keys && t in live && t !in moved
    requires PlacedApart(live, moved) && ForwardingKept(live, moved) && WaitingKept(live, moved)
    requires ClearPlace(live, moved, t, d)
    requires live[t].slots > 0 && (d == t || d + live[t].slots <= t)
    ensures PlacedApart(live, moved[t := d])
    ensures ForwardingKept(live, moved[t := d])
    ensures WaitingKept(live, moved[t := d])
  {
  }

  lemma OrderAfter(live: Table, roots: set<nat>, moved: Moves, b: nat, t: nat, d: nat)
    requires SlidDown(live, moved)
    requires OrderKept(live, roots, moved) && QueueOrder(live, roots, moved)
    requires PlacedBehind(live, roots, moved, b) && BumpBehind(live, moved, b) && RootsPinned(roots, moved)
    requires IsNext(live, moved, t) && t !in roots
    requires ClearPlace(live, moved, t, d)
    requires b <= d && (d == t || d + live[t].slots <= t)
    requires d % PAGE_SLOTS + live[t].slots <= PAGE_SLOTS
    ensures var moved', b' := moved[t := d], d + live[t].slots;
            && SlidDown(live, moved')
            && OrderKept(live, roots, moved') && QueueOrder(live, roots, moved')
            && PlacedBehind(live, roots, moved', b') && BumpBehind(live, moved', b') && RootsPinned(roots, moved')
  {
    forall u | u in live && u !in moved[t := d]
      ensures d + live[t].slots <= u
    {
      assert t + live[t].slots <= u;
    }
  }

  /** One object of the queue: it goes to the first place, or stays when that is too close. */
  lemma PlaceNext(live: Table, roots: set<nat>, moved: Moves, bits: seq<bool>, b: nat, t: nat, d: nat)
    requires TableOk(live, |bits|)
    requires PlacesOk(live, roots, moved, bits, b)
    requires IsNext(live, moved, t) && t !in roots
    requires b <= d && Fits(bits, d, live[t].slots)
    requires d == t || d + live[t].slots <= t
    ensures PlacesOk(live, roots, moved[t := d], BitsAfter(bits, t, d, live[t].slots), d + live[t].slots)
  {
    assert InPlace(t, live[t], |bits|);
    FreeIsClear(live, roots, moved, bits, b, t, d);
    PlacesAfter(live, moved, t, d);
    OrderAfter(live, roots, moved, b, t, d);
    BitsAfterPlacing(live, moved, bits, t, d);
  }

  lemma BitsAfterPlacing(live: Table, moved: Moves, bits: seq<bool>, t: nat, d: nat)
    requires moved.Keys <= live.Keys && t in live && t !in moved
    requires live[t].slots > 0
    requires BitsShow(live, moved, bits)
    ensures BitsShow(live, moved[t := d], BitsAfter(bits, t, d, live[t].slots))
  {
    var moved', n := moved[t := d], live[t].slots;
    var bits' := BitsAfter(bits, t, d, n);
    forall k | 0 <= k < |bits|
      ensures bits'[k] <==> PlacedAt(live, moved', k) || IsForwarding(moved', k)
    {
      if PlacedAt(live, moved, k) {
        var s :| s in moved && moved[s] <= k < moved[s] + live[s].slots;
        assert s in moved' && moved'[s] == moved[s];
      }
      if d <= k < d + n {
        assert t in moved' && moved'[t] <= k < moved'[t] + live[t].slots;
      }
      if PlacedAt(live, moved', k) {
        var s :| s in moved' && moved'[s] <= k < moved'[s] + live[s].slots;
        if s != t {
          assert s in moved && moved[s] <= k < moved[s] + live[s].slots;
        }
      }
    }
  }

  // ---------------------------------------------------------------- where objects go

  /** The bump pointer is right behind the last object that was placed, or at the start of the heap. */
  ghost predicate BumpAt(live: Table, roots: set<nat>, moved: Moves, b: nat)
    requires moved.Keys <= live.Keys
  {
    && PlacedBehind(live, roots, moved, b)
    && (b == 0 || exists u :: u in moved && u !in roots && moved[u] + live[u].slots == b)
  }

  /** The moves made before the object at `s` was dealt with. */
  function Earlier(moved: Moves, roots: set<nat>, s: nat): (r: Moves)
    ensures r.Keys <= moved.Keys
  {
    map t | t in moved && (t in roots || t < s) :: moved[t]
  }

  /** What the map and the bump pointer were when the object at `s` was dealt with. */
  ghost predicate SeenAt(live: Table, roots: set<nat>, moved: Moves, s: nat, bits: seq<bool>, b: nat)
    requires moved.Keys <= live.Keys
  {
    BitsShow(live, Earlier(moved, roots, s), bits) && BumpAt(live, roots, Earlier(moved, roots, s), b)
  }

  /** `n` slots go to the first place, or stay when that place reaches into them. */
  ghost predicate GoesTo(s: nat, n: nat, first: nat, d: nat) {
    && first <= s
    && (first + n <= s ==> d == first)
    && (first + n > s ==> d == s)
  }

  /** The object at `s` went to the first place from the bump pointer that was free then, or stayed. */
  ghost predicate WentFirst(live: Table, roots: set<nat>, moved: Moves, slots: nat, s: nat)
    requires moved.Keys <= live.Keys && s in moved
  {
    exists bits: seq<bool>, b, first ::
      && |bits| == slots && SeenAt(live, roots, moved, s, bits, b)
      && FirstFit(bits, b, live[s].slots, first)
      && GoesTo(s, live[s].slots, first, moved[s])
  }

  ghost predicate AllWentFirst(live: Table, roots: set<nat>, moved: Moves, slots: nat)
    requires moved.Keys <= live.Keys
  {
    forall s :: s in moved && s !in roots ==> WentFirst(live, roots, moved, slots, s)
  }

  lemma EarlierStays(live: Table, roots: set<nat>, moved: Moves, t: nat, d: nat, s: nat)
    requires QueueOrder(live, roots, moved) && t in live && t !in moved && t !in roots
    requires s in moved && s !in roots
    ensures Earlier(moved[t := d], roots, s) == Earlier(moved, roots, s)
  {
  }

  lemma EarlierIsAll(live: Table, roots: set<nat>, moved: Moves, t: nat, d: nat)
    requires QueueOrder(live, roots, moved) && t in live && t !in moved && t !in roots
    ensures Earlier(moved[t := d], roots, t) == moved
  {
  }

  lemma BumpAfter(live: Table, roots: set<nat>, moved: Moves, b: nat, t: nat, d: nat)
    requires moved.Keys <= live.Keys && BumpAt(live, roots, moved, b)
    requires t in live && t !in moved && t !in roots && b <= d
    ensures BumpAt(live, roots, moved[t := d], d + live[t].slots)
  {
    assert t in moved[t := d];
  }

  /** Placing the next object keeps the rule for all. */
  lemma WentFirstNext(live: Table, roots: set<nat>, moved: Moves, bits: seq<bool>, b: nat, t: nat, first: nat, d: nat)
    requires moved.Keys <= live.Keys && QueueOrder(live, roots, moved)
    requires BitsShow(live, moved, bits) && BumpAt(live, roots, moved, b)
    requires AllWentFirst(live, roots, moved, |bits|)
    requires t in live && t !in moved && t !in roots
    requires FirstFit(bits, b, live[t].slots, first) && GoesTo(t, live[t].slots, first, d)
    ensures AllWentFirst(live, roots, moved[t := d], |bits|)
  {
    hide BitsShow, FirstFit, GoesTo, BumpAt, QueueOrder, Earlier;
    forall s | s in moved[t := d] && s !in roots
      ensures WentFirst(live, roots, moved[t := d], |bits|, s)
    {
      if s == t {
        EarlierIsAll(live, roots, moved, t, d);
        assert SeenAt(live, roots, moved[t := d], t, bits, b);
      } else {
        assert WentFirst(live, roots, moved, |bits|, s);
        EarlierStays(live, roots, moved, t, d, s);
        var bits': seq<bool>, b', first' :|
          && |bits'| == |bits| && SeenAt(live, roots, moved, s, bits', b')
          && FirstFit(bits', b', live[s].slots, first') && GoesTo(s, live[s].slots, first', moved[s]);
        assert SeenAt(live, roots, moved[t := d], s, bits', b');
      }
    }
  }

  /** Map and bump pointer are determined by the moves made. */
  lemma SeenOnce(live: Table, roots: set<nat>, moved: Moves, bits: seq<bool>, b: nat, bits': seq<bool>, b': nat)
    requires moved.Keys <= live.Keys && |bits| == |bits'|
    requires BitsShow(live, moved, bits) && BumpAt(live, roots, moved, b)
    requires BitsShow(live, moved, bits') && BumpAt(live, roots, moved, b')
    ensures bits == bits' && b == b'
  {
    assert forall k :: 0 <= k < |bits| ==> (bits[k] <==> bits'[k]);
  }

  /** An object below which a place was free, wholly and from the bump pointer on, has moved there or before. */
  lemma MovesWhenItCan(live: Table, roots: set<nat>, moved: Moves, bits: seq<bool>, b: nat, s: nat, e: nat)
    requires moved.Keys <= live.Keys && s in moved && WentFirst(live, roots, moved, |bits|, s)
    requires SeenAt(live, roots, moved, s, bits, b)
    requires b <= e && Fits(bits, e, live[s].slots) && e + live[s].slots <= s
    ensures moved[s] <= e && (live[s].slots > 0 ==> moved[s] < s)
  {
    hide BitsShow, BumpAt, Fits, Earlier;
    var bits': seq<bool>, b', first :|
      && |bits'| == |bits| && SeenAt(live, roots, moved, s, bits', b')
      && FirstFit(bits', b', live[s].slots, first) && GoesTo(s, live[s].slots, first, moved[s]);
    SeenOnce(live, roots, Earlier(moved, roots, s), bits, b, bits', b');
  }

  lemma SameStep(live: Table, roots: set<nat>, moved: Moves, moved': Moves, slots: nat, s: nat)
    requires moved.Keys == moved'.Keys <= live.Keys && s in moved
    requires WentFirst(live, roots, moved, slots, s) && WentFirst(live, roots, moved', slots, s)
    requires Earlier(moved, roots, s) == Earlier(moved', roots, s)
    ensures moved[s] == moved'[s]
  {
    hide BitsShow, BumpAt, Fits, Earlier;
    var bits: seq<bool>, b, first :|
      && |bits| == slots && SeenAt(live, roots, moved, s, bits, b)
      && FirstFit(bits, b, live[s].slots, first) && GoesTo(s, live[s].slots, first, moved[s]);
    var bits': seq<bool>, b', first' :|
      && |bits'| == slots && SeenAt(live, roots, moved', s, bits', b')
      && FirstFit(bits', b', live[s].slots, first') && GoesTo(s, live[s].slots, first', moved'[s]);
    SeenOnce(live, roots, Earlier(moved, roots, s), bits, b, bits', b');
  }

  /** The rule leaves no choice: live objects and roots decide where everything goes. */
  lemma {:induction false} PlacesDetermined(live: Table, roots: set<nat>, moved: Moves, moved': Moves, slots: nat,
                                            s: nat)
    requires moved.Keys == moved'.Keys <= live.Keys && s in moved
    requires RootsPinned(roots, moved) && RootsPinned(roots, moved')
    requires AllWentFirst(live, roots, moved, slots) && AllWentFirst(live, roots, moved', slots)
    ensures moved[s] == moved'[s]
    decreases s
  {
    hide WentFirst;
    if s !in roots {
      forall t | t in moved && t < s
        ensures moved[t] == moved'[t]
      {
        PlacesDetermined(live, roots, moved, moved', slots, t);
      }
      assert Earlier(moved, roots, s) == Earlier(moved', roots, s);
      SameStep(live, roots, moved, moved', slots, s);
    }
  }

  // ---------------------------------------------------------------- memory

  /** `memmove` of `n` slots, then the forwarding header over the old one. */
  function Relocate(base: nat, mem: seq<Word>, s: nat, d: nat, n: nat): (r: seq<Word>)
    requires AddressesFit(base, |mem|) && n > 0
    requires d + n <= s && 2 * (s + n) <= |mem|
    ensures |r| == |mem|
  {
    seq(|mem|, k requires 0 <= k < |mem| =>
      if k == 2 * s then ForwardingHeader(base, d)
      else if 2 * d <= k < 2 * (d + n) then mem[k + 2 * (s - d)]
      else mem[k])
  }

  function MemoryAfter(base: nat, mem: seq<Word>, s: nat, d: nat, n: nat): (r: seq<Word>)
    requires AddressesFit(base, |mem|) && n > 0
    requires d == s || d + n <= s
    requires 2 * (s + n) <= |mem|
    ensures |r| == |mem|
  {
    if d == s then mem else Relocate(base, mem, s, d, n)
  }

  lemma HoldsElsewhere(base: nat, mem: seq<Word>, s: nat, d: nat, n: nat, e: nat, before: seq<Word>, t: nat, m: nat)
    requires AddressesFit(base, |mem|) && n > 0
    requires d + n <= s && 2 * (s + n) <= |mem|
    requires Holds(mem, e, before, t, m)
    requires Apart(e, m, d, n) && Apart(e, m, s, 1)
    ensures Holds(Relocate(base, mem, s, d, n), e, before, t, m)
  {
    var mem' := Relocate(base, mem, s, d, n);
    assert mem'[2 * e..2 * (e + m)] == mem[2 * e..2 * (e + m)];
  }

  lemma HoldsCopy(base: nat, mem: seq<Word>, s: nat, d: nat, n: nat, before: seq<Word>)
    requires AddressesFit(base, |mem|) && n > 0
    requires d + n <= s && 2 * (s + n) <= |mem|
    requires Holds(mem, s, before, s, n)
    ensures Holds(Relocate(base, mem, s, d, n), d, before, s, n)
  {
    var mem' := Relocate(base, mem, s, d, n);
    assert mem'[2 * d..2 * (d + n)] == mem[2 * s..2 * (s + n)];
  }

  lemma ForwardsAfter(base: nat, mem: seq<Word>, s: nat, d: nat, n: nat, t: nat, e: nat)
    requires AddressesFit(base, |mem|) && n > 0
    requires d + n <= s && 2 * (s + n) <= |mem|
    ensures ForwardsTo(base, Relocate(base, mem, s, d, n), s, d)
    ensures t != s && Apart(d, n, t, 1) && ForwardsTo(base, mem, t, e) ==>
              ForwardsTo(base, Relocate(base, mem, s, d, n), t, e)
  {
  }

  /** Moving an object keeps every other placed or waiting object and every forwarding header. */
  lemma MoveNext(base: nat, before: seq<Word>, live: Table, moved: Moves, mem: seq<Word>, t: nat, d: nat)
    requires AddressesFit(base, |mem|) && |mem| == |before|
    requires moved.Keys <= live.Keys && t in live && t !in moved
    requires ClearPlace(live, moved, t, d)
    requires MemoryShows(base, before, live, moved, mem)
    requires live[t].slots > 0 && d + live[t].slots <= t && 2 * (t + live[t].slots) <= |mem|
    ensures MemoryShows(base, before, live, moved[t := d], Relocate(base, mem, t, d, live[t].slots))
  {
    var n := live[t].slots;
    var mem', moved' := Relocate(base, mem, t, d, n), moved[t := d];
    hide Relocate, ForwardsTo, Holds;
    HoldsCopy(base, mem, t, d, n, before);
    forall s | s in moved
      ensures Holds(mem', moved[s], before, s, live[s].slots)
    {
      HoldsElsewhere(base, mem, t, d, n, moved[s], before, s, live[s].slots);
    }
    forall s | IsForwarding(moved', s)
      ensures ForwardsTo(base, mem', s, moved'[s])
    {
      ForwardsAfter(base, mem, t, d, n, s, moved'[s]);
      if s != t {
        assert IsForwarding(moved, s);
      }
    }
    forall u | u in live && u !in moved'
      ensures Holds(mem', u, before, u, live[u].slots)
    {
      HoldsElsewhere(base, mem, t, d, n, u, before, u, live[u].slots);
    }
  }

  /** Staying changes nothing in memory. */
  lemma StayNext(base: nat, before: seq<Word>, live: Table, moved: Moves, mem: seq<Word>, t: nat)
    requires AddressesFit(base, |mem|) && moved.Keys <= live.Keys
    requires t in live && t !in moved
    requires MemoryShows(base, before, live, moved, mem)
    ensures MemoryShows(base, before, live, moved[t := t], mem)
  {
    forall s | IsForwarding(moved[t := t], s)
      ensures ForwardsTo(base, mem, s, moved[s])
    {
      assert IsForwarding(moved, s);
    }
  }

  // ---------------------------------------------------------------- the whole phase

  function Part(live: Table, done: set<nat>): (r: Table)
    ensures r.Keys == live.Keys * done
    ensures forall s :: s in r ==> r[s] == live[s]
  {
    map s | s in live && s in done :: live[s]
  }

  function Pinned(roots: set<nat>): (moved: Moves)
    ensures moved.Keys == roots
    ensures forall s :: s in roots ==> moved[s] == s
  {
    map s | s in roots :: s
  }

  /** Everything compaction keeps, between one object of the queue and the next. */
  ghost predicate CompactionOk(base: nat, before: seq<Word>, live: Table, roots: set<nat>, moved: Moves,
                               mem: seq<Word>, bits: seq<bool>, b: nat, used: int) {
    && |mem| == 2 * |bits| == |before|
    && AddressesFit(base, |mem|)
    && PlacesOk(live, roots, moved, bits, b)
    && MemoryShows(base, before, live, moved, mem)
    && AllWentFirst(live, roots, moved, |bits|)
    && BumpAt(live, roots, moved, b)
    && used == PayloadSum(Part(live, moved.Keys))
  }

  lemma PartAdd(live: Table, moved: Moves, t: nat, d: nat)
    requires t in live && t !in moved
    ensures PayloadSum(Part(live, moved[t := d].Keys)) == PayloadBytes(live[t]) + PayloadSum(Part(live, moved.Keys))
  {
    PayloadSumAdd(Part(live, moved.Keys), t, live[t]);
    assert Part(live, moved[t := d].Keys) == Part(live, moved.Keys)[t := live[t]];
  }

  /** What dealing with the next object of the queue needs, and that it can be done. */
  lemma NextReady(base: nat, before: seq<Word>, live: Table, roots: set<nat>, moved: Moves,
                  mem: seq<Word>, bits: seq<bool>, b: nat, used: int, t: nat)
    requires CompactionOk(base, before, live, roots, moved, mem, bits, b, used)
    requires TableOk(live, |bits|) && IsNext(live, moved, t)
    ensures Fits(bits, t, live[t].slots) && b <= t && live[t].slots > 0
    ensures Holds(mem, t, before, t, live[t].slots) && mem[2 * t] == before[2 * t]
  {
    hide PlacesOk, AllWentFirst, BumpAt, Fits, PayloadSum, Part, ForwardsTo, AddressesFit, WellPlaced;
    OriginFits(live, roots, moved, bits, b, t);
    NextIsLive(live, roots, moved, bits, b, t);
    SomeSlots(live, |bits|, t);
    var n := live[t].slots;
    assert Holds(mem, t, before, t, n);
    assert mem[2 * t..2 * (t + n)][0] == before[2 * t..2 * (t + n)][0];
  }

  lemma SomeSlots(live: Table, slots: nat, t: nat)
    requires TableOk(live, slots) && t in live
    ensures live[t].slots > 0
  {
    assert InPlace(t, live[t], slots);
  }

  lemma NextIsLive(live: Table, roots: set<nat>, moved: Moves, bits: seq<bool>, b: nat, t: nat)
    requires PlacesOk(live, roots, moved, bits, b) && IsNext(live, moved, t)
    ensures t in live && t !in moved && moved.Keys <= live.Keys
  {
  }

  /** Dealing with the next object keeps everything. */
  lemma CompactNext(base: nat, before: seq<Word>, live: Table, roots: set<nat>, moved: Moves,
                    mem: seq<Word>, bits: seq<bool>, b: nat, used: int, t: nat, first: nat, d: nat)
    requires CompactionOk(base, before, live, roots, moved, mem, bits, b, used)
    requires TableOk(live, |bits|) && IsNext(live, moved, t) && t !in roots
    requires live[t].slots > 0 && 2 * (t + live[t].slots) <= |mem|
    requires FirstFit(bits, b, live[t].slots, first) && GoesTo(t, live[t].slots, first, d)
    ensures var n := live[t].slots;
            CompactionOk(base, before, live, roots, moved[t := d], MemoryAfter(base, mem, t, d, n),
                         BitsAfter(bits, t, d, n), d + n, used + SLOT_BYTES * n - HEADER_BYTES)
  {
    hide AllWentFirst, BumpAt, MemoryShows, ClearPlace, SlidDown, PlacedApart, ForwardingKept, WaitingKept, BumpBehind;
    hide BitsShow, OrderKept, QueueOrder, PlacedBehind, RootsPinned, Fits, NoFit, TableOk, BitsAfter, Relocate;
    hide PayloadSum, Part, IsNext, AddressesFit;
    NextIsLive(live, roots, moved, bits, b, t);
    var n := live[t].slots;
    OriginFits(live, roots, moved, bits, b, t);
    FreeIsClear(live, roots, moved, bits, b, t, d);
    PlaceNext(live, roots, moved, bits, b, t, d);
    WentFirstNext(live, roots, moved, bits, b, t, first, d);
    BumpAfter(live, roots, moved, b, t, d);
    PartAdd(live, moved, t, d);
    if d == t {
      StayNext(base, before, live, moved, mem, t);
    } else {
      MoveNext(base, before, live, moved, mem, t, d);
    }
  }

  /** Before any object has been moved, the roots are where they were. */
  lemma PinnedPlaces(live: Table, roots: set<nat>, bits: seq<bool>)
    requires TableOk(live, |bits|) && roots <= live.Keys
    requires BitsShow(live, Pinned(roots), bits)
    ensures PlacesOk(live, roots, Pinned(roots), bits, 0)
    ensures AllWentFirst(live, roots, Pinned(roots), |bits|) && BumpAt(live, roots, Pinned(roots), 0)
  {
    forall s | s in roots
      ensures InPlace(s, live[s], |bits|)
    {
    }
  }

  lemma PinnedMemory(base: nat, before: seq<Word>, live: Table, roots: set<nat>)
    requires AddressesFit(base, |before|) && |before| % 2 == 0
    requires TableOk(live, |before| / 2) && roots <= live.Keys
    ensures MemoryShows(base, before, live, Pinned(roots), before)
  {
    forall s | s in live
      ensures Holds(before, s, before, s, live[s].slots)
    {
      assert InPlace(s, live[s], |before| / 2);
    }
  }
}

/** The allocator: a first-fit search from the bump pointer that never crosses a page. */
module Allocation {
  import opened Header
  import opened HeapModel
  import opened AllocationMap
  import opened Heaps

  /** Bytes to the next page, from 1 to a whole page. */
  function BytesFromNextPage(pageSize: nat, offset: nat): nat
    requires pageSize > 0
  {
    pageSize - offset % pageSize
  }

  /** Slots that `total` bytes touch from an aligned offset. */
  function SlotsTouched(total: nat): nat {
    (total + SLOT_BYTES - 1) / SLOT_BYTES
  }

  // ---------------------------------------------------------------- the search, as it advances

  /** No place starts before byte `p`, and an unaligned `p` is inside an occupied slot. */
  ghost predicate Searched(bits: seq<bool>, b: nat, n: nat, p: nat) {
    && SLOT_BYTES * b <= p
    && (forall e :: b <= e && SLOT_BYTES * e < p ==> !FitsOpen(bits, e, n))
    && (p % SLOT_BYTES != 0 ==> p / SLOT_BYTES < |bits| && bits[p / SLOT_BYTES])
  }

  /** The slots from byte `p` on, `j` of them, are free. */
  ghost predicate FreeFrom(bits: seq<bool>, p: nat, j: nat) {
    forall i :: p / SLOT_BYTES <= i < p / SLOT_BYTES + j && i < |bits| ==> !bits[i]
  }

  /** Stepping one byte past the `j`th slot, which is occupied. */
  lemma StepOver(bits: seq<bool>, b: nat, n: nat, p: nat, j: nat)
    requires Searched(bits, b, n, p) && FreeFrom(bits, p, j)
    requires j < n
    requires p / SLOT_BYTES + j < |bits| && bits[p / SLOT_BYTES + j]
    ensures Searched(bits, b, n, p + SLOT_BYTES * j + 1)
  {
    var q := p / SLOT_BYTES + j;
    if p % SLOT_BYTES != 0 {
      assert j == 0;
    }
    forall e | b <= e && SLOT_BYTES * e < p + SLOT_BYTES * j + 1
      ensures !FitsOpen(bits, e, n)
    {
      if p <= SLOT_BYTES * e {
        assert e <= q < e + n;
      }
    }
  }

  /** Pages in bytes and in slots. */
  lemma PageSlots(s: nat)
    ensures BytesFromNextPage(PAGE_SIZE, SLOT_BYTES * s) == SLOT_BYTES * (PAGE_SLOTS - s % PAGE_SLOTS)
  {
    assert s == PAGE_SLOTS * (s / PAGE_SLOTS) + s % PAGE_SLOTS;
    assert SLOT_BYTES * s == PAGE_SIZE * (s / PAGE_SLOTS) + SLOT_BYTES * (s % PAGE_SLOTS);
  }

  lemma SamePage(s: nat, e: nat)
    requires s <= e < s + (PAGE_SLOTS - s % PAGE_SLOTS)
    ensures e % PAGE_SLOTS == s % PAGE_SLOTS + (e - s)
  {
    assert e == PAGE_SLOTS * (s / PAGE_SLOTS) + (s % PAGE_SLOTS + (e - s));
  }

  /** Skipping to the next page, when the rest of this one is too short. */
  lemma SkipPage(bits: seq<bool>, b: nat, n: nat, p: nat, total: nat)
    requires Searched(bits, b, n, p) && p % SLOT_BYTES == 0
    requires n == SlotsTouched(total) && BytesFromNextPage(PAGE_SIZE, p) < total
    ensures Searched(bits, b, n, p + BytesFromNextPage(PAGE_SIZE, p))
    ensures (p + BytesFromNextPage(PAGE_SIZE, p)) % SLOT_BYTES == 0
  {
    var s := p / SLOT_BYTES;
    PageSlots(s);
    hide BytesFromNextPage, SlotsTouched;
    var rest := PAGE_SLOTS - s % PAGE_SLOTS;
    assert p == SLOT_BYTES * s;
    forall e | b <= e && SLOT_BYTES * e < p + SLOT_BYTES * rest
      ensures !FitsOpen(bits, e, n)
    {
      if s <= e {
        NoRoomOnPage(s, e, total);
      }
    }
  }

  lemma NoRoomOnPage(s: nat, e: nat, total: nat)
    requires s <= e < s + (PAGE_SLOTS - s % PAGE_SLOTS) && SLOT_BYTES * (PAGE_SLOTS - s % PAGE_SLOTS) < total
    ensures e % PAGE_SLOTS + SlotsTouched(total) > PAGE_SLOTS
  {
    SamePage(s, e);
  }

  /** The search stops at a place that fits, unless the heap ends first. */
  lemma Stop(bits: seq<bool>, b: nat, n: nat, p: nat, total: nat)
    requires Searched(bits, b, n, p) && FreeFrom(bits, p, n)
    requires total > 0 && n == SlotsTouched(total)
    requires p < SLOT_BYTES * |bits|
    requires BytesFromNextPage(PAGE_SIZE, p) >= total
    ensures p % SLOT_BYTES == 0
    ensures p + total <= SLOT_BYTES * |bits| ==> FirstFit(bits, b, n, p / SLOT_BYTES)
    ensures p + total > SLOT_BYTES * |bits| ==> NoFit(bits, b, n, |bits|)
    ensures SearchEnds(bits, b, n, p)
  {
    assert p % SLOT_BYTES == 0;
    PageSlots(p / SLOT_BYTES);
    hide BytesFromNextPage;
    assert FitsOpen(bits, p / SLOT_BYTES, n);
    FitsIsOpen(bits, n);
  }

  lemma FitsIsOpen(bits: seq<bool>, n: nat)
    ensures forall e: nat :: Fits(bits, e, n) <==> e + n <= |bits| && FitsOpen(bits, e, n)
  {
  }

  /** Past the end of the heap the search is over. */
  lemma PastEnd(bits: seq<bool>, b: nat, n: nat, p: nat)
    requires Searched(bits, b, n, p) && p >= SLOT_BYTES * |bits|
    ensures SearchEnds(bits, b, n, p) && NoFit(bits, b, n, |bits|)
  {
    FitsIsOpen(bits, n);
  }

  // ---------------------------------------------------------------- the methods

  lemma SlotAt(start: nat, j: nat)
    ensures (start + SLOT_BYTES * j) / SLOT_BYTES == start / SLOT_BYTES + j
  {
  }

  /** Whether the slots that `total` bytes would touch are free; if not, `j` is the first that is not. */
  method DoesAllocFit(h: Heap, total: nat) returns (bytesToMove: nat, fits: bool, ghost j: nat)
    requires h.Shape()
    ensures fits <==> FreeFrom(h.Bitmap(), h.nextEmpty, SlotsTouched(total))
    ensures FreeFrom(h.Bitmap(), h.nextEmpty, if fits then SlotsTouched(total) else j)
    ensures !fits ==>
              && bytesToMove == SLOT_BYTES * j + 1
              && j < SlotsTouched(total)
              && h.nextEmpty / SLOT_BYTES + j < h.Slots() && h.Bitmap()[h.nextEmpty / SLOT_BYTES + j]
  {
    var start := h.nextEmpty;
    ghost var bits := h.Bitmap();
    var offsetsToMove := 0;
    j := 0;
    while offsetsToMove < total
      invariant offsetsToMove == SLOT_BYTES * j
      invariant FreeFrom(bits, start, j)
    {
      SlotAt(start, j);
      if start + offsetsToMove >= h.size {
        return 0, true, j;
      }
      ReadBit(h.allocMap[..], h.Slots(), start + offsetsToMove);
      if IsOffsetAllocated(h.allocMap[..], start + offsetsToMove) {
        return offsetsToMove + 1, false, j;
      }
      offsetsToMove := offsetsToMove + HEAP_ALIGNMENT;
      j := j + 1;
    }
    return 0, true, j;
  }

  /** Moves to the next page when the rest of this one is shorter than `total`. */
  method SkipOnPageOverlap(h: Heap, total: nat) returns (moved: bool)
    modifies h`nextEmpty
    ensures moved <==> BytesFromNextPage(PAGE_SIZE, old(h.nextEmpty)) < total
    ensures h.nextEmpty == old(h.nextEmpty) + if moved then BytesFromNextPage(PAGE_SIZE, old(h.nextEmpty)) else 0
  {
    var bytesRemainingOnPage := BytesFromNextPage(PAGE_SIZE, h.nextEmpty);
    if bytesRemainingOnPage < total {
      h.nextEmpty := h.nextEmpty + bytesRemainingOnPage;
      return true;
    }
    return false;
  }

  /** One round of the search. */
  method SearchRound(h: Heap, total: nat, ghost b: nat) returns (isAvailable: bool)
    requires h.Shape() && total > 0 && h.nextEmpty < h.size
    requires Searched(h.Bitmap(), b, SlotsTouched(total), h.nextEmpty)
    modifies h`nextEmpty
    ensures isAvailable ==>
              && h.nextEmpty == old(h.nextEmpty)
              && FreeFrom(h.Bitmap(), h.nextEmpty, SlotsTouched(total))
              && BytesFromNextPage(PAGE_SIZE, h.nextEmpty) >= total
    ensures !isAvailable ==> h.nextEmpty > old(h.nextEmpty)
    ensures Searched(h.Bitmap(), b, SlotsTouched(total), h.nextEmpty)
  {
    ghost var bits, p := h.Bitmap(), h.nextEmpty;
    var bytesToMove, fits;
    ghost var j;
    bytesToMove, fits, j := DoesAllocFit(h, total);
    if !fits {
      StepOver(bits, b, SlotsTouched(total), p, j);
      h.nextEmpty := h.nextEmpty + bytesToMove;
      return false;
    }
    if BytesFromNextPage(PAGE_SIZE, p) < total {
      SkipPage(bits, b, SlotsTouched(total), p, total);
    }
    var moved := SkipOnPageOverlap(h, total);
    return !moved;
  }

  /**
   Moves the bump pointer to the first aligned place, at or after where it is, that is free for
   `total` bytes and inside one page. Fails only when the heap has no such place, and then leaves
   the bump pointer where the place would be if the heap were longer, or at the end of the heap.
   */
  method MoveToNextAvailableSpace(h: Heap, total: nat) returns (found: bool)
    requires h.Shape() && total > 0 && h.nextEmpty % SLOT_BYTES == 0
    modifies h`nextEmpty
    ensures found ==> h.nextEmpty % SLOT_BYTES == 0
    ensures found ==>
              FirstFit(h.Bitmap(), old(h.nextEmpty) / SLOT_BYTES, SlotsTouched(total), h.nextEmpty / SLOT_BYTES)
    ensures !found ==> NoFit(h.Bitmap(), old(h.nextEmpty) / SLOT_BYTES, SlotsTouched(total), h.Slots())
    ensures found <==> h.nextEmpty + total <= h.size
    ensures SearchEnds(h.Bitmap(), old(h.nextEmpty) / SLOT_BYTES, SlotsTouched(total), h.nextEmpty)
    ensures h.nextEmpty % SLOT_BYTES == 0 && old(h.nextEmpty) <= h.nextEmpty
  {
    ghost var b, n, bits := h.nextEmpty / SLOT_BYTES, SlotsTouched(total), h.Bitmap();
    var isAvailable := false;
    while !isAvailable && h.nextEmpty < h.size
      invariant Searched(bits, b, n, h.nextEmpty) && bits == h.Bitmap()
      invariant old(h.nextEmpty) <= h.nextEmpty
      invariant isAvailable ==>
                  && h.nextEmpty < h.size
                  && FreeFrom(bits, h.nextEmpty, n)
                  && BytesFromNextPage(PAGE_SIZE, h.nextEmpty) >= total
      decreases !isAvailable, h.size - h.nextEmpty
    {
      isAvailable := SearchRound(h, total, b);
    }
    if isAvailable {
      Stop(bits, b, n, h.nextEmpty, total);
    } else {
      PastEnd(bits, b, n, h.nextEmpty);
    }
    var nextSegmentAfterAlloc := h.nextEmpty + total;
    if isAvailable && nextSegmentAfterAlloc > h.size {
      return false;
    }
    return isAvailable;
  }
}

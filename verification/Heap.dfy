/** The heap structure and what it means for it to be well formed. */
module Heaps {
  import opened Words
  import opened Header
  import opened HeapModel
  import opened Compaction
  import opened Graph
  import opened AllocationMap

  const MINIMUM_ALIGNMENT := 16
  const HEAP_ALIGNMENT := 16
  const PAGE_SIZE := 2048

  /** A heap of `size` bytes has two words to a slot. */
  lemma SizeInSlots(size: nat)
    requires size % SLOT_BYTES == 0
    ensures SLOT_BYTES * (size / 8 / 2) == size
    ensures size / 8 == 2 * (size / SLOT_BYTES)
  {
  }

  class Heap {
    /** Address of the heap memory. */
    const heapStart: nat
    const size: nat
    /** Memory pressure at which allocation collects first; 1.0 is a full heap. */
    const gcThreshold: real
    const memory: array<Word>
    const allocMap: array<bv8>
    /** The bump pointer, as an offset from the start of the heap. */
    var nextEmpty: nat
    var usedBytes: int
    /** The objects that have been allocated and not collected. */
    ghost var table: Table

    ghost predicate Shape() {
      && heapStart > 0
      && heapStart % SLOT_BYTES == 0
      && size > 0
      && size % SLOT_BYTES == 0
      && memory.Length == size / 8
      && allocMap.Length == MapBytes(size)
      && AddressesFit(heapStart, memory.Length)
    }

    ghost function Slots(): nat {
      size / SLOT_BYTES
    }

    ghost function Bitmap(): (bits: seq<bool>)
      requires Shape()
      reads allocMap
      ensures |bits| == Slots()
    {
      Bits(allocMap[..], Slots())
    }

    ghost function Snapshot(): Image
      reads this, memory
    {
      Image(heapStart, memory[..], table)
    }

    /**
     Objects lie apart inside pages, their headers describe them, their fields point at objects
     or out of the heap, the allocation map is exact, and the used bytes are those of the objects.
     */
    ghost predicate Valid()
      reads this, memory, allocMap
    {
      && Shape()
      && Snapshot().Ok()
      && Snapshot().FieldsOk()
      && MapExact(Bitmap(), table)
      && nextEmpty % HEAP_ALIGNMENT == 0
      && usedBytes == PayloadSum(table)
    }

    /** `h_init`, on memory that the system has placed at `address`. */
    constructor (bytes: Word, threshold: real, address: nat)
      requires address > 0 && address % SLOT_BYTES == 0
      requires address + bytes + 2 * HEAP_ALIGNMENT < WORD_MODULUS
      ensures Valid()
      ensures fresh(memory) && fresh(allocMap)
      ensures table == map[] && usedBytes == 0 && nextEmpty == 0
      ensures size == (if bytes < MINIMUM_ALIGNMENT then MINIMUM_ALIGNMENT else (bytes + 15) / 16 * 16)
      ensures heapStart == address && gcThreshold == threshold
    {
      var atLeast := if bytes < MINIMUM_ALIGNMENT then MINIMUM_ALIGNMENT else bytes;
      var alignedSize := (atLeast + HEAP_ALIGNMENT - 1) / HEAP_ALIGNMENT * HEAP_ALIGNMENT;
      heapStart := address;
      gcThreshold := threshold;
      size := alignedSize;
      memory := new Word[alignedSize / 8](_ => 0);
      allocMap := new bv8[MapBytes(alignedSize)](_ => 0);
      nextEmpty := 0;
      usedBytes := 0;
      table := map[];
      new;
      ZeroBits(allocMap[..], Slots());
      assert MapExact(Bitmap(), table);
    }
  }
}

/** The allocation map: one bit for each 16-byte slot of the heap, eight to a byte. */
module AllocationMap {
  const MIN_ALLOC_OBJECT_SIZE := 16
  const BOOLEANS_PER_BYTE := 8
  const BYTE_DENSITY := MIN_ALLOC_OBJECT_SIZE * BOOLEANS_PER_BYTE

  /** Bytes in the map of a heap of `bytes` bytes. */
  function MapBytes(bytes: nat): nat {
    var size := (bytes + BYTE_DENSITY - 1) / BYTE_DENSITY;
    if size == 0 then 1 else size
  }

  /** The least number of bytes with a bit for every slot, but one at least. */
  lemma MapBytesLeast(bytes: nat)
    ensures 128 * MapBytes(bytes) >= bytes && MapBytes(bytes) > 0
    ensures MapBytes(bytes) > 1 ==> 128 * (MapBytes(bytes) - 1) < bytes
  {
  }

  function FindIndexInAllocMap(offset: nat): nat {
    offset / BYTE_DENSITY
  }

  function CreateBitmask(offset: nat): bv8 {
    var bitPosition := (offset / MIN_ALLOC_OBJECT_SIZE) % BOOLEANS_PER_BYTE;
    Mask(bitPosition)
  }

  /** `1 << position`. */
  function Mask(position: nat): bv8
    requires position < 8
  {
    if position == 0 then 0x01 else if position == 1 then 0x02
    else if position == 2 then 0x04 else if position == 3 then 0x08
    else if position == 4 then 0x10 else if position == 5 then 0x20
    else if position == 6 then 0x40 else 0x80
  }

  predicate IsOffsetAllocated(allocMap: seq<bv8>, offset: nat)
    requires FindIndexInAllocMap(offset) < |allocMap|
  {
    allocMap[FindIndexInAllocMap(offset)] & CreateBitmask(offset) == CreateBitmask(offset)
  }

  lemma MasksAreBits(byte: bv8, p: nat, q: nat)
    requires p < 8 && q < 8
    ensures (byte | Mask(p)) & Mask(q) == Mask(q) <==> p == q || byte & Mask(q) == Mask(q)
    ensures (byte & !Mask(p)) & Mask(q) == Mask(q) <==> p != q && byte & Mask(q) == Mask(q)
  {
  }

  lemma SameBit(offset: nat, other: nat)
    ensures FindIndexInAllocMap(offset) == offset / 16 / 8
    ensures offset / 16 == other / 16 <==>
            (FindIndexInAllocMap(offset) == FindIndexInAllocMap(other) && (offset / 16) % 8 == (other / 16) % 8)
  {
    assert offset / 128 == offset / 16 / 8;
    assert other / 128 == other / 16 / 8;
  }

  /** The map with the bit of one slot set or cleared. */
  function WithBit(allocMap: seq<bv8>, offset: nat, isAllocated: bool): (r: seq<bv8>)
    requires FindIndexInAllocMap(offset) < |allocMap|
    ensures |r| == |allocMap|
  {
    var byte, bitmask := allocMap[FindIndexInAllocMap(offset)], CreateBitmask(offset);
    allocMap[FindIndexInAllocMap(offset) := if isAllocated then byte | bitmask else byte & !bitmask]
  }

  /** Only the bit of that slot changes. */
  lemma WithBitRead(allocMap: seq<bv8>, offset: nat, isAllocated: bool, o: nat)
    requires FindIndexInAllocMap(offset) < |allocMap| && FindIndexInAllocMap(o) < |allocMap|
    ensures IsOffsetAllocated(WithBit(allocMap, offset, isAllocated), o) ==
            if o / 16 == offset / 16 then isAllocated else IsOffsetAllocated(allocMap, o)
  {
    hide FindIndexInAllocMap, Mask;
    SameBit(offset, o);
    if FindIndexInAllocMap(offset) == FindIndexInAllocMap(o) {
      MasksAreBits(allocMap[FindIndexInAllocMap(offset)], (offset / 16) % 8, (o / 16) % 8);
    }
  }

  /** The first `slots` bits of a map. */
  function Bits(allocMap: seq<bv8>, slots: nat): (bits: seq<bool>)
    requires slots <= BOOLEANS_PER_BYTE * |allocMap|
    ensures |bits| == slots
  {
    seq(slots, k requires 0 <= k < slots => IsOffsetAllocated(allocMap, MIN_ALLOC_OBJECT_SIZE * k))
  }

  /** Any offset inside a slot reads the bit of that slot. */
  lemma ReadBit(allocMap: seq<bv8>, slots: nat, offset: nat)
    requires slots <= BOOLEANS_PER_BYTE * |allocMap| && offset / 16 < slots
    ensures FindIndexInAllocMap(offset) < |allocMap|
    ensures IsOffsetAllocated(allocMap, offset) == Bits(allocMap, slots)[offset / 16]
  {
    SameBit(offset, 16 * (offset / 16));
  }

  lemma WithBitBits(allocMap: seq<bv8>, slots: nat, offset: nat, isAllocated: bool)
    requires slots <= BOOLEANS_PER_BYTE * |allocMap| && offset / 16 < slots
    ensures Bits(WithBit(allocMap, offset, isAllocated), slots) == Bits(allocMap, slots)[offset / 16 := isAllocated]
  {
    hide CreateBitmask, IsOffsetAllocated, WithBit;
    forall k | 0 <= k < slots
      ensures Bits(WithBit(allocMap, offset, isAllocated), slots)[k] ==
              Bits(allocMap, slots)[offset / 16 := isAllocated][k]
    {
      WithBitRead(allocMap, offset, isAllocated, 16 * k);
    }
  }

  /** Sets or clears the bit of one slot, and no other. */
  method UpdateAllocMap(allocMap: array<bv8>, offset: nat, isAllocated: bool, ghost slots: nat)
    requires slots <= BOOLEANS_PER_BYTE * allocMap.Length && offset / 16 < slots
    modifies allocMap
    ensures Bits(allocMap[..], slots) == Bits(old(allocMap[..]), slots)[offset / 16 := isAllocated]
  {
    WithBitBits(allocMap[..], slots, offset, isAllocated);
    var allocIndex := FindIndexInAllocMap(offset);
    var bitmask := CreateBitmask(offset);
    var byte := allocMap[allocIndex];
    allocMap[allocIndex] := if isAllocated then byte | bitmask else byte & !bitmask;
    assert allocMap[..] == WithBit(old(allocMap[..]), offset, isAllocated);
  }

  lemma ZeroBits(allocMap: seq<bv8>, slots: nat)
    requires slots <= BOOLEANS_PER_BYTE * |allocMap|
    requires forall i :: 0 <= i < |allocMap| ==> allocMap[i] == 0
    ensures Bits(allocMap, slots) == seq(slots, _ => false)
  {
    forall k | 0 <= k < slots
      ensures !IsOffsetAllocated(allocMap, MIN_ALLOC_OBJECT_SIZE * k)
    {
      assert 0 & CreateBitmask(MIN_ALLOC_OBJECT_SIZE * k) == 0;
    }
  }

  /** Clears the whole map. */
  method ResetAllocationMap(allocMap: array<bv8>, ghost slots: nat)
    requires slots <= BOOLEANS_PER_BYTE * allocMap.Length
    modifies allocMap
    ensures Bits(allocMap[..], slots) == seq(slots, _ => false)
  {
    forall i | 0 <= i < allocMap.Length {
      allocMap[i] := 0;
    }
    ZeroBits(allocMap[..], slots);
  }
}

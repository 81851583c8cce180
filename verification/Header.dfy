/** The one-word header in front of every object, and what the collector reads from it. */
module Header {
  import opened Words
  import opened Layout
  import opened PartCodec
  import opened VectorReader
  import opened PtrQueues

  const HEADER_POINTER_TO_FORMAT_STRING := 0
  const HEADER_FORWARDING_ADDRESS := 1
  const HEADER_UNUSED := 2
  const HEADER_BIT_VECTOR := 3

  const HEADER_BYTES := 8
  const SLOT_BYTES := 16

  /** The two low bits. */
  function HeaderType(header: Word): (t: nat)
    ensures t < 4
  {
    header % 4
  }

  function SetHeaderType(header: Word, t: nat): Word
    requires t < 4
  {
    header - header % 4 + t
  }

  lemma TypeIsSet(header: Word, t: nat)
    requires t < 4
    ensures HeaderType(SetHeaderType(header, t)) == t
  {
  }

  /** The address packed into a header, its two tag bits cleared. */
  function PointerInHeader(header: Word): Word {
    header - header % 4
  }

  lemma TagKeepsPointer(header: Word, t: nat)
    requires t < 4
    ensures PointerInHeader(SetHeaderType(header, t)) == PointerInHeader(header)
  {
    TypeIsSet(header, t);
  }

  /** A 4-aligned address survives being packed with a tag. */
  lemma PackedPointer(address: Word, t: nat)
    requires address % 4 == 0 && t < 4
    ensures HeaderType(SetHeaderType(address, t)) == t
    ensures PointerInHeader(SetHeaderType(address, t)) == address
  {
  }

  /** The format type is added below a vector body, the header type below both. */
  function TagVector(body: Word, format: nat): Word
    requires format < 4
  {
    SetHeaderType(ToWord(4 * ToWord(4 * body + format)), HEADER_BIT_VECTOR)
  }

  lemma TagVectorRoundTrip(body: Word, format: nat)
    requires format < 4 && body < 0x1000_0000_0000_0000
    ensures var header := TagVector(body, format);
            && HeaderType(header) == HEADER_BIT_VECTOR
            && (header / 4) % 4 == format
            && (header / 4) / 4 == body
  {
    var vector := 4 * body + format;
    assert ToWord(vector) == vector && ToWord(4 * vector) == 4 * vector;
    assert TagVector(body, format) == 4 * vector + 3;
    assert (4 * vector + 3) / 4 == vector;
  }

  /** Bytes of payload a header describes. */
  function HeaderSize(header: Word): nat {
    VectorSize(header / 4)
  }

  /** Payload offsets of the pointer fields a header describes. */
  function HeaderPointers(header: Word): seq<nat> {
    if HeaderType(header) == HEADER_BIT_VECTOR then VectorPointers(header / 4) else []
  }

  /** Rounds a payload size so that it fills whole slots together with its header. */
  function AlignAllocSize(size: Word): Word {
    var total := ToWord(size + HEADER_BYTES);
    if total % SLOT_BYTES > 0 || total <= 0 then
      ToWord(total + (SLOT_BYTES - total % SLOT_BYTES) + WORD_MODULUS - HEADER_BYTES)
    else total - HEADER_BYTES
  }

  /**
   The aligned size covers the request exactly when adding the header does not wrap around, and then
   with less than a slot to spare. The eight largest requests come out as eight bytes.
   */
  lemma AlignCoversRequest(size: Word)
    ensures AlignAllocSize(size) >= size <==> size + HEADER_BYTES < WORD_MODULUS
    ensures (AlignAllocSize(size) + HEADER_BYTES) % SLOT_BYTES == 0 && AlignAllocSize(size) < size + SLOT_BYTES
    ensures AlignAllocSize(size) < size ==> AlignAllocSize(size) == 8
  {
    var total := size + HEADER_BYTES;
    if total < WORD_MODULUS {
      AlignedTotal(total);
    } else {
      assert ToWord(total) == total - WORD_MODULUS < HEADER_BYTES;
    }
  }

  /** The next whole number of slots, which may be 2^64. */
  lemma AlignedTotal(total: nat)
    requires 0 < total < WORD_MODULUS
    ensures var up := if total % SLOT_BYTES > 0 then total + (SLOT_BYTES - total % SLOT_BYTES) else total;
            up % SLOT_BYTES == 0 && total <= up < total + SLOT_BYTES && up <= WORD_MODULUS
  {
  }

  /** Aligning an aligned size changes nothing, unless its header no longer fits in 64 bits. */
  lemma AlignIdempotent(size: Word)
    ensures var aligned := AlignAllocSize(size);
            AlignAllocSize(aligned) == aligned <==> aligned + HEADER_BYTES < WORD_MODULUS
  {
    AlignCoversRequest(size);
    AlignCoversRequest(AlignAllocSize(size));
  }

  /** An object as the collector sees it: how many slots it fills and which of its words are pointers. */
  datatype Obj = Obj(slots: nat, fields: seq<nat>)

  /** Word offset, from the header, of the field at payload offset `offset`. */
  function FieldWord(offset: nat): nat {
    1 + offset / 8
  }

  function FieldWords(offsets: seq<nat>): (ws: seq<nat>)
    ensures |ws| == |offsets|
  {
    seq(|offsets|, i requires 0 <= i < |offsets| => FieldWord(offsets[i]))
  }

  function SlotsFor(size: nat): nat {
    (size + HEADER_BYTES + SLOT_BYTES - 1) / SLOT_BYTES
  }

  function ObjOf(header: Word): Obj {
    Obj(SlotsFor(HeaderSize(header)), FieldWords(HeaderPointers(header)))
  }

  /** Every field lies in the payload, and fields come in ascending order. */
  ghost predicate WellPlaced(o: Obj) {
    && o.slots > 0
    && StrictlyAscending(o.fields)
    && (forall w :: w in o.fields ==> 1 <= w < 2 * o.slots)
  }

  lemma PartsSizeBound(ps: seq<Part>)
    requires |ps| <= 31
    ensures Layout.EndOffset(PartFields(ps)) <= PartsSize(ps) < 512
  {
    EndOffsetBound(PartFields(ps));
  }

  lemma VectorSizeBound(vector: Word)
    requires vector < 0x4000_0000_0000_0000
    ensures VectorSize(vector) < 0x4000_0000_0000_0000
  {
    PartsSizeBound(DecodeParts(vector / 4));
  }

  lemma AlignedSlotsFor(size: nat)
    requires size < 0x4000_0000_0000_0000
    ensures AlignAllocSize(size) + HEADER_BYTES == SLOT_BYTES * SlotsFor(size)
  {
    SlotsRoundUp(size + HEADER_BYTES);
  }

  lemma SlotsRoundUp(total: nat)
    ensures SLOT_BYTES * ((total + SLOT_BYTES - 1) / SLOT_BYTES) ==
            if total % SLOT_BYTES > 0 then total + (SLOT_BYTES - total % SLOT_BYTES) else total
  {
    var q, r := total / SLOT_BYTES, total % SLOT_BYTES;
    assert total == SLOT_BYTES * q + r;
    assert (total + SLOT_BYTES - 1) / SLOT_BYTES == if r > 0 then q + 1 else q;
  }

  /** Whatever the header, the collector computes a whole number of slots from it. */
  lemma AlignedSlots(header: Word)
    ensures HeaderSize(header) < 0x4000_0000_0000_0000
    ensures AlignAllocSize(HeaderSize(header)) + HEADER_BYTES == SLOT_BYTES * ObjOf(header).slots
  {
    VectorSizeBound(header / 4);
    AlignedSlotsFor(HeaderSize(header));
  }

  lemma ObjWellPlaced(header: Word)
    ensures WellPlaced(ObjOf(header))
  {
    var ps := DecodeParts(header / 4 / 4);
    var offsets := HeaderPointers(header);
    PointerOffsetsPlaced(PartFields(ps));
    PartsSizeBound(ps);
    if offsets != [] {
      assert HeaderSize(header) == PartsSize(ps);
      forall i | 0 <= i < |offsets|
        ensures 1 <= FieldWord(offsets[i]) < 2 * ObjOf(header).slots
      {
        assert offsets[i] in offsets;
      }
      forall i, j | 0 <= i < j < |offsets|
        ensures FieldWord(offsets[i]) < FieldWord(offsets[j])
      {
        assert offsets[i] in offsets && offsets[j] in offsets;
      }
    }
  }

  /** The header of an object without pointers: just its size, when 60 bits hold it. */
  method CreateHeaderRaw(size: Word) returns (success: bool, header: Word)
    ensures success <==> size < 0x1000_0000_0000_0000
    ensures success ==> HeaderType(header) == HEADER_BIT_VECTOR && ObjOf(header) == Obj(SlotsFor(size), [])
    ensures success ==> HeaderSize(header) == size && HeaderPointers(header) == []
  {
    success := size < 0x1000_0000_0000_0000;
    header := TagVector(size, FORMAT_SIZE_NO_POINTERS);
    if success {
      TagVectorRoundTrip(size, FORMAT_SIZE_NO_POINTERS);
      assert FieldWords([]) == [];
    }
  }
}

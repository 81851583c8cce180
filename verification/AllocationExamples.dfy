/** What becomes of an allocation whose header is wrong. */
module AllocationExamples {
  import opened Words
  import opened Layout
  import opened FormatSize
  import opened FormatEncoding
  import opened EncodingLayout
  import opened EncodingExamples
  import opened Header
  import opened Allocator

  /** Five slots are reserved, and the collector finds two: the heap is no longer well formed. */
  lemma ExtentMissed()
    ensures ValidFormat("14id*") && HasVector("14id*") && !Encodable("14id*")
    ensures SizeFits("14id*") && StructSize(MachineFields("14id*", 0).value) == 72
    ensures AlignAllocSize(72) == 72 && Reserved(72) == 5
    ensures StructHeader("14id*", 72).Some? && ObjOf(StructHeader("14id*", 72).value).slots == 2
    ensures PointerOffsets(Expand("14id*", 0)) == [64] && HeaderPointers(StructHeader("14id*", 72).value) == [8]
  {
    hide StructSize, HeaderSize, StructHeader, Expand, MachineFields, NumeralsBelow, HeaderPointers, PointerOffsets;
    CompactionDropsParts();
    Fourteen();
    SizeFromStringExact("14id*");
    assert AlignAllocSize(72) == 72;
    assert SlotsFor(16) == 2;
  }

  /** The right extent is not enough: here it is recovered, and the pointer is not. */
  lemma ExtentHitPointerMissed()
    ensures ValidFormat("cic*") && HasVector("cic*") && Encodable("cic*")
    ensures SizeFits("cic*") && StructSize(MachineFields("cic*", 0).value) == 24 && AlignAllocSize(24) == 24
    ensures StructHeader("cic*", 24).Some? && HeaderType(StructHeader("cic*", 24).value) == HEADER_BIT_VECTOR
    ensures ObjOf(StructHeader("cic*", 24).value).slots == Reserved(24) == 2
    ensures PointerOffsets(Expand("cic*", 0)) == [16] && HeaderPointers(StructHeader("cic*", 24).value) == [8]
  {
    hide StructSize, HeaderSize, StructHeader, Expand, MachineFields, NumeralsBelow, HeaderPointers, PointerOffsets;
    hide ObjOf, HeaderType, AlignAllocSize, ExtentRecovered, Reserved;
    CharsAroundFour();
    Cic();
    SizeFromStringExact("cic*");
    TwoSlots(StructHeader("cic*", 24).value);
    VectorType("cic*", 24);
    RecoveredExactly(StructHeader("cic*", 24).value, 24);
  }

  lemma TwoSlots(header: Word)
    ensures AlignAllocSize(24) == 24 && Reserved(24) == 2
    ensures HeaderSize(header) == 16 ==> ObjOf(header).slots == 2
  {
    hide HeaderSize;
    assert SlotsFor(16) == 2;
  }

  lemma VectorType(format: string, size: Word)
    requires ValidFormat(format) && StructHeader(format, size).Some?
    ensures HeaderType(StructHeader(format, size).value) == HEADER_BIT_VECTOR
  {
    hide HeaderType, VectorInHeader, FormatVector;
    HeaderTags(FormatVector(format, size).value, 0);
  }

  lemma Cic()
    ensures ValidFormat("cic*") && NumeralsBelow("cic*", 0, WORD_MODULUS)
  {
    assert "cic*"[1..] == "ic*" && "ic*"[1..] == "c*" && "c*"[1..] == "*" && "*"[1..] == "";
    assert NumeralsBelow("c*", 0, WORD_MODULUS);
  }

  lemma Fourteen()
    ensures ValidFormat("14id*") && NumeralsBelow("14id*", 0, WORD_MODULUS)
  {
    assert "14id*"[1..] == "4id*" && "4id*"[1..] == "id*" && "id*"[1..] == "d*" && "d*"[1..] == "*" && "*"[1..] == "";
    assert NumeralsBelow("*", 0, WORD_MODULUS);
    assert NumeralsBelow("id*", 14, WORD_MODULUS);
  }
}

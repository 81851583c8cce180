/**
 What the header codec gets right: a successful conversion, read back from the header, gives the
 size and the pointer offsets of the C struct exactly when no counter wraps, no compaction loses
 parts, all segments of small members agree, and no part that matters falls off the vector.
 */
module EncodingLayout {
  import opened Words
  import opened Layout
  import opened FormatSize
  import opened PartCodec
  import opened VectorReader
  import opened PartLayout
  import opened PartWindow
  import opened FormatEncoding
  import opened EncodingSimulation
  import opened Header

  // ---------------------------------------------------------------- headers

  /** The bit-vector header for a format, if it has one. */
  function StructHeader(format: string, size: Word): Option<Word>
    requires ValidFormat(format)
  {
    match FormatVector(format, size)
    case None => None
    case Some(vector) => Some(VectorInHeader(vector))
  }

  function VectorInHeader(vector: Word): Word {
    SetHeaderType(ToWord(4 * (vector as nat)), HEADER_BIT_VECTOR)
  }

  lemma HeaderTags(vector: Word, address: Word)
    ensures HeaderType(VectorInHeader(vector)) == HEADER_BIT_VECTOR
    ensures var header := SetHeaderType(address, HEADER_POINTER_TO_FORMAT_STRING);
            && HeaderType(header) == HEADER_POINTER_TO_FORMAT_STRING
            && PointerInHeader(header) == PointerInHeader(address)
  {
    hide ToWord, SetHeaderType, HeaderType, PointerInHeader;
    TypeIsSet(ToWord(4 * (vector as nat)), HEADER_BIT_VECTOR);
    TypeIsSet(address, HEADER_POINTER_TO_FORMAT_STRING);
    TagKeepsPointer(address, HEADER_POINTER_TO_FORMAT_STRING);
  }

  /** A bit-vector header, or, when the format has none, the address of the format string. */
  method CreateHeaderStruct(format: string, address: Word, size: Word) returns (header: Word)
    requires ValidFormat(format)
    ensures HeaderType(header) == HEADER_BIT_VECTOR <==> StructHeader(format, size).Some?
    ensures StructHeader(format, size).Some? ==> header == StructHeader(format, size).value
    ensures StructHeader(format, size).None? ==>
              && HeaderType(header) == HEADER_POINTER_TO_FORMAT_STRING
              && PointerInHeader(header) == PointerInHeader(address)
  {
    hide FormatVector, VectorInHeader, HeaderType, PointerInHeader;
    var success, vector := ConvertToBitVector(format, size);
    header := VectorInHeader(vector);
    HeaderTags(vector, address);
    if !success {
      header := SetHeaderType(address, HEADER_POINTER_TO_FORMAT_STRING);
    }
  }

  /** A header keeps the last thirty parts. */
  lemma VectorHeader(ps: seq<Part>)
    requires |ps| <= WORD_PARTS
    ensures Pack(ps) < WORD_MODULUS
    ensures var header := TagVector(Pack(ps), FORMAT_VECTOR);
            && HeaderSize(header) == PartsSize(Keep(MAX_PARTS, ps))
            && HeaderPointers(header) == PointerOffsets(PartFields(Keep(MAX_PARTS, ps)))
  {
    hide Pack, DecodeParts, PartsSize;
    PackFitsWord(ps);
    PackKeep(ps);
    TaggedVector(Pack(ps));
    PackDecode(Keep(MAX_PARTS, ps));
  }

  lemma TaggedVector(body: Word)
    ensures var header := TagVector(body, FORMAT_VECTOR);
            && HeaderType(header) == HEADER_BIT_VECTOR
            && header / 4 % 4 == FORMAT_VECTOR
            && header / 4 / 4 == body % 0x1000_0000_0000_0000
  {
    var low := body % 0x1000_0000_0000_0000;
    QuadWord(body, FORMAT_VECTOR);
    QuadModulus(body);
    var vector: Word := ToWord(4 * (body as nat) + FORMAT_VECTOR);
    QuadWord(vector, 0);
    hide ToWord;
    assert TagVector(body, FORMAT_VECTOR) == 4 * (4 * low + FORMAT_VECTOR) + HEADER_BIT_VECTOR;
    TagsRead(low);
  }

  lemma TagsRead(low: nat)
    ensures (4 * (4 * low + FORMAT_VECTOR) + HEADER_BIT_VECTOR) % 4 == HEADER_BIT_VECTOR
    ensures (4 * (4 * low + FORMAT_VECTOR) + HEADER_BIT_VECTOR) / 4 == 4 * low + FORMAT_VECTOR
    ensures (4 * low + FORMAT_VECTOR) % 4 == FORMAT_VECTOR && (4 * low + FORMAT_VECTOR) / 4 == low
  {
  }

  lemma QuadWord(x: Word, d: nat)
    requires d < 4
    ensures ToWord(4 * (x as nat) + d) == 4 * (x % 0x4000_0000_0000_0000) + d
  {
  }

  lemma QuadModulus(x: nat)
    ensures (4 * (x % 0x4000_0000_0000_0000) + FORMAT_VECTOR) % 0x4000_0000_0000_0000 ==
            4 * (x % 0x1000_0000_0000_0000) + FORMAT_VECTOR
  {
  }

  /** The header read back has the size and the pointer offsets of the struct. */
  ghost predicate HeaderFaithful(header: Word, fs: seq<Field>) {
    HeaderSize(header) == StructSize(fs) && HeaderPointers(header) == PointerOffsets(fs)
  }

  lemma FaithfulParts(header: Word, fs: seq<Field>, ps: seq<Part>, good: bool)
    requires HeaderSize(header) == PartsSize(ps) && HeaderPointers(header) == PointerOffsets(PartFields(ps))
    requires PartsSize(ps) <= StructSize(fs)
    requires PartsSize(ps) == StructSize(fs) <==> good
    requires good ==> PointerOffsets(PartFields(ps)) == PointerOffsets(fs)
    ensures HeaderFaithful(header, fs) <==> good
    ensures !HeaderFaithful(header, fs) ==> HeaderSize(header) < StructSize(fs)
  {
  }

  lemma HeaderOfVector(format: string, size: Word)
    requires ValidFormat(format) && HasPointers(format) && StructHeader(format, size).Some?
    ensures Encoded(format, START).Some?
    ensures StructHeader(format, size).value == TagVector(Encoded(format, START).value, FORMAT_VECTOR)
  {
  }

  lemma FinishedWord(vector: Word, tr: Trace)
    requires Finished(vector, tr)
    ensures |tr.held| <= WORD_PARTS && vector == Pack(tr.held)
    ensures Excess(vector) == |tr.held| - |Keep(MAX_PARTS, tr.held)|
    ensures Mirrors(tr.fs, tr.done, tr.lossless) && FrontKnown(tr.fs, tr.done) && WideEnded(tr.done)
    ensures Shown(tr.held, tr.done, FrontParts(LastSegment(tr.fs)), tr.dropped)
  {
    PackCount(tr.held);
  }

  lemma CountedHeader(format: string, size: Word)
    requires ValidFormat(format) && HasPointers(format) && StructHeader(format, size).Some?
    requires Counted(format, START)
    ensures var header, fs := StructHeader(format, size).value, Expand(format, 0);
            && (HeaderFaithful(header, fs) <==> Lossless(format, START) && AllAgree(fs) && Kept(format))
            && (!HeaderFaithful(header, fs) ==> HeaderSize(header) < StructSize(fs))
  {
    hide Simulates, Finished, Mirrors, Counted, Dropped, Lossless, Encoded, Expand, AllAgree, PointerOffsets;
    hide HeaderPointers, HeaderSize, PartsSize, StructHeader, HeaderFaithful, TagVector, StructSize, Pack, Keep;
    hide Shown, FrontKnown, WideEnded, Excess, FrontParts, EvenFront;
    HeaderOfVector(format, size);
    StartSimulates();
    var tr := EncodedMirrors(format, START, Trace([], [], [], true, 0));
    var fs := Expand(format, 0);
    assert [] + fs == fs;
    FinishedWord(Encoded(format, START).value, tr);
    ExpandHasPointer(format, 0);
    var good := WindowLayout(fs, tr.done, tr.lossless, tr.held, tr.dropped, Dropped(format, START));
    VectorHeader(tr.held);
    FaithfulParts(StructHeader(format, size).value, fs, Keep(MAX_PARTS, tr.held), good);
  }

  /** A counter that wraps always makes the header too small: no vector describes 256 bytes. */
  lemma WrappedHeader(format: string, size: Word)
    requires ValidFormat(format) && HasPointers(format) && StructHeader(format, size).Some?
    requires !Counted(format, START)
    ensures HeaderSize(StructHeader(format, size).value) < BYTE_MODULUS <= StructSize(Expand(format, 0))
  {
    hide Counted, Encoded, Expand, StructHeader, TagVector, StructSize, PartsSize, HeaderSize;
    WrapMeansLong(format, START, 0);
    ManyMembers(Expand(format, 0));
    HeaderOfVector(format, size);
    VectorIsSmall(Encoded(format, START).value);
  }

  lemma VectorIsSmall(body: Word)
    ensures HeaderSize(TagVector(body, FORMAT_VECTOR)) < BYTE_MODULUS
  {
    var header := TagVector(body, FORMAT_VECTOR);
    TaggedVector(body);
    PartsSizeTight(DecodeParts(header / 4 / 4));
    hide TagVector, PartsSize, DecodeParts;
  }

  /**
   The codec round trip. For a format with pointers whose conversion succeeds, the header is faithful
   exactly when no counter wraps, no compaction loses parts, every run of small members takes as
   much room in the struct as its chars and its 4-byte members take separately, and no part is
   missed in the header. Otherwise the header is too small.
   */
  lemma HeaderKeepsLayout(format: string, size: Word)
    requires ValidFormat(format) && HasPointers(format) && StructHeader(format, size).Some?
    ensures var header, fs := StructHeader(format, size).value, Expand(format, 0);
            && (HeaderFaithful(header, fs) <==>
                  Counted(format, START) && Lossless(format, START) && AllAgree(fs) && Kept(format))
            && (!HeaderFaithful(header, fs) ==> HeaderSize(header) < StructSize(fs))
  {
    hide Counted, Lossless, Kept, AllAgree, Expand, StructHeader, HeaderSize, StructSize;
    if Counted(format, START) {
      CountedHeader(format, size);
    } else {
      WrappedHeader(format, size);
    }
  }

  /** As long as no subtraction of bits wraps around, nothing is dropped and three conditions remain. */
  lemma BackedHeader(format: string, size: Word)
    requires ValidFormat(format) && HasPointers(format) && StructHeader(format, size).Some?
    requires Backed(format, START)
    ensures HeaderFaithful(StructHeader(format, size).value, Expand(format, 0)) <==>
            Counted(format, START) && Lossless(format, START) && AllAgree(Expand(format, 0))
  {
    hide Counted, Lossless, AllAgree, Expand, StructHeader, HeaderFaithful, Dropped, Backed, Encoded, Room, EvenFront;
    HeaderOfVector(format, size);
    StartHasRoom();
    BackedDropsNothing(format, START, []);
    HeaderKeepsLayout(format, size);
  }

  lemma StartHasRoom()
    ensures Room(START.vector, START.bitsLeft, [])
  {
  }

  /** A conversion without wraps has read every numeral exactly. */
  lemma {:induction false} CountedNumerals(format: string, m: Encoder)
    requires ValidFormat(format) && Counted(format, m) && Encoded(format, m).Some?
    ensures NumeralsBelow(format, m.repeats, WORD_MODULUS)
    decreases |format|
  {
    hide PointersAdded, Updated, Finish;
    if format != [] {
      assert Encoded(format[1..], Step(m, format[0])).Some?;
      CountedNumerals(format[1..], Step(m, format[0]));
      PendingAfter(m, format[0]);
    }
  }

  /** Without pointers the header holds the given size, whatever the format. */
  lemma HeaderKeepsSize(format: string, size: Word)
    requires ValidFormat(format) && !HasPointers(format)
    ensures StructHeader(format, size).Some? <==> size < 0x1000_0000_0000_0000
    ensures StructHeader(format, size).Some? ==>
              var header := StructHeader(format, size).value;
              HeaderType(header) == HEADER_BIT_VECTOR && HeaderSize(header) == size && HeaderPointers(header) == []
  {
    if size < 0x1000_0000_0000_0000 {
      TagVectorRoundTrip(size, FORMAT_SIZE_NO_POINTERS);
    }
  }

  // ---------------------------------------------------------------- formats that are safe, and some that are not

  /** A segment with chars only before, or only behind, its 4-byte members. */
  ghost predicate OneSided(seg: seq<Field>) {
    exists chars: nat, fours: nat ::
      || seg == Repeat(CharField, chars) + Repeat(FourField, fours)
      || seg == Repeat(FourField, fours) + Repeat(CharField, chars)
  }

  ghost predicate SegmentsOneSided(fs: seq<Field>) {
    && OneSided(LastSegment(fs))
    && forall k :: 0 <= k < |fs| && !IsSmall(fs[k]) ==> OneSided(LastSegment(fs[..k]))
  }

  lemma OneSidedSegmentAgrees(seg: seq<Field>)
    requires OneSided(seg)
    ensures Agrees(seg)
  {
    hide Agrees;
    var chars: nat, fours: nat :|
      || seg == Repeat(CharField, chars) + Repeat(FourField, fours)
      || seg == Repeat(FourField, fours) + Repeat(CharField, chars);
    OneSidedAgrees(chars, fours);
  }

  lemma {:induction false} BeforeAgrees(fs: seq<Field>)
    requires forall k :: 0 <= k < |fs| && !IsSmall(fs[k]) ==> OneSided(LastSegment(fs[..k]))
    ensures AgreeBefore(fs)
  {
    hide OneSided, Agrees, LastSegment;
    if fs != [] {
      var init := fs[..|fs| - 1];
      forall k | 0 <= k < |init| && !IsSmall(init[k])
        ensures OneSided(LastSegment(init[..k]))
      {
        assert init[..k] == fs[..k];
      }
      BeforeAgrees(init);
      if !IsSmall(fs[|fs| - 1]) {
        OneSidedSegmentAgrees(LastSegment(init));
      }
    }
  }

  /**
   Formats without chars on both sides of a 4-byte member are encoded faithfully, unless counters
   wrap or parts are lost or missed.
   */
  lemma OneSidedFaithful(format: string, size: Word)
    requires ValidFormat(format) && HasPointers(format)
    requires StructHeader(format, size).Some?
    requires SegmentsOneSided(Expand(format, 0))
    ensures HeaderFaithful(StructHeader(format, size).value, Expand(format, 0)) <==>
            Counted(format, START) && Lossless(format, START) && Kept(format)
  {
    hide *;
    HeaderKeepsLayout(format, size);
    SidesAgree(Expand(format, 0));
  }

  lemma SidesAgree(fs: seq<Field>)
    requires SegmentsOneSided(fs)
    ensures AllAgree(fs)
  {
    hide OneSided, Agrees, LastSegment;
    BeforeAgrees(fs);
    OneSidedSegmentAgrees(LastSegment(fs));
  }

  /**
   The 8-bit test on numerals is wrong as soon as a numeral exceeds 255: the digit that takes it
   there goes unnoticed exactly when nine times the numeral, plus the digit, makes up for the wraps.
   */
  lemma ByteNumeralUnnoticed(m: Encoder, c: char)
    requires IsDigit(c) && !m.isTooBig
    ensures var updated := m.repeats * 10 + DigitValue(c);
            !Step(m, c).isTooBig <==> 9 * m.repeats + DigitValue(c) >= updated / BYTE_MODULUS * BYTE_MODULUS
  {
    var updated := m.repeats * 10 + DigitValue(c);
    assert ToByte(updated) == updated - updated / BYTE_MODULUS * BYTE_MODULUS;
  }
}

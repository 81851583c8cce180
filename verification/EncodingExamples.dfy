/** Formats that the header codec, or the reader of format strings, gets wrong. */
module EncodingExamples {
  import opened Words
  import opened Layout
  import opened FormatSize
  import opened PartCodec
  import opened VectorReader
  import opened PartLayout
  import opened FormatEncoding
  import opened EncodingSimulation
  import opened EncodingLayout
  import opened Acceptance
  import opened FormatPointers
  import opened Header

  /** The header size of a conversion that ends with the parts `ps`. */
  lemma ConvertedSize(format: string, size: Word, ps: seq<Part>)
    requires ValidFormat(format) && HasPointers(format) && |ps| <= WORD_PARTS
    requires Encoded(format, START) == Some(Pack(ps))
    ensures StructHeader(format, size).Some?
    ensures HeaderSize(StructHeader(format, size).value) == PartsSize(Keep(MAX_PARTS, ps))
    ensures HeaderPointers(StructHeader(format, size).value) == PointerOffsets(PartFields(Keep(MAX_PARTS, ps)))
  {
    hide Encoded, Pack, PartsSize, Keep, TagVector, HeaderSize, HeaderPointers;
    PackFitsWord(ps);
    VectorHeader(ps);
    assert StructHeader(format, size).Some?;
    HeaderOfVector(format, size);
  }

  lemma RunThenPointer(n: nat)
    ensures PartsSize(Parts(FOUR_BYTES, n) + [POINTER_BYTES]) == RoundUp(4 * n, 8) + 8
    ensures PointerOffsets(PartFields(Parts(FOUR_BYTES, n) + [POINTER_BYTES])) == [RoundUp(4 * n, 8)]
  {
    hide EndOffset, PartFields, Alignment, Parts, PointerOffsets;
    FoursEnd(n);
    FoursPoint(n);
    PartFieldsSnoc(Parts(FOUR_BYTES, n), POINTER_BYTES);
    EndOffsetSnoc(PartFields(Parts(FOUR_BYTES, n)), PointerField);
    RoundUpRun(4 * n, 1, 8);
  }

  lemma FoursEnd(n: nat)
    ensures EndOffset(PartFields(Parts(FOUR_BYTES, n))) == 4 * n
    ensures PartField(POINTER_BYTES) == PointerField
  {
    PartsRunEnd([], FOUR_BYTES, n);
    assert [] + Parts(FOUR_BYTES, n) == Parts(FOUR_BYTES, n);
  }

  lemma FoursPoint(n: nat)
    ensures PointerOffsets(PartFields(Parts(FOUR_BYTES, n))) == []
  {
    hide PartFields;
    RunKeepsPointers([], FOUR_BYTES, n);
    assert [] + Parts(FOUR_BYTES, n) == Parts(FOUR_BYTES, n);
    NoPointers();
  }

  lemma NoPointers()
    ensures PointerOffsets(PartFields([])) == []
  {
  }

  lemma PushRunThenPointer(n: nat)
    requires n < MAX_PARTS
    ensures Pack(Parts(FOUR_BYTES, n) + [POINTER_BYTES]) < WORD_MODULUS
    ensures PushParts(PushParts(0, FOUR_BYTES, n), POINTER_BYTES, 1) == Pack(Parts(FOUR_BYTES, n) + [POINTER_BYTES])
  {
    var fours := Parts(FOUR_BYTES, n);
    PushPartsPack([], FOUR_BYTES, n);
    assert [] + fours == fours;
    PushPartsPack(fours, POINTER_BYTES, 1);
    assert Parts(POINTER_BYTES, 1) == [POINTER_BYTES];
  }

  /** No counter wraps and no compaction loses parts. */
  predicate Unharmed(format: string, m: Encoder)
    requires ValidFormat(format)
  {
    Counted(format, m) && Lossless(format, m)
  }

  predicate StepUnharmed(m: Encoder, c: char)
    requires IsDigit(c) || IsFieldLetter(c)
  {
    StepCounted(m, c) && StepLossless(m, c)
  }

  /** One character at a time. */
  lemma EncodedCons(format: string, m: Encoder, m': Encoder)
    requires ValidFormat(format) && format != [] && !m.isTooBig && Step(m, format[0]) == m'
    ensures Encoded(format, m) == Encoded(format[1..], m')
    ensures Unharmed(format, m) <==> StepUnharmed(m, format[0]) && Unharmed(format[1..], m')
  {
  }

  lemma EncodedEnd(format: string, m: Encoder)
    requires format == [] && !m.isTooBig && m.repeats == 0 && m.countExtra == 0
    ensures Encoded(format, m) == Some(m.vector) && Unharmed(format, m)
  {
  }

  lemma ExpandLetter(format: string, numeral: nat)
    requires ValidFormat(format) && format != [] && IsFieldLetter(format[0])
    ensures Expand(format, numeral) == Repeat(FieldOf(format[0]), Count(numeral)) + Expand(format[1..], 0)
  {
  }

  lemma ExpandDigit(format: string, numeral: nat)
    requires ValidFormat(format) && format != [] && IsDigit(format[0])
    ensures Expand(format, numeral) == Expand(format[1..], 10 * numeral + DigitValue(format[0]))
  {
  }

  lemma OnePointer()
    ensures ValidFormat("*") && Expand("*", 0) == [PointerField]
  {
    ExpandLetter("*", 0);
    assert "*"[1..] == "";
    assert Repeat(PointerField, 1) + Expand("", 0) == [PointerField];
  }

  /** A run of members before one pointer. */
  lemma CharsThenPointerSize(n: nat)
    requires n > 0
    ensures StructSize(Repeat(CharField, n) + [PointerField]) == RoundUp(n, 8) + 8
  {
    hide EndOffset, PointerOffsets, Alignment, Repeat;
    EndOffsetSnoc(Repeat(CharField, n), PointerField);
    CharRunEnd(n);
  }

  lemma CharRunEnd(n: nat)
    requires n > 0
    ensures EndOffset(Repeat(CharField, n)) == n && Alignment(Repeat(CharField, n)) == 1
  {
    assert [] + Repeat(CharField, n) == Repeat(CharField, n);
    EndOffsetRepeat([], CharField, n);
  }

  lemma StepDigit(m: Encoder, c: char, numeral: Byte)
    requires IsDigit(c) && !m.isTooBig
    requires numeral == ToByte(m.repeats * 10 + DigitValue(c)) && numeral >= m.repeats
    ensures Step(m, c) == m.(repeats := numeral)
    ensures m.repeats * 10 + DigitValue(c) < BYTE_MODULUS ==> StepUnharmed(m, c)
  {
  }

  lemma StepChar(m: Encoder)
    requires m.countExtra + Count(m.repeats) < BYTE_MODULUS
    ensures Step(m, 'c') == m.(countExtra := m.countExtra + Count(m.repeats), repeats := 0)
    ensures StepUnharmed(m, 'c')
  {
  }

  lemma StepFour(m: Encoder, c: char)
    requires c == 'i' || c == 'f'
    requires Count(m.repeats) <= m.bitsLeft / 2
    ensures StepUnharmed(m, c)
    ensures Step(m, c) == Encoder(PushParts(m.vector, FOUR_BYTES, Count(m.repeats)), 0, m.countExtra,
                                  m.bitsLeft - 2 * Count(m.repeats), false)
  {
    hide PushParts;
  }

  lemma StepPointer(m: Encoder)
    requires PartsForBytes(m.countExtra) + Count(m.repeats) <= m.bitsLeft / 2
    ensures StepUnharmed(m, '*')
    ensures var fours, n := PartsForBytes(m.countExtra), Count(m.repeats);
            Step(m, '*') == Encoder(PushParts(PushParts(m.vector, FOUR_BYTES, fours), POINTER_BYTES, n), 0, 0,
                                    m.bitsLeft - 2 * fours - 2 * n, false)
  {
    hide PushParts;
  }

  // ---------------------------------------------------------------- chars around a 4-byte member

  /** Chars on both sides of a 4-byte member: a 24-byte struct gets a 16-byte header. */
  lemma CharsAroundFour()
    ensures ValidFormat("cic*") && Unharmed("cic*", START) && StructHeader("cic*", 24).Some?
    ensures StructSize(Expand("cic*", 0)) == 24 && HeaderSize(StructHeader("cic*", 24).value) == 16
    ensures PointerOffsets(Expand("cic*", 0)) == [16] && HeaderPointers(StructHeader("cic*", 24).value) == [8]
  {
    hide Expand, StructSize, Encoded, Unharmed, HeaderSize, PartsSize, StructHeader, PointerOffsets, HeaderPointers;
    assert "cic*"[3] == '*';
    CharsAroundFourFields();
    CharsAroundFourParts();
    RunThenPointer(2);
    ConvertedSize("cic*", 24, Parts(FOUR_BYTES, 2) + [POINTER_BYTES]);
  }

  lemma CharsAroundFourFields()
    ensures Expand("cic*", 0) == [CharField, FourField, CharField, PointerField]
    ensures StructSize([CharField, FourField, CharField, PointerField]) == 24
    ensures PointerOffsets([CharField, FourField, CharField, PointerField]) == [16]
  {
    hide Expand, PointerOffsets;
    assert "cic*"[1..] == "ic*" && "ic*"[1..] == "c*" && "c*"[1..] == "*";
    ExpandLetter("cic*", 0);
    ExpandLetter("ic*", 0);
    ExpandLetter("c*", 0);
    OnePointer();
    assert Repeat(CharField, 1) == [CharField] && Repeat(FourField, 1) == [FourField];
    CharsAroundFourOffsets();
  }

  lemma CharsAroundFourOffsets()
    ensures StructSize([CharField, FourField, CharField, PointerField]) == 24
    ensures PointerOffsets([CharField, FourField, CharField, PointerField]) == [16]
  {
    hide EndOffset, Alignment, PointerOffsets;
    ThreeSmallOffsets();
    EndOffsetSnoc([CharField, FourField, CharField], PointerField);
    assert [CharField, FourField, CharField] + [PointerField] == [CharField, FourField, CharField, PointerField];
  }

  lemma ThreeSmallOffsets()
    ensures EndOffset([CharField, FourField, CharField]) == 9
    ensures Alignment([CharField, FourField, CharField]) == 4
    ensures PointerOffsets([CharField, FourField, CharField]) == []
  {
    hide EndOffset, Alignment, PointerOffsets;
    EmptyEnd();
    EndOffsetSnoc([], CharField);
    EndOffsetSnoc([CharField], FourField);
    EndOffsetSnoc([CharField, FourField], CharField);
    assert [] + [CharField] == [CharField] && [CharField] + [FourField] == [CharField, FourField];
    assert [CharField, FourField] + [CharField] == [CharField, FourField, CharField];
  }

  lemma EmptyEnd()
    ensures EndOffset([]) == 0 && Alignment([]) == 1 && PointerOffsets([]) == []
  {
  }

  lemma CharsAroundFourParts()
    ensures Unharmed("cic*", START)
    ensures Encoded("cic*", START) == Some(Pack(Parts(FOUR_BYTES, 2) + [POINTER_BYTES]))
  {
    hide Encoded, Unharmed, Step, StepUnharmed, Pack, PushParts;
    assert "cic*"[1..] == "ic*" && "ic*"[1..] == "c*" && "c*"[1..] == "*" && "*"[1..] == "";
    var four: Word, last: Word := PushParts(0, FOUR_BYTES, 1), PushParts(PushParts(0, FOUR_BYTES, 2), POINTER_BYTES, 1);
    CharsAroundFourSteps(four, last);
    EncodedCons("cic*", START, Encoder(0, 0, 1, 60, false));
    EncodedCons("ic*", Encoder(0, 0, 1, 60, false), Encoder(four, 0, 1, 58, false));
    EncodedCons("c*", Encoder(four, 0, 1, 58, false), Encoder(four, 0, 2, 58, false));
    EncodedCons("*", Encoder(four, 0, 2, 58, false), Encoder(last, 0, 0, 54, false));
    EncodedEnd("", Encoder(last, 0, 0, 54, false));
    PushRunThenPointer(2);
  }

  lemma CharsAroundFourSteps(four: Word, last: Word)
    requires four == PushParts(0, FOUR_BYTES, 1)
    requires last == PushParts(PushParts(0, FOUR_BYTES, 2), POINTER_BYTES, 1)
    ensures Step(START, 'c') == Encoder(0, 0, 1, 60, false) && StepUnharmed(START, 'c')
    ensures Step(Encoder(0, 0, 1, 60, false), 'i') == Encoder(four, 0, 1, 58, false)
    ensures StepUnharmed(Encoder(0, 0, 1, 60, false), 'i')
    ensures Step(Encoder(four, 0, 1, 58, false), 'c') == Encoder(four, 0, 2, 58, false)
    ensures StepUnharmed(Encoder(four, 0, 1, 58, false), 'c')
    ensures Step(Encoder(four, 0, 2, 58, false), '*') == Encoder(last, 0, 0, 54, false)
    ensures StepUnharmed(Encoder(four, 0, 2, 58, false), '*')
  {
    hide Step, StepUnharmed, PushParts;
    StepChar(START);
    StepFour(Encoder(0, 0, 1, 60, false), 'i');
    StepChar(Encoder(four, 0, 1, 58, false));
    StepPointer(Encoder(four, 0, 2, 58, false));
    TwoFours();
  }

  lemma TwoFours()
    ensures PushParts(PushParts(0, FOUR_BYTES, 1), FOUR_BYTES, 1) == PushParts(0, FOUR_BYTES, 2)
  {
  }

  // ---------------------------------------------------------------- a numeral past 255

  /** 290 chars are taken for 34. */
  lemma ByteNumeralWraps()
    ensures ValidFormat("290c*") && StructHeader("290c*", 304).Some?
    ensures StructSize(Expand("290c*", 0)) == 304 && HeaderSize(StructHeader("290c*", 304).value) == 48
  {
    hide Expand, StructSize, Encoded, HeaderSize, PartsSize, StructHeader;
    assert "290c*"[4] == '*';
    assert RoundUp(36, 8) == 40;
    ByteNumeralFields();
    ByteNumeralParts();
    RunThenPointer(9);
    ConvertedSize("290c*", 304, Parts(FOUR_BYTES, 9) + [POINTER_BYTES]);
  }

  lemma ByteNumeralFields()
    ensures StructSize(Expand("290c*", 0)) == 304
  {
    hide Expand, StructSize;
    assert "290c*"[1..] == "90c*" && "90c*"[1..] == "0c*" && "0c*"[1..] == "c*" && "c*"[1..] == "*";
    ExpandDigit("290c*", 0);
    ExpandDigit("90c*", 2);
    ExpandDigit("0c*", 29);
    ExpandLetter("c*", 290);
    OnePointer();
    CharsThenPointerSize(290);
  }

  lemma ByteNumeralParts()
    ensures Encoded("290c*", START) == Some(Pack(Parts(FOUR_BYTES, 9) + [POINTER_BYTES]))
  {
    hide Encoded, Unharmed, Step, StepUnharmed, Pack, PushParts;
    assert "290c*"[1..] == "90c*" && "90c*"[1..] == "0c*" && "0c*"[1..] == "c*" && "c*"[1..] == "*" && "*"[1..] == "";
    var last: Word := PushParts(PushParts(0, FOUR_BYTES, 9), POINTER_BYTES, 1);
    ByteNumeralSteps(last);
    EncodedCons("290c*", START, Encoder(0, 2, 0, 60, false));
    EncodedCons("90c*", Encoder(0, 2, 0, 60, false), Encoder(0, 29, 0, 60, false));
    EncodedCons("0c*", Encoder(0, 29, 0, 60, false), Encoder(0, 34, 0, 60, false));
    EncodedCons("c*", Encoder(0, 34, 0, 60, false), Encoder(0, 0, 34, 60, false));
    EncodedCons("*", Encoder(0, 0, 34, 60, false), Encoder(last, 0, 0, 40, false));
    EncodedEnd("", Encoder(last, 0, 0, 40, false));
    PushRunThenPointer(9);
  }

  lemma ByteNumeralSteps(last: Word)
    requires last == PushParts(PushParts(0, FOUR_BYTES, 9), POINTER_BYTES, 1)
    ensures Step(START, '2') == Encoder(0, 2, 0, 60, false)
    ensures Step(Encoder(0, 2, 0, 60, false), '9') == Encoder(0, 29, 0, 60, false)
    ensures Step(Encoder(0, 29, 0, 60, false), '0') == Encoder(0, 34, 0, 60, false)
    ensures Step(Encoder(0, 34, 0, 60, false), 'c') == Encoder(0, 0, 34, 60, false)
    ensures Step(Encoder(0, 0, 34, 60, false), '*') == Encoder(last, 0, 0, 40, false)
  {
    hide Step, StepUnharmed, PushParts;
    StepDigit(START, '2', 2);
    StepDigit(Encoder(0, 2, 0, 60, false), '9', 29);
    StepDigit(Encoder(0, 29, 0, 60, false), '0', 34);
    StepChar(Encoder(0, 34, 0, 60, false));
    StepPointer(Encoder(0, 0, 34, 60, false));
  }

  // ---------------------------------------------------------------- compaction that loses parts

  /** Fourteen 4-byte members vanish. */
  lemma CompactionDropsParts()
    ensures ValidFormat("14id*") && StructHeader("14id*", 72).Some?
    ensures StructSize(Expand("14id*", 0)) == 72 && HeaderSize(StructHeader("14id*", 72).value) == 16
    ensures PointerOffsets(Expand("14id*", 0)) == [64] && HeaderPointers(StructHeader("14id*", 72).value) == [8]
  {
    hide Expand, StructSize, Encoded, HeaderSize, PartsSize, StructHeader, PointerOffsets, HeaderPointers;
    assert "14id*"[4] == '*';
    DroppedFields();
    DroppedParts();
    EightThenPointer();
    ConvertedSize("14id*", 72, [EIGHT_BYTES, POINTER_BYTES]);
  }

  lemma EightThenPointer()
    ensures PartsSize([EIGHT_BYTES, POINTER_BYTES]) == 16
    ensures PointerOffsets(PartFields([EIGHT_BYTES, POINTER_BYTES])) == [8]
    ensures Pack([EIGHT_BYTES, POINTER_BYTES]) == 11
  {
    assert PartFields([EIGHT_BYTES, POINTER_BYTES]) == [EightField] + [PointerField];
    EndOffsetSnoc([], EightField);
    EndOffsetSnoc([EightField], PointerField);
    PackPush([], EIGHT_BYTES);
    PackPush([EIGHT_BYTES], POINTER_BYTES);
    assert [] + [EIGHT_BYTES] == [EIGHT_BYTES] && [EIGHT_BYTES] + [POINTER_BYTES] == [EIGHT_BYTES, POINTER_BYTES];
    assert [] + [EightField] == [EightField];
  }

  lemma DroppedFields()
    ensures StructSize(Expand("14id*", 0)) == 72 && PointerOffsets(Expand("14id*", 0)) == [64]
  {
    hide Expand, StructSize, PointerOffsets;
    assert "14id*"[1..] == "4id*" && "4id*"[1..] == "id*" && "id*"[1..] == "d*" && "d*"[1..] == "*";
    ExpandDigit("14id*", 0);
    ExpandDigit("4id*", 1);
    ExpandLetter("id*", 14);
    ExpandLetter("d*", 0);
    OnePointer();
    assert Repeat(EightField, 1) == [EightField];
    DroppedSize();
  }

  lemma DroppedSize()
    ensures StructSize(Repeat(FourField, 14) + ([EightField] + [PointerField])) == 72
    ensures PointerOffsets(Repeat(FourField, 14) + ([EightField] + [PointerField])) == [64]
  {
    hide EndOffset, Alignment, PointerOffsets;
    EmptyEnd();
    OtherRun([], FourField, 14);
    var fours := Repeat(FourField, 14);
    EndOffsetRepeat([], FourField, 14);
    assert [] + fours == fours;
    EndOffsetSnoc(fours, EightField);
    EndOffsetSnoc(fours + [EightField], PointerField);
    assert fours + ([EightField] + [PointerField]) == (fours + [EightField]) + [PointerField];
  }

  lemma DroppedParts()
    ensures Encoded("14id*", START) == Some(Pack([EIGHT_BYTES, POINTER_BYTES]))
  {
    hide Encoded, Unharmed, Step, StepUnharmed, Pack, PushParts;
    assert "14id*"[1..] == "4id*" && "4id*"[1..] == "id*" && "id*"[1..] == "d*" && "d*"[1..] == "*" && "*"[1..] == "";
    var fours: Word := PushParts(0, FOUR_BYTES, 14);
    DroppedSteps(fours);
    EncodedCons("14id*", START, Encoder(0, 1, 0, 60, false));
    EncodedCons("4id*", Encoder(0, 1, 0, 60, false), Encoder(0, 14, 0, 60, false));
    EncodedCons("id*", Encoder(0, 14, 0, 60, false), Encoder(fours, 0, 0, 32, false));
    EncodedCons("d*", Encoder(fours, 0, 0, 32, false), Encoder(2, 0, 0, 2, false));
    EncodedCons("*", Encoder(2, 0, 0, 2, false), Encoder(11, 0, 0, 0, false));
    EncodedEnd("", Encoder(11, 0, 0, 0, false));
    EightThenPointer();
  }

  lemma DroppedSteps(fours: Word)
    requires fours == PushParts(0, FOUR_BYTES, 14)
    ensures Step(START, '1') == Encoder(0, 1, 0, 60, false)
    ensures Step(Encoder(0, 1, 0, 60, false), '4') == Encoder(0, 14, 0, 60, false)
    ensures Step(Encoder(0, 14, 0, 60, false), 'i') == Encoder(fours, 0, 0, 32, false)
    ensures Step(Encoder(fours, 0, 0, 32, false), 'd') == Encoder(2, 0, 0, 2, false)
    ensures Step(Encoder(2, 0, 0, 2, false), '*') == Encoder(11, 0, 0, 0, false)
  {
    hide Step, StepUnharmed, PushParts;
    StepDigit(START, '1', 1);
    StepDigit(Encoder(0, 1, 0, 60, false), '4', 14);
    StepFour(Encoder(0, 14, 0, 60, false), 'i');
    DroppedEight(fours);
    StepPointer(Encoder(2, 0, 0, 2, false));
    TwoPushes();
  }

  lemma TwoPushes()
    ensures PushParts(0, EIGHT_BYTES, 1) == 2
    ensures PushParts(PushParts(2, FOUR_BYTES, 0), POINTER_BYTES, 1) == 11
  {
  }

  lemma DroppedEight(fours: Word)
    requires fours == PushParts(0, FOUR_BYTES, 14)
    ensures Step(Encoder(fours, 0, 0, 32, false), 'd') == Encoder(2, 0, 0, 2, false)
  {
    hide Compact;
    DroppedCompaction(fours);
    TwoPushes();
  }

  lemma DroppedCompaction(fours: Word)
    requires fours == PushParts(0, FOUR_BYTES, 14)
    ensures Compact(fours, 32) == Added(0, 4, true)
  {
    hide Compact, PushParts, Pack;
    var ps := Parts(FOUR_BYTES, 14);
    TrailingFoursRun([], 14);
    assert [] + ps == ps;
    PushPartsPack([], FOUR_BYTES, 14);
    CompactDrops(ps, 32, 14);
    assert Unpaired(ps) == [];
    EmptyPack();
  }

  lemma EmptyPack()
    ensures Pack([]) == 0
  {
  }

  // ---------------------------------------------------------------- parts that fall off the vector

  /**
   No counter wraps, no compaction loses parts and all segments agree, but after the subtraction has
   wrapped around, 32 parts are accepted, and the first two are not in the header.
   */
  lemma PartsFallOff()
    ensures ValidFormat("22id20*") && Unharmed("22id20*", START) && StructHeader("22id20*", 256).Some?
    ensures AllAgree(Expand("22id20*", 0))
    ensures StructSize(Expand("22id20*", 0)) == 256 && HeaderSize(StructHeader("22id20*", 256).value) == 240
  {
    hide Expand, StructSize, Encoded, Unharmed, HeaderSize, PartsSize, StructHeader, AllAgree, Pack, Keep;
    assert "22id20*"[6] == '*';
    FallenFields();
    FoursThenWides(22, 20);
    FallenParts();
    var ps := Parts(EIGHT_BYTES, 12) + Parts(POINTER_BYTES, 20);
    ConvertedSize("22id20*", 256, ps);
    FallenSize();
  }

  lemma FallenSize()
    ensures PartsSize(Keep(MAX_PARTS, Parts(EIGHT_BYTES, 12) + Parts(POINTER_BYTES, 20))) == 240
  {
    hide EndOffset, PartFields, Alignment, PointerOffsets;
    assert Keep(MAX_PARTS, Parts(EIGHT_BYTES, 12) + Parts(POINTER_BYTES, 20)) ==
           [] + Parts(EIGHT_BYTES, 10) + Parts(POINTER_BYTES, 20);
    PartsRunEnd([], EIGHT_BYTES, 10);
    PartsRunEnd([] + Parts(EIGHT_BYTES, 10), POINTER_BYTES, 20);
    FoursEnd(0);
    assert Parts(FOUR_BYTES, 0) == [];
  }

  lemma FallenFields()
    ensures Expand("22id20*", 0) == Repeat(FourField, 22) + [EightField] + Repeat(PointerField, 20)
  {
    hide Expand, Repeat;
    assert "22id20*"[1..] == "2id20*" && "2id20*"[1..] == "id20*" && "id20*"[1..] == "d20*";
    assert "d20*"[1..] == "20*";
    ExpandDigit("22id20*", 0);
    ExpandDigit("2id20*", 2);
    ExpandLetter("id20*", 22);
    ExpandLetter("d20*", 0);
    TwentyPointers();
    RepeatOnce();
  }

  lemma TwentyPointers()
    ensures ValidFormat("20*") && Expand("20*", 0) == Repeat(PointerField, 20)
  {
    hide Expand, Repeat;
    assert "20*"[1..] == "0*" && "0*"[1..] == "*" && "*"[1..] == "";
    ExpandDigit("20*", 0);
    ExpandDigit("0*", 2);
    ExpandLetter("*", 20);
    ExpandNothing();
  }

  lemma ExpandNothing()
    ensures Expand("", 0) == []
  {
  }

  lemma RepeatOnce()
    ensures Repeat(EightField, 1) == [EightField]
  {
  }

  /** Fours, one other 8-byte member, and pointers. */
  lemma FoursThenWides(fours: nat, pointers: nat)
    requires pointers > 0
    ensures var fs := Repeat(FourField, fours) + [EightField] + Repeat(PointerField, pointers);
            AllAgree(fs) && StructSize(fs) == RoundUp(4 * fours, 8) + 8 + 8 * pointers
  {
    hide EndOffset, AgreeBefore, LastSegment, Agrees, SegmentStart, Repeat, PointerOffsets, Alignment, RoundUp;
    var front := Repeat(FourField, fours);
    SmallRun([], FourField, fours);
    assert [] + front == front;
    OneSidedAgrees(0, fours);
    EmptyAgree();
    assert Repeat(CharField, 0) + front == front;
    RepeatOnce();
    WideRun(front, EightField, 1);
    WideRun(front + [EightField], PointerField, pointers);
    FoursThenWidesEnd(fours, pointers);
  }

  lemma EmptyAgree()
    ensures LastSegment([]) == [] && AgreeBefore([]) && Agrees([])
  {
  }

  lemma FoursThenWidesEnd(fours: nat, pointers: nat)
    requires pointers > 0
    ensures StructSize(Repeat(FourField, fours) + [EightField] + Repeat(PointerField, pointers)) ==
            RoundUp(4 * fours, 8) + 8 + 8 * pointers
  {
    hide EndOffset, PointerOffsets, Alignment, Repeat;
    var front := Repeat(FourField, fours);
    EmptyEnd();
    EndOffsetRepeat([], FourField, fours);
    assert [] + front == front;
    EndOffsetSnoc(front, EightField);
    EndOffsetRepeat(front + [EightField], PointerField, pointers);
  }

  lemma FallenParts()
    ensures Unharmed("22id20*", START)
    ensures Encoded("22id20*", START) == Some(Pack(Parts(EIGHT_BYTES, 12) + Parts(POINTER_BYTES, 20)))
  {
    hide Encoded, Unharmed, Step, StepUnharmed, Pack, PushParts;
    assert "22id20*"[1..] == "2id20*" && "2id20*"[1..] == "id20*" && "id20*"[1..] == "d20*";
    assert "d20*"[1..] == "20*" && "20*"[1..] == "0*" && "0*"[1..] == "*" && "*"[1..] == "";
    var fours: Word := PushParts(0, FOUR_BYTES, 22);
    var eights: Word := PushParts(0, EIGHT_BYTES, 12);
    var last: Word := PushParts(eights, POINTER_BYTES, 20);
    FallenSteps(fours, eights, last);
    EncodedCons("22id20*", START, Encoder(0, 2, 0, 60, false));
    EncodedCons("2id20*", Encoder(0, 2, 0, 60, false), Encoder(0, 22, 0, 60, false));
    EncodedCons("id20*", Encoder(0, 22, 0, 60, false), Encoder(fours, 0, 0, 16, false));
    EncodedCons("d20*", Encoder(fours, 0, 0, 16, false), Encoder(eights, 0, 0, 204, false));
    EncodedCons("20*", Encoder(eights, 0, 0, 204, false), Encoder(eights, 2, 0, 204, false));
    EncodedCons("0*", Encoder(eights, 2, 0, 204, false), Encoder(eights, 20, 0, 204, false));
    EncodedCons("*", Encoder(eights, 20, 0, 204, false), Encoder(last, 0, 0, 164, false));
    EncodedEnd("", Encoder(last, 0, 0, 164, false));
    FallenPushes();
  }

  lemma FallenPushes()
    ensures PushParts(PushParts(0, EIGHT_BYTES, 12), POINTER_BYTES, 20) ==
            Pack(Parts(EIGHT_BYTES, 12) + Parts(POINTER_BYTES, 20))
  {
    hide Pack, PushParts;
    EmptyPack();
    PushPartsPack([], EIGHT_BYTES, 12);
    assert [] + Parts(EIGHT_BYTES, 12) == Parts(EIGHT_BYTES, 12);
    PushPartsPack(Parts(EIGHT_BYTES, 12), POINTER_BYTES, 20);
  }

  lemma FallenSteps(fours: Word, eights: Word, last: Word)
    requires fours == PushParts(0, FOUR_BYTES, 22)
    requires eights == PushParts(0, EIGHT_BYTES, 12) && last == PushParts(eights, POINTER_BYTES, 20)
    ensures Step(START, '2') == Encoder(0, 2, 0, 60, false) && StepUnharmed(START, '2')
    ensures Step(Encoder(0, 2, 0, 60, false), '2') == Encoder(0, 22, 0, 60, false)
    ensures StepUnharmed(Encoder(0, 2, 0, 60, false), '2')
    ensures Step(Encoder(0, 22, 0, 60, false), 'i') == Encoder(fours, 0, 0, 16, false)
    ensures StepUnharmed(Encoder(0, 22, 0, 60, false), 'i')
    ensures Step(Encoder(fours, 0, 0, 16, false), 'd') == Encoder(eights, 0, 0, 204, false)
    ensures StepUnharmed(Encoder(fours, 0, 0, 16, false), 'd')
    ensures Step(Encoder(eights, 0, 0, 204, false), '2') == Encoder(eights, 2, 0, 204, false)
    ensures StepUnharmed(Encoder(eights, 0, 0, 204, false), '2')
    ensures Step(Encoder(eights, 2, 0, 204, false), '0') == Encoder(eights, 20, 0, 204, false)
    ensures StepUnharmed(Encoder(eights, 2, 0, 204, false), '0')
    ensures Step(Encoder(eights, 20, 0, 204, false), '*') == Encoder(last, 0, 0, 164, false)
    ensures StepUnharmed(Encoder(eights, 20, 0, 204, false), '*')
  {
    hide Step, StepUnharmed, PushParts;
    StepDigit(START, '2', 2);
    StepDigit(Encoder(0, 2, 0, 60, false), '2', 22);
    StepFour(Encoder(0, 22, 0, 60, false), 'i');
    FallenEight(fours);
    StepDigit(Encoder(eights, 0, 0, 204, false), '2', 2);
    StepDigit(Encoder(eights, 2, 0, 204, false), '0', 20);
    StepPointer(Encoder(eights, 20, 0, 204, false));
    PushNothing(eights);
  }

  lemma PushNothing(vector: Word)
    ensures PushParts(vector, FOUR_BYTES, 0) == vector
  {
  }

  /** The subtraction wraps around: there are 16 bits left, and then 206. */
  lemma FallenEight(fours: Word)
    requires fours == PushParts(0, FOUR_BYTES, 22)
    ensures StepUnharmed(Encoder(fours, 0, 0, 16, false), 'd')
    ensures Step(Encoder(fours, 0, 0, 16, false), 'd') == Encoder(PushParts(0, EIGHT_BYTES, 12), 0, 0, 204, false)
  {
    hide Compact, EvenFours, PushParts, Pack, CompactParts, TrailingFours;
    var ps := Parts(FOUR_BYTES, 22);
    TrailingFoursRun([], 22);
    assert [] + ps == ps;
    EmptyPack();
    PushPartsPack([], FOUR_BYTES, 22);
    PushNothing(fours);
    UncompactedPack(ps);
    CompactExact(ps, 16, 22);
    CompactedFours(22);
  }

  lemma CompactedFours(n: nat)
    requires n <= WORD_PARTS && n % 2 == 0
    ensures Pack(CompactParts(Parts(FOUR_BYTES, n))) < WORD_MODULUS
    ensures PushParts(Pack(CompactParts(Parts(FOUR_BYTES, n))), EIGHT_BYTES, 1) == PushParts(0, EIGHT_BYTES, n / 2 + 1)
  {
    hide Pack, PushParts, CompactParts, TrailingFours;
    var ps := Parts(FOUR_BYTES, n);
    TrailingFoursRun([], n);
    assert [] + ps == ps;
    CompactedRest(ps);
    assert CompactParts(ps) == Parts(EIGHT_BYTES, n / 2);
    EmptyPack();
    PushPartsPack([], EIGHT_BYTES, n / 2 + 1);
    PushPartsPack(Parts(EIGHT_BYTES, n / 2), EIGHT_BYTES, 1);
    assert [] + Parts(EIGHT_BYTES, n / 2 + 1) == Parts(EIGHT_BYTES, n / 2) + Parts(EIGHT_BYTES, 1);
  }

  // ---------------------------------------------------------------- a pointer sought before its padding

  /**
   Thirty-one pointers do not fit, so the header points to the format string, whose reader looks for
   the first pointer at offset 1 and for the others where they are.
   */
  lemma PointerSoughtInPadding(size: Word)
    ensures ValidFormat("c31*") && HasPointers("c31*") && StructHeader("c31*", size).None?
    ensures var fs := Expand("c31*", 0);
            && |SoughtOffsets(fs)| == |PointerOffsets(fs)| == 31
            && SoughtOffsets(fs)[0] == 1 && PointerOffsets(fs)[0] == 8
            && SoughtOffsets(fs)[1..] == PointerOffsets(fs)[1..]
  {
    hide Expand, Encoded, SoughtOffsets, PointerOffsets, Repeat;
    assert "c31*"[3] == '*';
    SoughtFields();
    CharBeforePointers(31);
    TooManyPointers();
  }

  lemma SoughtFields()
    ensures Expand("c31*", 0) == [CharField] + Repeat(PointerField, 31)
  {
    hide Expand;
    assert "c31*"[1..] == "31*" && "31*"[1..] == "1*" && "1*"[1..] == "*" && "*"[1..] == "";
    ExpandLetter("c31*", 0);
    ExpandDigit("31*", 0);
    ExpandDigit("1*", 3);
    ExpandLetter("*", 31);
    ExpandNothing();
    assert Repeat(CharField, 1) == [CharField];
  }

  lemma TooManyPointers()
    ensures Encoded("c31*", START).None?
  {
    hide Encoded, Unharmed, Step, StepUnharmed, PushParts;
    assert "c31*"[1..] == "31*" && "31*"[1..] == "1*" && "1*"[1..] == "*" && "*"[1..] == "";
    StepChar(START);
    StepDigit(Encoder(0, 0, 1, 60, false), '3', 3);
    StepDigit(Encoder(0, 3, 1, 60, false), '1', 31);
    EncodedCons("c31*", START, Encoder(0, 0, 1, 60, false));
    EncodedCons("31*", Encoder(0, 0, 1, 60, false), Encoder(0, 3, 1, 60, false));
    EncodedCons("1*", Encoder(0, 3, 1, 60, false), Encoder(0, 31, 1, 60, false));
    StepTooManyPointers(Encoder(0, 31, 1, 60, false));
    EncodedCons("*", Encoder(0, 31, 1, 60, false), Step(Encoder(0, 31, 1, 60, false), '*'));
    EncodedTooBig("", Step(Encoder(0, 31, 1, 60, false), '*'));
  }

  lemma StepTooManyPointers(m: Encoder)
    requires PartsForBytes(m.countExtra) + Count(m.repeats) > m.bitsLeft / 2
    ensures Step(m, '*').isTooBig
  {
    hide PushParts;
  }

  lemma EncodedTooBig(format: string, m: Encoder)
    requires ValidFormat(format) && m.isTooBig
    ensures Encoded(format, m).None?
  {
  }

  // ---------------------------------------------------------------- a vector refused

  /** Compaction leaves 26 parts, which 52 bits would hold, but has taken 40 bits more. */
  lemma CompactionRefuses(size: Word)
    ensures ValidFormat("10id20*") && HasPointers("10id20*") && StructHeader("10id20*", size).None?
    ensures PartsAsked("10id20*", ZERO) == 26 && FoursPaired("10id20*", ZERO) == 10
  {
    hide Encoded, PartsAsked, FoursPaired;
    assert "10id20*"[6] == '*';
    RefusedParts();
    RefusedAsked();
  }

  lemma AskedCons(format: string, k: Meter, k': Meter)
    requires ValidFormat(format) && format != [] && Metered(k, format[0]) == k'
    ensures PartsAsked(format, k) == StepParts(k, format[0]) + PartsAsked(format[1..], k')
    ensures FoursPaired(format, k) == StepPaired(k, format[0]) + FoursPaired(format[1..], k')
  {
  }

  lemma RefusedMeter()
    ensures Metered(Meter(0, 0, 0), '1') == Meter(1, 0, 0) && Metered(Meter(1, 0, 0), '0') == Meter(10, 0, 0)
    ensures Metered(Meter(10, 0, 0), 'i') == Meter(0, 0, 10) && Metered(Meter(0, 0, 10), 'd') == Meter(0, 0, 0)
    ensures Metered(Meter(0, 0, 0), '2') == Meter(2, 0, 0) && Metered(Meter(2, 0, 0), '0') == Meter(20, 0, 0)
    ensures Metered(Meter(20, 0, 0), '*') == Meter(0, 0, 0)
    ensures forall k, c :: IsDigit(c) ==> StepParts(k, c) == StepPaired(k, c) == 0
    ensures StepParts(Meter(10, 0, 0), 'i') == 10 && StepPaired(Meter(10, 0, 0), 'i') == 0
    ensures StepParts(Meter(0, 0, 10), 'd') == -4 && StepPaired(Meter(0, 0, 10), 'd') == 10
    ensures StepParts(Meter(20, 0, 0), '*') == 20 && StepPaired(Meter(20, 0, 0), '*') == 0
  {
  }

  lemma NothingAsked()
    ensures PartsAsked("", ZERO) == 0 && FoursPaired("", ZERO) == 0
  {
  }

  lemma RefusedAsked()
    ensures PartsAsked("10id20*", ZERO) == 26 && FoursPaired("10id20*", ZERO) == 10
  {
    hide PartsAsked, FoursPaired, Metered, StepParts, StepPaired;
    assert "10id20*"[1..] == "0id20*" && "0id20*"[1..] == "id20*" && "id20*"[1..] == "d20*";
    assert "d20*"[1..] == "20*" && "20*"[1..] == "0*" && "0*"[1..] == "*" && "*"[1..] == "";
    NothingAsked();
    RefusedMeter();
    AskedCons("10id20*", Meter(0, 0, 0), Meter(1, 0, 0));
    AskedCons("0id20*", Meter(1, 0, 0), Meter(10, 0, 0));
    AskedCons("id20*", Meter(10, 0, 0), Meter(0, 0, 10));
    AskedCons("d20*", Meter(0, 0, 10), Meter(0, 0, 0));
    AskedCons("20*", Meter(0, 0, 0), Meter(2, 0, 0));
    AskedCons("0*", Meter(2, 0, 0), Meter(20, 0, 0));
    AskedCons("*", Meter(20, 0, 0), Meter(0, 0, 0));
  }

  lemma RefusedParts()
    ensures Encoded("10id20*", START).None?
  {
    hide Encoded, Unharmed, Step, StepUnharmed, PushParts;
    assert "10id20*"[1..] == "0id20*" && "0id20*"[1..] == "id20*" && "id20*"[1..] == "d20*";
    assert "d20*"[1..] == "20*" && "20*"[1..] == "0*" && "0*"[1..] == "*" && "*"[1..] == "";
    var fours: Word, eights: Word := PushParts(0, FOUR_BYTES, 10), PushParts(0, EIGHT_BYTES, 6);
    RefusedSteps(fours, eights);
    EncodedCons("10id20*", START, Encoder(0, 1, 0, 60, false));
    EncodedCons("0id20*", Encoder(0, 1, 0, 60, false), Encoder(0, 10, 0, 60, false));
    EncodedCons("id20*", Encoder(0, 10, 0, 60, false), Encoder(fours, 0, 0, 40, false));
    EncodedCons("d20*", Encoder(fours, 0, 0, 40, false), Encoder(eights, 0, 0, 8, false));
    EncodedCons("20*", Encoder(eights, 0, 0, 8, false), Encoder(eights, 2, 0, 8, false));
    EncodedCons("0*", Encoder(eights, 2, 0, 8, false), Encoder(eights, 20, 0, 8, false));
    EncodedCons("*", Encoder(eights, 20, 0, 8, false), Step(Encoder(eights, 20, 0, 8, false), '*'));
    EncodedTooBig("", Step(Encoder(eights, 20, 0, 8, false), '*'));
  }

  lemma RefusedSteps(fours: Word, eights: Word)
    requires fours == PushParts(0, FOUR_BYTES, 10) && eights == PushParts(0, EIGHT_BYTES, 6)
    ensures Step(START, '1') == Encoder(0, 1, 0, 60, false)
    ensures Step(Encoder(0, 1, 0, 60, false), '0') == Encoder(0, 10, 0, 60, false)
    ensures Step(Encoder(0, 10, 0, 60, false), 'i') == Encoder(fours, 0, 0, 40, false)
    ensures Step(Encoder(fours, 0, 0, 40, false), 'd') == Encoder(eights, 0, 0, 8, false)
    ensures Step(Encoder(eights, 0, 0, 8, false), '2') == Encoder(eights, 2, 0, 8, false)
    ensures Step(Encoder(eights, 2, 0, 8, false), '0') == Encoder(eights, 20, 0, 8, false)
    ensures Step(Encoder(eights, 20, 0, 8, false), '*').isTooBig
  {
    hide Step, StepUnharmed, PushParts;
    StepDigit(START, '1', 1);
    StepDigit(Encoder(0, 1, 0, 60, false), '0', 10);
    StepFour(Encoder(0, 10, 0, 60, false), 'i');
    RefusedEight(fours);
    StepDigit(Encoder(eights, 0, 0, 8, false), '2', 2);
    StepDigit(Encoder(eights, 2, 0, 8, false), '0', 20);
    StepTooManyPointers(Encoder(eights, 20, 0, 8, false));
  }

  lemma RefusedEight(fours: Word)
    requires fours == PushParts(0, FOUR_BYTES, 10)
    ensures Step(Encoder(fours, 0, 0, 40, false), 'd') == Encoder(PushParts(0, EIGHT_BYTES, 6), 0, 0, 8, false)
  {
    hide Compact, EvenFours, PushParts, Pack, CompactParts, TrailingFours;
    var ps := Parts(FOUR_BYTES, 10);
    TrailingFoursRun([], 10);
    assert [] + ps == ps;
    EmptyPack();
    PushPartsPack([], FOUR_BYTES, 10);
    PushNothing(fours);
    CompactExact(ps, 40, 10);
    CompactedFours(10);
  }
}

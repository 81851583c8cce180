/** What the letters and numerals of a format stand for, in sizes and offsets. */
module Letters {
  import opened Words
  import opened Layout
  import opened FormatSize
  import opened PartCodec
  import opened VectorReader
  import opened FormatEncoding
  import opened EncodingLayout
  import opened EncodingExamples
  import opened Header

  // ---------------------------------------------------------------- numerals

  /** A number in decimal digits. */
  function Decimal(n: nat): (digits: string)
    ensures digits != []
  {
    if n < 10 then ["0123456789"[n]] else Decimal(n / 10) + ["0123456789"[n % 10]]
  }

  lemma DigitRead(d: nat)
    requires d < 10
    ensures IsDigit("0123456789"[d]) && DigitValue("0123456789"[d]) == d
  {
  }

  lemma {:induction false} DecimalRead(n: nat)
    ensures forall i :: 0 <= i < |Decimal(n)| ==> IsDigit(Decimal(n)[i])
    ensures NumeralValue(Decimal(n)) == n
  {
    DigitRead(n % 10);
    if n < 10 {
      assert Decimal(n)[..0] == [];
    } else {
      DecimalRead(n / 10);
      assert Decimal(n)[..|Decimal(n)| - 1] == Decimal(n / 10);
    }
  }

  // ---------------------------------------------------------------- sizes

  /** The struct of a format has this size, and is refused when 64 bits do not hold it. */
  ghost predicate SizedAs(format: string, size: nat) {
    && ValidFormat(format)
    && (SizeFits(format) <==> size <= WORD_MAX)
    && (SizeFits(format) ==> StructSize(MachineFields(format, 0).value) == size)
  }

  lemma RunSize(f: Field, n: nat)
    requires n > 0
    ensures StructSize(Repeat(f, n)) == n * f.Bytes()
  {
    hide EndOffset, Alignment, PointerOffsets, Repeat, RoundUp;
    assert [] + Repeat(f, n) == Repeat(f, n);
    EmptyEnd();
    EndOffsetRepeat([], f, n);
    RunRounded(n, f.Bytes());
  }

  lemma RunRounded(n: nat, a: Amount)
    ensures RoundUp(0, a) == 0 && RoundUp(n * a, a) == n * a && MaxAmount(1, a) == a
  {
  }

  lemma LetterAlone(c: char, n: Word)
    requires IsFieldLetter(c)
    ensures ValidFormat([c]) && MachineFields([c], n) == Some(Repeat(FieldOf(c), Count(n)))
  {
    assert [c][1..] == [];
    assert MachineFields([], 0) == Some(Repeat(CharField, 0));
    assert Repeat(FieldOf(c), Count(n)) + Repeat(CharField, 0) == Repeat(FieldOf(c), Count(n));
  }

  lemma ReadBefore(n: Word, rest: string)
    requires ValidFormat(rest)
    ensures ValidFormat(Decimal(n) + rest)
    ensures MachineFields(Decimal(n) + rest, 0) == MachineFields(rest, n)
  {
    hide MachineFields, Decimal;
    DecimalRead(n);
    ReadNumeral(Decimal(n), rest);
  }

  lemma LetterSized(n: Word, c: char, bytes: Amount)
    requires n > 0 && IsFieldLetter(c) && FieldOf(c).Bytes() == bytes
    ensures SizedAs(Decimal(n) + [c], bytes * n) && SizedAs([c], bytes)
  {
    hide MachineFields, StructSize, Decimal;
    LetterAlone(c, n);
    LetterAlone(c, 0);
    ReadBefore(n, [c]);
    RunSize(FieldOf(c), n);
    RunSize(FieldOf(c), 1);
  }

  /**
   A letter stands for 4 bytes if it is `i` or `f`, for 8 if it is `l`, `d` or `*`, and for one if it
   is `c`; a numeral stands for that many of them, and a numeral at the end for chars.
   */
  lemma LetterSizes(n: Word)
    requires n > 0
    ensures SizedAs(Decimal(n) + "i", 4 * n) && SizedAs(Decimal(n) + "f", 4 * n)
    ensures SizedAs(Decimal(n) + "l", 8 * n) && SizedAs(Decimal(n) + "d", 8 * n) && SizedAs(Decimal(n) + "*", 8 * n)
    ensures SizedAs(Decimal(n) + "c", n) && SizedAs(Decimal(n), n)
    ensures SizedAs("i", 4) && SizedAs("f", 4) && SizedAs("l", 8) && SizedAs("d", 8) && SizedAs("*", 8)
    ensures SizedAs("c", 1)
  {
    hide SizedAs, Decimal;
    LetterSized(n, 'i', 4);
    LetterSized(n, 'f', 4);
    LetterSized(n, 'l', 8);
    LetterSized(n, 'd', 8);
    LetterSized(n, '*', 8);
    LetterSized(n, 'c', 1);
    TrailingNumeral(n);
  }

  lemma TrailingNumeral(n: Word)
    requires n > 0
    ensures SizedAs(Decimal(n), n)
  {
    hide StructSize, Decimal;
    ReadBefore(n, []);
    assert Decimal(n) + [] == Decimal(n);
    RunSize(CharField, n);
  }

  // ---------------------------------------------------------------- offsets

  lemma StepEight(m: Encoder, c: char, compacted: Word, bitsLeft: Byte)
    requires c == 'l' || c == 'd'
    requires m.countExtra == 0 && Count(m.repeats) <= bitsLeft / 2
    requires Compact(m.vector, m.bitsLeft) == Added(compacted, bitsLeft, false)
    ensures Step(m, c) == Encoder(PushParts(compacted, EIGHT_BYTES, Count(m.repeats)), 0, 0,
                                  bitsLeft - 2 * Count(m.repeats), false)
  {
    hide Compact;
  }

  /** No 4-byte part at the end, or one, leaves nothing to compact. */
  lemma NothingToCompact(vector: Word, bitsLeft: Byte)
    requires vector % 4 != FOUR_BYTES || vector / 4 % 4 != FOUR_BYTES
    ensures Compact(vector, bitsLeft) == Added(vector, bitsLeft, false)
  {
    WordFours(vector);
    OneFour(vector);
    CompactBits(0, bitsLeft);
    hide FoursAtEnd, ShiftOut, ToByte, PushPart;
  }

  lemma OneFour(vector: Word)
    requires vector % 4 != FOUR_BYTES || vector / 4 % 4 != FOUR_BYTES
    ensures FoursAtEnd(vector) <= 1 && ShiftOut(vector, 0) == vector
    ensures FoursAtEnd(vector) == 1 ==> PushPart(ShiftOut(vector, 1), FOUR_BYTES) == vector
  {
    if vector % 4 == FOUR_BYTES {
      assert FoursAtEnd(vector / 4) == 0;
      assert ShiftOut(vector / 4, 0) == vector / 4;
      assert ToWord(4 * (vector / 4) + FOUR_BYTES) == vector;
    }
  }

  lemma VectorWords()
    ensures PushParts(0, FOUR_BYTES, 1) == 1 && PushParts(1, FOUR_BYTES, 1) == 5 && PushParts(5, POINTER_BYTES, 1) == 23
    ensures PushParts(1, EIGHT_BYTES, 1) == 6 && PushParts(6, POINTER_BYTES, 1) == 27
    ensures PushParts(0, EIGHT_BYTES, 1) == 2 && PushParts(2, EIGHT_BYTES, 1) == 10
    ensures PushParts(10, POINTER_BYTES, 1) == 43
    ensures forall vector: Word :: PushParts(vector, FOUR_BYTES, 0) == vector
  {
  }

  lemma PackedParts()
    ensures Pack([FOUR_BYTES, FOUR_BYTES, POINTER_BYTES]) == 23
    ensures Pack([FOUR_BYTES, EIGHT_BYTES, POINTER_BYTES]) == 27
    ensures Pack([EIGHT_BYTES, EIGHT_BYTES, POINTER_BYTES]) == 43
  {
    ThreePacked(FOUR_BYTES, FOUR_BYTES, POINTER_BYTES);
    ThreePacked(FOUR_BYTES, EIGHT_BYTES, POINTER_BYTES);
    ThreePacked(EIGHT_BYTES, EIGHT_BYTES, POINTER_BYTES);
  }

  lemma ThreePacked(p: Part, q: Part, r: Part)
    ensures Pack([p, q, r]) == 4 * (4 * p + q) + r
  {
    PackPush([], p);
    PackPush([p], q);
    PackPush([p, q], r);
    EmptyPack();
    assert [] + [p] == [p] && [p] + [q] == [p, q] && [p, q] + [r] == [p, q, r];
    hide Pack;
  }

  lemma TwoPartsEnd(p: Part, q: Part)
    requires p != POINTER_BYTES && q != POINTER_BYTES
    ensures EndOffset(PartFields([p, q])) == RoundUp(PartField(p).Bytes(), PartField(q).Bytes()) + PartField(q).Bytes()
    ensures PointerOffsets(PartFields([p, q])) == []
  {
    hide EndOffset, PointerOffsets, Alignment, PartFields, RoundUp;
    NoPointers();
    EmptyParts();
    PartFieldsSnoc([], p);
    PartFieldsSnoc([p], q);
    EndOffsetSnoc([], PartField(p));
    EndOffsetSnoc([PartField(p)], PartField(q));
    assert [] + [p] == [p] && [p] + [q] == [p, q];
    assert [] + [PartField(p)] == [PartField(p)];
  }

  /** Offsets and size of three parts, the last one a pointer. */
  lemma ThreePartsLayout(p: Part, q: Part)
    requires p != POINTER_BYTES && q != POINTER_BYTES
    ensures var at := RoundUp(RoundUp(PartField(p).Bytes(), PartField(q).Bytes()) + PartField(q).Bytes(), 8);
            && PointerOffsets(PartFields([p, q, POINTER_BYTES])) == [at]
            && PartsSize([p, q, POINTER_BYTES]) == at + 8
  {
    hide EndOffset, PointerOffsets, Alignment, PartFields, RoundUp;
    TwoPartsEnd(p, q);
    PartFieldsSnoc([p, q], POINTER_BYTES);
    EndOffsetSnoc(PartFields([p, q]), PointerField);
    assert [p, q] + [POINTER_BYTES] == [p, q, POINTER_BYTES];
    RoundedAgain(EndOffset(PartFields([p, q])));
  }

  lemma EmptyParts()
    ensures PartFields([]) == [] && EndOffset([]) == 0 && Alignment([]) == 1
    ensures RoundUp(0, 4) == 0 && RoundUp(0, 8) == 0
  {
  }

  lemma RoundedAgain(x: nat)
    ensures RoundUp(RoundUp(x, 8) + 8, 8) == RoundUp(x, 8) + 8
  {
  }

  /** The whole header word: parts 01 01 11, format 01, type 11. */
  lemma HeaderWord(size: Word)
    ensures ValidFormat("ff*") && StructHeader("ff*", size) == Some(375)
  {
    hide Encoded, VectorInHeader, ToWord;
    assert "ff*"[2] == '*';
    LetterVectors();
    TaggedWord();
  }

  lemma TaggedWord()
    ensures ToWord(4 * 23 + FORMAT_VECTOR) == 93 && VectorInHeader(93) == 375
  {
    assert ToWord(4 * 93) == 372;
  }

  /** Two 4-byte members leave a pointer at offset 8; with an 8-byte member among the two it is at 16. */
  lemma LetterOffsets(size: Word)
    ensures ValidFormat("ff*") && ValidFormat("fl*") && ValidFormat("ll*")
    ensures StructHeader("ff*", size).Some? && HeaderPointers(StructHeader("ff*", size).value) == [8]
    ensures StructHeader("fl*", size).Some? && HeaderPointers(StructHeader("fl*", size).value) == [16]
    ensures StructHeader("ll*", size).Some? && HeaderPointers(StructHeader("ll*", size).value) == [16]
    ensures HeaderSize(StructHeader("ff*", size).value) == 16
    ensures HeaderSize(StructHeader("fl*", size).value) == HeaderSize(StructHeader("ll*", size).value) == 24
  {
    hide Encoded, StructHeader, HeaderPointers, HeaderSize, Pack, PartsSize, PointerOffsets, PartFields;
    assert "ff*"[2] == '*' && "fl*"[2] == '*' && "ll*"[2] == '*';
    LetterVectors();
    PackedParts();
    ConvertedSize("ff*", size, [FOUR_BYTES, FOUR_BYTES, POINTER_BYTES]);
    ConvertedSize("fl*", size, [FOUR_BYTES, EIGHT_BYTES, POINTER_BYTES]);
    ConvertedSize("ll*", size, [EIGHT_BYTES, EIGHT_BYTES, POINTER_BYTES]);
    ThreePartsLayout(FOUR_BYTES, FOUR_BYTES);
    ThreePartsLayout(FOUR_BYTES, EIGHT_BYTES);
    ThreePartsLayout(EIGHT_BYTES, EIGHT_BYTES);
    PartBytes();
  }

  lemma PartBytes()
    ensures PartField(FOUR_BYTES).Bytes() == 4 && PartField(EIGHT_BYTES).Bytes() == 8
    ensures RoundUp(4, 4) == 4 && RoundUp(4, 8) == 8 && RoundUp(8, 8) == 8 && RoundUp(16, 8) == 16
  {
  }

  lemma LetterVectors()
    ensures ValidFormat("ff*") && Encoded("ff*", START) == Some(23)
    ensures ValidFormat("fl*") && Encoded("fl*", START) == Some(27)
    ensures ValidFormat("ll*") && Encoded("ll*", START) == Some(43)
  {
    hide Encoded, Unharmed, Step, StepUnharmed, PushParts;
    assert "ff*"[1..] == "f*" && "f*"[1..] == "*" && "*"[1..] == "";
    assert "fl*"[1..] == "l*" && "l*"[1..] == "*" && "ll*"[1..] == "l*";
    LetterSteps();
    EncodedCons("ff*", START, Encoder(1, 0, 0, 58, false));
    EncodedCons("f*", Encoder(1, 0, 0, 58, false), Encoder(5, 0, 0, 56, false));
    EncodedCons("*", Encoder(5, 0, 0, 56, false), Encoder(23, 0, 0, 54, false));
    EncodedEnd("", Encoder(23, 0, 0, 54, false));
    EncodedCons("fl*", START, Encoder(1, 0, 0, 58, false));
    EncodedCons("l*", Encoder(1, 0, 0, 58, false), Encoder(6, 0, 0, 56, false));
    EncodedCons("*", Encoder(6, 0, 0, 56, false), Encoder(27, 0, 0, 54, false));
    EncodedEnd("", Encoder(27, 0, 0, 54, false));
    EncodedCons("ll*", START, Encoder(2, 0, 0, 58, false));
    EncodedCons("l*", Encoder(2, 0, 0, 58, false), Encoder(10, 0, 0, 56, false));
    EncodedCons("*", Encoder(10, 0, 0, 56, false), Encoder(43, 0, 0, 54, false));
    EncodedEnd("", Encoder(43, 0, 0, 54, false));
  }

  lemma LetterSteps()
    ensures Step(START, 'f') == Encoder(1, 0, 0, 58, false)
    ensures Step(Encoder(1, 0, 0, 58, false), 'f') == Encoder(5, 0, 0, 56, false)
    ensures Step(Encoder(5, 0, 0, 56, false), '*') == Encoder(23, 0, 0, 54, false)
    ensures Step(Encoder(1, 0, 0, 58, false), 'l') == Encoder(6, 0, 0, 56, false)
    ensures Step(Encoder(6, 0, 0, 56, false), '*') == Encoder(27, 0, 0, 54, false)
    ensures Step(START, 'l') == Encoder(2, 0, 0, 58, false)
    ensures Step(Encoder(2, 0, 0, 58, false), 'l') == Encoder(10, 0, 0, 56, false)
    ensures Step(Encoder(10, 0, 0, 56, false), '*') == Encoder(43, 0, 0, 54, false)
  {
    hide Step, StepUnharmed, PushParts, Compact;
    VectorWords();
    NothingToCompact(0, 60);
    NothingToCompact(1, 58);
    NothingToCompact(2, 58);
    StepFour(START, 'f');
    StepFour(Encoder(1, 0, 0, 58, false), 'f');
    StepPointer(Encoder(5, 0, 0, 56, false));
    StepEight(Encoder(1, 0, 0, 58, false), 'l', 1, 58);
    StepPointer(Encoder(6, 0, 0, 56, false));
    StepEight(START, 'l', 0, 60);
    StepEight(Encoder(2, 0, 0, 58, false), 'l', 2, 58);
    StepPointer(Encoder(10, 0, 0, 56, false));
  }
}

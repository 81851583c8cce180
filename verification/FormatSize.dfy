/** Size computations over format strings, with the C code's 64-bit wrap-around. */
module FormatSize {
  import opened Words
  import opened Layout

  /** The wrap-around test of the C code: values only grow, so a smaller one has wrapped. */
  predicate CheckIfTooBigSize(updated: Word, before: Word) {
    updated > WORD_MAX || updated < before
  }

  lemma QuotientTest(r: nat, a: nat)
    requires r > 0
    ensures WORD_MAX / r < a <==> r * a > WORD_MAX
  {
    var q := WORD_MAX / r;
    assert WORD_MAX == r * q + WORD_MAX % r;
    if q < a {
      assert r * (q + 1) <= r * a;
    } else {
      assert r * a <= r * q;
    }
  }

  /** A product that fits is a multiple of the alignment, so it leaves room for the padding. */
  lemma PaddingRoom(size: nat, amount: Amount, r: nat)
    requires r > 0 && r * amount <= WORD_MAX
    ensures 0 < r * amount && RoundUp(size, amount) - size + r * amount <= WORD_MAX
  {
    if amount == 4 {
      assert r * 4 <= WORD_MAX - 3;
    } else if amount == 8 {
      assert r * 8 <= WORD_MAX - 7;
    }
  }

  lemma WrappedSum(size: Word, padded: nat, product: nat)
    requires size <= padded && product <= WORD_MAX && 0 < product && padded - size + product <= WORD_MAX
    ensures var result := ToWord(padded + ToWord(product));
            && (padded + product > WORD_MAX <==> CheckIfTooBigSize(result, size) || result == size)
            && (padded + product <= WORD_MAX ==> result == padded + product)
  {
    assert ToWord(product) == product;
    var total := padded + product;
    assert ToWord(total) == if total > WORD_MAX then total - WORD_MODULUS else total;
  }

  /** The wrap-around tests are exact: padding never hides an overflow. */
  lemma WrapTestExact(size: Word, amount: Amount, r: Word)
    requires r > 0
    ensures var result := ToWord(RoundUp(size, amount) + ToWord(r * amount));
            var total := RoundUp(size, amount) + r * amount;
            && (total > WORD_MAX <==> CheckIfTooBigSize(result, size) || result == size || r * amount > WORD_MAX)
            && (total <= WORD_MAX ==> result == total)
  {
    hide RoundUp, ToWord, CheckIfTooBigSize;
    if r * amount <= WORD_MAX {
      PaddingRoom(size, amount, r);
      WrappedSum(size, RoundUp(size, amount), r * amount);
    }
  }

  /** Adds `repeats` members of `amount` bytes, and reports exactly when 64 bits are too few. */
  method UpdateSize(size: Word, amount: Amount, repeats: Word, largest: Amount)
    returns (result: Word, repeats': Word, largest': Amount, isTooBig: bool)
    ensures isTooBig <==> RoundUp(size, amount) + Count(repeats) * amount > WORD_MAX
    ensures !isTooBig ==> result == RoundUp(size, amount) + Count(repeats) * amount
    ensures repeats' == 0
    ensures largest' == MaxAmount(largest, amount)
  {
    var r := repeats;
    if r == 0 {
      r := 1;
    }
    PaddingReachesRoundUp(size, amount);
    QuotientTest(r, amount);
    WrapTestExact(size, amount, r);
    var padding := (amount - size % amount) % amount;
    result := ToWord(size + padding + ToWord(r * amount));
    isTooBig := CheckIfTooBigSize(result, size) || result == size || WORD_MAX / r < amount;
    largest' := if amount > largest then amount else largest;
    repeats' := 0;
  }

  /** Adds a run of equal members to a struct whose end offset and alignment are known. */
  method AddFields(size: Word, field: Field, repeats: Word, largest: Amount, ghost fs: seq<Field>)
    returns (result: Word, repeats': Word, largest': Amount, isTooBig: bool)
    requires size == EndOffset(fs) && largest == Alignment(fs)
    ensures var fs' := fs + Repeat(field, Count(repeats));
            && (isTooBig <==> EndOffset(fs') > WORD_MAX)
            && (!isTooBig ==> result == EndOffset(fs') && largest' == Alignment(fs'))
    ensures repeats' == 0
  {
    EndOffsetRepeat(fs, field, Count(repeats));
    result, repeats', largest', isTooBig := UpdateSize(size, field.Bytes(), repeats, largest);
  }

  /** Rounds the end offset up to the struct's alignment, again with the wrap-around test. */
  method PadToAlignment(size: Word, largest: Amount, ghost fs: seq<Field>) returns (isTooBig: bool, finalSize: Word)
    requires size == EndOffset(fs) && largest == Alignment(fs)
    ensures isTooBig <==> StructSize(fs) > WORD_MAX
    ensures !isTooBig ==> finalSize == StructSize(fs)
  {
    hide EndOffset, Alignment, RoundUp, ToWord, CheckIfTooBigSize;
    PaddingReachesRoundUp(size, largest);
    PaddedWord(size, RoundUp(size, largest));
    finalSize := ToWord(size + (largest - size % largest) % largest);
    isTooBig := CheckIfTooBigSize(finalSize, size);
  }

  lemma PaddedWord(size: Word, padded: nat)
    requires size <= padded < size + 8
    ensures CheckIfTooBigSize(ToWord(padded), size) <==> padded > WORD_MAX
    ensures padded <= WORD_MAX ==> ToWord(padded) == padded
  {
    assert ToWord(padded) == if padded > WORD_MAX then padded - WORD_MODULUS else padded;
  }

  // ---------------------------------------------------------------- numerals in 64 bits

  datatype Option<+T> = None | Some(value: T)

  /** The members read before the cursor, put in front of what the rest of the format gives. */
  function After(fs: seq<Field>, rest: Option<seq<Field>>): Option<seq<Field>> {
    match rest
    case None => None
    case Some(gs) => Some(fs + gs)
  }

  /** The members the C code sees: numerals wrap at 64 bits, unless the wrap-around test notices. */
  function MachineFields(format: string, numeral: Word): Option<seq<Field>>
    requires ValidFormat(format)
  {
    if format == [] then Some(Repeat(CharField, numeral))
    else if IsDigit(format[0]) then
      var updated := ToWord(numeral * 10 + DigitValue(format[0]));
      if CheckIfTooBigSize(updated, numeral) then None else MachineFields(format[1..], updated)
    else After(Repeat(FieldOf(format[0]), Count(numeral)), MachineFields(format[1..], 0))
  }

  /** Numerals below 2^64 are read exactly. */
  lemma {:induction false} MachineFieldsExact(format: string, numeral: Word)
    requires ValidFormat(format)
    requires NumeralsBelow(format, numeral, WORD_MODULUS)
    ensures MachineFields(format, numeral) == Some(Expand(format, numeral))
  {
    if format != [] {
      if IsDigit(format[0]) {
        MachineFieldsExact(format[1..], 10 * numeral + DigitValue(format[0]));
      } else {
        MachineFieldsExact(format[1..], 0);
      }
    }
  }

  /**
   When the test on numerals is wrong: a digit that takes a numeral past 64 bits goes unnoticed
   exactly when nine times the numeral, plus the digit, makes up for the `wraps` lost.
   */
  lemma NumeralWrapUnnoticed(numeral: Word, digit: nat)
    requires digit < 10
    ensures var wraps := (numeral * 10 + digit) / WORD_MODULUS;
            !CheckIfTooBigSize(ToWord(numeral * 10 + digit), numeral) <==> 9 * numeral + digit >= wraps * WORD_MODULUS
  {
    var wraps := (numeral * 10 + digit) / WORD_MODULUS;
    assert ToWord(numeral * 10 + digit) == numeral * 10 + digit - wraps * WORD_MODULUS;
  }

  /** The format stands for members that 64 bits can size, as far as the C code can tell. */
  ghost predicate SizeFits(format: string)
    requires ValidFormat(format)
  {
    MachineFields(format, 0).Some? && StructSize(MachineFields(format, 0).value) <= WORD_MAX
  }

  /** The members `fs` have been read, and the rest of the format stands for the other ones. */
  ghost predicate ReadSoFar(format: string, cursor: nat, repeats: Word, fs: seq<Field>)
    requires ValidFormat(format)
  {
    && cursor <= |format|
    && MachineFields(format, 0) == After(fs, MachineFields(format[cursor..], repeats))
  }

  lemma ReadDigit(format: string, cursor: nat, repeats: Word, fs: seq<Field>)
    requires ValidFormat(format) && ReadSoFar(format, cursor, repeats, fs)
    requires cursor < |format| && IsDigit(format[cursor])
    ensures var updated := ToWord(repeats * 10 + DigitValue(format[cursor]));
            if CheckIfTooBigSize(updated, repeats) then !SizeFits(format)
            else ReadSoFar(format, cursor + 1, updated, fs)
  {
    assert format[cursor..][1..] == format[cursor + 1..];
  }

  lemma ReadLetter(format: string, cursor: nat, repeats: Word, fs: seq<Field>)
    requires ValidFormat(format) && ReadSoFar(format, cursor, repeats, fs)
    requires cursor < |format| && IsFieldLetter(format[cursor])
    ensures var fs' := fs + Repeat(FieldOf(format[cursor]), Count(repeats));
            && ReadSoFar(format, cursor + 1, 0, fs')
            && (EndOffset(fs') > WORD_MAX ==> !SizeFits(format))
  {
    var run := Repeat(FieldOf(format[cursor]), Count(repeats));
    assert format[cursor..][1..] == format[cursor + 1..];
    match MachineFields(format[cursor + 1..], 0)
    case None =>
    case Some(rest) =>
      assert fs + (run + rest) == (fs + run) + rest;
      EndOffsetMonotone(fs + run, rest);
  }

  lemma ReadEnd(format: string, repeats: Word, fs: seq<Field>)
    requires ValidFormat(format) && ReadSoFar(format, |format|, repeats, fs)
    ensures MachineFields(format, 0) == Some(if repeats == 0 then fs else fs + Repeat(CharField, Count(repeats)))
  {
    assert format[|format|..] == [];
    assert MachineFields(format, 0) == Some(fs + Repeat(CharField, repeats));
    if repeats == 0 {
      assert fs + Repeat(CharField, 0) == fs;
    }
  }

  /** The `case '\0'` branch: a trailing numeral counts chars, then the total is padded. */
  method FinishSize(format: string, size: Word, repeats: Word, largest: Amount, ghost fs: seq<Field>)
    returns (isTooBig: bool, finalSize: Word)
    requires ValidFormat(format) && ReadSoFar(format, |format|, repeats, fs)
    requires size == EndOffset(fs) && largest == Alignment(fs)
    ensures isTooBig <==> !SizeFits(format)
    ensures !isTooBig ==> finalSize == StructSize(MachineFields(format, 0).value)
  {
    ReadEnd(format, repeats, fs);
    var size', largest' := size, largest;
    ghost var fs' := fs;
    isTooBig, finalSize := false, 0;
    if repeats > 0 {
      var zero;
      size', zero, largest', isTooBig := AddFields(size, CharField, repeats, largest, fs);
      fs' := fs + Repeat(CharField, Count(repeats));
    }
    if !isTooBig {
      isTooBig, finalSize := PadToAlignment(size', largest', fs');
    }
  }

  /** The size of the members read, or failure exactly when they need more than 64 bits. */
  method SizeFromString(format: string) returns (success: bool, size: Word)
    requires ValidFormat(format)
    ensures success <==> SizeFits(format)
    ensures size == if success then StructSize(MachineFields(format, 0).value) else 0
  {
    var cursor, repeats: Word, largest: Amount, isTooBig := 0, 0, 1, false;
    size := 0;
    ghost var fs: seq<Field> := [];
    StartReading(format);
    while !isTooBig
      invariant !isTooBig ==> ReadSoFar(format, cursor, repeats, fs)
      invariant !isTooBig ==> size == EndOffset(fs) && largest == Alignment(fs)
      invariant isTooBig ==> !SizeFits(format)
      invariant 0 <= cursor <= |format| + 1
      decreases !isTooBig, |format| + 1 - cursor
    {
      if cursor == |format| {
        var finalSize;
        isTooBig, finalSize := FinishSize(format, size, repeats, largest, fs);
        if !isTooBig {
          return true, finalSize;
        }
      } else if IsFieldLetter(format[cursor]) {
        var field := FieldOf(format[cursor]);
        ReadLetter(format, cursor, repeats, fs);
        ghost var fs' := fs + Repeat(field, Count(repeats));
        size, repeats, largest, isTooBig := AddFields(size, field, repeats, largest, fs);
        fs := fs';
      } else {
        ReadDigit(format, cursor, repeats, fs);
        var updated := ToWord(repeats * 10 + DigitValue(format[cursor]));
        isTooBig := CheckIfTooBigSize(updated, repeats);
        repeats := updated;
      }
      cursor := cursor + 1;
    }
    return false, 0;
  }

  lemma StartReading(format: string)
    requires ValidFormat(format)
    ensures ReadSoFar(format, 0, 0, [])
  {
    assert format[0..] == format;
    match MachineFields(format, 0)
    case None =>
    case Some(fs) => assert [] + fs == fs;
  }

  /**
   For numerals below 2^64 the result is the size of the C struct, and failure means exactly
   that this size is not representable.
   */
  lemma SizeFromStringExact(format: string)
    requires ValidFormat(format)
    requires NumeralsBelow(format, 0, WORD_MODULUS)
    ensures SizeFits(format) <==> StructSize(Expand(format, 0)) <= WORD_MAX
    ensures SizeFits(format) ==> MachineFields(format, 0).value == Expand(format, 0)
  {
    MachineFieldsExact(format, 0);
  }

  /** A numeral stands for that many members at least. */
  lemma {:induction false} ExpandLong(format: string, numeral: nat)
    requires ValidFormat(format)
    ensures |Expand(format, numeral)| >= numeral
  {
    if format != [] {
      if IsDigit(format[0]) {
        ExpandLong(format[1..], 10 * numeral + DigitValue(format[0]));
      }
    }
  }

  /** A numeral past 64 bits stands for members that 64 bits cannot size. */
  lemma {:induction false} HugeNumeral(format: string, numeral: nat)
    requires ValidFormat(format)
    requires !NumeralsBelow(format, numeral, WORD_MODULUS)
    ensures StructSize(Expand(format, numeral)) >= |Expand(format, numeral)| >= WORD_MODULUS
  {
    hide StructSize;
    ManyMembers(Expand(format, numeral));
    if numeral >= WORD_MODULUS {
      ExpandLong(format, numeral);
    } else if IsDigit(format[0]) {
      HugeNumeral(format[1..], 10 * numeral + DigitValue(format[0]));
    } else {
      HugeNumeral(format[1..], 0);
    }
  }

  /** Some digit takes its numeral past 64 bits, and nine times the numeral does not make up for the wraps. */
  predicate WrapNoticed(format: string, numeral: Word)
    requires ValidFormat(format)
  {
    if format == [] then false
    else if IsDigit(format[0]) then
      var digit := DigitValue(format[0]);
      var total := numeral * 10 + digit;
      9 * numeral + digit < total / WORD_MODULUS * WORD_MODULUS || WrapNoticed(format[1..], ToWord(total))
    else WrapNoticed(format[1..], 0)
  }

  lemma {:induction false} WrapNoticedExact(format: string, numeral: Word)
    requires ValidFormat(format)
    ensures MachineFields(format, numeral).None? <==> WrapNoticed(format, numeral)
  {
    hide ToWord, CheckIfTooBigSize;
    if format != [] {
      if IsDigit(format[0]) {
        NumeralWrapUnnoticed(numeral, DigitValue(format[0]));
        WrapNoticedExact(format[1..], ToWord(numeral * 10 + DigitValue(format[0])));
      } else {
        WrapNoticedExact(format[1..], 0);
      }
    }
  }

  /** Success exactly when 64 bits hold the size of the C struct, and then with that size. */
  ghost predicate SizeRight(format: string)
    requires ValidFormat(format)
  {
    && (SizeFits(format) <==> StructSize(Expand(format, 0)) <= WORD_MAX)
    && (SizeFits(format) ==> StructSize(MachineFields(format, 0).value) == StructSize(Expand(format, 0)))
  }

  /**
   The answer is right exactly when no numeral exceeds 64 bits, or a wrap of one is noticed, or the
   members that the wrapped numerals stand for are too big in turn.
   */
  lemma SizeRightExact(format: string)
    requires ValidFormat(format)
    ensures SizeRight(format) <==>
              || NumeralsBelow(format, 0, WORD_MODULUS)
              || WrapNoticed(format, 0)
              || (MachineFields(format, 0).Some? && StructSize(MachineFields(format, 0).value) > WORD_MAX)
  {
    hide StructSize, Expand, MachineFields, WrapNoticed, NumeralsBelow;
    WrapNoticedExact(format, 0);
    if NumeralsBelow(format, 0, WORD_MODULUS) {
      SizeFromStringExact(format);
    } else {
      HugeNumeral(format, 0);
    }
  }

  /** The numeral a string of digits stands for. */
  function NumeralValue(digits: string): nat
    requires forall i :: 0 <= i < |digits| ==> IsDigit(digits[i])
  {
    if digits == [] then 0 else 10 * NumeralValue(digits[..|digits| - 1]) + DigitValue(digits[|digits| - 1])
  }

  lemma {:induction false} ReadNumeral(digits: string, rest: string)
    requires forall i :: 0 <= i < |digits| ==> IsDigit(digits[i])
    requires NumeralValue(digits) < WORD_MODULUS
    requires ValidFormat(digits + rest) && ValidFormat(rest)
    ensures MachineFields(digits + rest, 0) == MachineFields(rest, NumeralValue(digits))
    ensures Expand(digits + rest, 0) == Expand(rest, NumeralValue(digits))
  {
    if digits == [] {
      assert digits + rest == rest;
    } else {
      hide MachineFields, Expand;
      var init, last := digits[..|digits| - 1], digits[|digits| - 1];
      assert digits + rest == init + ([last] + rest);
      DigitInFront(last, rest, NumeralValue(init));
      ReadNumeral(init, [last] + rest);
    }
  }

  lemma DigitInFront(digit: char, rest: string, numeral: Word)
    requires IsDigit(digit) && ValidFormat(rest) && 10 * numeral + DigitValue(digit) < WORD_MODULUS
    ensures ValidFormat([digit] + rest)
    ensures MachineFields([digit] + rest, numeral) == MachineFields(rest, 10 * numeral + DigitValue(digit))
    ensures Expand([digit] + rest, numeral) == Expand(rest, 10 * numeral + DigitValue(digit))
  {
    assert ([digit] + rest)[1..] == rest;
  }

  function Pow10(n: nat): nat {
    if n == 0 then 1 else 10 * Pow10(n - 1)
  }

  lemma Pow10Eighteen()
    ensures Pow10(18) == 1_000_000_000_000_000_000
  {
    assert Pow10(4) == 10_000;
    assert Pow10(8) == 100_000_000;
    assert Pow10(12) == 1_000_000_000_000;
    assert Pow10(16) == 10_000_000_000_000_000;
  }

  /** The numeral 3 * 10^n. */
  function ThreeAndZeros(n: nat): string {
    "3" + seq(n, _ => '0')
  }

  lemma {:induction false} ThreeAndZerosValue(n: nat)
    ensures forall i :: 0 <= i < n + 1 ==> IsDigit(ThreeAndZeros(n)[i])
    ensures NumeralValue(ThreeAndZeros(n)) == 3 * Pow10(n)
  {
    if n == 0 {
      assert ThreeAndZeros(0) == ['3'];
      assert ThreeAndZeros(0)[..0] == [];
    } else {
      ThreeAndZerosValue(n - 1);
      assert ThreeAndZeros(n)[..n] == ThreeAndZeros(n - 1);
    }
  }

  lemma ExampleLastDigit(n: Word)
    requires n == 3_000_000_000_000_000_000
    ensures MachineFields("0c", n) == Some(Repeat(CharField, 10 * n - WORD_MODULUS))
    ensures Expand("0c", n) == Repeat(CharField, 10 * n)
  {
    var wrapped := 10 * n - WORD_MODULUS;
    assert "0c"[1..] == "c" && "c"[1..] == "";
    assert MachineFields("0c", n) == MachineFields("c", wrapped);
    assert MachineFields("", 0) == Some([]) && Expand("", 0) == [];
    assert Repeat(CharField, wrapped) + [] == Repeat(CharField, wrapped);
    assert Repeat(CharField, 10 * n) + [] == Repeat(CharField, 10 * n);
  }

  lemma CharArraySize(n: nat)
    ensures StructSize(Repeat(CharField, n)) == n
  {
    assert [] + Repeat(CharField, n) == Repeat(CharField, n);
    EndOffsetRepeat([], CharField, n);
    if n == 0 {
      assert Repeat(CharField, n) == [];
    }
  }

  /**
   Beyond that it is not: 3 * 10^19 chars are sized as 3 * 10^19 - 2^64 bytes, because the
   wrapped numeral is not smaller than the one before it.
   */
  lemma NumeralWrapExample()
    ensures var format := ThreeAndZeros(18) + "0c";
            && ValidFormat(format)
            && SizeFits(format)
            && StructSize(MachineFields(format, 0).value) == 11_553_255_926_290_448_384
            && StructSize(Expand(format, 0)) == 30_000_000_000_000_000_000 > WORD_MAX
  {
    var format := ThreeAndZeros(18) + "0c";
    ThreeAndZerosValue(18);
    Pow10Eighteen();
    ReadNumeral(ThreeAndZeros(18), "0c");
    ExampleLastDigit(3_000_000_000_000_000_000);
    CharArraySize(11_553_255_926_290_448_384);
    CharArraySize(30_000_000_000_000_000_000);
  }
}

/** Finding the pointers of an object from its format string, which looks before it aligns. */
module FormatPointers {
  import opened Words
  import opened Layout
  import opened PtrQueues
  import opened VectorReader

  /** Rounds up by adding what is missing. */
  function RoundUpToMultiple(input: nat, multiple: Amount): (r: nat)
    ensures r == RoundUp(input, multiple)
  {
    PaddingReachesRoundUp(input, multiple);
    if input % multiple > 0 then input + (multiple - input % multiple) else input
  }

  /** Where the pointers of a struct are looked for: at the end of the member before. */
  function SoughtOffsets(fs: seq<Field>): seq<nat> {
    if fs == [] then []
    else
      var init := fs[..|fs| - 1];
      SoughtOffsets(init) + (if fs[|fs| - 1].PointerField? then [EndOffset(init)] else [])
  }

  lemma SoughtSnoc(fs: seq<Field>, f: Field)
    ensures SoughtOffsets(fs + [f]) == SoughtOffsets(fs) + (if f.PointerField? then [EndOffset(fs)] else [])
  {
    assert (fs + [f])[..|fs|] == fs;
  }

  /** They are looked for inside the struct, one behind the other. */
  lemma {:induction false} SoughtInside(fs: seq<Field>)
    ensures forall o :: o in SoughtOffsets(fs) ==> o + 8 <= EndOffset(fs)
  {
    if fs != [] {
      SoughtInside(fs[..|fs| - 1]);
    }
  }

  /** Every pointer follows a member that ends at a multiple of 8. */
  ghost predicate PointersAligned(fs: seq<Field>) {
    forall k :: 0 <= k < |fs| && fs[k].PointerField? ==> EndOffset(fs[..k]) % 8 == 0
  }

  lemma AlignedInit(fs: seq<Field>)
    requires fs != []
    ensures PointersAligned(fs) <==>
            && PointersAligned(fs[..|fs| - 1])
            && (fs[|fs| - 1].PointerField? ==> EndOffset(fs[..|fs| - 1]) % 8 == 0)
  {
    var init := fs[..|fs| - 1];
    assert forall k :: 0 <= k < |init| ==> init[..k] == fs[..k];
  }

  lemma SoughtCount(fs: seq<Field>)
    ensures |SoughtOffsets(fs)| == |PointerOffsets(fs)|
  {
  }

  lemma AlignedMeans(x: nat)
    ensures RoundUp(x, 8) == x <==> x % 8 == 0
  {
  }

  lemma AppendedSame(a: seq<nat>, b: seq<nat>, x: nat, y: nat)
    requires |a| == |b|
    ensures a + [x] == b + [y] <==> a == b && x == y
  {
    if a + [x] == b + [y] {
      assert (a + [x])[..|a|] == (b + [y])[..|b|];
      assert (a + [x])[|a|] == (b + [y])[|b|];
    }
  }

  lemma NextAligned(init: seq<Field>, f: Field)
    ensures PointersAligned(init + [f]) <==>
            PointersAligned(init) && (f.PointerField? ==> EndOffset(init) % 8 == 0)
  {
    assert (init + [f])[..|init|] == init;
    AlignedInit(init + [f]);
  }

  lemma NextSought(init: seq<Field>, f: Field)
    requires SoughtOffsets(init) == PointerOffsets(init) <==> PointersAligned(init)
    ensures SoughtOffsets(init + [f]) == PointerOffsets(init + [f]) <==> PointersAligned(init + [f])
  {
    hide EndOffset, PointerOffsets, SoughtOffsets, PointersAligned, RoundUp, Alignment;
    NextAligned(init, f);
    SoughtCount(init);
    SoughtSnoc(init, f);
    EndOffsetSnoc(init, f);
    if f.PointerField? {
      AlignedMeans(EndOffset(init));
      AppendedSame(SoughtOffsets(init), PointerOffsets(init), EndOffset(init), EndOffset(init + [f]) - 8);
    } else {
      assert SoughtOffsets(init) + [] == SoughtOffsets(init) && PointerOffsets(init) + [] == PointerOffsets(init);
    }
  }

  /**
   The pointers are found where the struct has them exactly when every one of them follows a member
   that ends at a multiple of 8.
   */
  lemma {:induction false} SoughtWhereTheyAre(fs: seq<Field>)
    ensures SoughtOffsets(fs) == PointerOffsets(fs) <==> PointersAligned(fs)
  {
    if fs != [] {
      var init := fs[..|fs| - 1];
      assert fs == init + [fs[|fs| - 1]];
      SoughtWhereTheyAre(init);
      NextSought(init, fs[|fs| - 1]);
    }
  }

  /** A char in front of pointers is enough: the first one, at offset 8, is looked for at offset 1. */
  lemma {:induction false} CharBeforePointers(n: nat)
    requires n > 0
    ensures var fs := [CharField] + Repeat(PointerField, n);
            && |SoughtOffsets(fs)| == |PointerOffsets(fs)| == n
            && forall i :: 0 <= i < n ==>
                 PointerOffsets(fs)[i] == 8 * (i + 1) && SoughtOffsets(fs)[i] == if i == 0 then 1 else 8 * (i + 1)
    ensures EndOffset([CharField] + Repeat(PointerField, n)) == 8 * (n + 1)
  {
    hide EndOffset, PointerOffsets, SoughtOffsets, Alignment, Repeat;
    CharEnds(n);
    var init := [CharField] + Repeat(PointerField, n - 1);
    if n > 1 {
      CharBeforePointers(n - 1);
    }
    EndOffsetSnoc(init, PointerField);
    SoughtSnoc(init, PointerField);
  }

  lemma CharEnds(n: nat)
    requires n > 0
    ensures [CharField] + Repeat(PointerField, n) == ([CharField] + Repeat(PointerField, n - 1)) + [PointerField]
    ensures n == 1 ==> [CharField] + Repeat(PointerField, n - 1) == [CharField]
    ensures EndOffset([CharField]) == 1 && PointerOffsets([CharField]) == [] && SoughtOffsets([CharField]) == []
  {
    EndOffsetSnoc([], CharField);
    SoughtSnoc([], CharField);
    assert [] + [CharField] == [CharField];
  }

  // ---------------------------------------------------------------- the method

  /** The members `fs` have been read, and the rest of the format stands for the other ones. */
  ghost predicate ReadUpTo(format: string, cursor: nat, repeats: nat, fs: seq<Field>)
    requires ValidFormat(format)
  {
    && cursor <= |format|
    && Expand(format, 0) == fs + Expand(format[cursor..], repeats)
    && NumeralsBelow(format[cursor..], repeats, WORD_MODULUS)
  }

  lemma StartReading(format: string)
    requires ValidFormat(format) && NumeralsBelow(format, 0, WORD_MODULUS)
    ensures ReadUpTo(format, 0, 0, []) && SoughtOffsets([]) == []
  {
    assert format[0..] == format && [] + Expand(format, 0) == Expand(format, 0);
  }

  lemma NextDigit(format: string, cursor: nat, repeats: nat, fs: seq<Field>)
    requires ValidFormat(format) && ReadUpTo(format, cursor, repeats, fs)
    requires cursor < |format| && IsDigit(format[cursor])
    ensures repeats * 10 + DigitValue(format[cursor]) < WORD_MODULUS
    ensures ReadUpTo(format, cursor + 1, repeats * 10 + DigitValue(format[cursor]), fs)
  {
    assert format[cursor..][1..] == format[cursor + 1..];
    assert NumeralsBelow(format[cursor + 1..], 10 * repeats + DigitValue(format[cursor]), WORD_MODULUS);
  }

  lemma NextLetter(format: string, cursor: nat, repeats: nat, fs: seq<Field>)
    requires ValidFormat(format) && ReadUpTo(format, cursor, repeats, fs)
    requires cursor < |format| && IsFieldLetter(format[cursor])
    ensures var run := Repeat(FieldOf(format[cursor]), Count(repeats));
            && ReadUpTo(format, cursor + 1, 0, fs + run)
            && EndOffset(fs + run) <= EndOffset(Expand(format, 0))
  {
    var run, rest := Repeat(FieldOf(format[cursor]), Count(repeats)), Expand(format[cursor + 1..], 0);
    assert format[cursor..][1..] == format[cursor + 1..];
    assert fs + (run + rest) == (fs + run) + rest;
    EndOffsetMonotone(fs + run, rest);
  }

  /** A numeral at the end stands for chars, which add no pointers. */
  lemma {:induction false} CharsSought(fs: seq<Field>, n: nat)
    ensures SoughtOffsets(fs + Repeat(CharField, n)) == SoughtOffsets(fs)
  {
    if n == 0 {
      assert fs + Repeat(CharField, 0) == fs;
    } else {
      CharsSought(fs, n - 1);
      assert fs + Repeat(CharField, n) == (fs + Repeat(CharField, n - 1)) + [CharField];
      SoughtSnoc(fs + Repeat(CharField, n - 1), CharField);
    }
  }

  lemma AllRead(format: string, repeats: nat, fs: seq<Field>)
    requires ValidFormat(format) && ReadUpTo(format, |format|, repeats, fs)
    ensures SoughtOffsets(Expand(format, 0)) == SoughtOffsets(fs)
  {
    assert format[|format|..] == [];
    CharsSought(fs, repeats);
  }

  lemma EnqueueSought(fs: seq<Field>, start: nat)
    ensures Insert(Shifted(SoughtOffsets(fs), start), start + EndOffset(fs)) ==
            Shifted(SoughtOffsets(fs + [PointerField]), start)
  {
    SoughtInside(fs);
    SoughtSnoc(fs, PointerField);
    BehindAll(SoughtOffsets(fs), EndOffset(fs), EndOffset(fs), start);
  }

  /** One member: a pointer is queued at the offset reached, and only then is its own place found. */
  method AddMember(pointers: PtrQueue, start: nat, offset: Word, field: Field, ghost fs: seq<Field>)
    returns (offset': Word)
    requires pointers.Valid() && pointers.elems == Shifted(SoughtOffsets(fs), start) && start > 0
    requires offset == EndOffset(fs) && EndOffset(fs + [field]) <= WORD_MAX
    modifies pointers
    ensures pointers.Valid() && pointers.elems == Shifted(SoughtOffsets(fs + [field]), start)
    ensures offset' == EndOffset(fs + [field])
  {
    hide EndOffset, PointerOffsets, SoughtOffsets, Alignment, RoundUp, Shifted, Insert;
    SoughtSnoc(fs, field);
    EndOffsetSnoc(fs, field);
    assert SoughtOffsets(fs) + [] == SoughtOffsets(fs);
    if field.PointerField? {
      EnqueueSought(fs, start);
      var isNew := pointers.Enqueue(start + offset);
    }
    offset' := RoundUpToMultiple(offset, field.Bytes()) + field.Bytes();
  }

  lemma RunStart(fs: seq<Field>, field: Field)
    ensures fs + Repeat(field, 0) == fs
  {
  }

  lemma RunNext(fs: seq<Field>, field: Field, i: nat, n: nat)
    requires i < n
    ensures (fs + Repeat(field, i)) + [field] == fs + Repeat(field, i + 1)
    ensures EndOffset(fs + Repeat(field, i + 1)) <= EndOffset(fs + Repeat(field, n))
  {
    assert fs + Repeat(field, n) == (fs + Repeat(field, i + 1)) + Repeat(field, n - i - 1);
    EndOffsetMonotone(fs + Repeat(field, i + 1), Repeat(field, n - i - 1));
  }

  /** The members of one letter. */
  method AddMembers(pointers: PtrQueue, start: nat, offset: Word, field: Field, repeats: nat, ghost fs: seq<Field>)
    returns (offset': Word)
    requires pointers.Valid() && pointers.elems == Shifted(SoughtOffsets(fs), start) && start > 0
    requires offset == EndOffset(fs) && EndOffset(fs + Repeat(field, repeats)) <= WORD_MAX
    modifies pointers
    ensures pointers.Valid() && pointers.elems == Shifted(SoughtOffsets(fs + Repeat(field, repeats)), start)
    ensures offset' == EndOffset(fs + Repeat(field, repeats))
  {
    hide EndOffset, SoughtOffsets, Repeat, Shifted;
    offset' := offset;
    RunStart(fs, field);
    for i := 0 to repeats
      invariant pointers.Valid() && pointers.elems == Shifted(SoughtOffsets(fs + Repeat(field, i)), start)
      invariant offset' == EndOffset(fs + Repeat(field, i))
    {
      RunNext(fs, field, i, repeats);
      offset' := AddMember(pointers, start, offset', field, fs + Repeat(field, i));
    }
  }

  /** The addresses at which the pointers of the object at `start` are looked for. */
  method GetPointersFromFormatString(format: string, start: nat) returns (pointers: PtrQueue)
    requires ValidFormat(format) && NumeralsBelow(format, 0, WORD_MODULUS) && start > 0
    requires EndOffset(Expand(format, 0)) <= WORD_MAX
    ensures fresh(pointers) && pointers.Valid()
    ensures pointers.elems == Shifted(SoughtOffsets(Expand(format, 0)), start)
  {
    hide EndOffset, SoughtOffsets, Expand, NumeralsBelow, Repeat, ReadUpTo;
    pointers := new PtrQueue();
    var internalOffset: Word, repeats: Word, cursor := 0, 0, 0;
    ghost var fs: seq<Field> := [];
    StartReading(format);
    NothingRead();
    while cursor < |format|
      invariant 0 <= cursor <= |format| && fresh(pointers) && pointers.Valid()
      invariant ReadUpTo(format, cursor, repeats, fs)
      invariant internalOffset == EndOffset(fs) && pointers.elems == Shifted(SoughtOffsets(fs), start)
    {
      if IsFieldLetter(format[cursor]) {
        var field := FieldOf(format[cursor]);
        NextLetter(format, cursor, repeats, fs);
        internalOffset := AddMembers(pointers, start, internalOffset, field, Count(repeats), fs);
        fs := fs + Repeat(field, Count(repeats));
        repeats := 0;
      } else {
        NextDigit(format, cursor, repeats, fs);
        repeats := repeats * 10 + DigitValue(format[cursor]);
      }
      cursor := cursor + 1;
    }
    AllRead(format, repeats, fs);
  }

  lemma NothingRead()
    ensures EndOffset([]) == 0
  {
  }
}

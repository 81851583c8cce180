/**
 The C layout of a struct described by a format string: the reference the size
 computation and the header codec are proved against.
 */
module Layout {
  type Amount = a: nat | a == 1 || a == 4 || a == 8 witness 1

  /** One member of the struct. */
  datatype Field = CharField | FourField | EightField | PointerField
  {
    /** Size of the member, which is also its alignment. */
    function Bytes(): Amount {
      match this
      case CharField => 1
      case FourField => 4
      case EightField => 8
      case PointerField => 8
    }
  }

  /** The least multiple of `a` that is at least `x`. */
  function RoundUp(x: nat, a: Amount): (r: nat)
    ensures x <= r < x + a
  {
    if a == 1 then x else if a == 4 then (x + 3) / 4 * 4 else (x + 7) / 8 * 8
  }

  lemma PaddingOne(x: nat)
    ensures (1 - x % 1) % 1 == 0
  {
  }

  lemma PaddingFour(x: nat)
    ensures x + (4 - x % 4) % 4 == (x + 3) / 4 * 4
  {
  }

  lemma PaddingEight(x: nat)
    ensures x + (8 - x % 8) % 8 == (x + 7) / 8 * 8
  {
  }

  /** The padding formula used throughout the C code reaches exactly that multiple. */
  lemma PaddingReachesRoundUp(x: nat, a: Amount)
    ensures x + (a - x % a) % a == RoundUp(x, a)
  {
    if a == 1 {
      PaddingOne(x);
    } else if a == 4 {
      PaddingFour(x);
    } else {
      PaddingEight(x);
    }
  }

  /** Rounding up a multiple changes nothing. */
  lemma RoundUpRun(x: nat, n: nat, a: Amount)
    ensures RoundUp(RoundUp(x, a) + n * a, a) == RoundUp(x, a) + n * a
  {
    if a == 4 {
      assert RoundUp(x, 4) + n * 4 == 4 * ((x + 3) / 4 + n);
    } else if a == 8 {
      assert RoundUp(x, 8) + n * 8 == 8 * ((x + 7) / 8 + n);
    }
  }

  lemma RoundUpIsLeast(x: nat, a: Amount, m: nat)
    requires x <= m && m % a == 0
    ensures RoundUp(x, a) <= m
  {
  }

  /** Offset just past the last member. */
  function EndOffset(fs: seq<Field>): nat {
    if fs == [] then 0
    else
      var last := fs[|fs| - 1];
      RoundUp(EndOffset(fs[..|fs| - 1]), last.Bytes()) + last.Bytes()
  }

  /** Offsets of the pointer members, in order. */
  function PointerOffsets(fs: seq<Field>): seq<nat> {
    if fs == [] then []
    else
      PointerOffsets(fs[..|fs| - 1]) + (if fs[|fs| - 1].PointerField? then [EndOffset(fs) - 8] else [])
  }

  function MaxAmount(a: Amount, b: Amount): Amount {
    if a < b then b else a
  }

  /** Alignment of the struct. */
  function Alignment(fs: seq<Field>): Amount {
    if fs == [] then 1 else MaxAmount(Alignment(fs[..|fs| - 1]), fs[|fs| - 1].Bytes())
  }

  /** `sizeof` the struct. */
  function StructSize(fs: seq<Field>): nat {
    RoundUp(EndOffset(fs), Alignment(fs))
  }

  lemma {:induction false} EndOffsetBound(fs: seq<Field>)
    ensures |fs| <= EndOffset(fs) <= 16 * |fs|
  {
    if fs != [] {
      EndOffsetBound(fs[..|fs| - 1]);
    }
  }

  lemma ManyMembers(fs: seq<Field>)
    ensures |fs| <= StructSize(fs)
  {
    EndOffsetBound(fs);
  }

  function Repeat(f: Field, n: nat): (fs: seq<Field>)
    ensures |fs| == n
  {
    seq(n, _ => f)
  }

  lemma EndOffsetSnoc(fs: seq<Field>, f: Field)
    ensures EndOffset(fs + [f]) == RoundUp(EndOffset(fs), f.Bytes()) + f.Bytes()
    ensures Alignment(fs + [f]) == MaxAmount(Alignment(fs), f.Bytes())
    ensures PointerOffsets(fs + [f]) == PointerOffsets(fs) + (if f.PointerField? then [EndOffset(fs + [f]) - 8] else [])
  {
    assert (fs + [f])[..|fs|] == fs;
  }

  lemma DistributeOne(n: nat, a: nat)
    requires n > 0
    ensures (n - 1) * a + a == n * a
  {
  }

  /** A run of equal members needs padding only before the first one. */
  lemma {:induction false} EndOffsetRepeat(fs: seq<Field>, f: Field, n: nat)
    ensures n == 0 ==> fs + Repeat(f, n) == fs
    ensures n > 0 ==> EndOffset(fs + Repeat(f, n)) == RoundUp(EndOffset(fs), f.Bytes()) + n * f.Bytes()
    ensures n > 0 ==> Alignment(fs + Repeat(f, n)) == MaxAmount(Alignment(fs), f.Bytes())
  {
    hide EndOffset, RoundUp, Alignment, PointerOffsets;
    if n > 0 {
      var before := fs + Repeat(f, n - 1);
      EndOffsetRepeat(fs, f, n - 1);
      assert fs + Repeat(f, n) == before + [f];
      EndOffsetSnoc(before, f);
      DistributeOne(n, f.Bytes());
      if n > 1 {
        RoundUpRun(EndOffset(fs), n - 1, f.Bytes());
      } else {
        assert before == fs;
      }
    }
  }

  lemma {:induction false} EndOffsetMonotone(fs: seq<Field>, gs: seq<Field>)
    ensures EndOffset(fs) <= EndOffset(fs + gs)
  {
    if gs == [] {
      assert fs + gs == fs;
    } else {
      var init := gs[..|gs| - 1];
      EndOffsetMonotone(fs, init);
      assert fs + gs == (fs + init) + [gs[|gs| - 1]];
      EndOffsetSnoc(fs + init, gs[|gs| - 1]);
    }
  }

  // ---------------------------------------------------------------- format strings

  predicate IsDigit(c: char) {
    '0' <= c <= '9'
  }

  function DigitValue(c: char): nat
    requires IsDigit(c)
  {
    c as nat - '0' as nat
  }

  predicate IsFieldLetter(c: char) {
    c == 'i' || c == 'l' || c == 'f' || c == 'c' || c == 'd' || c == '*'
  }

  function FieldOf(c: char): Field
    requires IsFieldLetter(c)
  {
    if c == 'i' || c == 'f' then FourField
    else if c == 'l' || c == 'd' then EightField
    else if c == 'c' then CharField
    else PointerField
  }

  /** The strings the C code accepts; on any other character it stops with a failed assertion. */
  predicate ValidFormat(format: string) {
    forall i :: 0 <= i < |format| ==> IsDigit(format[i]) || IsFieldLetter(format[i])
  }

  /** A letter without a numeral, or with numeral 0, stands for one member. */
  function Count(numeral: nat): (n: nat)
    ensures n > 0
  {
    if numeral == 0 then 1 else numeral
  }

  /**
   The members a format string stands for, with `numeral` already read in front of it.
   A trailing numeral counts chars.
   */
  function Expand(format: string, numeral: nat): seq<Field>
    requires ValidFormat(format)
  {
    if format == [] then Repeat(CharField, numeral)
    else if IsDigit(format[0]) then Expand(format[1..], 10 * numeral + DigitValue(format[0]))
    else Repeat(FieldOf(format[0]), Count(numeral)) + Expand(format[1..], 0)
  }

  /** Every numeral, the one already read included, stays below `bound`. */
  predicate NumeralsBelow(format: string, numeral: nat, bound: nat)
    requires ValidFormat(format)
  {
    && numeral < bound
    && (format != [] ==>
          if IsDigit(format[0]) then NumeralsBelow(format[1..], 10 * numeral + DigitValue(format[0]), bound)
          else NumeralsBelow(format[1..], 0, bound))
  }

  predicate HasPointers(format: string) {
    exists i :: 0 <= i < |format| && format[i] == '*'
  }
}

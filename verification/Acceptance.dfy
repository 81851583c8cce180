/**
 Which formats get a vector at all. Because compaction subtracts the bits it frees, a format can be
 refused although its parts would fit.
 */
module Acceptance {
  import opened Words
  import opened Layout
  import opened PartCodec
  import opened PartLayout
  import opened FormatEncoding
  import opened EncodingSimulation
  import opened EncodingLayout

  // ---------------------------------------------------------------- what a format asks for

  /** The counters of the conversion, and how many 4-byte parts the vector ends in. */
  datatype Meter = Meter(repeats: Byte, extra: Byte, fours: nat)
  {
    /** 4-byte parts in front of the next 8-byte member, and how many of them make pairs. */
    function Trailing(): nat {
      fours + PartsForBytes(extra)
    }

    function Paired(): nat {
      Trailing() - Trailing() % 2
    }
  }

  function Metered(k: Meter, c: char): Meter
    requires IsDigit(c) || IsFieldLetter(c)
  {
    if IsDigit(c) then k.(repeats := ToByte(k.repeats * 10 + DigitValue(c)))
    else
      match FieldOf(c)
      case CharField => Meter(0, ToByte(k.extra + Count(k.repeats)), k.fours)
      case FourField => Meter(0, k.extra, k.fours + Count(k.repeats))
      case EightField => Meter(0, 0, 0)
      case PointerField => Meter(0, 0, 0)
  }

  /** The test on numerals does not fire. */
  predicate StepQuiet(k: Meter, c: char)
    requires IsDigit(c) || IsFieldLetter(c)
  {
    IsDigit(c) ==> ToByte(k.repeats * 10 + DigitValue(c)) >= k.repeats
  }

  /** Parts that a character adds, less those that compaction saves. */
  function StepParts(k: Meter, c: char): int
    requires IsDigit(c) || IsFieldLetter(c)
  {
    if IsDigit(c) then 0
    else
      match FieldOf(c)
      case CharField => 0
      case FourField => Count(k.repeats)
      case EightField => PartsForBytes(k.extra) + Count(k.repeats) - k.Paired() / 2
      case PointerField => PartsForBytes(k.extra) + Count(k.repeats)
  }

  /** 4-byte parts that a character has compacted. */
  function StepPaired(k: Meter, c: char): nat
    requires IsDigit(c) || IsFieldLetter(c)
  {
    if IsFieldLetter(c) && FieldOf(c).EightField? then k.Paired() else 0
  }

  /** Bits that a character takes from those left. */
  function StepBits(k: Meter, c: char): nat
    requires IsDigit(c) || IsFieldLetter(c)
  {
    if IsDigit(c) then 0
    else
      match FieldOf(c)
      case CharField => 0
      case FourField => 2 * Count(k.repeats)
      case EightField => 2 * PartsForBytes(k.extra) + 3 * k.Paired() + 2 * Count(k.repeats)
      case PointerField => 2 * PartsForBytes(k.extra) + 2 * Count(k.repeats)
  }

  predicate Quiet(format: string, k: Meter)
    requires ValidFormat(format)
  {
    format != [] ==> StepQuiet(k, format[0]) && Quiet(format[1..], Metered(k, format[0]))
  }

  /** The parts of the finished vector. */
  function PartsAsked(format: string, k: Meter): int
    requires ValidFormat(format)
  {
    if format == [] then PartsForBytes(ToByte(k.extra + k.repeats))
    else StepParts(k, format[0]) + PartsAsked(format[1..], Metered(k, format[0]))
  }

  function FoursPaired(format: string, k: Meter): nat
    requires ValidFormat(format)
  {
    if format == [] then 0 else StepPaired(k, format[0]) + FoursPaired(format[1..], Metered(k, format[0]))
  }

  function BitsAsked(format: string, k: Meter): nat
    requires ValidFormat(format)
  {
    if format == [] then 2 * PartsForBytes(ToByte(k.extra + k.repeats))
    else StepBits(k, format[0]) + BitsAsked(format[1..], Metered(k, format[0]))
  }

  /** Two bits for every part, and four for every 4-byte part that compaction has replaced. */
  lemma {:induction false} BitsAskedSplit(format: string, k: Meter)
    requires ValidFormat(format)
    ensures BitsAsked(format, k) == 2 * PartsAsked(format, k) + 4 * FoursPaired(format, k)
  {
    hide Metered, StepBits, StepParts, StepPaired;
    if format != [] {
      StepBitsSplit(k, format[0]);
      BitsAskedSplit(format[1..], Metered(k, format[0]));
    }
  }

  lemma StepBitsSplit(k: Meter, c: char)
    requires IsDigit(c) || IsFieldLetter(c)
    ensures StepBits(k, c) == 2 * StepParts(k, c) + 4 * StepPaired(k, c)
  {
    PairedIsEven(k);
  }

  lemma PairedIsEven(k: Meter)
    ensures k.Paired() % 2 == 0
  {
  }

  // ---------------------------------------------------------------- one step

  /** The meter reads the counters and the trailing parts of the encoder. */
  ghost predicate Reads(k: Meter, m: Encoder, parts: seq<Part>) {
    && !m.isTooBig
    && Room(m.vector, m.bitsLeft, parts)
    && k == Meter(m.repeats, m.countExtra, TrailingFours(parts))
  }

  lemma {:induction false} TrailingRun(parts: seq<Part>, n: nat)
    ensures TrailingFours(parts + Parts(FOUR_BYTES, n)) == TrailingFours(parts) + n
  {
    var ps := parts + Parts(FOUR_BYTES, n);
    if n == 0 {
      assert ps == parts;
    } else {
      assert ps[..|ps| - 1] == parts + Parts(FOUR_BYTES, n - 1);
      TrailingRun(parts, n - 1);
    }
  }

  lemma TrailingOther(parts: seq<Part>, p: Part, n: nat)
    requires n > 0 && p != FOUR_BYTES
    ensures TrailingFours(parts + Parts(p, n)) == 0
  {
    var ps := parts + Parts(p, n);
    assert ps[|ps| - 1] == p;
  }

  /** A run is accepted exactly when its bits are left, and then takes them. */
  lemma RunTakes(vector: Word, bitsLeft: Byte, parts: seq<Part>, p: Part, n: Byte)
    requires Room(vector, bitsLeft, parts)
    ensures var added := AddRun(vector, p, n, bitsLeft);
            && (added.isTooBig <==> 2 * n > bitsLeft)
            && (2 * n <= bitsLeft ==>
                  Room(added.vector, added.bitsLeft, parts + Parts(p, n)) && added.bitsLeft == bitsLeft - 2 * n)
  {
    hide PushParts, Pack, PartCount, Overflow;
    if 2 * n <= bitsLeft {
      RunRoom(vector, bitsLeft, parts, p, n);
    }
  }

  /** Compaction is backed and lossless exactly when three bits are left for every four, and then takes them. */
  lemma CompactTakes(vector: Word, bitsLeft: Byte, parts: seq<Part>)
    requires Room(vector, bitsLeft, parts)
    ensures EvenFours(vector) == TrailingFours(parts) - TrailingFours(parts) % 2
    ensures var f, compacted := EvenFours(vector), Compact(vector, bitsLeft);
            3 * f <= bitsLeft ==>
              && Room(compacted.vector, compacted.bitsLeft, CompactParts(parts))
              && |CompactParts(parts)| == |parts| - f / 2 && compacted.bitsLeft == bitsLeft - 3 * f
  {
    hide Compact, Pack, CompactParts, TrailingFours, Uncompacted, EvenFours, Unpaired;
    var f := EvenFours(vector);
    CompactHolds(vector, bitsLeft, parts, f);
    CompactExact(parts, bitsLeft, f);
    CompactedRest(parts);
  }

  /** Pending chars become parts. */
  lemma FlushTakes(m: Encoder, parts: seq<Part>)
    requires Room(m.vector, m.bitsLeft, parts)
    ensures var x := PartsForBytes(m.countExtra);
            && (Flushed(m).isTooBig <==> 2 * x > m.bitsLeft)
            && (2 * x <= m.bitsLeft ==>
                  Room(Flushed(m).vector, Flushed(m).bitsLeft, parts + Parts(FOUR_BYTES, x)) &&
                  Flushed(m).bitsLeft == m.bitsLeft - 2 * x)
  {
    hide AddRun, Room;
    RunTakes(m.vector, m.bitsLeft, parts, FOUR_BYTES, PartsForBytes(m.countExtra));
  }

  /** A step that is accepted, with its subtraction backed and without loss. */
  predicate StepSound(m: Encoder, c: char)
    requires IsDigit(c) || IsFieldLetter(c)
  {
    !Step(m, c).isTooBig && StepBacked(m, c) && StepLossless(m, c)
  }

  /** What a sound step does to the parts, and what it takes. */
  ghost predicate StepTakes(k: Meter, c: char, m: Encoder, parts: seq<Part>, m': Encoder, parts': seq<Part>)
    requires IsDigit(c) || IsFieldLetter(c)
  {
    && Reads(Metered(k, c), m', parts')
    && |parts'| == |parts| + StepParts(k, c) && m'.bitsLeft == m.bitsLeft - StepBits(k, c)
  }

  lemma FourTakes(k: Meter, c: char, m: Encoder, parts: seq<Part>) returns (parts': seq<Part>)
    requires IsFieldLetter(c) && FieldOf(c).FourField? && Reads(k, m, parts)
    ensures StepSound(m, c) <==> StepBits(k, c) <= m.bitsLeft
    ensures StepSound(m, c) ==> StepTakes(k, c, m, parts, Step(m, c), parts')
  {
    hide AddRun, Room, TrailingFours;
    var n := Count(m.repeats);
    RunTakes(m.vector, m.bitsLeft, parts, FOUR_BYTES, n);
    TrailingRun(parts, n);
    parts' := parts + Parts(FOUR_BYTES, n);
  }

  lemma PointerTakes(k: Meter, c: char, m: Encoder, parts: seq<Part>) returns (parts': seq<Part>)
    requires IsFieldLetter(c) && FieldOf(c).PointerField? && Reads(k, m, parts)
    ensures StepSound(m, c) <==> StepBits(k, c) <= m.bitsLeft
    ensures StepSound(m, c) ==> StepTakes(k, c, m, parts, Step(m, c), parts')
  {
    hide AddRun, Room, TrailingFours;
    var x, n := PartsForBytes(m.countExtra), Count(m.repeats);
    var flushed := parts + Parts(FOUR_BYTES, x);
    parts' := flushed + Parts(POINTER_BYTES, n);
    FlushTakes(m, parts);
    TrailingOther(flushed, POINTER_BYTES, n);
    if 2 * x <= m.bitsLeft {
      RunTakes(Flushed(m).vector, Flushed(m).bitsLeft, flushed, POINTER_BYTES, n);
    }
  }

  lemma EightTakes(k: Meter, c: char, m: Encoder, parts: seq<Part>) returns (parts': seq<Part>)
    requires IsFieldLetter(c) && FieldOf(c).EightField? && Reads(k, m, parts)
    ensures StepSound(m, c) <==> StepBits(k, c) <= m.bitsLeft
    ensures StepSound(m, c) ==> StepTakes(k, c, m, parts, Step(m, c), parts')
  {
    hide AddRun, Room, TrailingFours, Compact, CompactParts, EvenFours;
    var x, n := PartsForBytes(m.countExtra), Count(m.repeats);
    var flushed := parts + Parts(FOUR_BYTES, x);
    var compacted := Compact(Flushed(m).vector, Flushed(m).bitsLeft);
    parts' := CompactParts(flushed) + Parts(EIGHT_BYTES, n);
    FlushTakes(m, parts);
    TrailingRun(parts, x);
    TrailingOther(CompactParts(flushed), EIGHT_BYTES, n);
    if 2 * x <= m.bitsLeft {
      CompactTakes(Flushed(m).vector, Flushed(m).bitsLeft, flushed);
      if 2 * x + 3 * k.Paired() <= m.bitsLeft {
        RunTakes(compacted.vector, compacted.bitsLeft, CompactParts(flushed), EIGHT_BYTES, n);
      }
    }
  }

  /** A step is sound exactly when its bits are left and no numeral is noticed. */
  lemma SoundStep(k: Meter, c: char, m: Encoder, parts: seq<Part>) returns (parts': seq<Part>)
    requires IsDigit(c) || IsFieldLetter(c)
    requires Reads(k, m, parts)
    ensures StepSound(m, c) <==> StepQuiet(k, c) && StepBits(k, c) <= m.bitsLeft
    ensures StepSound(m, c) ==> StepTakes(k, c, m, parts, Step(m, c), parts')
  {
    hide AddRun, Room, TrailingFours, FlushExtra, Compact, EvenFours;
    parts' := parts;
    if IsFieldLetter(c) {
      match FieldOf(c)
      case CharField =>
      case FourField => parts' := FourTakes(k, c, m, parts);
      case EightField => parts' := EightTakes(k, c, m, parts);
      case PointerField => parts' := PointerTakes(k, c, m, parts);
    }
  }

  // ---------------------------------------------------------------- the whole conversion

  /** The conversion succeeds, no subtraction of bits wraps around, and no compaction loses parts. */
  predicate Sound(format: string, m: Encoder)
    requires ValidFormat(format)
  {
    Encoded(format, m).Some? && Backed(format, m) && Lossless(format, m)
  }

  lemma SoundCons(format: string, m: Encoder)
    requires ValidFormat(format) && format != [] && !m.isTooBig
    ensures Sound(format, m) <==> StepSound(m, format[0]) && Sound(format[1..], Step(m, format[0]))
    ensures Encoded(format, m) == Encoded(format[1..], Step(m, format[0]))
  {
    hide Step, StepBacked, StepLossless, Finish;
    assert Step(m, format[0]).isTooBig ==> Encoded(format[1..], Step(m, format[0])).None?;
  }

  lemma PendingParts(chars: nat)
    ensures ToByte(0) == 0 && PartsForBytes(0) == 0 && PartsForBytes(ToByte(chars)) < BYTE_MODULUS
  {
  }

  lemma SoundEnd(k: Meter, m: Encoder, parts: seq<Part>)
    requires Reads(k, m, parts)
    ensures Sound("", m) <==> BitsAsked("", k) <= m.bitsLeft
    ensures Sound("", m) ==> PartCount(Encoded("", m).value) == |parts| + PartsAsked("", k)
  {
    hide AddRun, TrailingFours, Pack, ToByte, PartsForBytes, PartCount;
    PendingParts(m.countExtra + m.repeats);
    var x := PartsForBytes(ToByte(m.countExtra + m.repeats));
    PackCount(parts);
    PackCount(parts + Parts(FOUR_BYTES, x));
    RunTakes(m.vector, m.bitsLeft, parts, FOUR_BYTES, x);
  }

  lemma {:induction false} SoundExactly(format: string, k: Meter, m: Encoder, parts: seq<Part>)
    requires ValidFormat(format) && Reads(k, m, parts)
    ensures Sound(format, m) <==> Quiet(format, k) && BitsAsked(format, k) <= m.bitsLeft
    ensures Sound(format, m) ==> PartCount(Encoded(format, m).value) == |parts| + PartsAsked(format, k)
    decreases |format|
  {
    hide Reads, Step, Metered, StepSound, StepBits, StepParts, StepQuiet, Sound;
    ReadsRuns(k, m, parts);
    if format == [] {
      SoundEnd(k, m, parts);
    } else {
      SoundCons(format, m);
      var parts' := SoundStep(k, format[0], m, parts);
      if StepSound(m, format[0]) {
        SoundExactly(format[1..], Metered(k, format[0]), Step(m, format[0]), parts');
      }
    }
  }

  lemma ReadsRuns(k: Meter, m: Encoder, parts: seq<Part>)
    requires Reads(k, m, parts)
    ensures !m.isTooBig
  {
  }

  const ZERO := Meter(0, 0, 0)

  lemma ReadsStart()
    ensures Reads(ZERO, START, [])
  {
  }

  /**
   Which formats are accepted without damage: those without a numeral that is noticed, whose parts
   take 60 bits at most when four more are counted for every 4-byte part that is compacted.
   */
  lemma AcceptedExactly(format: string)
    requires ValidFormat(format)
    ensures Sound(format, START) <==>
            Quiet(format, ZERO) && 2 * PartsAsked(format, ZERO) + 4 * FoursPaired(format, ZERO) <= BITS_FOR_PARTS
    ensures Sound(format, START) ==> PartCount(Encoded(format, START).value) == PartsAsked(format, ZERO)
  {
    hide Sound, Quiet, Reads, PartsAsked, FoursPaired, BitsAsked;
    ReadsStart();
    SoundExactly(format, ZERO, START, []);
    BitsAskedSplit(format, ZERO);
  }

  /** Formats that ask for 60 bits at most: two conditions remain for a faithful header. */
  lemma SoundHeader(format: string, size: Word)
    requires ValidFormat(format) && HasPointers(format)
    requires Quiet(format, ZERO) && 2 * PartsAsked(format, ZERO) + 4 * FoursPaired(format, ZERO) <= BITS_FOR_PARTS
    ensures StructHeader(format, size).Some?
    ensures HeaderFaithful(StructHeader(format, size).value, Expand(format, 0)) <==>
            Counted(format, START) && AllAgree(Expand(format, 0))
  {
    hide Quiet, PartsAsked, FoursPaired, HeaderFaithful, Counted, Lossless, AllAgree, Expand, Encoded, Backed;
    AcceptedExactly(format);
    assert StructHeader(format, size).Some?;
    BackedHeader(format, size);
  }
}

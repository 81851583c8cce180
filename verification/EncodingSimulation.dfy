/**
 The conversion of a format, followed on lists of parts and members: which parts end up in the
 vector, which fall off its front, and what can go wrong on the way.
 */
module EncodingSimulation {
  import opened Words
  import opened Layout
  import opened FormatSize
  import opened PartCodec
  import opened VectorReader
  import opened PartLayout
  import opened PartWindow
  import opened FormatEncoding

  // ---------------------------------------------------------------- what can go wrong

  /** The vector after the pending chars have been flushed, and the bits left then. */
  function Flushed(m: Encoder): Added {
    FlushExtra(m.vector, m.countExtra, m.bitsLeft)
  }

  /** The 8-bit counters do not wrap on this character. */
  predicate StepCounted(m: Encoder, c: char)
    requires IsDigit(c) || IsFieldLetter(c)
  {
    if IsDigit(c) then m.repeats * 10 + DigitValue(c) < BYTE_MODULUS
    else c == 'c' ==> m.countExtra + Count(m.repeats) < BYTE_MODULUS
  }

  /** Compaction on this character does not lose parts. */
  predicate StepLossless(m: Encoder, c: char)
    requires IsDigit(c) || IsFieldLetter(c)
  {
    IsFieldLetter(c) && FieldOf(c).EightField? ==>
      var f := EvenFours(Flushed(m).vector);
      !(2 * f <= Flushed(m).bitsLeft < 3 * f)
  }

  /** Parts that fall off the front of the word when `n` more are pushed. */
  function Overflow(vector: Word, n: nat): nat {
    if PartCount(vector) + n > WORD_PARTS then PartCount(vector) + n - WORD_PARTS else 0
  }

  /** Parts that fall off on this character, which takes more than 64 bits of them. */
  function StepDropped(m: Encoder, c: char): nat
    requires IsDigit(c) || IsFieldLetter(c)
  {
    if IsDigit(c) then 0
    else
      match FieldOf(c)
      case CharField => 0
      case FourField => Overflow(m.vector, Count(m.repeats))
      case EightField =>
        Overflow(m.vector, PartsForBytes(m.countExtra)) +
        Overflow(Compact(Flushed(m).vector, Flushed(m).bitsLeft).vector, Count(m.repeats))
      case PointerField =>
        Overflow(m.vector, PartsForBytes(m.countExtra)) + Overflow(Flushed(m).vector, Count(m.repeats))
  }

  /** Parts beyond the thirty that a header keeps. */
  function Excess(vector: Word): nat {
    if PartCount(vector) > MAX_PARTS then PartCount(vector) - MAX_PARTS else 0
  }

  /** No counter wraps while the format is converted. */
  predicate Counted(format: string, m: Encoder)
    requires ValidFormat(format)
  {
    if m.isTooBig then true
    else if format == [] then m.countExtra + m.repeats < BYTE_MODULUS
    else StepCounted(m, format[0]) && Counted(format[1..], Step(m, format[0]))
  }

  /** No compaction loses parts. */
  predicate Lossless(format: string, m: Encoder)
    requires ValidFormat(format)
  {
    if m.isTooBig || format == [] then true
    else StepLossless(m, format[0]) && Lossless(format[1..], Step(m, format[0]))
  }

  /** All parts that are pushed while the format is converted and that the header does not keep. */
  function Dropped(format: string, m: Encoder): nat
    requires ValidFormat(format)
  {
    if m.isTooBig then 0
    else if format == [] then EndDropped(m)
    else StepDropped(m, format[0]) + Dropped(format[1..], Step(m, format[0]))
  }

  function EndDropped(m: Encoder): nat {
    match Finish(m)
    case None => 0
    case Some(vector) => Overflow(m.vector, PartsForBytes(ToByte(m.countExtra + m.repeats))) + Excess(vector)
  }

  /** No part is missed: none is dropped, or only one whose place the padding takes. */
  predicate Kept(format: string)
    requires ValidFormat(format)
  {
    Dropped(format, START) == 0 || (Dropped(format, START) == 1 && EvenFront(Expand(format, 0)))
  }

  // ---------------------------------------------------------------- the simulation

  /** The parts in the word, the members read, and how the ones stand for the others. */
  datatype Trace = Trace(held: seq<Part>, fs: seq<Field>, done: seq<Part>, lossless: bool, dropped: nat)
  {
    function Fours(): nat {
      CountFours(LastSegment(fs))
    }

    function Chars(): nat {
      CountChars(LastSegment(fs))
    }
  }

  /** The vector holds `parts`. */
  ghost predicate Holds(vector: Word, parts: seq<Part>) {
    |parts| <= WORD_PARTS && vector == Pack(parts)
  }

  /** The vector shows a line of parts that mirrors the struct, but for the parts dropped. */
  ghost predicate Follows(tr: Trace, fours: nat) {
    && Mirrors(tr.fs, tr.done, tr.lossless)
    && FrontKnown(tr.fs, tr.done)
    && WideEnded(tr.done)
    && Shown(tr.held, tr.done, fours, tr.dropped)
    && (tr.dropped > 0 ==> tr.done != [])
  }

  /** Before the first wide member, the bits left bound the parts. */
  ghost predicate EarlyRoom(bitsLeft: Byte, tr: Trace, fours: nat) {
    tr.done == [] ==> bitsLeft + 2 * fours <= BITS_FOR_PARTS
  }

  ghost predicate Simulates(m: Encoder, tr: Trace) {
    && Holds(m.vector, tr.held)
    && Follows(tr, tr.Fours())
    && EarlyRoom(m.bitsLeft, tr, tr.Fours())
    && m.countExtra == tr.Chars()
  }

  /** A run is pushed: what stays, and what falls off. */
  lemma RunHolds(vector: Word, bitsLeft: Byte, parts: seq<Part>, p: Part, n: Byte)
    requires Holds(vector, parts) && !AddRun(vector, p, n, bitsLeft).isTooBig
    ensures var after := Keep(WORD_PARTS, parts + Parts(p, n));
            && Holds(AddRun(vector, p, n, bitsLeft).vector, after)
            && Overflow(vector, n) == |parts| + n - |after|
  {
    hide PushParts, Pack;
    PackCount(parts);
    PushPartsKeep(parts, p, n);
  }

  /** Compaction, in both cases. */
  lemma CompactHolds(vector: Word, bitsLeft: Byte, parts: seq<Part>, f: nat)
    requires Holds(vector, parts) && f == EvenFours(vector)
    ensures f == TrailingFours(parts) - TrailingFours(parts) % 2
    ensures Holds(Compact(vector, bitsLeft).vector, Compacted(parts, 2 * f <= bitsLeft < 3 * f))
  {
    hide Compact, Pack, CompactParts, TrailingFours, Uncompacted, EvenFours, Unpaired;
    UncompactedPack(parts);
    CompactExact(parts, bitsLeft, f);
    CompactedRest(parts);
    if 2 * f <= bitsLeft < 3 * f {
      CompactDrops(parts, bitsLeft, f);
    }
  }

  /** Before the first wide member the word holds just the fours. */
  lemma EarlyHeld(tr: Trace, fours: nat)
    requires Follows(tr, fours) && tr.done == []
    ensures tr.dropped == 0 && |tr.held| == fours
  {
  }

  /** Fours are pushed. */
  lemma FoursFollow(vector: Word, bitsLeft: Byte, tr: Trace, fours: nat, n: Byte) returns (tr': Trace)
    requires Holds(vector, tr.held) && Follows(tr, fours) && EarlyRoom(bitsLeft, tr, fours)
    requires !AddRun(vector, FOUR_BYTES, n, bitsLeft).isTooBig
    ensures tr' == tr.(held := tr'.held, dropped := tr.dropped + Overflow(vector, n))
    ensures Holds(AddRun(vector, FOUR_BYTES, n, bitsLeft).vector, tr'.held)
    ensures Follows(tr', fours + n) && EarlyRoom(AddRun(vector, FOUR_BYTES, n, bitsLeft).bitsLeft, tr', fours + n)
  {
    hide PushParts, Holds, Mirrors, FrontKnown, WideEnded, Shown, PartCount, Overflow;
    RunHolds(vector, bitsLeft, tr.held, FOUR_BYTES, n);
    if tr.done == [] {
      EarlyHeld(tr, fours);
    }
    PushFoursShown(tr.held, tr.done, fours, tr.dropped, n, WORD_PARTS);
    var after := Keep(WORD_PARTS, tr.held + Parts(FOUR_BYTES, n));
    tr' := tr.(held := after, dropped := tr.dropped + Overflow(vector, n));
  }

  // ---------------------------------------------------------------- steps

  /** Small members change nothing before the segment. */
  lemma SmallFollow(tr: Trace, fours: nat, f: Field, n: nat)
    requires IsSmall(f) && Follows(tr, fours)
    ensures Follows(tr.(fs := tr.fs + Repeat(f, n)), fours)
  {
    hide Mirrors, Shown, FrontKnown, WideEnded, Repeat;
    MirrorsSmall(tr.fs, tr.done, tr.lossless, f, n);
    FrontSmall(tr.fs, tr.done, f, n);
  }

  lemma SmallCounts(tr: Trace, f: Field, n: nat)
    requires IsSmall(f)
    ensures var tr' := tr.(fs := tr.fs + Repeat(f, n));
            && tr'.Chars() == tr.Chars() + (if f.CharField? then n else 0)
            && tr'.Fours() == tr.Fours() + (if f.FourField? then n else 0)
  {
    hide LastSegment, CountChars, CountFours, Repeat;
    SmallRun(tr.fs, f, n);
  }

  lemma CharStep(m: Encoder, tr: Trace, n: Byte)
    requires Simulates(m, tr) && m.countExtra + n < BYTE_MODULUS
    ensures Simulates(m.(countExtra := m.countExtra + n, repeats := 0), tr.(fs := tr.fs + Repeat(CharField, n)))
  {
    hide Holds, Follows, Trace.Chars, Trace.Fours, Repeat;
    SmallFollow(tr, tr.Fours(), CharField, n);
    SmallCounts(tr, CharField, n);
  }

  lemma FourStep(m: Encoder, tr: Trace, n: Byte) returns (tr': Trace)
    requires Simulates(m, tr) && !AddRun(m.vector, FOUR_BYTES, n, m.bitsLeft).isTooBig
    ensures tr'.fs == tr.fs + Repeat(FourField, n) && tr'.lossless == tr.lossless
    ensures tr'.dropped == tr.dropped + Overflow(m.vector, n)
    ensures var added := AddRun(m.vector, FOUR_BYTES, n, m.bitsLeft);
            Simulates(Encoder(added.vector, 0, m.countExtra, added.bitsLeft, false), tr')
  {
    hide Holds, Follows, Trace.Chars, Trace.Fours, Repeat, AddRun, Overflow;
    var pushed := FoursFollow(m.vector, m.bitsLeft, tr, tr.Fours(), n);
    SmallFollow(pushed, tr.Fours() + n, FourField, n);
    SmallCounts(tr, FourField, n);
    SameCounts(tr, pushed);
    SameCounts(tr.(fs := tr.fs + Repeat(FourField, n)), pushed.(fs := tr.fs + Repeat(FourField, n)));
    tr' := pushed.(fs := tr.fs + Repeat(FourField, n));
  }

  lemma SameCounts(tr: Trace, tr': Trace)
    requires tr.fs == tr'.fs
    ensures tr.Chars() == tr'.Chars() && tr.Fours() == tr'.Fours()
  {
  }

  /** Behind a wide member the segment is empty. */
  lemma EmptySegment(fs: seq<Field>)
    requires LastSegment(fs) == []
    ensures CountChars(LastSegment(fs)) == CountFours(LastSegment(fs)) == 0
  {
  }

  lemma PointerPart()
    ensures PartField(POINTER_BYTES) == PointerField && PartField(EIGHT_BYTES) == EightField
  {
  }

  lemma MirrorsFront(tr: Trace, fours: nat)
    requires Follows(tr, fours)
    ensures EndOffset(PartFields(tr.done)) % 8 == 0
    ensures tr.done == [] ==> LastSegment(tr.fs) == tr.fs
  {
  }

  /** The flushed line takes the room that the vector spends on the segment. */
  lemma FlushedParts(fs: seq<Field>, done: seq<Part>)
    requires EndOffset(PartFields(done)) % 8 == 0
    ensures RoundUp(EndOffset(PartFields(Line(done, FrontParts(LastSegment(fs))))), 8) ==
            RoundUp(EndOffset(PartFields(done)) + PackedBytes(LastSegment(fs)), 8)
    ensures PointerOffsets(PartFields(Line(done, FrontParts(LastSegment(fs))))) == PointerOffsets(PartFields(done))
  {
    hide LastSegment, PackedBytes;
    FlushedEnd(fs, done);
  }

  /** So do the compacted parts; what a lossy compaction leaves takes less. */
  lemma CompactedParts(fs: seq<Field>, done: seq<Part>, lost: bool)
    requires EndOffset(PartFields(done)) % 8 == 0 && WideEnded(done)
    requires lost ==> FrontParts(LastSegment(fs)) >= 2
    ensures var parts := Compacted(Line(done, FrontParts(LastSegment(fs))), lost);
            var flushed := RoundUp(EndOffset(PartFields(done)) + PackedBytes(LastSegment(fs)), 8);
            && (if lost then RoundUp(EndOffset(PartFields(parts)), 8) < flushed
                else RoundUp(EndOffset(PartFields(parts)), 8) == flushed)
            && PointerOffsets(PartFields(parts)) == PointerOffsets(PartFields(done))
  {
    hide LastSegment, CompactParts, PartFields, EndOffset, PointerOffsets, Unpaired, TrailingFours, RoundUp;
    var n := FrontParts(LastSegment(fs));
    if lost {
      DroppedBehind(done, n);
      CompactedLine(done, n, true);
      AppendNothing(Line(done, n % 2), EIGHT_BYTES);
    } else {
      CompactKeepsLayout(done, n);
    }
  }

  /** Wide parts are pushed behind `ps`, which is what flushing and compacting have made of the line. */
  lemma WidesFollow(vector: Word, bitsLeft: Byte, h: seq<Part>, tr: Trace, t: nat, ps: seq<Part>, lost: bool,
                    w: Part, n: Byte)
    returns (tr': Trace)
    requires w != FOUR_BYTES && n > 0 && Mirrors(tr.fs, tr.done, tr.lossless)
    requires Holds(vector, h) && Ready(h, ps, t) && !AddRun(vector, w, n, bitsLeft).isTooBig
    requires var flushed := RoundUp(EndOffset(PartFields(tr.done)) + PackedBytes(LastSegment(tr.fs)), 8);
             if lost then RoundUp(EndOffset(PartFields(ps)), 8) < flushed
             else RoundUp(EndOffset(PartFields(ps)), 8) == flushed
    requires PointerOffsets(PartFields(ps)) == PointerOffsets(PartFields(tr.done))
    requires FrontKnown(tr.fs + Repeat(PartField(w), n), ps + Parts(w, n))
    ensures tr'.fs == tr.fs + Repeat(PartField(w), n) && tr'.lossless == (tr.lossless && !lost)
    ensures tr'.dropped == t + Overflow(vector, n)
    ensures var added := AddRun(vector, w, n, bitsLeft);
            Simulates(Encoder(added.vector, 0, 0, added.bitsLeft, false), tr')
  {
    hide Mirrors, LastSegment, Holds, AddRun, Shown, FrontKnown, Overflow, EndOffset, PartFields, PointerOffsets;
    hide RoundUp, PackedBytes, Ready, Repeat, CountChars, CountFours;
    var fs', done' := tr.fs + Repeat(PartField(w), n), ps + Parts(w, n);
    RunHolds(vector, bitsLeft, h, w, n);
    PushWidesShown(h, ps, t, w, n, WORD_PARTS);
    MirrorsWide(tr.fs, tr.done, tr.lossless, ps, lost, w, n);
    EmptySegment(fs');
    tr' := Trace(Keep(WORD_PARTS, h + Parts(w, n)), fs', done', tr.lossless && !lost, t + Overflow(vector, n));
  }

  /** The parts that the pending chars become. */
  lemma FlushFollows(m: Encoder, tr: Trace) returns (tr': Trace)
    requires Simulates(m, tr) && !Flushed(m).isTooBig
    ensures tr' == tr.(held := tr'.held,
                       dropped := tr.dropped + Overflow(m.vector, PartsForBytes(m.countExtra)))
    ensures Holds(Flushed(m).vector, tr'.held) && Follows(tr', FrontParts(LastSegment(tr.fs)))
  {
    hide AddRun, Holds, Follows, Overflow, EarlyRoom;
    tr' := FoursFollow(m.vector, m.bitsLeft, tr, tr.Fours(), PartsForBytes(m.countExtra));
  }

  lemma FollowsParts(tr: Trace, fours: nat)
    requires Follows(tr, fours)
    ensures Mirrors(tr.fs, tr.done, tr.lossless) && FrontKnown(tr.fs, tr.done) && WideEnded(tr.done)
    ensures Shown(tr.held, tr.done, fours, tr.dropped) && (tr.dropped > 0 ==> tr.done != [])
  {
  }

  lemma PointerFront(fs: seq<Field>, done: seq<Part>, n: nat)
    requires FrontKnown(fs, done) && WideEnded(done) && n > 0
    requires done == [] ==> LastSegment(fs) == fs
    ensures FrontKnown(fs + Repeat(PointerField, n), Line(done, FrontParts(LastSegment(fs))) + Parts(POINTER_BYTES, n))
  {
    hide FrontKnown, WideEnded, LastSegment;
    PointerPart();
    var x := FrontParts(LastSegment(fs));
    if done == [] {
      FrontFirst(fs, POINTER_BYTES, n, false);
    } else {
      FrontStays(fs, Repeat(PointerField, n), done, Parts(FOUR_BYTES, x) + Parts(POINTER_BYTES, n));
      assert Line(done, x) + Parts(POINTER_BYTES, n) == done + (Parts(FOUR_BYTES, x) + Parts(POINTER_BYTES, n));
    }
  }

  lemma EightFront(fs: seq<Field>, done: seq<Part>, lost: bool, n: nat)
    requires FrontKnown(fs, done) && WideEnded(done) && n > 0
    requires done == [] ==> LastSegment(fs) == fs
    ensures FrontKnown(fs + Repeat(EightField, n),
                       Compacted(Line(done, FrontParts(LastSegment(fs))), lost) + Parts(EIGHT_BYTES, n))
  {
    hide FrontKnown, LastSegment, CompactParts, Unpaired, TrailingFours, Compacted;
    PointerPart();
    var x := FrontParts(LastSegment(fs));
    if done == [] {
      FrontFirst(fs, EIGHT_BYTES, n, lost);
    } else {
      CompactedLine(done, x, lost);
      var eights := Parts(EIGHT_BYTES, if lost then 0 else x / 2);
      var more := Parts(FOUR_BYTES, x % 2) + eights + Parts(EIGHT_BYTES, n);
      FrontStays(fs, Repeat(EightField, n), done, more);
      assert Line(done, x % 2) + eights + Parts(EIGHT_BYTES, n) == done + more;
    }
  }

  lemma PointerStep(m: Encoder, tr: Trace, n: Byte) returns (tr': Trace)
    requires n > 0 && Simulates(m, tr)
    requires !Flushed(m).isTooBig && !AddRun(Flushed(m).vector, POINTER_BYTES, n, Flushed(m).bitsLeft).isTooBig
    ensures tr'.fs == tr.fs + Repeat(PointerField, n) && tr'.lossless == tr.lossless
    ensures tr'.dropped ==
            tr.dropped + Overflow(m.vector, PartsForBytes(m.countExtra)) + Overflow(Flushed(m).vector, n)
    ensures var added := AddRun(Flushed(m).vector, POINTER_BYTES, n, Flushed(m).bitsLeft);
            Simulates(Encoder(added.vector, 0, 0, added.bitsLeft, false), tr')
  {
    hide Flushed, AddRun, Simulates, Holds, Mirrors, LastSegment, PackedBytes, Overflow, Follows, Shown, Ready;
    hide PartFields, EndOffset, PointerOffsets, RoundUp, FrontKnown, FrontParts, Line, WideEnded;
    var x := FrontParts(LastSegment(tr.fs));
    var flushed := FlushFollows(m, tr);
    FollowsParts(flushed, x);
    MirrorsFront(flushed, x);
    ShownReady(flushed.held, tr.done, x, flushed.dropped);
    FlushedParts(tr.fs, tr.done);
    PointerFront(tr.fs, tr.done, n);
    PointerPart();
    tr' := WidesFollow(Flushed(m).vector, Flushed(m).bitsLeft, flushed.held, flushed, flushed.dropped,
                       Line(tr.done, x), false, POINTER_BYTES, n);
  }

  /** What compaction leaves in the word, and what it means. */
  lemma CompactFollows(m: Encoder, tr: Trace, lost: bool, x: nat)
    requires Holds(Flushed(m).vector, tr.held) && Follows(tr, x) && x == FrontParts(LastSegment(tr.fs))
    requires var f := EvenFours(Flushed(m).vector);
             lost <==> 2 * f <= Flushed(m).bitsLeft < 3 * f
    ensures Holds(Compact(Flushed(m).vector, Flushed(m).bitsLeft).vector, Compacted(tr.held, lost))
    ensures Ready(Compacted(tr.held, lost), Compacted(Line(tr.done, x), lost && tr.dropped <= 1), tr.dropped)
    ensures lost && tr.dropped <= 1 ==> x >= 2
  {
    hide Flushed, Compact, Holds, Mirrors, LastSegment, FrontParts, Line, WideEnded, Compacted, Shown, EvenFours;
    hide FrontKnown, Ready, TrailingFours;
    CompactHolds(Flushed(m).vector, Flushed(m).bitsLeft, tr.held, EvenFours(Flushed(m).vector));
    CompactShown(tr.held, tr.done, x, tr.dropped, lost);
  }

  lemma EightStep(m: Encoder, tr: Trace, n: Byte, lost: bool) returns (tr': Trace)
    requires n > 0 && Simulates(m, tr) && !Flushed(m).isTooBig
    requires var compacted := Compact(Flushed(m).vector, Flushed(m).bitsLeft);
             !AddRun(compacted.vector, EIGHT_BYTES, n, compacted.bitsLeft).isTooBig
    requires var f := EvenFours(Flushed(m).vector);
             lost <==> 2 * f <= Flushed(m).bitsLeft < 3 * f
    ensures tr'.fs == tr.fs + Repeat(EightField, n)
    ensures var compacted := Compact(Flushed(m).vector, Flushed(m).bitsLeft);
            tr'.dropped ==
            tr.dropped + Overflow(m.vector, PartsForBytes(m.countExtra)) + Overflow(compacted.vector, n)
    ensures tr'.dropped <= 1 ==> tr'.lossless == (tr.lossless && !lost)
    ensures var compacted := Compact(Flushed(m).vector, Flushed(m).bitsLeft);
            var added := AddRun(compacted.vector, EIGHT_BYTES, n, compacted.bitsLeft);
            Simulates(Encoder(added.vector, 0, 0, added.bitsLeft, false), tr')
  {
    hide Flushed, AddRun, Simulates, Holds, Mirrors, LastSegment, PackedBytes, Overflow, Follows, Shown, Ready;
    hide PartFields, EndOffset, PointerOffsets, RoundUp, FrontKnown, FrontParts, Line, WideEnded, Compact, Compacted;
    hide EvenFours;
    var x := FrontParts(LastSegment(tr.fs));
    var flushed := FlushFollows(m, tr);
    var lostHere := lost && flushed.dropped <= 1;
    FollowsParts(flushed, x);
    MirrorsFront(flushed, x);
    CompactFollows(m, flushed, lost, x);
    CompactedParts(tr.fs, tr.done, lostHere);
    EightFront(tr.fs, tr.done, lostHere, n);
    PointerPart();
    var compacted := Compact(Flushed(m).vector, Flushed(m).bitsLeft);
    tr' := WidesFollow(compacted.vector, compacted.bitsLeft, Compacted(flushed.held, lost), flushed, flushed.dropped,
                       Compacted(Line(tr.done, x), lostHere), lostHere, EIGHT_BYTES, n);
  }

  /** A letter that the conversion accepts without a wrap reads its members. */
  lemma LetterStep(m: Encoder, c: char, tr: Trace) returns (tr': Trace)
    requires IsFieldLetter(c) && !m.isTooBig && StepCounted(m, c)
    requires Simulates(m, tr) && !Step(m, c).isTooBig
    ensures tr'.fs == tr.fs + Repeat(FieldOf(c), Count(m.repeats))
    ensures tr'.dropped == tr.dropped + StepDropped(m, c)
    ensures tr'.dropped <= 1 ==> tr'.lossless == (tr.lossless && StepLossless(m, c))
    ensures Simulates(Step(m, c), tr')
    ensures Step(m, c).repeats == 0
  {
    hide Simulates, AddRun, FlushExtra, Compact, EvenFours, Overflow;
    var n := Count(m.repeats);
    match FieldOf(c)
    case CharField =>
      CharStep(m, tr, n);
      tr' := tr.(fs := tr.fs + Repeat(CharField, n));
    case FourField =>
      tr' := FourStep(m, tr, n);
    case EightField =>
      tr' := EightStep(m, tr, n, !StepLossless(m, c));
    case PointerField =>
      tr' := PointerStep(m, tr, n);
  }

  lemma DigitStep(m: Encoder, c: char, tr: Trace)
    requires IsDigit(c) && !m.isTooBig && StepCounted(m, c)
    requires Simulates(m, tr)
    ensures Step(m, c) == m.(repeats := m.repeats * 10 + DigitValue(c), isTooBig := false)
    ensures Simulates(Step(m, c), tr)
    ensures StepLossless(m, c) && StepDropped(m, c) == 0
  {
    hide Holds, Follows, LastSegment;
  }

  /** The end of a conversion: the finished line, but for the parts dropped. */
  ghost predicate Finished(vector: Word, tr: Trace) {
    Holds(vector, tr.held) && Follows(tr, FrontParts(LastSegment(tr.fs)))
  }

  lemma EndStep(m: Encoder, tr: Trace) returns (tr': Trace)
    requires Simulates(m, tr) && m.countExtra + m.repeats < BYTE_MODULUS
    requires Finish(m).Some?
    ensures tr'.fs == tr.fs + Repeat(CharField, m.repeats) && tr'.lossless == tr.lossless
    ensures tr'.dropped == tr.dropped + Overflow(m.vector, PartsForBytes(ToByte(m.countExtra + m.repeats)))
    ensures Finished(Finish(m).value, tr')
  {
    hide Mirrors, LastSegment, AddRun, Simulates, Holds, Follows, Overflow, FrontParts;
    var m' := m.(countExtra := m.countExtra + m.repeats, repeats := 0);
    var read := tr.(fs := tr.fs + Repeat(CharField, m.repeats));
    CharStep(m, tr, m.repeats);
    if m'.countExtra > 0 {
      tr' := FlushFollows(m', read);
    } else {
      NothingPending(m', read);
      tr' := read;
    }
  }

  lemma NothingPending(m: Encoder, tr: Trace)
    requires Simulates(m, tr) && m.countExtra == 0
    ensures Finished(m.vector, tr) && Overflow(m.vector, 0) == 0
  {
    hide Mirrors, LastSegment, Shown;
    PackCount(tr.held);
  }

  /** Without wraps, a conversion ends with a line of parts that mirrors the members of the whole format. */
  lemma {:induction false} EncodedMirrors(format: string, m: Encoder, tr: Trace) returns (tr': Trace)
    requires ValidFormat(format) && Encoded(format, m).Some? && Counted(format, m)
    requires Simulates(m, tr)
    ensures tr'.fs == tr.fs + Expand(format, m.repeats) && tr'.dropped >= tr.dropped
    ensures Finished(Encoded(format, m).value, tr')
    ensures tr'.dropped + Excess(Encoded(format, m).value) == tr.dropped + Dropped(format, m)
    ensures tr'.dropped <= 1 ==> tr'.lossless == (tr.lossless && Lossless(format, m))
    decreases |format|
  {
    hide Simulates, Step, StepCounted, StepDropped, StepLossless, Finish, Overflow, Excess, Finished;
    if format == [] {
      tr' := EndStep(m, tr);
    } else if IsDigit(format[0]) {
      DigitStep(m, format[0], tr);
      tr' := EncodedMirrors(format[1..], Step(m, format[0]), tr);
    } else {
      var run := Repeat(FieldOf(format[0]), Count(m.repeats));
      assert Encoded(format[1..], Step(m, format[0])).Some?;
      assert !Step(m, format[0]).isTooBig;
      var next := LetterStep(m, format[0], tr);
      tr' := EncodedMirrors(format[1..], Step(m, format[0]), next);
      assert (tr.fs + run) + Expand(format[1..], 0) == tr.fs + (run + Expand(format[1..], 0));
    }
  }

  lemma StartSimulates()
    ensures Simulates(START, Trace([], [], [], true, 0))
  {
    assert Line([], 0) == [];
    assert PartFields([]) == [];
    assert Agrees([]);
  }

  lemma {:induction false} ExpandHasPointer(format: string, numeral: nat)
    requires ValidFormat(format) && HasPointers(format)
    ensures exists i :: 0 <= i < |Expand(format, numeral)| && !IsSmall(Expand(format, numeral)[i])
  {
    var all := Expand(format, numeral);
    if format[0] == '*' {
      assert !IsSmall(all[0]);
    } else {
      var k :| 0 <= k < |format| && format[k] == '*';
      assert format[1..][k - 1] == '*';
      if IsDigit(format[0]) {
        ExpandHasPointer(format[1..], 10 * numeral + DigitValue(format[0]));
      } else {
        var rest, n := Expand(format[1..], 0), Count(numeral);
        ExpandHasPointer(format[1..], 0);
        var i :| 0 <= i < |rest| && !IsSmall(rest[i]);
        assert all[n + i] == rest[i];
      }
    }
  }

  // ---------------------------------------------------------------- wraps

  /** A counter only wraps on a struct of 256 members or more. */
  lemma {:induction false} WrapMeansLong(format: string, m: Encoder, before: nat)
    requires ValidFormat(format) && !Counted(format, m) && m.countExtra <= before
    ensures before + |Expand(format, m.repeats)| >= BYTE_MODULUS
    decreases |format|
  {
    if format != [] {
      if !StepCounted(m, format[0]) {
        if IsDigit(format[0]) {
          ExpandLong(format[1..], m.repeats * 10 + DigitValue(format[0]));
        }
      } else {
        PendingAfter(m, format[0]);
        hide Step;
        WrapMeansLong(format[1..], Step(m, format[0]),
                      before + if IsDigit(format[0]) then 0 else Count(m.repeats));
      }
    }
  }

  /** No more chars are pending than members have been read. */
  lemma PendingAfter(m: Encoder, c: char)
    requires IsDigit(c) || IsFieldLetter(c)
    requires !m.isTooBig && StepCounted(m, c)
    ensures Step(m, c).countExtra <= m.countExtra + if IsDigit(c) then 0 else Count(m.repeats)
    ensures IsDigit(c) ==> Step(m, c).repeats == m.repeats * 10 + DigitValue(c)
    ensures IsFieldLetter(c) && !Step(m, c).isTooBig ==> Step(m, c).repeats == 0
  {
    hide FlushExtra, AddRun, Compact;
  }

  // ---------------------------------------------------------------- subtractions that do not wrap

  /** The bits that compaction subtracts are there, so the subtraction does not wrap around. */
  predicate StepBacked(m: Encoder, c: char)
    requires IsDigit(c) || IsFieldLetter(c)
  {
    IsFieldLetter(c) && FieldOf(c).EightField? ==> 2 * EvenFours(Flushed(m).vector) <= Flushed(m).bitsLeft
  }

  predicate Backed(format: string, m: Encoder)
    requires ValidFormat(format)
  {
    if m.isTooBig || format == [] then true
    else StepBacked(m, format[0]) && Backed(format[1..], Step(m, format[0]))
  }

  /** The bits left and those used by the parts are no more than the 60 there were. */
  ghost predicate Room(vector: Word, bitsLeft: Byte, parts: seq<Part>) {
    Holds(vector, parts) && bitsLeft + 2 * |parts| <= BITS_FOR_PARTS
  }

  lemma RunRoom(vector: Word, bitsLeft: Byte, parts: seq<Part>, p: Part, n: Byte)
    requires Room(vector, bitsLeft, parts) && !AddRun(vector, p, n, bitsLeft).isTooBig
    ensures Overflow(vector, n) == 0
    ensures Room(AddRun(vector, p, n, bitsLeft).vector, AddRun(vector, p, n, bitsLeft).bitsLeft, parts + Parts(p, n))
  {
    hide PushParts, Pack, PartCount, Overflow;
    RunHolds(vector, bitsLeft, parts, p, n);
  }

  lemma CompactRoom(vector: Word, bitsLeft: Byte, parts: seq<Part>) returns (rest: seq<Part>)
    requires Room(vector, bitsLeft, parts) && 2 * EvenFours(vector) <= bitsLeft
    ensures Room(Compact(vector, bitsLeft).vector, Compact(vector, bitsLeft).bitsLeft, rest)
  {
    var f := EvenFours(vector);
    rest := Compacted(parts, bitsLeft < 3 * f);
    hide Compact, Pack, CompactParts, TrailingFours, Uncompacted, EvenFours, Unpaired;
    CompactHolds(vector, bitsLeft, parts, f);
    CompactExact(parts, bitsLeft, f);
    CompactedRest(parts);
    if bitsLeft < 3 * f {
      CompactDrops(parts, bitsLeft, f);
    }
  }

  lemma FlushRoom(m: Encoder, parts: seq<Part>)
    requires Room(m.vector, m.bitsLeft, parts) && !Flushed(m).isTooBig
    ensures Overflow(m.vector, PartsForBytes(m.countExtra)) == 0
    ensures Room(Flushed(m).vector, Flushed(m).bitsLeft, parts + Parts(FOUR_BYTES, PartsForBytes(m.countExtra)))
  {
    hide AddRun, Overflow, Room;
    RunRoom(m.vector, m.bitsLeft, parts, FOUR_BYTES, PartsForBytes(m.countExtra));
  }

  lemma EightRoom(m: Encoder, parts: seq<Part>, n: Byte) returns (parts': seq<Part>)
    requires Room(m.vector, m.bitsLeft, parts) && !Flushed(m).isTooBig
    requires 2 * EvenFours(Flushed(m).vector) <= Flushed(m).bitsLeft
    requires var compacted := Compact(Flushed(m).vector, Flushed(m).bitsLeft);
             !AddRun(compacted.vector, EIGHT_BYTES, n, compacted.bitsLeft).isTooBig
    ensures Overflow(m.vector, PartsForBytes(m.countExtra)) == 0
    ensures var compacted := Compact(Flushed(m).vector, Flushed(m).bitsLeft);
            var added := AddRun(compacted.vector, EIGHT_BYTES, n, compacted.bitsLeft);
            Overflow(compacted.vector, n) == 0 && Room(added.vector, added.bitsLeft, parts')
  {
    hide AddRun, Overflow, Room, Compact, Flushed, EvenFours;
    FlushRoom(m, parts);
    var flushed := parts + Parts(FOUR_BYTES, PartsForBytes(m.countExtra));
    var rest := CompactRoom(Flushed(m).vector, Flushed(m).bitsLeft, flushed);
    var compacted := Compact(Flushed(m).vector, Flushed(m).bitsLeft);
    RunRoom(compacted.vector, compacted.bitsLeft, rest, EIGHT_BYTES, n);
    parts' := rest + Parts(EIGHT_BYTES, n);
  }

  lemma PointerRoom(m: Encoder, parts: seq<Part>, n: Byte)
    requires Room(m.vector, m.bitsLeft, parts) && !Flushed(m).isTooBig
    requires !AddRun(Flushed(m).vector, POINTER_BYTES, n, Flushed(m).bitsLeft).isTooBig
    ensures Overflow(m.vector, PartsForBytes(m.countExtra)) == 0 && Overflow(Flushed(m).vector, n) == 0
    ensures var added := AddRun(Flushed(m).vector, POINTER_BYTES, n, Flushed(m).bitsLeft);
            Room(added.vector, added.bitsLeft,
                 parts + Parts(FOUR_BYTES, PartsForBytes(m.countExtra)) + Parts(POINTER_BYTES, n))
  {
    hide AddRun, Overflow, Flushed, Room;
    FlushRoom(m, parts);
    RunRoom(Flushed(m).vector, Flushed(m).bitsLeft, parts + Parts(FOUR_BYTES, PartsForBytes(m.countExtra)),
            POINTER_BYTES, n);
  }

  /** A step that succeeds, and whose subtraction is backed, drops nothing. */
  lemma StepRoom(m: Encoder, c: char, parts: seq<Part>) returns (parts': seq<Part>)
    requires IsDigit(c) || IsFieldLetter(c)
    requires !m.isTooBig && StepBacked(m, c) && !Step(m, c).isTooBig
    requires Room(m.vector, m.bitsLeft, parts)
    ensures StepDropped(m, c) == 0 && Room(Step(m, c).vector, Step(m, c).bitsLeft, parts')
  {
    hide Room, AddRun, FlushExtra, Compact, EvenFours, Overflow, Parts;
    var n := Count(m.repeats);
    parts' := parts;
    if IsFieldLetter(c) {
      match FieldOf(c)
      case CharField =>
      case FourField =>
        RunRoom(m.vector, m.bitsLeft, parts, FOUR_BYTES, n);
        parts' := parts + Parts(FOUR_BYTES, n);
      case EightField =>
        parts' := EightRoom(m, parts, n);
      case PointerField =>
        PointerRoom(m, parts, n);
        parts' := parts + Parts(FOUR_BYTES, PartsForBytes(m.countExtra)) + Parts(POINTER_BYTES, n);
    }
  }

  lemma EndRoom(m: Encoder, parts: seq<Part>)
    requires Room(m.vector, m.bitsLeft, parts)
    ensures EndDropped(m) == 0
    ensures Finish(m).Some? ==> PartCount(Finish(m).value) <= MAX_PARTS
  {
    hide AddRun, Pack;
    var n := PartsForBytes(ToByte(m.countExtra + m.repeats));
    PackCount(parts);
    if Finish(m).Some? && (m.repeats > 0 || m.countExtra > 0) {
      RunRoom(m.vector, m.bitsLeft, parts, FOUR_BYTES, n);
      PackCount(parts + Parts(FOUR_BYTES, n));
    }
  }

  /** As long as no subtraction wraps around, nothing is dropped, and the header keeps all parts. */
  lemma {:induction false} BackedDropsNothing(format: string, m: Encoder, parts: seq<Part>)
    requires ValidFormat(format) && Backed(format, m) && Encoded(format, m).Some?
    requires Room(m.vector, m.bitsLeft, parts)
    ensures Dropped(format, m) == 0 && PartCount(Encoded(format, m).value) <= MAX_PARTS
    decreases |format|
  {
    hide Room, Step, StepBacked, StepDropped, EndDropped, Finish, PartCount;
    if format == [] {
      EndRoom(m, parts);
    } else {
      assert Encoded(format[1..], Step(m, format[0])).Some?;
      var parts' := StepRoom(m, format[0], parts);
      BackedDropsNothing(format[1..], Step(m, format[0]), parts');
    }
  }
}

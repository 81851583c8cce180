/**
 How the part vector relates to the struct it stands for. Members of four bytes or less between
 two 8-byte members form a segment; the vector keeps only how many 4-byte parts a segment needs.
 */
module PartLayout {
  import opened Layout
  import opened PartCodec
  import opened VectorReader

  // ---------------------------------------------------------------- segments

  predicate IsSmall(f: Field) {
    f.CharField? || f.FourField?
  }

  /** The members after the last 8-byte one. */
  function LastSegment(fs: seq<Field>): (seg: seq<Field>)
    ensures |seg| <= |fs|
  {
    if fs == [] || !IsSmall(fs[|fs| - 1]) then [] else LastSegment(fs[..|fs| - 1]) + [fs[|fs| - 1]]
  }

  function CountChars(fs: seq<Field>): nat {
    if fs == [] then 0 else CountChars(fs[..|fs| - 1]) + if fs[|fs| - 1].CharField? then 1 else 0
  }

  function CountFours(fs: seq<Field>): nat {
    if fs == [] then 0 else CountFours(fs[..|fs| - 1]) + if fs[|fs| - 1].FourField? then 1 else 0
  }

  /** 4-byte parts that hold `n` bytes. */
  function PartsForBytes(n: nat): nat {
    (n + 3) / 4
  }

  /** Bytes the vector spends on a segment: all its chars are collected into one run. */
  function PackedBytes(seg: seq<Field>): nat {
    4 * (CountFours(seg) + PartsForBytes(CountChars(seg)))
  }

  /** The next 8-byte member lands at the same offset in the vector and in the struct. */
  predicate Agrees(seg: seq<Field>) {
    RoundUp(PackedBytes(seg), 8) == RoundUp(EndOffset(seg), 8)
  }

  /** All finished segments agree. */
  predicate AgreeBefore(fs: seq<Field>) {
    if fs == [] then true
    else
      var init := fs[..|fs| - 1];
      AgreeBefore(init) && (IsSmall(fs[|fs| - 1]) || Agrees(LastSegment(init)))
  }

  predicate AllAgree(fs: seq<Field>) {
    AgreeBefore(fs) && Agrees(LastSegment(fs))
  }

  /** Offset at which the last segment starts. */
  function SegmentStart(fs: seq<Field>): nat {
    EndOffset(fs[..|fs| - |LastSegment(fs)|])
  }

  lemma SnocSmall(fs: seq<Field>, f: Field)
    requires IsSmall(f)
    ensures LastSegment(fs + [f]) == LastSegment(fs) + [f]
    ensures CountChars(LastSegment(fs + [f])) == CountChars(LastSegment(fs)) + if f.CharField? then 1 else 0
    ensures CountFours(LastSegment(fs + [f])) == CountFours(LastSegment(fs)) + if f.FourField? then 1 else 0
    ensures AgreeBefore(fs + [f]) == AgreeBefore(fs)
    ensures SegmentStart(fs + [f]) == SegmentStart(fs)
    ensures PointerOffsets(fs + [f]) == PointerOffsets(fs)
  {
    assert (fs + [f])[..|fs|] == fs;
    assert (LastSegment(fs) + [f])[..|LastSegment(fs)|] == LastSegment(fs);
    assert (fs + [f])[..|fs| - |LastSegment(fs)|] == fs[..|fs| - |LastSegment(fs)|];
    EndOffsetSnoc(fs, f);
  }

  lemma SnocWide(fs: seq<Field>, f: Field)
    requires !IsSmall(f)
    ensures LastSegment(fs + [f]) == []
    ensures AgreeBefore(fs + [f]) == AllAgree(fs)
    ensures SegmentStart(fs + [f]) == EndOffset(fs + [f]) == RoundUp(EndOffset(fs), 8) + 8
  {
    assert (fs + [f])[..|fs|] == fs;
    assert (fs + [f])[..|fs + [f]| - 0] == fs + [f];
    EndOffsetSnoc(fs, f);
  }

  lemma RoundUpShift(x: nat, y: nat, a: Amount)
    requires x % 8 == 0
    ensures RoundUp(x + y, a) == x + RoundUp(y, a)
  {
    var q := x / 8;
    if a == 4 {
      QuarterShift(2 * q, y + 3);
    } else if a == 8 {
      EighthShift(q, y + 7);
    }
  }

  lemma QuarterShift(k: nat, z: nat)
    ensures (4 * k + z) / 4 == k + z / 4
  {
  }

  lemma EighthShift(k: nat, z: nat)
    ensures (8 * k + z) / 8 == k + z / 8
  {
  }

  /** The segment starts at a multiple of 8 and is laid out as if it started at 0. */
  ghost predicate Shifted8(fs: seq<Field>) {
    && SegmentStart(fs) % 8 == 0
    && EndOffset(fs) == SegmentStart(fs) + EndOffset(LastSegment(fs))
  }

  lemma ShiftSmall(fs: seq<Field>, f: Field)
    requires IsSmall(f) && Shifted8(fs)
    ensures Shifted8(fs + [f])
  {
    SnocSmall(fs, f);
    EndOffsetSnoc(fs, f);
    EndOffsetSnoc(LastSegment(fs), f);
    RoundUpShift(SegmentStart(fs), EndOffset(LastSegment(fs)), f.Bytes());
  }

  lemma ShiftWide(fs: seq<Field>, f: Field)
    requires !IsSmall(f)
    ensures Shifted8(fs + [f])
  {
    SnocWide(fs, f);
    assert (RoundUp(EndOffset(fs), 8) + 8) % 8 == 0;
  }

  lemma {:induction false} SegmentShift(fs: seq<Field>)
    ensures Shifted8(fs)
  {
    if fs != [] {
      var init, f := fs[..|fs| - 1], fs[|fs| - 1];
      assert fs == init + [f];
      if IsSmall(f) {
        SegmentShift(init);
        ShiftSmall(init, f);
      } else {
        ShiftWide(init, f);
      }
    }
  }

  /** The struct never needs fewer bytes for a segment than the vector spends. */
  lemma {:induction false} PackedIsLess(seg: seq<Field>)
    requires forall i :: 0 <= i < |seg| ==> IsSmall(seg[i])
    ensures 4 * CountFours(seg) + CountChars(seg) <= EndOffset(seg)
    ensures PackedBytes(seg) <= RoundUp(EndOffset(seg), 4)
  {
    if seg != [] {
      var init, f := seg[..|seg| - 1], seg[|seg| - 1];
      PackedIsLess(init);
    }
  }

  lemma {:induction false} LastSegmentSmall(fs: seq<Field>)
    ensures forall i :: 0 <= i < |LastSegment(fs)| ==> IsSmall(LastSegment(fs)[i])
  {
    if fs != [] && IsSmall(fs[|fs| - 1]) {
      LastSegmentSmall(fs[..|fs| - 1]);
    }
  }

  // ---------------------------------------------------------------- runs of parts

  function Parts(p: Part, n: nat): (ps: seq<Part>)
    ensures |ps| == n
  {
    seq(n, _ => p)
  }

  lemma PartFieldsAppend(ps: seq<Part>, qs: seq<Part>)
    ensures PartFields(ps + qs) == PartFields(ps) + PartFields(qs)
  {
  }

  lemma PartFieldsRun(p: Part, n: nat)
    ensures PartFields(Parts(p, n)) == Repeat(PartField(p), n)
  {
  }

  /** End offset after a run of equal parts. */
  lemma PartsRunEnd(ps: seq<Part>, p: Part, n: nat)
    ensures EndOffset(PartFields(ps + Parts(p, n))) ==
            if n == 0 then EndOffset(PartFields(ps))
            else RoundUp(EndOffset(PartFields(ps)), PartField(p).Bytes()) + n * PartField(p).Bytes()
  {
    PartFieldsAppend(ps, Parts(p, n));
    PartFieldsRun(p, n);
    EndOffsetRepeat(PartFields(ps), PartField(p), n);
  }

  /** Offsets of `n` consecutive pointers. */
  function PointerRun(start: nat, n: nat): (offsets: seq<nat>)
    ensures |offsets| == n
  {
    seq(n, i requires 0 <= i < n => start + 8 * i)
  }

  lemma PointerRunSnoc(start: nat, n: nat)
    requires n > 0
    ensures PointerRun(start, n) == PointerRun(start, n - 1) + [start + 8 * (n - 1)]
  {
  }

  lemma {:induction false} PointerOffsetsRun(fs: seq<Field>, n: nat)
    ensures PointerOffsets(fs + Repeat(PointerField, n)) ==
            PointerOffsets(fs) + PointerRun(RoundUp(EndOffset(fs), 8), n)
  {
    hide EndOffset, PointerOffsets, RoundUp, Alignment;
    if n == 0 {
      assert fs + Repeat(PointerField, 0) == fs;
      assert PointerOffsets(fs) + PointerRun(RoundUp(EndOffset(fs), 8), 0) == PointerOffsets(fs);
    } else {
      var before := fs + Repeat(PointerField, n - 1);
      PointerOffsetsRun(fs, n - 1);
      assert fs + Repeat(PointerField, n) == before + [PointerField];
      EndOffsetSnoc(before, PointerField);
      EndOffsetRepeat(fs, PointerField, n);
      PointerRunSnoc(RoundUp(EndOffset(fs), 8), n);
    }
  }

  lemma {:induction false} OtherRun(fs: seq<Field>, f: Field, n: nat)
    requires !f.PointerField?
    ensures PointerOffsets(fs + Repeat(f, n)) == PointerOffsets(fs)
  {
    if n == 0 {
      assert fs + Repeat(f, 0) == fs;
    } else {
      OtherRun(fs, f, n - 1);
      assert fs + Repeat(f, n) == (fs + Repeat(f, n - 1)) + [f];
      EndOffsetSnoc(fs + Repeat(f, n - 1), f);
    }
  }

  // ---------------------------------------------------------------- compaction of trailing fours

  /** Fours at the end of a sequence of parts. */
  function TrailingFours(ps: seq<Part>): (n: nat)
    ensures n <= |ps|
  {
    if ps == [] || ps[|ps| - 1] != FOUR_BYTES then 0 else 1 + TrailingFours(ps[..|ps| - 1])
  }

  lemma {:induction false} TrailingFoursRun(done: seq<Part>, n: nat)
    requires done != [] ==> done[|done| - 1] != FOUR_BYTES
    ensures TrailingFours(done + Parts(FOUR_BYTES, n)) == n
  {
    var ps := done + Parts(FOUR_BYTES, n);
    if n == 0 {
      assert ps == done;
    } else {
      assert ps[..|ps| - 1] == done + Parts(FOUR_BYTES, n - 1);
      TrailingFoursRun(done, n - 1);
    }
  }

  /** Pairs of trailing fours become eights; an odd one stays in front of them. */
  function CompactParts(ps: seq<Part>): seq<Part> {
    var n := TrailingFours(ps);
    ps[..|ps| - n] + Parts(FOUR_BYTES, n % 2) + Parts(EIGHT_BYTES, n / 2)
  }

  lemma CompactPartsRun(done: seq<Part>, n: nat)
    requires done != [] ==> done[|done| - 1] != FOUR_BYTES
    ensures CompactParts(done + Parts(FOUR_BYTES, n)) == done + Parts(FOUR_BYTES, n % 2) + Parts(EIGHT_BYTES, n / 2)
  {
    TrailingFoursRun(done, n);
    var ps := done + Parts(FOUR_BYTES, n);
    assert ps[..|ps| - n] == done;
  }

  /** Behind a multiple of 8, compaction keeps the end offset rounded to 8, and the pointers. */
  lemma CompactKeepsLayout(done: seq<Part>, n: nat)
    requires done != [] ==> done[|done| - 1] != FOUR_BYTES
    requires EndOffset(PartFields(done)) % 8 == 0
    ensures var compacted := CompactParts(done + Parts(FOUR_BYTES, n));
            && RoundUp(EndOffset(PartFields(compacted)), 8) == RoundUp(EndOffset(PartFields(done)) + 4 * n, 8)
            && PointerOffsets(PartFields(compacted)) == PointerOffsets(PartFields(done))
  {
    hide EndOffset, RoundUp, PointerOffsets, PartFields, CompactParts, Parts;
    CompactPartsRun(done, n);
    var mid := done + Parts(FOUR_BYTES, n % 2);
    PartsRunEnd(done, FOUR_BYTES, n % 2);
    PartsRunEnd(mid, EIGHT_BYTES, n / 2);
    RunKeepsPointers(done, FOUR_BYTES, n % 2);
    RunKeepsPointers(mid, EIGHT_BYTES, n / 2);
    CompactArithmetic(EndOffset(PartFields(done)), n);
  }

  /** With its pairs of trailing fours lost, a vector is behind where it should be. */
  lemma DroppedBehind(done: seq<Part>, n: nat)
    requires EndOffset(PartFields(done)) % 8 == 0 && n >= 2
    ensures var rest := done + Parts(FOUR_BYTES, n % 2);
            && RoundUp(EndOffset(PartFields(rest)), 8) < RoundUp(EndOffset(PartFields(done)) + 4 * n, 8)
            && PointerOffsets(PartFields(rest)) == PointerOffsets(PartFields(done))
  {
    hide EndOffset, RoundUp, PointerOffsets, PartFields, Parts;
    PartsRunEnd(done, FOUR_BYTES, n % 2);
    RunKeepsPointers(done, FOUR_BYTES, n % 2);
    DroppedArithmetic(EndOffset(PartFields(done)), n);
  }

  lemma DroppedArithmetic(v: nat, n: nat)
    requires v % 8 == 0 && n >= 2
    ensures RoundUp(if n % 2 == 0 then v else RoundUp(v, 4) + 4, 8) < RoundUp(v + 4 * n, 8)
  {
    AlignedStays(v);
    RoundUpShift(v, if n % 2 == 0 then 0 else 4, 8);
    RoundUpShift(v, 4 * n, 8);
  }

  lemma CompactArithmetic(v: nat, n: nat)
    requires v % 8 == 0
    ensures var mid := if n % 2 == 0 then v else RoundUp(v, 4) + 4;
            var end := if n / 2 == 0 then mid else RoundUp(mid, 8) + n / 2 * 8;
            RoundUp(end, 8) == RoundUp(v + 4 * n, 8)
  {
    var q := v / 8;
    assert v == 8 * q && n == 2 * (n / 2) + n % 2;
  }

  lemma RunKeepsPointers(ps: seq<Part>, p: Part, n: nat)
    requires p != POINTER_BYTES
    ensures PointerOffsets(PartFields(ps + Parts(p, n))) == PointerOffsets(PartFields(ps))
  {
    PartFieldsAppend(ps, Parts(p, n));
    PartFieldsRun(p, n);
    OtherRun(PartFields(ps), PartField(p), n);
  }

  // ---------------------------------------------------------------- vector and struct, side by side

  /**
   `done` are the parts up to the last 8-byte one; the vector is never ahead of the struct, is
   level with it exactly when no parts were lost and all finished segments agree, and then has the
   same pointers.
   */
  ghost predicate Mirrors(fs: seq<Field>, done: seq<Part>, lossless: bool) {
    && (done != [] ==> done[|done| - 1] != FOUR_BYTES)
    && (done == [] ==> LastSegment(fs) == fs)
    && EndOffset(PartFields(done)) % 8 == 0
    && EndOffset(PartFields(done)) <= SegmentStart(fs)
    && (EndOffset(PartFields(done)) == SegmentStart(fs) <==> lossless && AgreeBefore(fs))
    && (lossless && AgreeBefore(fs) ==> PointerOffsets(PartFields(done)) == PointerOffsets(fs))
  }

  /** What a run of small members adds. */
  lemma {:induction false} SmallRun(fs: seq<Field>, f: Field, n: nat)
    requires IsSmall(f)
    ensures var fs', seg, seg' := fs + Repeat(f, n), LastSegment(fs), LastSegment(fs + Repeat(f, n));
            && seg' == seg + Repeat(f, n)
            && CountChars(seg') == CountChars(seg) + (if f.CharField? then n else 0)
            && CountFours(seg') == CountFours(seg) + (if f.FourField? then n else 0)
            && AgreeBefore(fs') == AgreeBefore(fs)
            && SegmentStart(fs') == SegmentStart(fs)
            && PointerOffsets(fs') == PointerOffsets(fs)
  {
    hide EndOffset, PointerOffsets, AgreeBefore, SegmentStart, LastSegment, CountChars, CountFours;
    if n == 0 {
      assert fs + Repeat(f, 0) == fs;
    } else {
      SmallRun(fs, f, n - 1);
      SnocSmall(fs + Repeat(f, n - 1), f);
      assert fs + Repeat(f, n) == (fs + Repeat(f, n - 1)) + [f];
    }
  }

  /** Small members change nothing before the segment. */
  lemma MirrorsSmall(fs: seq<Field>, done: seq<Part>, lossless: bool, f: Field, n: nat)
    requires IsSmall(f) && Mirrors(fs, done, lossless)
    ensures Mirrors(fs + Repeat(f, n), done, lossless)
  {
    SmallRun(fs, f, n);
  }

  /** What a run of 8-byte members does. */
  lemma {:induction false} WideRun(fs: seq<Field>, f: Field, n: nat)
    requires !IsSmall(f) && n > 0
    ensures var fs' := fs + Repeat(f, n);
            && LastSegment(fs') == []
            && AgreeBefore(fs') == AllAgree(fs)
            && SegmentStart(fs') == RoundUp(EndOffset(fs), 8) + 8 * n
  {
    hide EndOffset, RoundUp, LastSegment, AgreeBefore, SegmentStart, Repeat, Agrees, PackedBytes;
    var before := fs + Repeat(f, n - 1);
    RepeatSnoc(fs, f, n);
    SnocWide(before, f);
    EndOffsetRepeat(fs, f, n);
    if n > 1 {
      WideRun(fs, f, n - 1);
      EmptyAgrees();
    }
  }

  lemma RepeatSnoc(fs: seq<Field>, f: Field, n: nat)
    requires n > 0
    ensures fs + Repeat(f, n) == (fs + Repeat(f, n - 1)) + [f]
    ensures fs + Repeat(f, 0) == fs
  {
  }

  lemma EmptyAgrees()
    ensures Agrees([])
  {
  }

  /** The struct's share of a segment is at least the vector's, both rounded to 8. */
  lemma SegmentShares(fs: seq<Field>)
    ensures RoundUp(EndOffset(fs), 8) == SegmentStart(fs) + RoundUp(EndOffset(LastSegment(fs)), 8)
    ensures RoundUp(PackedBytes(LastSegment(fs)), 8) <= RoundUp(EndOffset(LastSegment(fs)), 8)
  {
    SegmentShift(fs);
    RoundUpShift(SegmentStart(fs), EndOffset(LastSegment(fs)), 8);
    LastSegmentSmall(fs);
    PackedIsLess(LastSegment(fs));
    RoundUpMonotone(PackedBytes(LastSegment(fs)), EndOffset(LastSegment(fs)));
  }

  lemma RoundUpMonotone(x: nat, y: nat)
    requires x <= RoundUp(y, 4)
    ensures RoundUp(x, 8) <= RoundUp(y, 8)
  {
    RoundUpOctuple(y);
    hide RoundUp;
    RoundUpIsLeast(y, 4, RoundUp(y, 8));
    RoundUpIsLeast(x, 8, RoundUp(y, 8));
  }

  lemma RoundUpOctuple(y: nat)
    ensures RoundUp(y, 8) % 8 == 0 && RoundUp(y, 8) % 4 == 0 && y <= RoundUp(y, 8)
  {
    var m := (y + 7) / 8;
    assert RoundUp(y, 8) == 8 * m && 8 * m == 4 * (2 * m);
  }

  /**
   `parts` hold everything up to and including the flushed segment, or less if some were lost;
   then come `n` parts of 8 bytes.
   */
  lemma MirrorsWide(fs: seq<Field>, done: seq<Part>, lossless: bool, parts: seq<Part>, lost: bool, p: Part, n: nat)
    requires p != FOUR_BYTES && n > 0 && Mirrors(fs, done, lossless)
    requires var flushed := RoundUp(EndOffset(PartFields(done)) + PackedBytes(LastSegment(fs)), 8);
             if lost then RoundUp(EndOffset(PartFields(parts)), 8) < flushed
             else RoundUp(EndOffset(PartFields(parts)), 8) == flushed
    requires PointerOffsets(PartFields(parts)) == PointerOffsets(PartFields(done))
    ensures Mirrors(fs + Repeat(PartField(p), n), parts + Parts(p, n), lossless && !lost)
    ensures LastSegment(fs + Repeat(PartField(p), n)) == []
  {
    hide LastSegment, AgreeBefore, SegmentStart, PointerOffsets, EndOffset, PackedBytes;
    WideRun(fs, PartField(p), n);
    SegmentShares(fs);
    PartsRunEnd(parts, p, n);
    RoundUpShift(EndOffset(PartFields(done)), PackedBytes(LastSegment(fs)), 8);
    WidePointers(fs, parts, p, n);
  }

  /** Both sides append the same run of pointers, at their own offset. */
  lemma WidePointers(fs: seq<Field>, parts: seq<Part>, p: Part, n: nat)
    requires p != FOUR_BYTES
    ensures PointerOffsets(fs) == PointerOffsets(PartFields(parts)) &&
            RoundUp(EndOffset(fs), 8) == RoundUp(EndOffset(PartFields(parts)), 8) ==>
              PointerOffsets(fs + Repeat(PartField(p), n)) == PointerOffsets(PartFields(parts + Parts(p, n)))
  {
    PartFieldsAppend(parts, Parts(p, n));
    PartFieldsRun(p, n);
    if p == POINTER_BYTES {
      PointerOffsetsRun(fs, n);
      PointerOffsetsRun(PartFields(parts), n);
    } else {
      OtherRun(fs, PartField(p), n);
      OtherRun(PartFields(parts), PartField(p), n);
    }
  }

  /** Flushing the pending chars behind the fours of the segment. */
  lemma FlushedEnd(fs: seq<Field>, done: seq<Part>)
    requires EndOffset(PartFields(done)) % 8 == 0
    ensures var n := CountFours(LastSegment(fs)) + PartsForBytes(CountChars(LastSegment(fs)));
            && RoundUp(EndOffset(PartFields(done + Parts(FOUR_BYTES, n))), 8) ==
               RoundUp(EndOffset(PartFields(done)) + PackedBytes(LastSegment(fs)), 8)
            && PointerOffsets(PartFields(done + Parts(FOUR_BYTES, n))) == PointerOffsets(PartFields(done))
  {
    var n := CountFours(LastSegment(fs)) + PartsForBytes(CountChars(LastSegment(fs)));
    PartsRunEnd(done, FOUR_BYTES, n);
    RunKeepsPointers(done, FOUR_BYTES, n);
    hide EndOffset, PartFields, LastSegment, CountChars, CountFours, RoundUp;
    AlignedStays(EndOffset(PartFields(done)));
  }

  lemma AlignedStays(x: nat)
    requires x % 8 == 0
    ensures RoundUp(x, 4) == x
  {
  }

  /** An 8-byte member makes the struct, and the vector, a multiple of 8. */
  lemma {:induction false} WideAlignment(fs: seq<Field>)
    ensures (exists i :: 0 <= i < |fs| && !IsSmall(fs[i])) ==> Alignment(fs) == 8
  {
    if fs != [] {
      WideAlignment(fs[..|fs| - 1]);
    }
  }

  lemma FinishedAlignment(fs: seq<Field>, done: seq<Part>, lossless: bool, ps: seq<Part>)
    requires Mirrors(fs, done, lossless) && |done| <= |ps| && ps[..|done|] == done
    requires exists i :: 0 <= i < |fs| && !IsSmall(fs[i])
    ensures Alignment(fs) == 8 && Alignment(PartFields(ps)) == 8
  {
    WideAlignment(fs);
    LastSegmentSmall(fs);
    var k := |done| - 1;
    assert !IsSmall(PartFields(ps)[k]);
    WideAlignment(PartFields(ps));
  }

  /**
   The finished vector. Its size is that of the struct exactly when no parts were lost and all
   segments agree, it is never larger, and then the pointers are where the struct has them.
   */
  lemma FinishedLayout(fs: seq<Field>, done: seq<Part>, lossless: bool, ps: seq<Part>)
    requires Mirrors(fs, done, lossless)
    requires ps == done + Parts(FOUR_BYTES, CountFours(LastSegment(fs)) + PartsForBytes(CountChars(LastSegment(fs))))
    requires exists i :: 0 <= i < |fs| && !IsSmall(fs[i])
    ensures PartsSize(ps) <= StructSize(fs)
    ensures PartsSize(ps) == StructSize(fs) <==> lossless && AllAgree(fs)
    ensures lossless && AllAgree(fs) ==> PointerOffsets(PartFields(ps)) == PointerOffsets(fs)
  {
    hide *;
    assert ps[..|done|] == done;
    FinishedAlignment(fs, done, lossless, ps);
    AlignedSizes(fs, ps);
    MirrorsFacts(fs, done, lossless);
    FlushedEnd(fs, done);
    FinishedSizes(fs, done, lossless);
    AgreeMeaning(fs);
  }

  lemma FinishedSizes(fs: seq<Field>, done: seq<Part>, lossless: bool)
    requires Mirrors(fs, done, lossless)
    ensures var size := RoundUp(EndOffset(PartFields(done)) + PackedBytes(LastSegment(fs)), 8);
            && size <= RoundUp(EndOffset(fs), 8)
            && (size == RoundUp(EndOffset(fs), 8) <==> lossless && AllAgree(fs))
  {
    hide *;
    MirrorsFacts(fs, done, lossless);
    SegmentShares(fs);
    AgreeMeaning(fs);
    RoundUpShift(EndOffset(PartFields(done)), PackedBytes(LastSegment(fs)), 8);
  }

  lemma MirrorsFacts(fs: seq<Field>, done: seq<Part>, lossless: bool)
    requires Mirrors(fs, done, lossless)
    ensures EndOffset(PartFields(done)) % 8 == 0 && EndOffset(PartFields(done)) <= SegmentStart(fs)
    ensures EndOffset(PartFields(done)) == SegmentStart(fs) <==> lossless && AgreeBefore(fs)
    ensures lossless && AgreeBefore(fs) ==> PointerOffsets(PartFields(done)) == PointerOffsets(fs)
    ensures done != [] ==> done[|done| - 1] != FOUR_BYTES
  {
  }

  lemma AgreeMeaning(fs: seq<Field>)
    ensures AllAgree(fs) <==> AgreeBefore(fs) && Agrees(LastSegment(fs))
    ensures Agrees(LastSegment(fs)) <==>
            RoundUp(PackedBytes(LastSegment(fs)), 8) == RoundUp(EndOffset(LastSegment(fs)), 8)
  {
  }

  lemma AlignedSizes(fs: seq<Field>, ps: seq<Part>)
    requires Alignment(fs) == 8 && Alignment(PartFields(ps)) == 8
    ensures StructSize(fs) == RoundUp(EndOffset(fs), 8)
    ensures PartsSize(ps) == RoundUp(EndOffset(PartFields(ps)), 8)
  {
  }

  // ---------------------------------------------------------------- when segments agree

  /** Chars only before, or only behind, the 4-byte members of a segment agree. */
  lemma OneSidedAgrees(chars: nat, fours: nat)
    ensures Agrees(Repeat(CharField, chars) + Repeat(FourField, fours))
    ensures Agrees(Repeat(FourField, fours) + Repeat(CharField, chars))
  {
    hide EndOffset, CountChars, CountFours, RoundUp, PartsForBytes, Repeat;
    CountRuns(chars, fours);
    CharsThenFours(chars, fours);
    FoursThenChars(chars, fours);
    OneSidedArithmetic(chars, fours);
  }

  lemma CharsThenFours(chars: nat, fours: nat)
    ensures EndOffset(Repeat(CharField, chars) + Repeat(FourField, fours)) ==
            if fours == 0 then chars else RoundUp(chars, 4) + fours * 4
  {
    hide EndOffset, Repeat;
    TwoRunsEnd(CharField, chars, FourField, fours);
  }

  lemma FoursThenChars(chars: nat, fours: nat)
    ensures EndOffset(Repeat(FourField, fours) + Repeat(CharField, chars)) ==
            if chars == 0 then fours * 4 else fours * 4 + chars
  {
    hide EndOffset, Repeat;
    TwoRunsEnd(FourField, fours, CharField, chars);
  }

  lemma TwoRunsEnd(f: Field, n: nat, g: Field, m: nat)
    ensures var mid := if n == 0 then 0 else RoundUp(0, f.Bytes()) + n * f.Bytes();
            EndOffset(Repeat(f, n) + Repeat(g, m)) == if m == 0 then mid else RoundUp(mid, g.Bytes()) + m * g.Bytes()
  {
    hide RoundUp, Alignment, EndOffset;
    EmptyFirst(f, n);
    EndOffsetRepeat([], f, n);
    EndOffsetRepeat(Repeat(f, n), g, m);
  }

  lemma EmptyFirst(f: Field, n: nat)
    ensures [] + Repeat(f, n) == Repeat(f, n)
    ensures EndOffset([]) == 0 && (n == 0 ==> Repeat(f, n) == [])
  {
  }

  /** Rounding to 4 first makes no difference to rounding to 8. */
  lemma RoundTwice(x: nat)
    ensures RoundUp(RoundUp(x, 4), 8) == RoundUp(x, 8)
  {
    var r := x % 8;
    RoundSmall(r);
    hide RoundUp;
    RoundUpShift(x - r, r, 4);
    RoundUpShift(x - r, RoundUp(r, 4), 8);
    RoundUpShift(x - r, r, 8);
  }

  lemma RoundSmall(r: nat)
    requires r < 8
    ensures RoundUp(RoundUp(r, 4), 8) == RoundUp(r, 8)
  {
    assert RoundUp(r, 4) == if r == 0 then 0 else if r <= 4 then 4 else 8;
  }

  lemma OneSidedArithmetic(chars: nat, fours: nat)
    ensures var packed := 4 * (fours + PartsForBytes(chars));
            && RoundUp(packed, 8) == RoundUp(if fours == 0 then chars else RoundUp(chars, 4) + fours * 4, 8)
            && RoundUp(packed, 8) == RoundUp(if chars == 0 then fours * 4 else fours * 4 + chars, 8)
  {
    QuarterShift(fours, chars + 3);
    assert RoundUp(4 * fours + chars, 4) == 4 * (fours + PartsForBytes(chars));
    RoundTwice(4 * fours + chars);
    assert RoundUp(chars, 4) == 4 * PartsForBytes(chars);
    RoundTwice(chars);
    hide RoundUp, PartsForBytes;
  }

  lemma {:induction false} CountAppend(fs: seq<Field>, f: Field, n: nat)
    ensures CountChars(fs + Repeat(f, n)) == CountChars(fs) + if f.CharField? then n else 0
    ensures CountFours(fs + Repeat(f, n)) == CountFours(fs) + if f.FourField? then n else 0
  {
    if n == 0 {
      assert fs + Repeat(f, 0) == fs;
    } else {
      CountAppend(fs, f, n - 1);
      var before := fs + Repeat(f, n - 1);
      assert fs + Repeat(f, n) == before + [f];
      assert (before + [f])[..|before|] == before;
    }
  }

  lemma CountRuns(chars: nat, fours: nat)
    ensures CountChars(Repeat(CharField, chars) + Repeat(FourField, fours)) == chars
    ensures CountFours(Repeat(CharField, chars) + Repeat(FourField, fours)) == fours
    ensures CountChars(Repeat(FourField, fours) + Repeat(CharField, chars)) == chars
    ensures CountFours(Repeat(FourField, fours) + Repeat(CharField, chars)) == fours
  {
    CountAppend([], CharField, chars);
    CountAppend([], FourField, fours);
    assert [] + Repeat(CharField, chars) == Repeat(CharField, chars);
    assert [] + Repeat(FourField, fours) == Repeat(FourField, fours);
    CountAppend(Repeat(CharField, chars), FourField, fours);
    CountAppend(Repeat(FourField, fours), CharField, chars);
  }
}

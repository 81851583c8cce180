/**
 What dropping parts from the front of a vector does to its layout. A word holds the last 32 parts
 that were pushed, and a header the last 30.
 */
module PartWindow {
  import opened Layout
  import opened PartCodec
  import opened VectorReader
  import opened PartLayout
  import opened FormatEncoding

  // ---------------------------------------------------------------- dropping one part

  /** 4-byte parts in front of the first wide one. */
  function LeadingFours(ps: seq<Part>): (n: nat)
    ensures n <= |ps|
  {
    if ps == [] || ps[0] != FOUR_BYTES then 0 else 1 + LeadingFours(ps[1..])
  }

  predicate HasWide(ps: seq<Part>) {
    LeadingFours(ps) < |ps|
  }

  /** Half of the fours in front fill whole 8-byte slots, so the padding absorbs the loss of one. */
  predicate EvenLead(ps: seq<Part>) {
    LeadingFours(ps) > 0 && LeadingFours(ps) % 2 == 0
  }

  lemma {:induction false} LeadingSplit(ps: seq<Part>)
    requires HasWide(ps)
    ensures var k := LeadingFours(ps);
            ps[..k] == Parts(FOUR_BYTES, k) && ps[k] != FOUR_BYTES
  {
    if ps[0] == FOUR_BYTES {
      LeadingSplit(ps[1..]);
      var k := LeadingFours(ps[1..]);
      assert ps[..k + 1] == [ps[0]] + ps[1..][..k];
    }
  }

  lemma {:induction false} LeadingAppend(ps: seq<Part>, qs: seq<Part>)
    ensures HasWide(ps) ==> LeadingFours(ps + qs) == LeadingFours(ps) && HasWide(ps + qs)
    ensures !HasWide(ps) ==> LeadingFours(ps + qs) == |ps| + LeadingFours(qs)
  {
    if ps == [] {
      assert ps + qs == qs;
    } else {
      assert (ps + qs)[1..] == ps[1..] + qs;
      if ps[0] == FOUR_BYTES {
        LeadingAppend(ps[1..], qs);
      }
    }
  }

  lemma {:induction false} LeadingRun(n: nat)
    ensures LeadingFours(Parts(FOUR_BYTES, n)) == n
  {
    if n > 0 {
      LeadingRun(n - 1);
      assert Parts(FOUR_BYTES, n)[1..] == Parts(FOUR_BYTES, n - 1);
    }
  }

  /** Bytes by which everything moves up when the first part is dropped. */
  function FrontLoss(ps: seq<Part>): nat {
    if EvenLead(ps) then 0 else 8
  }

  /** The layout of parts whose first one was dropped. */
  ghost predicate Shifts(ps: seq<Part>) {
    && ps != []
    && EndOffset(PartFields(ps)) == EndOffset(PartFields(ps[1..])) + FrontLoss(ps)
    && (EvenLead(ps) ==> PointerOffsets(PartFields(ps)) == PointerOffsets(PartFields(ps[1..])))
  }

  lemma LeadOfFirst(k: nat, w: Part)
    requires w != FOUR_BYTES
    ensures LeadingFours(Parts(FOUR_BYTES, k) + [w]) == k
    ensures k > 0 ==> (Parts(FOUR_BYTES, k) + [w])[1..] == Parts(FOUR_BYTES, k - 1) + [w]
    ensures k == 0 ==> (Parts(FOUR_BYTES, k) + [w])[1..] == []
  {
    LeadingRun(k);
    LeadingAppend(Parts(FOUR_BYTES, k), [w]);
  }

  lemma NoParts()
    ensures EndOffset(PartFields([])) == 0 && PointerOffsets(PartFields([])) == []
  {
  }

  lemma ShiftsFirst(k: nat, w: Part)
    requires w != FOUR_BYTES
    ensures Shifts(Parts(FOUR_BYTES, k) + [w])
  {
    hide EndOffset, PartFields, PointerOffsets, LeadingFours, Parts, RoundUp;
    LeadOfFirst(k, w);
    FoursThenWide(k, w);
    EvenFoursEnd(k);
    if k > 0 {
      FoursThenWide(k - 1, w);
      EvenFoursEnd(k - 1);
    } else {
      NoParts();
    }
  }

  lemma EvenFoursEnd(k: nat)
    ensures RoundUp(4 * k, 8) == if k % 2 == 0 then 4 * k else 4 * k + 4
  {
    if k % 2 == 0 {
      assert 4 * k == 8 * (k / 2);
    } else {
      assert 4 * k == 8 * (k / 2) + 4;
    }
  }

  lemma FoursThenWide(k: nat, w: Part)
    requires w != FOUR_BYTES
    ensures EndOffset(PartFields(Parts(FOUR_BYTES, k) + [w])) == RoundUp(4 * k, 8) + 8
    ensures PointerOffsets(PartFields(Parts(FOUR_BYTES, k) + [w])) ==
            if w == POINTER_BYTES then [RoundUp(4 * k, 8)] else []
  {
    var fours := Parts(FOUR_BYTES, k);
    FoursAlone(k);
    PartFieldsSnoc(fours, w);
    hide EndOffset, PointerOffsets, PartFields, Parts, Alignment;
    EndOffsetSnoc(PartFields(fours), PartField(w));
  }

  lemma FoursAlone(k: nat)
    ensures EndOffset(PartFields(Parts(FOUR_BYTES, k))) == 4 * k
    ensures PointerOffsets(PartFields(Parts(FOUR_BYTES, k))) == []
  {
    PartsRunEnd([], FOUR_BYTES, k);
    RunKeepsPointers([], FOUR_BYTES, k);
    assert [] + Parts(FOUR_BYTES, k) == Parts(FOUR_BYTES, k);
    assert PartFields([]) == [];
  }

  lemma ShiftsSnoc(ps: seq<Part>, p: Part)
    requires Shifts(ps) && HasWide(ps)
    ensures Shifts(ps + [p])
  {
    hide EndOffset, PointerOffsets, PartFields, PartField, Alignment, LeadingFours, RoundUp;
    LeadingAppend(ps, [p]);
    assert (ps + [p])[1..] == ps[1..] + [p];
    hide HasWide;
    PartFieldsSnoc(ps, p);
    PartFieldsSnoc(ps[1..], p);
    EndOffsetSnoc(PartFields(ps), PartField(p));
    EndOffsetSnoc(PartFields(ps[1..]), PartField(p));
    RoundUpShift(FrontLoss(ps), EndOffset(PartFields(ps[1..])), PartField(p).Bytes());
  }

  /** Dropping the first part moves everything up by eight bytes, or by none when the lead is even. */
  lemma {:induction false} FrontShift(ps: seq<Part>)
    requires HasWide(ps)
    ensures Shifts(ps)
  {
    var k, init, last := LeadingFours(ps), ps[..|ps| - 1], ps[|ps| - 1];
    LeadingSplit(ps);
    assert ps == init + [last];
    if k == |ps| - 1 {
      ShiftsFirst(k, last);
    } else {
      LeadingAppend(init, [last]);
      FrontShift(init);
      ShiftsSnoc(init, last);
    }
  }

  // ---------------------------------------------------------------- dropping more

  function Rest(ps: seq<Part>, t: nat): seq<Part> {
    if t <= |ps| then ps[t..] else []
  }

  lemma {:induction false} SuffixEnd(ps: seq<Part>, t: nat)
    requires t <= |ps|
    ensures EndOffset(PartFields(ps[t..])) <= EndOffset(PartFields(ps))
  {
    if t < |ps| {
      var init, last := ps[..|ps| - 1], ps[|ps| - 1];
      SuffixEnd(init, t);
      assert ps == init + [last] && ps[t..] == init[t..] + [last];
      PartFieldsSnoc(init, last);
      PartFieldsSnoc(init[t..], last);
      EndOffsetSnoc(PartFields(init), PartField(last));
      EndOffsetSnoc(PartFields(init[t..]), PartField(last));
      hide EndOffset, PartFields, RoundUp;
      RoundUpOrder(EndOffset(PartFields(init[t..])), EndOffset(PartFields(init)), PartField(last).Bytes());
    } else {
      assert ps[t..] == [] && PartFields([]) == [];
    }
  }

  lemma RoundUpOrder(x: nat, y: nat, a: Amount)
    requires x <= y
    ensures RoundUp(x, a) <= RoundUp(y, a)
  {
  }

  predicate WideEnded(ps: seq<Part>) {
    ps == [] || ps[|ps| - 1] != FOUR_BYTES
  }

  lemma {:induction false} WideEndedHasWide(ps: seq<Part>)
    requires WideEnded(ps) && ps != []
    ensures HasWide(ps)
  {
    if ps[0] == FOUR_BYTES {
      WideEndedHasWide(ps[1..]);
    }
  }

  lemma WideEndedAligned(ps: seq<Part>)
    requires WideEnded(ps)
    ensures EndOffset(PartFields(ps)) % 8 == 0
  {
    if ps == [] {
      assert PartFields([]) == [];
    } else {
      var init, w := ps[..|ps| - 1], ps[|ps| - 1];
      assert ps == init + [w];
      PartFieldsSnoc(init, w);
      EndOffsetSnoc(PartFields(init), PartField(w));
    }
  }

  lemma LeadingTail(ps: seq<Part>)
    requires EvenLead(ps)
    ensures LeadingFours(ps[1..]) == LeadingFours(ps) - 1 && !EvenLead(ps[1..])
    ensures HasWide(ps) ==> HasWide(ps[1..])
  {
  }

  /** Dropping two parts or more is always noticed. */
  lemma DropTwo(ps: seq<Part>, t: nat)
    requires WideEnded(ps) && ps != [] && t >= 2
    ensures EndOffset(PartFields(Rest(ps, t))) + 8 <= EndOffset(PartFields(ps))
    ensures WideEnded(Rest(ps, t))
  {
    hide EndOffset, PartFields, LeadingFours, PointerOffsets;
    WideEndedHasWide(ps);
    FrontShift(ps);
    if EvenLead(ps) {
      LeadingTail(ps);
      FrontShift(ps[1..]);
      RestSuffix(ps[1..][1..], t - 2);
      RestTail(ps[1..], t - 1);
    } else {
      RestSuffix(ps[1..], t - 1);
    }
    RestTail(ps, t);
    RestWide(ps, t);
  }

  lemma RestSuffix(ps: seq<Part>, t: nat)
    ensures EndOffset(PartFields(Rest(ps, t))) <= EndOffset(PartFields(ps))
  {
    if t <= |ps| {
      SuffixEnd(ps, t);
    } else {
      assert PartFields([]) == [];
    }
  }

  lemma RestTail(ps: seq<Part>, t: nat)
    requires ps != [] && t >= 1
    ensures Rest(ps, t) == Rest(ps[1..], t - 1)
  {
    if t <= |ps| {
      assert ps[1..][t - 1..] == ps[t..];
    }
  }

  lemma RestWide(ps: seq<Part>, t: nat)
    requires WideEnded(ps)
    ensures WideEnded(Rest(ps, t))
  {
    if t < |ps| {
      assert ps[t..][|ps| - t - 1] == ps[|ps| - 1];
    }
  }

  // ---------------------------------------------------------------- what a window shows

  /** Parts up to the last wide one, and the fours behind them. */
  function Line(done: seq<Part>, fours: nat): seq<Part> {
    done + Parts(FOUR_BYTES, fours)
  }

  lemma CutLine(done: seq<Part>, fours: nat, t: nat)
    requires t <= |done| + fours
    ensures Line(done, fours)[t..] == Line(Rest(done, t), if t <= |done| then fours else fours - (t - |done|))
  {
  }

  /** `h` is behind the line by eight bytes or more. */
  ghost predicate Trails(h: seq<Part>, done: seq<Part>, fours: nat) {
    exists d: seq<Part>, j: nat :: TrailsBy(h, done, fours, d, j)
  }

  ghost predicate TrailsBy(h: seq<Part>, done: seq<Part>, fours: nat, d: seq<Part>, j: nat) {
    && h == Line(d, j)
    && WideEnded(d)
    && j <= fours
    && EndOffset(PartFields(d)) + 8 <= EndOffset(PartFields(done))
  }

  /** The window shows the line but for the `t` parts that were dropped; after two it is behind. */
  ghost predicate Shown(h: seq<Part>, done: seq<Part>, fours: nat, t: nat) {
    if t <= 1 then t <= |Line(done, fours)| && h == Line(done, fours)[t..] else Trails(h, done, fours)
  }

  lemma LineAppend(done: seq<Part>, fours: nat, n: nat)
    ensures Line(done, fours) + Parts(FOUR_BYTES, n) == Line(done, fours + n)
  {
  }

  lemma KeepSuffix(n: nat, ps: seq<Part>, t: nat, qs: seq<Part>)
    requires t <= |ps|
    ensures var after := Keep(n, ps[t..] + qs);
            after == (ps + qs)[|ps| + |qs| - |after|..]
  {
    assert ps[t..] + qs == (ps + qs)[t..];
  }

  /** Fours are pushed, or nothing is, and the window keeps its last `limit` parts. */
  lemma PushFoursShown(h: seq<Part>, done: seq<Part>, fours: nat, t: nat, n: nat, limit: nat)
    requires WideEnded(done) && Shown(h, done, fours, t)
    requires done == [] ==> |h| + n <= limit
    ensures var after := Keep(limit, h + Parts(FOUR_BYTES, n));
            Shown(after, done, fours + n, t + (|h| + n - |after|))
  {
    hide EndOffset, PartFields, WideEnded, Rest;
    var after := Keep(limit, h + Parts(FOUR_BYTES, n));
    if t <= 1 {
      LineAppend(done, fours, n);
      KeepSuffix(limit, Line(done, fours), t, Parts(FOUR_BYTES, n));
      var dropped := t + (|h| + n - |after|);
      assert after == Line(done, fours + n)[dropped..];
      if dropped >= 2 {
        CutLine(done, fours + n, dropped);
        DropTwo(done, dropped);
        assert TrailsBy(after, done, fours + n, Rest(done, dropped),
                        if dropped <= |done| then fours + n else fours + n - (dropped - |done|));
      }
    } else {
      var d: seq<Part>, j: nat :| TrailsBy(h, done, fours, d, j);
      TrailsPush(h, done, fours, d, j, n, limit);
    }
  }

  lemma TrailsPush(h: seq<Part>, done: seq<Part>, fours: nat, d: seq<Part>, j: nat, n: nat, limit: nat)
    requires TrailsBy(h, done, fours, d, j)
    ensures Trails(Keep(limit, h + Parts(FOUR_BYTES, n)), done, fours + n)
  {
    hide EndOffset, PartFields;
    var after := Keep(limit, h + Parts(FOUR_BYTES, n));
    var e := |h| + n - |after|;
    LineAppend(d, j, n);
    assert after == Line(d, j + n)[e..];
    CutLine(d, j + n, e);
    RestSuffix(d, e);
    assert TrailsBy(after, done, fours + n, Rest(d, e), if e <= |d| then j + n else j + n - (e - |d|));
  }

  /** The same before wide parts are pushed, when only the end offset rounded to 8 matters. */
  ghost predicate Ready(h: seq<Part>, ps: seq<Part>, t: nat) {
    if t <= 1 then t <= |ps| && h == ps[t..]
    else RoundUp(EndOffset(PartFields(h)), 8) + 8 <= RoundUp(EndOffset(PartFields(ps)), 8)
  }

  lemma LineEnd(done: seq<Part>, fours: nat)
    requires WideEnded(done)
    ensures EndOffset(PartFields(Line(done, fours))) == EndOffset(PartFields(done)) + 4 * fours
    ensures RoundUp(EndOffset(PartFields(Line(done, fours))), 8) ==
            EndOffset(PartFields(done)) + RoundUp(4 * fours, 8)
  {
    hide EndOffset, PartFields, RoundUp, Parts;
    WideEndedAligned(done);
    PartsRunEnd(done, FOUR_BYTES, fours);
    AlignedStays(EndOffset(PartFields(done)));
    RoundUpShift(EndOffset(PartFields(done)), 4 * fours, 8);
  }

  lemma TrailsRounded(h: seq<Part>, done: seq<Part>, fours: nat)
    requires WideEnded(done) && Trails(h, done, fours)
    ensures RoundUp(EndOffset(PartFields(h)), 8) + 8 <= RoundUp(EndOffset(PartFields(Line(done, fours))), 8)
  {
    hide EndOffset, PartFields, RoundUp, Line;
    var d: seq<Part>, j: nat :| TrailsBy(h, done, fours, d, j);
    LineEnd(d, j);
    LineEnd(done, fours);
    RoundUpOrder(4 * j, 4 * fours, 8);
  }

  lemma ShownReady(h: seq<Part>, done: seq<Part>, fours: nat, t: nat)
    requires WideEnded(done) && Shown(h, done, fours, t)
    ensures Ready(h, Line(done, fours), t)
  {
    hide EndOffset, PartFields, RoundUp, Line, Trails;
    if t >= 2 {
      TrailsRounded(h, done, fours);
    }
  }

  /** What compaction makes of a line. */
  function Compacted(ps: seq<Part>, lost: bool): seq<Part> {
    if lost then Unpaired(ps) else CompactParts(ps)
  }

  lemma CompactedLine(done: seq<Part>, fours: nat, lost: bool)
    requires WideEnded(done)
    ensures TrailingFours(Line(done, fours)) == fours
    ensures Compacted(Line(done, fours), lost) ==
            Line(done, fours % 2) + Parts(EIGHT_BYTES, if lost then 0 else fours / 2)
  {
    TrailingFoursRun(done, fours);
    CompactPartsRun(done, fours);
    var ps := Line(done, fours);
    assert ps[..|ps| - fours] == done;
  }

  /** The end of a compacted line, rounded to 8: no more than before, and the same when nothing is lost. */
  lemma CompactedEnd(done: seq<Part>, fours: nat, lost: bool)
    requires WideEnded(done)
    ensures RoundUp(EndOffset(PartFields(Compacted(Line(done, fours), lost))), 8) <=
            EndOffset(PartFields(done)) + RoundUp(4 * fours, 8)
    ensures !lost ==> RoundUp(EndOffset(PartFields(Compacted(Line(done, fours), lost))), 8) ==
                      EndOffset(PartFields(done)) + RoundUp(4 * fours, 8)
  {
    hide EndOffset, PartFields, RoundUp, CompactParts, Unpaired, TrailingFours;
    WideEndedAligned(done);
    if lost {
      CompactedLine(done, fours, true);
      AppendNothing(Line(done, fours % 2), EIGHT_BYTES);
      LineEnd(done, fours % 2);
      RoundUpOrder(4 * (fours % 2), 4 * fours, 8);
    } else {
      CompactKeepsLayout(done, fours);
      RoundUpShift(EndOffset(PartFields(done)), 4 * fours, 8);
    }
  }

  lemma AppendNothing(ps: seq<Part>, p: Part)
    ensures ps + Parts(p, 0) == ps
  {
  }

  /** Compaction sees the same trailing fours in the window as in the line, as long as one part at most is missing. */
  lemma CompactShown(h: seq<Part>, done: seq<Part>, fours: nat, t: nat, lost: bool)
    requires WideEnded(done) && Shown(h, done, fours, t) && (t > 0 ==> done != [])
    ensures t <= 1 ==> TrailingFours(h) == fours
    ensures Ready(Compacted(h, lost), Compacted(Line(done, fours), lost && t <= 1), t)
  {
    hide EndOffset, PartFields, RoundUp, CompactParts, Unpaired, TrailingFours, Compacted;
    if t <= 1 {
      CutLine(done, fours, t);
      CompactedLine(done, fours, lost);
      CompactedLine(Rest(done, t), fours, lost);
      TailOfSum(done, t, Parts(FOUR_BYTES, fours % 2), Parts(EIGHT_BYTES, if lost then 0 else fours / 2));
    } else {
      CompactTrails(h, done, fours, lost);
    }
  }

  lemma TailOfSum(a: seq<Part>, t: nat, b: seq<Part>, c: seq<Part>)
    requires t <= |a|
    ensures t <= |a + b + c| && (a + b + c)[t..] == Rest(a, t) + b + c
  {
  }

  lemma CompactTrails(h: seq<Part>, done: seq<Part>, fours: nat, lost: bool)
    requires WideEnded(done) && Trails(h, done, fours)
    ensures RoundUp(EndOffset(PartFields(Compacted(h, lost))), 8) + 8 <=
            RoundUp(EndOffset(PartFields(Compacted(Line(done, fours), false))), 8)
  {
    hide EndOffset, PartFields, RoundUp, CompactParts, Unpaired, TrailingFours, Compacted, Line, WideEnded;
    var d: seq<Part>, j: nat :| TrailsBy(h, done, fours, d, j);
    CompactedEnd(d, j, lost);
    CompactedEnd(done, fours, false);
    RoundUpOrder(4 * j, 4 * fours, 8);
  }

  /** Wide parts are pushed. */
  lemma PushWidesShown(h: seq<Part>, ps: seq<Part>, t: nat, w: Part, n: nat, limit: nat)
    requires w != FOUR_BYTES && n > 0 && limit > 0 && Ready(h, ps, t)
    ensures var after := Keep(limit, h + Parts(w, n));
            Shown(after, ps + Parts(w, n), 0, t + (|h| + n - |after|))
  {
    hide EndOffset, PartFields, RoundUp;
    var after, done := Keep(limit, h + Parts(w, n)), ps + Parts(w, n);
    var dropped := t + (|h| + n - |after|);
    AppendNothing(done, FOUR_BYTES);
    AppendNothing(after, FOUR_BYTES);
    if t <= 1 {
      KeepSuffix(limit, ps, t, Parts(w, n));
      if dropped >= 2 {
        DropTwo(done, dropped);
        assert TrailsBy(after, done, 0, after, 0);
      }
    } else {
      PartsRunEnd(h, w, n);
      PartsRunEnd(ps, w, n);
      SuffixEnd(h + Parts(w, n), |h| + n - |after|);
      assert TrailsBy(after, done, 0, after, 0);
    }
  }

  // ---------------------------------------------------------------- the front of the struct

  /** Index of the first 8-byte member, or the number of members when there is none. */
  function FirstWide(fs: seq<Field>): (i: nat)
    ensures i <= |fs|
    ensures i < |fs| ==> !IsSmall(fs[i])
  {
    if fs == [] || !IsSmall(fs[0]) then 0 else 1 + FirstWide(fs[1..])
  }

  /**
   The first 8-byte member is a pointer, and the members before it take an even number of 4-byte
   parts, but not none. Then the vector can do without its first part.
   */
  predicate EvenFront(fs: seq<Field>) {
    var i := FirstWide(fs);
    && i < |fs| && fs[i].PointerField?
    && FrontParts(fs[..i]) > 0 && FrontParts(fs[..i]) % 2 == 0
  }

  /** 4-byte parts that members take in front of a pointer. */
  function FrontParts(seg: seq<Field>): nat {
    CountFours(seg) + PartsForBytes(CountChars(seg))
  }

  ghost predicate FrontKnown(fs: seq<Field>, done: seq<Part>) {
    done != [] ==> FirstWide(fs) < |fs| && (EvenLead(done) <==> EvenFront(fs))
  }

  lemma {:induction false} FirstWideAppend(fs: seq<Field>, gs: seq<Field>)
    ensures FirstWide(fs) < |fs| ==> FirstWide(fs + gs) == FirstWide(fs)
    ensures FirstWide(fs) == |fs| ==> FirstWide(fs + gs) == |fs| + FirstWide(gs)
  {
    if fs == [] {
      assert fs + gs == gs;
    } else {
      assert (fs + gs)[1..] == fs[1..] + gs;
      if IsSmall(fs[0]) {
        FirstWideAppend(fs[1..], gs);
      }
    }
  }

  lemma {:induction false} AllSmallFirst(fs: seq<Field>)
    requires forall i :: 0 <= i < |fs| ==> IsSmall(fs[i])
    ensures FirstWide(fs) == |fs|
  {
    if fs != [] {
      AllSmallFirst(fs[1..]);
    }
  }

  /** Once there is a wide member, the front does not change. */
  lemma FrontStays(fs: seq<Field>, gs: seq<Field>, done: seq<Part>, more: seq<Part>)
    requires FrontKnown(fs, done) && WideEnded(done) && done != []
    ensures FrontKnown(fs + gs, done + more)
  {
    FirstWideAppend(fs, gs);
    WideEndedHasWide(done);
    LeadingAppend(done, more);
    assert (fs + gs)[..FirstWide(fs)] == fs[..FirstWide(fs)];
  }

  /** Small members leave the front as it is. */
  lemma FrontSmall(fs: seq<Field>, done: seq<Part>, f: Field, n: nat)
    requires FrontKnown(fs, done)
    ensures FrontKnown(fs + Repeat(f, n), done)
  {
    FirstWideAppend(fs, Repeat(f, n));
    if done != [] {
      assert (fs + Repeat(f, n))[..FirstWide(fs)] == fs[..FirstWide(fs)];
    }
  }

  /** The first wide members. */
  lemma FrontFirst(fs: seq<Field>, w: Part, n: nat, lost: bool)
    requires LastSegment(fs) == fs && w != FOUR_BYTES && n > 0
    ensures var flushed := Line([], FrontParts(fs));
            var ps := if w == POINTER_BYTES then flushed else Compacted(flushed, lost);
            FrontKnown(fs + Repeat(PartField(w), n), ps + Parts(w, n))
  {
    hide FrontParts, LastSegment, Compacted, Line, FirstWide, LeadingFours, Parts, Repeat, PartField;
    WideFront(fs, w, n);
    if w == POINTER_BYTES {
      PointerLead(FrontParts(fs), n);
    } else {
      EightLead(FrontParts(fs), n, lost);
    }
  }

  lemma WideFront(fs: seq<Field>, w: Part, n: nat)
    requires LastSegment(fs) == fs && w != FOUR_BYTES && n > 0
    ensures var fs' := fs + Repeat(PartField(w), n);
            && FirstWide(fs') < |fs'|
            && (EvenFront(fs') <==> w == POINTER_BYTES && FrontParts(fs) > 0 && FrontParts(fs) % 2 == 0)
  {
    var fs' := fs + Repeat(PartField(w), n);
    LastSegmentSmall(fs);
    AllSmallFirst(fs);
    FirstWideAppend(fs, Repeat(PartField(w), n));
    hide CountFours, CountChars, PartsForBytes, LastSegment;
    assert FirstWide(fs') == |fs| && fs'[..|fs|] == fs && fs'[|fs|] == PartField(w);
  }

  lemma PointerLead(x: nat, n: nat)
    requires n > 0
    ensures EvenLead(Line([], x) + Parts(POINTER_BYTES, n)) <==> x > 0 && x % 2 == 0
  {
    hide LeadingFours, Line;
    LeadOfLine(x, POINTER_BYTES, Parts(POINTER_BYTES, n));
  }

  lemma EightLead(x: nat, n: nat, lost: bool)
    requires n > 0
    ensures !EvenLead(Compacted(Line([], x), lost) + Parts(EIGHT_BYTES, n))
  {
    hide LeadingFours, Line, Compacted;
    var eights := Parts(EIGHT_BYTES, if lost then 0 else x / 2);
    CompactedLine([], x, lost);
    LeadOfLine(x % 2, EIGHT_BYTES, eights + Parts(EIGHT_BYTES, n));
    assert Line([], x % 2) + eights + Parts(EIGHT_BYTES, n) == Line([], x % 2) + (eights + Parts(EIGHT_BYTES, n));
  }

  lemma LeadOfLine(x: nat, w: Part, wides: seq<Part>)
    requires w != FOUR_BYTES && wides != [] && wides[0] == w
    ensures LeadingFours(Line([], x) + wides) == x
  {
    assert Line([], x) == Parts(FOUR_BYTES, x);
    LeadingRun(x);
    LeadingAppend(Parts(FOUR_BYTES, x), wides);
  }

  // ---------------------------------------------------------------- the finished window

  lemma LineHasWide(done: seq<Part>, fours: nat)
    requires WideEnded(done) && done != []
    ensures HasWide(Line(done, fours)) && (EvenLead(Line(done, fours)) <==> EvenLead(done))
  {
    WideEndedHasWide(done);
    LeadingAppend(done, Parts(FOUR_BYTES, fours));
  }

  lemma WideAligned(ps: seq<Part>)
    requires HasWide(ps)
    ensures Alignment(PartFields(ps)) == 8
  {
    LeadingSplit(ps);
    assert !IsSmall(PartFields(ps)[LeadingFours(ps)]);
    WideAlignment(PartFields(ps));
  }

  lemma SizeBelow(ps: seq<Part>)
    ensures PartsSize(ps) <= RoundUp(EndOffset(PartFields(ps)), 8)
    ensures Alignment(PartFields(ps)) == 8 ==> PartsSize(ps) == RoundUp(EndOffset(PartFields(ps)), 8)
  {
    hide EndOffset, PartFields, Alignment;
    RoundUpOctuple(EndOffset(PartFields(ps)));
    RoundUpIsLeast(EndOffset(PartFields(ps)), 4, RoundUp(EndOffset(PartFields(ps)), 8));
  }

  /** A finished line without its first part has the same size exactly when the lead is even. */
  lemma TailSize(ps: seq<Part>)
    requires HasWide(ps)
    ensures EvenLead(ps) ==> PartsSize(ps[1..]) == PartsSize(ps) &&
                             PointerOffsets(PartFields(ps[1..])) == PointerOffsets(PartFields(ps))
    ensures !EvenLead(ps) ==> PartsSize(ps[1..]) < PartsSize(ps)
  {
    hide EndOffset, PartFields, Alignment, PointerOffsets, LeadingFours, RoundUp, PartsSize;
    FrontShift(ps);
    WideAligned(ps);
    SizeBelow(ps);
    SizeBelow(ps[1..]);
    if EvenLead(ps) {
      LeadingTail(ps);
      WideAligned(ps[1..]);
    } else {
      RoundUpShift(8, EndOffset(PartFields(ps[1..])), 8);
    }
  }

  /** A window that is behind is too small. */
  lemma TrailsSize(h: seq<Part>, done: seq<Part>, fours: nat)
    requires WideEnded(done) && done != [] && Trails(h, done, fours)
    ensures PartsSize(h) < PartsSize(Line(done, fours))
  {
    hide EndOffset, PartFields, Alignment, LeadingFours, RoundUp, PartsSize, Line, Trails;
    TrailsRounded(h, done, fours);
    LineHasWide(done, fours);
    WideAligned(Line(done, fours));
    SizeBelow(Line(done, fours));
    SizeBelow(h);
  }

  /** The header's window on a finished line, against the struct. */
  lemma WindowLayout(fs: seq<Field>, done: seq<Part>, lossless: bool, held: seq<Part>, t: nat, total: nat)
    returns (good: bool)
    requires Mirrors(fs, done, lossless) && FrontKnown(fs, done) && WideEnded(done)
    requires Shown(held, done, FrontParts(LastSegment(fs)), t)
    requires total == t + (|held| - |Keep(MAX_PARTS, held)|)
    requires exists i :: 0 <= i < |fs| && !IsSmall(fs[i])
    ensures good <==> total <= 1 && lossless && AllAgree(fs) && (total == 1 ==> EvenFront(fs))
    ensures PartsSize(Keep(MAX_PARTS, held)) <= StructSize(fs)
    ensures PartsSize(Keep(MAX_PARTS, held)) == StructSize(fs) <==> good
    ensures good ==> PointerOffsets(PartFields(Keep(MAX_PARTS, held))) == PointerOffsets(fs)
  {
    hide EndOffset, PartFields, Alignment, LeadingFours, RoundUp, PartsSize, StructSize, PointerOffsets, AllAgree;
    hide Mirrors, LastSegment, WideEnded, Trails, EvenLead, EvenFront;
    var x, window := FrontParts(LastSegment(fs)), Keep(MAX_PARTS, held);
    good := total <= 1 && lossless && AllAgree(fs) && (total == 1 ==> EvenFront(fs));
    DoneIsThere(fs, done, lossless);
    FinishedLayout(fs, done, lossless, Line(done, x));
    PushNothing(held);
    PushFoursShown(held, done, x, t, 0, MAX_PARTS);
    LineHasWide(done, x);
    if total == 1 {
      TailSize(Line(done, x));
    } else if total >= 2 {
      TrailsSize(window, done, x);
    } else {
      assert Line(done, x)[0..] == Line(done, x);
    }
  }

  lemma PushNothing(h: seq<Part>)
    ensures h + Parts(FOUR_BYTES, 0) == h
  {
  }

  lemma DoneIsThere(fs: seq<Field>, done: seq<Part>, lossless: bool)
    requires Mirrors(fs, done, lossless)
    requires exists i :: 0 <= i < |fs| && !IsSmall(fs[i])
    ensures done != []
  {
    LastSegmentSmall(fs);
  }
}

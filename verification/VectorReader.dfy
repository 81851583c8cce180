/** Reading a format vector back: the size and the pointer offsets it stands for. */
module VectorReader {
  import opened Words
  import opened Layout
  import opened PartCodec
  import opened FormatSize
  import opened PtrQueues

  // ---------------------------------------------------------------- what a vector means

  function PartField(p: Part): Field {
    if p == FOUR_BYTES then FourField else if p == EIGHT_BYTES then EightField else PointerField
  }

  function PartFields(ps: seq<Part>): (fs: seq<Field>)
    ensures |fs| == |ps|
  {
    seq(|ps|, i requires 0 <= i < |ps| => PartField(ps[i]))
  }

  /** The size read from a sequence of parts; the struct alignment counts as at least four. */
  function PartsSize(ps: seq<Part>): nat {
    RoundUp(EndOffset(PartFields(ps)), MaxAmount(4, Alignment(PartFields(ps))))
  }

  /** The size a vector with its two format bits stands for. */
  function VectorSize(vector: Word): nat {
    var format, body := vector % 4, vector / 4;
    if format == FORMAT_SIZE_NO_POINTERS || format == FORMAT_SIZE_HAS_POINTERS then body
    else if format == FORMAT_VECTOR then PartsSize(DecodeParts(body))
    else 0
  }

  /** The byte offsets at which a vector places pointers. */
  function VectorPointers(vector: Word): seq<nat> {
    if vector % 4 == FORMAT_VECTOR then PointerOffsets(PartFields(DecodeParts(vector / 4))) else []
  }

  lemma PartFieldsSnoc(ps: seq<Part>, p: Part)
    ensures PartFields(ps + [p]) == PartFields(ps) + [PartField(p)]
  {
  }

  /** A part takes at most eight bytes, padding included. */
  lemma {:induction false} PartsEndTight(ps: seq<Part>)
    ensures EndOffset(PartFields(ps)) <= 8 * |ps| && EndOffset(PartFields(ps)) % 4 == 0
  {
    if ps != [] {
      hide EndOffset, PartFields, Alignment, PointerOffsets, RoundUp;
      var init, p := ps[..|ps| - 1], ps[|ps| - 1];
      PartsEndTight(init);
      assert ps == init + [p];
      PartFieldsSnoc(init, p);
      EndOffsetSnoc(PartFields(init), PartField(p));
      PartTight(EndOffset(PartFields(init)), PartField(p).Bytes(), |init|);
    }
  }

  lemma PartTight(x: nat, a: Amount, n: nat)
    requires a != 1 && x <= 8 * n && x % 4 == 0
    ensures RoundUp(x, a) + a <= 8 * (n + 1) && (RoundUp(x, a) + a) % 4 == 0
  {
  }

  lemma PartsSizeTight(ps: seq<Part>)
    ensures PartsSize(ps) <= 8 * |ps|
  {
    PartsEndTight(ps);
    hide EndOffset, Alignment, PartFields;
    RoundUpIsLeast(EndOffset(PartFields(ps)), 8, 8 * |ps|);
    RoundUpIsLeast(EndOffset(PartFields(ps)), 4, 8 * |ps|);
  }

  /** Pointer fields are 8-aligned, in ascending order, and end inside the struct. */
  lemma {:induction false} PointerOffsetsPlaced(fs: seq<Field>)
    ensures StrictlyAscending(PointerOffsets(fs))
    ensures forall o :: o in PointerOffsets(fs) ==> o % 8 == 0 && o + 8 <= EndOffset(fs)
  {
    if fs != [] {
      var init, f := fs[..|fs| - 1], fs[|fs| - 1];
      PointerOffsetsPlaced(init);
      assert fs == init + [f];
      LastPointerPlaced(init, f);
    }
  }

  lemma LastPointerPlaced(init: seq<Field>, f: Field)
    requires StrictlyAscending(PointerOffsets(init))
    requires forall o :: o in PointerOffsets(init) ==> o % 8 == 0 && o + 8 <= EndOffset(init)
    ensures StrictlyAscending(PointerOffsets(init + [f]))
    ensures forall o :: o in PointerOffsets(init + [f]) ==> o % 8 == 0 && o + 8 <= EndOffset(init + [f])
  {
    hide EndOffset, PointerOffsets, Alignment;
    EndOffsetSnoc(init, f);
    assert forall i :: 0 <= i < |PointerOffsets(init)| ==> PointerOffsets(init)[i] in PointerOffsets(init);
  }

  // ---------------------------------------------------------------- the 64-bit window

  /** Bits 61 and 60, moved to the low end. */
  function TopPair(v: Word): Digit {
    (v / 0x1000_0000_0000_0000) % 4
  }

  /** `vector << BITS_PER_VECTOR_PART`. */
  function ShiftLeft(v: Word): Word {
    ToWord(v * 4)
  }

  /** The 31 pairs of `v` below its top two bits. */
  ghost predicate Window(v: Word, ds: seq<Digit>) {
    && |ds| == 31
    && v % 0x4000_0000_0000_0000 == Value(ds)
  }

  lemma WindowSplit(ds: seq<Digit>)
    requires |ds| == 31
    ensures Value(ds) == ds[0] * 0x1000_0000_0000_0000 + Value(ds[1..])
    ensures Value(ds[1..]) < 0x1000_0000_0000_0000
    ensures Value(ds[1..] + [0]) == 4 * Value(ds[1..])
  {
    assert ds == [ds[0]] + ds[1..];
    ValueCons(ds[0], ds[1..]);
    DigitsValue(ds[1..]);
    Pow4Constants();
    assert (ds[1..] + [0])[..30] == ds[1..];
  }

  lemma WindowStep(v: Word, ds: seq<Digit>)
    requires Window(v, ds)
    ensures TopPair(v) == ds[0]
    ensures Window(ShiftLeft(v), ds[1..] + [0])
  {
    WindowSplit(ds);
    hide Value;
    WindowArithmetic(v, ds[0], Value(ds[1..]));
  }

  lemma WindowArithmetic(v: Word, d: Digit, rest: nat)
    requires rest < 0x1000_0000_0000_0000
    requires v % 0x4000_0000_0000_0000 == d * 0x1000_0000_0000_0000 + rest
    ensures TopPair(v) == d
    ensures ShiftLeft(v) % 0x4000_0000_0000_0000 == 4 * rest
  {
    var high := v / 0x4000_0000_0000_0000;
    assert v == (4 * high + d) * 0x1000_0000_0000_0000 + rest;
    assert v / 0x1000_0000_0000_0000 == 4 * high + d;
    assert ShiftLeft(v) == (v % 0x4000_0000_0000_0000) * 4;
  }

  lemma WindowStart(v: Word)
    requires v < 0x4000_0000_0000_0000
    ensures Window(v, Digits(31, v))
  {
    Pow4Constants();
    ValueDigits(31, v);
  }

  lemma {:induction false} TrailingZero(ds: seq<Digit>)
    ensures UntilZero(ds + [0]) == UntilZero(ds)
    ensures UntilZero(SkipZeros(ds + [0])) == UntilZero(SkipZeros(ds))
  {
    if ds != [] {
      TrailingZero(ds[1..]);
      assert (ds + [0])[1..] == ds[1..] + [0];
    } else {
      assert SkipZeros([0]) == SkipZeros([0][1..]);
    }
  }

  lemma {:induction false} AllZero(ds: seq<Digit>)
    requires forall i :: 0 <= i < |ds| ==> ds[i] == 0
    ensures SkipZeros(ds) == []
  {
    if ds != [] {
      AllZero(ds[1..]);
    }
  }

  /** After `k` shifts the window still holds all parts of `vector`, over `k` zero pairs. */
  ghost predicate Skipping(v: Word, ds: seq<Digit>, k: nat, vector: Word) {
    && k <= 31
    && Window(v, ds)
    && TopPair(v) == ds[0]
    && (forall i :: 31 - k <= i < 31 ==> ds[i] == 0)
    && UntilZero(SkipZeros(ds)) == DecodeParts(vector)
  }

  lemma SkipPair(v: Word, ds: seq<Digit>, k: nat, vector: Word)
    requires Skipping(v, ds, k, vector) && k < 31 && TopPair(v) == 0
    ensures Skipping(ShiftLeft(v), ds[1..] + [0], k + 1, vector)
  {
    WindowStep(v, ds);
    TrailingZero(ds[1..]);
    WindowStep(ShiftLeft(v), ds[1..] + [0]);
  }

  lemma StopSkipping(v: Word, ds: seq<Digit>, k: nat, vector: Word)
    requires Skipping(v, ds, k, vector) && (TopPair(v) != 0 || k == 31)
    ensures UntilZero(ds) == DecodeParts(vector)
  {
    if TopPair(v) == 0 {
      AllZero(ds);
    }
  }

  /** Shifts out the leading zero pairs, at most 31 of them. */
  method FindStart(vector: Word) returns (v: Word, ghost ds: seq<Digit>)
    requires vector < 0x4000_0000_0000_0000
    ensures Window(v, ds)
    ensures UntilZero(ds) == DecodeParts(vector)
  {
    v := vector;
    WindowStart(v);
    ds := Digits(31, v);
    WindowStep(v, ds);
    var bitsPassed := 0;
    while TopPair(v) == 0 && bitsPassed < 62
      invariant 0 <= bitsPassed && bitsPassed % 2 == 0
      invariant Skipping(v, ds, bitsPassed / 2, vector)
    {
      SkipPair(v, ds, bitsPassed / 2, vector);
      v, ds := ShiftLeft(v), ds[1..] + [0];
      bitsPassed := bitsPassed + 2;
    }
    StopSkipping(v, ds, bitsPassed / 2, vector);
  }

  /** The parts `seen` have been read, and the window holds the other ones. */
  ghost predicate Reading(v: Word, ds: seq<Digit>, seen: seq<Part>, all: seq<Part>) {
    && Window(v, ds)
    && TopPair(v) == ds[0]
    && seen + UntilZero(ds) == all
    && |all| <= 31
  }

  lemma NextPart(v: Word, ds: seq<Digit>, seen: seq<Part>, all: seq<Part>)
    requires Reading(v, ds, seen, all) && TopPair(v) != 0
    ensures |seen| < 31
    ensures var ds' := ds[1..] + [0];
            && Reading(ShiftLeft(v), ds', seen + [ds[0]], all)
            && |UntilZero(ds')| < |UntilZero(ds)|
  {
    WindowStep(v, ds);
    TrailingZero(ds[1..]);
    WindowStep(ShiftLeft(v), ds[1..] + [0]);
    assert (seen + [ds[0]]) + UntilZero(ds[1..]) == seen + ([ds[0]] + UntilZero(ds[1..]));
  }

  lemma LastPart(v: Word, ds: seq<Digit>, seen: seq<Part>, all: seq<Part>)
    requires Reading(v, ds, seen, all) && TopPair(v) == 0
    ensures seen == all
  {
    assert seen + [] == seen;
  }

  lemma FirstPart(v: Word, ds: seq<Digit>, tagged: Word)
    requires Window(v, ds) && UntilZero(ds) == DecodeParts(tagged / 4)
    ensures Reading(v, ds, [], DecodeParts(tagged / 4))
  {
    WindowStep(v, ds);
    assert [] + UntilZero(ds) == UntilZero(ds);
  }

  /** Adds the member for one part to a running size; 31 parts never overflow. */
  method AddPart(size: Word, part: Part, repeats: Word, largest: Amount, ghost seen: seq<Part>)
    returns (size': Word, repeats': Word, largest': Amount)
    requires |seen| < 31 && repeats <= 1
    requires size == EndOffset(PartFields(seen))
    ensures size' == EndOffset(PartFields(seen + [part]))
    ensures largest == MaxAmount(4, Alignment(PartFields(seen))) ==>
              largest' == MaxAmount(4, Alignment(PartFields(seen + [part])))
    ensures repeats' == 0
  {
    PartFieldsSnoc(seen, part);
    EndOffsetSnoc(PartFields(seen), PartField(part));
    EndOffsetBound(PartFields(seen + [part]));
    var amount: Amount := if part == FOUR_BYTES then 4 else 8;
    var isTooBig;
    size', repeats', largest', isTooBig := UpdateSize(size, amount, repeats, largest);
  }

  /** The size of an object, from the vector in its header. Terminates on every 64-bit word. */
  method SizeFromVector(tagged: Word) returns (size: Word)
    ensures size == VectorSize(tagged)
  {
    var format := tagged % 4;
    if format == FORMAT_SIZE_NO_POINTERS || format == FORMAT_SIZE_HAS_POINTERS {
      return tagged / 4;
    } else if format != FORMAT_VECTOR {
      return 0;
    }
    var v: Word;
    ghost var ds;
    v, ds := FindStart(tagged / 4);
    ghost var all: seq<Part> := DecodeParts(tagged / 4);
    ghost var seen: seq<Part> := [];
    var largest: Amount, repeats: Word := 4, 1;
    size := 0;
    FirstPart(v, ds, tagged);
    while TopPair(v) != 0
      invariant Reading(v, ds, seen, all) && repeats <= 1
      invariant size == EndOffset(PartFields(seen))
      invariant largest == MaxAmount(4, Alignment(PartFields(seen)))
      decreases |UntilZero(ds)|
    {
      NextPart(v, ds, seen, all);
      size, repeats, largest := AddPart(size, TopPair(v), repeats, largest, seen);
      seen := seen + [ds[0]];
      v, ds := ShiftLeft(v), ds[1..] + [0];
    }
    LastPart(v, ds, seen, all);
    size := Pad(size, largest, seen);
  }

  method Pad(size: Word, largest: Amount, ghost ps: seq<Part>) returns (padded: Word)
    requires |ps| <= 31
    requires size == EndOffset(PartFields(ps)) && largest == MaxAmount(4, Alignment(PartFields(ps)))
    ensures padded == PartsSize(ps)
  {
    EndOffsetBound(PartFields(ps));
    PaddingReachesRoundUp(size, largest);
    padded := size + (largest - size % largest) % largest;
  }

  /** Addresses of the pointer fields of an allocation. */
  function Shifted(offsets: seq<nat>, start: nat): (addresses: seq<nat>)
    ensures |addresses| == |offsets|
  {
    seq(|offsets|, i requires 0 <= i < |offsets| => start + offsets[i])
  }

  /** Queues the pointer field a part stands for, if it is one, behind those before it. */
  method EnqueueField(pointers: PtrQueue, start: nat, part: Part, end: nat, ghost seen: seq<Part>)
    requires start > 0 && end == EndOffset(PartFields(seen + [part]))
    requires pointers.Valid() && pointers.elems == Shifted(PointerOffsets(PartFields(seen)), start)
    modifies pointers
    ensures pointers.Valid() && pointers.elems == Shifted(PointerOffsets(PartFields(seen + [part])), start)
  {
    NextPointer(seen, part, start, end);
    if part == POINTER_BYTES {
      var isNew := pointers.Enqueue(start + (end - 8));
    }
  }

  /** A pointer part adds one address, behind those before it; other parts add none. */
  lemma NextPointer(seen: seq<Part>, part: Part, start: nat, end: nat)
    requires end == EndOffset(PartFields(seen + [part]))
    ensures part == POINTER_BYTES ==> end >= 8
    ensures var before, after := PointerOffsets(PartFields(seen)), PointerOffsets(PartFields(seen + [part]));
            Shifted(after, start) ==
              if part == POINTER_BYTES then Insert(Shifted(before, start), start + (end - 8))
              else Shifted(before, start)
  {
    var before := PointerOffsets(PartFields(seen));
    PartFieldsSnoc(seen, part);
    EndOffsetSnoc(PartFields(seen), PartField(part));
    PointerOffsetsPlaced(PartFields(seen));
    hide EndOffset, PointerOffsets, PartFields, Alignment;
    if part == POINTER_BYTES {
      BehindAll(before, EndOffset(PartFields(seen)), end - 8, start);
    }
  }

  /** Behind all offsets, insertion appends. */
  lemma BehindAll(offsets: seq<nat>, bound: nat, next: nat, start: nat)
    requires forall o :: o in offsets ==> o + 8 <= bound
    requires bound <= next
    ensures Insert(Shifted(offsets, start), start + next) == Shifted(offsets + [next], start)
  {
    assert forall i :: 0 <= i < |offsets| ==> offsets[i] in offsets;
    InsertLargest(Shifted(offsets, start), start + next);
    assert Shifted(offsets + [next], start) == Shifted(offsets, start) + [start + next];
  }

  /** The addresses of the pointer fields of the allocation at `start`. */
  method GetPointersFromBitVector(tagged: Word, start: nat) returns (pointers: PtrQueue)
    requires start > 0
    ensures fresh(pointers) && pointers.Valid()
    ensures pointers.elems == Shifted(VectorPointers(tagged), start)
  {
    pointers := new PtrQueue();
    if tagged % 4 != FORMAT_VECTOR {
      return;
    }
    var v: Word;
    ghost var ds;
    v, ds := FindStart(tagged / 4);
    ghost var all: seq<Part> := DecodeParts(tagged / 4);
    ghost var seen: seq<Part> := [];
    var size: Word, largest: Amount, repeats: Word := 0, 1, 1;
    FirstPart(v, ds, tagged);
    while TopPair(v) != 0
      invariant Reading(v, ds, seen, all) && repeats <= 1
      invariant size == EndOffset(PartFields(seen))
      invariant pointers.Valid() && fresh(pointers)
      invariant pointers.elems == Shifted(PointerOffsets(PartFields(seen)), start)
      decreases |UntilZero(ds)|
    {
      NextPart(v, ds, seen, all);
      size, repeats, largest := AddPart(size, TopPair(v), repeats, largest, seen);
      EnqueueField(pointers, start, TopPair(v), size, seen);
      seen := seen + [ds[0]];
      v, ds := ShiftLeft(v), ds[1..] + [0];
    }
    LastPart(v, ds, seen, all);
  }
}

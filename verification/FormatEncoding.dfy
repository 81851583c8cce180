/** Turning a format string into a part vector, with the C code's 8-bit counters. */
module FormatEncoding {
  import opened Words
  import opened Layout
  import opened FormatSize
  import opened PartCodec
  import opened PartLayout

  type Byte = b: nat | b < BYTE_MODULUS

  // ---------------------------------------------------------------- pushing parts

  /** `(vector << 2) | part`. */
  function PushPart(vector: Word, p: Part): Word {
    ToWord(4 * vector + p)
  }

  function PushParts(vector: Word, p: Part, n: nat): Word
    decreases n
  {
    if n == 0 then vector else PushParts(PushPart(vector, p), p, n - 1)
  }

  /** What adding a run of parts returns: nothing is added when the bits do not suffice. */
  datatype Added = Added(vector: Word, bitsLeft: Byte, isTooBig: bool)

  function AddRun(vector: Word, p: Part, repeats: Byte, bitsLeft: Byte): Added {
    if repeats > bitsLeft / 2 then Added(vector, bitsLeft, true)
    else Added(PushParts(vector, p, repeats), bitsLeft - 2 * repeats, false)
  }

  /** `add_fours`, `add_eights`, and the loop that adds pointers. */
  method AddParts(vector: Word, p: Part, repeats: Byte, bitsLeft: Byte) returns (added: Added)
    ensures added == AddRun(vector, p, repeats, bitsLeft)
  {
    if repeats > bitsLeft / 2 {
      return Added(vector, bitsLeft, true);
    }
    var v, n := vector, repeats;
    while n > 0
      invariant PushParts(v, p, n) == PushParts(vector, p, repeats)
    {
      v := PushPart(v, p);
      n := n - 1;
    }
    return Added(v, bitsLeft - 2 * repeats, false);
  }

  /** The pending chars become 4-byte parts. */
  function FlushExtra(vector: Word, countExtra: Byte, bitsLeft: Byte): Added {
    AddRun(vector, FOUR_BYTES, PartsForBytes(countExtra), bitsLeft)
  }

  method AddExtraBytes(vector: Word, countExtra: Byte, bitsLeft: Byte) returns (added: Added)
    ensures added == FlushExtra(vector, countExtra, bitsLeft)
  {
    var padding := (4 - countExtra % 4) % 4;
    var foursToAdd := (countExtra + padding) / 4;
    assert foursToAdd == PartsForBytes(countExtra);
    added := AddParts(vector, FOUR_BYTES, foursToAdd, bitsLeft);
  }

  // ---------------------------------------------------------------- compacting fours

  function FoursAtEnd(vector: Word): nat
    decreases vector
  {
    if vector % 4 == FOUR_BYTES then 1 + FoursAtEnd(vector / 4) else 0
  }

  function ShiftOut(vector: Word, n: nat): Word
    decreases n
  {
    if n == 0 then vector else ShiftOut(vector / 4, n - 1)
  }

  lemma {:induction false} FoursAtEndBound(vector: Word, n: nat)
    requires vector < Pow4(n)
    ensures FoursAtEnd(vector) <= n
    decreases n
  {
    if vector % 4 == FOUR_BYTES {
      assert n > 0;
      FoursAtEndBound(vector / 4, n - 1);
    }
  }

  lemma WordFours(vector: Word)
    ensures FoursAtEnd(vector) <= 32
  {
    Pow4Constants();
    FoursAtEndBound(vector, 32);
  }

  /** Trailing fours taken off in pairs, an odd one put back. */
  function Uncompacted(vector: Word): Word {
    var n := FoursAtEnd(vector);
    if n % 2 == 1 then PushPart(ShiftOut(vector, n), FOUR_BYTES) else ShiftOut(vector, n)
  }

  /** Fours that compaction replaces. */
  function EvenFours(vector: Word): (f: nat)
    ensures f % 2 == 0
  {
    FoursAtEnd(vector) - FoursAtEnd(vector) % 2
  }

  /**
   Compaction. The freed bits are subtracted where they should be added, and if that leaves too
   few for the new parts, the parts are lost.
   */
  function Compact(vector: Word, bitsLeft: Byte): Added
  {
    WordFours(vector);
    var f := EvenFours(vector);
    AddRun(Uncompacted(vector), EIGHT_BYTES, f / 2, ToByte(bitsLeft + BYTE_MODULUS - 2 * f))
  }

  method CompactFours(vector: Word, bitsLeft: Byte) returns (added: Added)
    ensures added == Compact(vector, bitsLeft)
  {
    WordFours(vector);
    hide ToByte, PushParts, PushPart;
    var v, foursFound := vector, 0;
    while v % 4 == FOUR_BYTES
      invariant foursFound + FoursAtEnd(v) == FoursAtEnd(vector)
      invariant ShiftOut(v, FoursAtEnd(v)) == ShiftOut(vector, FoursAtEnd(vector))
      decreases v
    {
      foursFound := foursFound + 1;
      v := v / 4;
    }
    if foursFound % 2 == 1 {
      v := PushPart(v, FOUR_BYTES);
      foursFound := foursFound - 1;
    }
    var bits := ToByte(bitsLeft + BYTE_MODULUS - 2 * foursFound);
    added := AddParts(v, EIGHT_BYTES, foursFound / 2, bits);
  }

  // ---------------------------------------------------------------- the conversion

  /** The local variables of the conversion loop. */
  datatype Encoder = Encoder(vector: Word, repeats: Byte, countExtra: Byte, bitsLeft: Byte, isTooBig: bool)

  const BITS_FOR_PARTS: Byte := 60

  const START := Encoder(0, 0, 0, BITS_FOR_PARTS, false)

  /** `update_bit_vector`: chars only wait, 4-byte members do not flush them, 8-byte members do. */
  function Updated(m: Encoder, bytes: Amount): Encoder {
    if bytes == 1 then m.(countExtra := ToByte(m.countExtra + Count(m.repeats)), repeats := 0)
    else if bytes == 4 then
      var added := AddRun(m.vector, FOUR_BYTES, Count(m.repeats), m.bitsLeft);
      Encoder(added.vector, 0, m.countExtra, added.bitsLeft, added.isTooBig)
    else
      var flushed := FlushExtra(m.vector, m.countExtra, m.bitsLeft);
      var compacted := Compact(flushed.vector, flushed.bitsLeft);
      var added := AddRun(compacted.vector, EIGHT_BYTES, Count(m.repeats), compacted.bitsLeft);
      Encoder(added.vector, 0, 0, added.bitsLeft, flushed.isTooBig || added.isTooBig)
  }

  method UpdateBitVector(m: Encoder, bytes: Amount) returns (updated: Encoder)
    requires !m.isTooBig
    ensures updated == Updated(m, bytes)
  {
    var repeats := if m.repeats == 0 then 1 else m.repeats;
    if bytes < 4 {
      return m.(countExtra := ToByte(m.countExtra + repeats), repeats := 0);
    }
    var added;
    if bytes == 8 {
      var flushed := AddExtraBytes(m.vector, m.countExtra, m.bitsLeft);
      var compacted := CompactFours(flushed.vector, flushed.bitsLeft);
      added := AddParts(compacted.vector, EIGHT_BYTES, repeats, compacted.bitsLeft);
      return Encoder(added.vector, 0, 0, added.bitsLeft, flushed.isTooBig || added.isTooBig);
    }
    added := AddParts(m.vector, FOUR_BYTES, repeats, m.bitsLeft);
    return Encoder(added.vector, 0, m.countExtra, added.bitsLeft, added.isTooBig);
  }

  /** The `'*'` branch: pending chars are flushed, but fours are not compacted. */
  function PointersAdded(m: Encoder): Encoder {
    var flushed := FlushExtra(m.vector, m.countExtra, m.bitsLeft);
    if flushed.isTooBig then Encoder(flushed.vector, m.repeats, 0, flushed.bitsLeft, true)
    else
      var added := AddRun(flushed.vector, POINTER_BYTES, Count(m.repeats), flushed.bitsLeft);
      Encoder(added.vector, 0, 0, added.bitsLeft, added.isTooBig)
  }

  method AddPointers(m: Encoder) returns (updated: Encoder)
    requires !m.isTooBig
    ensures updated == PointersAdded(m)
  {
    var flushed := AddExtraBytes(m.vector, m.countExtra, m.bitsLeft);
    if flushed.isTooBig {
      return Encoder(flushed.vector, m.repeats, 0, flushed.bitsLeft, true);
    }
    var repeats := if m.repeats == 0 then 1 else m.repeats;
    var added := AddParts(flushed.vector, POINTER_BYTES, repeats, flushed.bitsLeft);
    return Encoder(added.vector, 0, 0, added.bitsLeft, added.isTooBig);
  }

  /** One character of the format. */
  function Step(m: Encoder, c: char): Encoder
    requires IsDigit(c) || IsFieldLetter(c)
  {
    if IsDigit(c) then
      var updated := ToByte(m.repeats * 10 + DigitValue(c));
      m.(repeats := updated, isTooBig := updated < m.repeats)
    else if c == '*' then PointersAdded(m)
    else Updated(m, FieldOf(c).Bytes())
  }

  /** The `'\0'` branch: a trailing numeral counts chars. */
  function Finish(m: Encoder): Option<Word> {
    if m.repeats > 0 || m.countExtra > 0 then
      var flushed := FlushExtra(m.vector, ToByte(m.countExtra + m.repeats), m.bitsLeft);
      if flushed.isTooBig then None else Some(flushed.vector)
    else Some(m.vector)
  }

  /** The part vector for the rest of a format, unless the parts do not fit. */
  function Encoded(format: string, m: Encoder): Option<Word>
    requires ValidFormat(format)
  {
    if m.isTooBig then None
    else if format == [] then Finish(m)
    else Encoded(format[1..], Step(m, format[0]))
  }

  /** The vector with its format type; without pointers it is just the size. */
  function FormatVector(format: string, size: Word): Option<Word>
    requires ValidFormat(format)
  {
    if !HasPointers(format) then
      if size < 0x1000_0000_0000_0000 then Some(ToWord(4 * size + FORMAT_SIZE_NO_POINTERS)) else None
    else
      match Encoded(format, START)
      case None => None
      case Some(vector) => Some(ToWord(4 * vector + FORMAT_VECTOR))
  }

  method ContainsPointers(format: string) returns (found: bool)
    ensures found <==> HasPointers(format)
  {
    var cursor := 0;
    while cursor < |format|
      invariant 0 <= cursor <= |format|
      invariant forall i :: 0 <= i < cursor ==> format[i] != '*'
    {
      if format[cursor] == '*' {
        return true;
      }
      cursor := cursor + 1;
    }
    return false;
  }

  method ConvertToBitVector(format: string, size: Word) returns (success: bool, vector: Word)
    requires ValidFormat(format)
    ensures success <==> FormatVector(format, size).Some?
    ensures success ==> vector == FormatVector(format, size).value
  {
    hide Step, Finish;
    var hasPointers := ContainsPointers(format);
    if !hasPointers {
      return size < 0x1000_0000_0000_0000, ToWord(4 * size + FORMAT_SIZE_NO_POINTERS);
    }
    var cursor, m := 0, START;
    assert format[0..] == format;
    while !m.isTooBig
      invariant 0 <= cursor <= |format|
      invariant Encoded(format[cursor..], m) == Encoded(format, START)
      decreases |format| - cursor, !m.isTooBig
    {
      if cursor == |format| {
        assert format[cursor..] == [];
        success, vector := FinishVector(m);
        return success, if success then ToWord(4 * vector + FORMAT_VECTOR) else 0;
      }
      assert format[cursor..][1..] == format[cursor + 1..];
      m := StepEncoder(m, format[cursor]);
      cursor := cursor + 1;
    }
    return false, 0;
  }

  method StepEncoder(m: Encoder, c: char) returns (m': Encoder)
    requires IsDigit(c) || IsFieldLetter(c)
    requires !m.isTooBig
    ensures m' == Step(m, c)
  {
    if c == '*' {
      m' := AddPointers(m);
    } else if IsFieldLetter(c) {
      m' := UpdateBitVector(m, FieldOf(c).Bytes());
    } else {
      var updated := ToByte(m.repeats * 10 + DigitValue(c));
      m' := m.(repeats := updated, isTooBig := updated < m.repeats);
    }
  }

  method FinishVector(m: Encoder) returns (success: bool, vector: Word)
    requires !m.isTooBig
    ensures success <==> Finish(m).Some?
    ensures success ==> vector == Finish(m).value
  {
    vector := m.vector;
    if m.repeats > 0 || m.countExtra > 0 {
      var flushed := AddExtraBytes(vector, ToByte(m.countExtra + m.repeats), m.bitsLeft);
      if flushed.isTooBig {
        return false, 0;
      }
      vector := flushed.vector;
    }
    success := true;
  }

  // ---------------------------------------------------------------- the same on parts

  /** Pushing onto a full word drops its first part. */
  lemma PushPartPack(ps: seq<Part>, p: Part)
    requires |ps| <= WORD_PARTS
    ensures Pack(ps) < WORD_MODULUS && Pack(Keep(WORD_PARTS, ps + [p])) < WORD_MODULUS
    ensures PushPart(Pack(ps), p) == Pack(Keep(WORD_PARTS, ps + [p]))
  {
    hide Pack, Keep;
    PackFitsWord(ps);
    PackFitsWord(Keep(WORD_PARTS, ps + [p]));
    PackPush(ps, p);
    PackKeep(ps + [p]);
  }

  lemma PartsCons(ps: seq<Part>, p: Part, n: nat)
    ensures ps + Parts(p, 0) == ps
    ensures n > 0 ==> ps + Parts(p, n) == (ps + [p]) + Parts(p, n - 1)
  {
  }

  lemma KeepAppend(n: nat, a: seq<Part>, b: seq<Part>)
    ensures Keep(n, Keep(n, a) + b) == Keep(n, a + b)
  {
  }

  /** Pushing a run gives the last parts of the longer list. */
  lemma {:induction false} PushPartsKeep(ps: seq<Part>, p: Part, n: nat)
    requires |ps| <= WORD_PARTS
    ensures Pack(ps) < WORD_MODULUS
    ensures PushParts(Pack(ps), p, n) == Pack(Keep(WORD_PARTS, ps + Parts(p, n)))
    decreases n
  {
    hide Pack, PushPart, Keep;
    PartsCons(ps, p, n);
    PackFitsWord(ps);
    if n > 0 {
      var next := Keep(WORD_PARTS, ps + [p]);
      PushPartPack(ps, p);
      PushPartsKeep(next, p, n - 1);
      KeepAppend(WORD_PARTS, ps + [p], Parts(p, n - 1));
    } else {
      KeepAll(ps);
    }
  }

  lemma KeepAll(ps: seq<Part>)
    requires |ps| <= WORD_PARTS
    ensures Keep(WORD_PARTS, ps) == ps
  {
  }

  /** When there is room, nothing is dropped. */
  lemma PushPartsPack(ps: seq<Part>, p: Part, n: nat)
    requires |ps| + n <= WORD_PARTS
    ensures Pack(ps) < WORD_MODULUS && Pack(ps + Parts(p, n)) < WORD_MODULUS
    ensures PushParts(Pack(ps), p, n) == Pack(ps + Parts(p, n))
  {
    hide Pack, PushParts;
    PushPartsKeep(ps, p, n);
    PackFitsWord(ps + Parts(p, n));
  }

  lemma {:induction false} FoursAtEndPack(ps: seq<Part>)
    requires |ps| <= WORD_PARTS
    ensures Pack(ps) < WORD_MODULUS
    ensures FoursAtEnd(Pack(ps)) == TrailingFours(ps)
  {
    PackFitsWord(ps);
    if ps != [] {
      var init, last := ps[..|ps| - 1], ps[|ps| - 1];
      assert ps == init + [last];
      PackPush(init, last);
      PackFitsWord(init);
      FoursAtEndPack(init);
      assert Pack(ps) % 4 == last && Pack(ps) / 4 == Pack(init);
    }
  }

  lemma {:induction false} ShiftOutPack(ps: seq<Part>, n: nat)
    requires n <= |ps| <= WORD_PARTS
    ensures Pack(ps) < WORD_MODULUS
    ensures ShiftOut(Pack(ps), n) == Pack(ps[..|ps| - n])
    decreases n
  {
    PackFitsWord(ps);
    if n > 0 {
      var init, last := ps[..|ps| - 1], ps[|ps| - 1];
      assert ps == init + [last];
      PackPush(init, last);
      ShiftOutPack(init, n - 1);
      assert init[..|init| - (n - 1)] == ps[..|ps| - n];
      assert Pack(ps) / 4 == Pack(init);
    } else {
      assert ps[..|ps|] == ps;
    }
  }

  /** What compaction leaves before it adds the new parts. */
  lemma UncompactedPack(ps: seq<Part>)
    requires |ps| <= WORD_PARTS
    ensures Pack(ps) < WORD_MODULUS
    ensures Uncompacted(Pack(ps)) == Pack(Unpaired(ps))
    ensures EvenFours(Pack(ps)) == TrailingFours(ps) - TrailingFours(ps) % 2
  {
    hide Pack, PushPart, FoursAtEnd, ShiftOut, TrailingFours, Unpaired;
    var n := TrailingFours(ps);
    FoursAtEndPack(ps);
    ShiftOutPack(ps, n);
    UnpairedParts(ps);
    if n % 2 == 1 {
      PushPartPack(ps[..|ps| - n], FOUR_BYTES);
    }
  }

  lemma UnpairedParts(ps: seq<Part>)
    ensures var rest := ps[..|ps| - TrailingFours(ps)];
            Unpaired(ps) == if TrailingFours(ps) % 2 == 1 then rest + [FOUR_BYTES] else rest
  {
    assert Parts(FOUR_BYTES, 1) == [FOUR_BYTES];
  }

  function Unpaired(ps: seq<Part>): (rest: seq<Part>)
    ensures |rest| + (TrailingFours(ps) - TrailingFours(ps) % 2) == |ps|
  {
    var n := TrailingFours(ps);
    ps[..|ps| - n] + Parts(FOUR_BYTES, n % 2)
  }

  /**
   Compaction gives the vector of the compacted parts exactly when the bits that are left do not
   fall between two and three times the number of fours it replaces. Below that the subtraction
   wraps around, and the conversion goes on with 256 bits too many.
   */
  lemma CompactExact(ps: seq<Part>, bitsLeft: Byte, f: nat)
    requires |ps| <= WORD_PARTS && f == TrailingFours(ps) - TrailingFours(ps) % 2
    ensures Pack(ps) < WORD_MODULUS && Pack(CompactParts(ps)) < WORD_MODULUS
    ensures Compact(Pack(ps), bitsLeft).vector == Pack(CompactParts(ps)) <==> !(2 * f <= bitsLeft < 3 * f)
    ensures 3 * f <= bitsLeft ==> Compact(Pack(ps), bitsLeft) == Added(Pack(CompactParts(ps)), bitsLeft - 3 * f, false)
    ensures bitsLeft < 2 * f ==>
              Compact(Pack(ps), bitsLeft) ==
              Added(Pack(CompactParts(ps)), bitsLeft + BYTE_MODULUS - 3 * f, false)
  {
    hide Pack, PushParts, TrailingFours, Uncompacted, EvenFours, Unpaired, CompactParts;
    UncompactedPack(ps);
    CompactedRest(ps);
    CompactBits(f, bitsLeft);
    PushPartsPack(Unpaired(ps), EIGHT_BYTES, f / 2);
    if 2 * f <= bitsLeft < 3 * f && Pack(Unpaired(ps)) == Pack(CompactParts(ps)) {
      PackInjective(Unpaired(ps), CompactParts(ps));
    }
  }

  /** In the bad range the fours are gone and nothing has taken their place. */
  lemma CompactDrops(ps: seq<Part>, bitsLeft: Byte, f: nat)
    requires |ps| <= WORD_PARTS
    requires f == TrailingFours(ps) - TrailingFours(ps) % 2
    requires 2 * f <= bitsLeft < 3 * f
    ensures Pack(ps) < WORD_MODULUS && Pack(Unpaired(ps)) < WORD_MODULUS
    ensures Compact(Pack(ps), bitsLeft) == Added(Pack(Unpaired(ps)), bitsLeft - 2 * f, true)
  {
    hide Pack, PushParts, TrailingFours, Uncompacted, EvenFours, Unpaired, CompactParts, ToByte;
    UncompactedPack(ps);
    CompactBits(f, bitsLeft);
  }

  lemma CompactedRest(ps: seq<Part>)
    ensures var f := TrailingFours(ps) - TrailingFours(ps) % 2;
            && CompactParts(ps) == Unpaired(ps) + Parts(EIGHT_BYTES, f / 2)
            && |CompactParts(ps)| == |ps| - f / 2
            && (f > 0 ==> CompactParts(ps) != Unpaired(ps))
  {
    var f := TrailingFours(ps) - TrailingFours(ps) % 2;
    assert f / 2 == TrailingFours(ps) / 2;
    assert |CompactParts(ps)| == |Unpaired(ps)| + f / 2;
  }

  /** When the new parts still fit in what the subtraction left. */
  lemma CompactBits(f: nat, bitsLeft: Byte)
    requires f % 2 == 0 && f <= WORD_PARTS
    ensures var bits := ToByte(bitsLeft + BYTE_MODULUS - 2 * f);
            && (f / 2 > bits / 2 <==> 2 * f <= bitsLeft < 3 * f)
            && (3 * f <= bitsLeft ==> bits - 2 * (f / 2) == bitsLeft - 3 * f)
            && bits == if 2 * f <= bitsLeft then bitsLeft - 2 * f else bitsLeft + BYTE_MODULUS - 2 * f
  {
    if 2 * f <= bitsLeft {
      assert ToByte(bitsLeft + BYTE_MODULUS - 2 * f) == bitsLeft - 2 * f;
    } else {
      assert ToByte(bitsLeft + BYTE_MODULUS - 2 * f) == bitsLeft + BYTE_MODULUS - 2 * f;
    }
  }
}

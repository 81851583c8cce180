/**
 The 2-bit part vector of a header: pushing parts from the low end, and reading
 them back by skipping leading zero pairs and shifting left.
 */
module PartCodec {
  import opened Words

  const FOUR_BYTES := 1
  const EIGHT_BYTES := 2
  const POINTER_BYTES := 3

  /** Parts in a 64-bit word, and in what a header keeps of it. */
  const WORD_PARTS := 32
  const MAX_PARTS := 30

  /** The low bits that carry the format type of a vector. */
  const FORMAT_SIZE_NO_POINTERS := 0
  const FORMAT_VECTOR := 1
  const FORMAT_SIZE_HAS_POINTERS := 2
  const FORMAT_UNUSED := 3

  type Digit = d: nat | d < 4

  type Part = p: nat | 1 <= p < 4 witness 1

  function Pow4(n: nat): (r: nat)
    ensures r > 0
  {
    if n == 0 then 1 else 4 * Pow4(n - 1)
  }

  /** The number whose base-4 digits, most significant first, are `ds`. */
  function Value(ds: seq<Digit>): nat {
    if ds == [] then 0 else 4 * Value(ds[..|ds| - 1]) + ds[|ds| - 1]
  }

  /** The low `n` base-4 digits of `v`, most significant first. */
  function Digits(n: nat, v: nat): (ds: seq<Digit>)
    ensures |ds| == n
  {
    if n == 0 then [] else Digits(n - 1, v / 4) + [v % 4]
  }

  function Zeros(n: nat): (ds: seq<Digit>)
    ensures |ds| == n
  {
    seq(n, _ => 0)
  }

  lemma {:induction false} ValueDigits(n: nat, v: nat)
    requires v < Pow4(n)
    ensures Value(Digits(n, v)) == v
  {
    if n > 0 {
      ValueDigits(n - 1, v / 4);
      assert Digits(n, v)[..n - 1] == Digits(n - 1, v / 4);
    }
  }

  lemma {:induction false} DigitsValue(ds: seq<Digit>)
    ensures Digits(|ds|, Value(ds)) == ds
    ensures Value(ds) < Pow4(|ds|)
  {
    if ds != [] {
      DigitsValue(ds[..|ds| - 1]);
      assert ds == ds[..|ds| - 1] + [ds[|ds| - 1]];
    }
  }

  /** The most significant digit weighs 4^(n-1). */
  lemma {:induction false} ValueCons(d: Digit, ds: seq<Digit>)
    ensures Value([d] + ds) == d * Pow4(|ds|) + Value(ds)
  {
    if ds == [] {
      assert ([d] + ds)[..0] == [];
      assert Value([d]) == d;
      assert [d] + ds == [d];
    } else {
      var init, last := ds[..|ds| - 1], ds[|ds| - 1];
      ValueCons(d, init);
      assert ([d] + ds)[..|ds|] == [d] + init;
      assert ([d] + ds)[|ds|] == last;
    }
  }

  lemma {:induction false} ValueZeros(n: nat, ds: seq<Digit>)
    ensures Value(Zeros(n) + ds) == Value(ds)
  {
    if n == 0 {
      assert Zeros(0) + ds == ds;
    } else {
      ValueZeros(n - 1, ds);
      assert Zeros(n) + ds == [0] + (Zeros(n - 1) + ds);
      ValueCons(0, Zeros(n - 1) + ds);
    }
  }

  lemma Pow4Add(a: nat, b: nat)
    ensures Pow4(a + b) == Pow4(a) * Pow4(b)
  {
    if a > 0 {
      Pow4Add(a - 1, b);
    }
  }

  lemma Pow4Constants()
    ensures Pow4(30) == 0x1000_0000_0000_0000
    ensures Pow4(31) == 0x4000_0000_0000_0000
    ensures Pow4(32) == WORD_MODULUS
  {
    assert Pow4(5) == 1024;
    Pow4Add(5, 5);
    Pow4Add(10, 10);
    Pow4Add(20, 10);
  }

  /** Drops leading zero pairs: the parts start at the first nonzero pair. */
  function SkipZeros(ds: seq<Digit>): (r: seq<Digit>)
    ensures |r| <= |ds|
    ensures r != [] ==> r[0] != 0
  {
    if ds == [] || ds[0] != 0 then ds else SkipZeros(ds[1..])
  }

  /** The parts up to the first zero pair, which ends the vector. */
  function UntilZero(ds: seq<Digit>): (ps: seq<Part>)
    ensures |ps| <= |ds|
  {
    if ds == [] || ds[0] == 0 then [] else [ds[0]] + UntilZero(ds[1..])
  }

  /** What a reader of the 62-bit vector `v` (format type already removed) sees. */
  function DecodeParts(v: nat): (ps: seq<Part>)
    ensures |ps| <= 31
  {
    UntilZero(SkipZeros(Digits(31, v)))
  }

  /** The vector holding `ps`, the last part in the lowest two bits. */
  function Pack(ps: seq<Part>): nat {
    Value(ps)
  }

  lemma {:induction false} SkipZerosPrefix(n: nat, ds: seq<Digit>)
    requires ds != [] ==> ds[0] != 0
    ensures SkipZeros(Zeros(n) + ds) == ds
  {
    if n == 0 {
      assert Zeros(0) + ds == ds;
    } else {
      SkipZerosPrefix(n - 1, ds);
      assert (Zeros(n) + ds)[1..] == Zeros(n - 1) + ds;
    }
  }

  lemma {:induction false} UntilZeroAllParts(ps: seq<Part>)
    ensures UntilZero(ps) == ps
  {
    if ps != [] {
      UntilZeroAllParts(ps[1..]);
    }
  }

  /** Any sequence of at most 31 parts is recovered exactly. */
  lemma PackDecode(ps: seq<Part>)
    requires |ps| <= 31
    ensures DecodeParts(Pack(ps)) == ps
  {
    var padded: seq<Digit> := Zeros(31 - |ps|) + ps;
    ValueZeros(31 - |ps|, ps);
    DigitsValue(padded);
    SkipZerosPrefix(31 - |ps|, ps);
    UntilZeroAllParts(ps);
  }

  lemma {:induction false} Pow4Monotone(a: nat, b: nat)
    requires a <= b
    ensures Pow4(a) <= Pow4(b)
  {
    if a < b {
      Pow4Monotone(a, b - 1);
    }
  }

  /** Thirty parts fit in the 60 bits a header leaves for them. */
  lemma PackFits(ps: seq<Part>)
    requires |ps| <= MAX_PARTS
    ensures Pack(ps) < 0x1000_0000_0000_0000
  {
    DigitsValue(ps);
    Pow4Monotone(|ps|, MAX_PARTS);
    Pow4Constants();
  }

  /** Pushing one more part at the low end. */
  lemma PackPush(ps: seq<Part>, p: Part)
    ensures Pack(ps + [p]) == 4 * Pack(ps) + p
  {
    assert (ps + [p])[..|ps|] == ps;
  }

  // ---------------------------------------------------------------- parts that fall off the front

  /** The last `n` parts. */
  function Keep(n: nat, ps: seq<Part>): (r: seq<Part>)
    ensures |r| == if |ps| <= n then |ps| else n
  {
    if |ps| <= n then ps else ps[|ps| - n..]
  }

  lemma {:induction false} ValueAppend(a: seq<Digit>, b: seq<Digit>)
    ensures Value(a + b) == Value(a) * Pow4(|b|) + Value(b)
  {
    if b == [] {
      assert a + b == a;
    } else {
      var init := b[..|b| - 1];
      ValueAppend(a, init);
      assert (a + b)[..|a + b| - 1] == a + init;
      NextDigit(Value(a), Pow4(|init|), Value(init));
    }
  }

  lemma NextDigit(x: nat, weight: nat, v: nat)
    ensures 4 * (x * weight + v) == x * (4 * weight) + 4 * v
  {
  }

  lemma QuotientLiterals(a: nat, b: nat)
    ensures b < 0x1000_0000_0000_0000 ==> (a * 0x1000_0000_0000_0000 + b) % 0x1000_0000_0000_0000 == b
    ensures b < WORD_MODULUS ==> (a * WORD_MODULUS + b) % WORD_MODULUS == b
  {
  }

  /** Cutting a vector to the width of a word, or to what a header keeps, drops parts from the front. */
  lemma PackKeep(ps: seq<Part>)
    ensures Pack(ps) % WORD_MODULUS == Pack(Keep(WORD_PARTS, ps))
    ensures Pack(ps) % 0x1000_0000_0000_0000 == Pack(Keep(MAX_PARTS, ps))
  {
    KeepModulus(ps, WORD_PARTS);
    KeepModulus(ps, MAX_PARTS);
    Pow4Constants();
    QuotientLiterals(FrontValue(ps, WORD_PARTS), Pack(Keep(WORD_PARTS, ps)));
    QuotientLiterals(FrontValue(ps, MAX_PARTS), Pack(Keep(MAX_PARTS, ps)));
  }

  function FrontValue(ps: seq<Part>, n: nat): nat {
    if |ps| <= n then 0 else Value(ps[..|ps| - n])
  }

  lemma KeepModulus(ps: seq<Part>, n: nat)
    ensures Pack(ps) == FrontValue(ps, n) * Pow4(n) + Pack(Keep(n, ps))
    ensures Pack(Keep(n, ps)) < Pow4(n)
  {
    hide Value, Pow4, Digits;
    DigitsValue(Keep(n, ps));
    Pow4Monotone(|Keep(n, ps)|, n);
    if |ps| > n {
      var front := ps[..|ps| - n];
      ValueAppend(front, Keep(n, ps));
      assert ps == front + Keep(n, ps);
    }
  }

  lemma PackFitsWord(ps: seq<Part>)
    requires |ps| <= WORD_PARTS
    ensures Pack(ps) < WORD_MODULUS
  {
    PackKeep(ps);
  }

  /** Different parts have different vectors. */
  lemma {:induction false} PackInjective(ps: seq<Part>, qs: seq<Part>)
    requires Pack(ps) == Pack(qs)
    ensures ps == qs
  {
    if ps != [] && qs != [] {
      PackInjective(ps[..|ps| - 1], qs[..|qs| - 1]);
      assert ps == ps[..|ps| - 1] + [ps[|ps| - 1]] && qs == qs[..|qs| - 1] + [qs[|qs| - 1]];
    }
  }

  /** The parts in a word. */
  function PartCount(vector: nat): nat {
    if vector == 0 then 0 else 1 + PartCount(vector / 4)
  }

  lemma {:induction false} PackCount(ps: seq<Part>)
    ensures PartCount(Pack(ps)) == |ps|
  {
    if ps != [] {
      PackCount(ps[..|ps| - 1]);
      assert Pack(ps) / 4 == Pack(ps[..|ps| - 1]);
    }
  }
}

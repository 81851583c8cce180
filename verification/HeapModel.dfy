/**
 What a heap image means. A heap of `slots` 16-byte slots is a sequence of words, two per slot;
 an object is named by the slot its header starts at. A table lists the objects of a heap.
 */
module HeapModel {
  import opened Words
  import opened Header

  const PAGE_SLOTS := 128

  type Table = map<nat, Obj>

  // ---------------------------------------------------------------- geometry

  /** Objects lie inside the heap and inside one page, and do not overlap. */
  ghost predicate TableOk(table: Table, slots: nat) {
    && (forall s :: s in table ==> InPlace(s, table[s], slots))
    && (forall s, t :: s in table && t in table && s < t ==> s + table[s].slots <= t)
  }

  ghost predicate InPlace(s: nat, o: Obj, slots: nat) {
    && WellPlaced(o)
    && s + o.slots <= slots
    && s % PAGE_SLOTS + o.slots <= PAGE_SLOTS
  }

  /** The header words of a heap image describe the objects of the table. */
  ghost predicate Describes(mem: seq<Word>, table: Table) {
    forall s :: s in table ==> DescribesAt(mem, s, table[s])
  }

  ghost predicate DescribesAt(mem: seq<Word>, s: nat, o: Obj) {
    && 2 * s < |mem|
    && HeaderType(mem[2 * s]) == HEADER_BIT_VECTOR
    && ObjOf(mem[2 * s]) == o
  }

  /** Slot `k` belongs to an object of the table. */
  ghost predicate Covered(table: Table, k: nat) {
    exists s :: s in table && s <= k < s + table[s].slots
  }

  /** The allocation map has a bit set exactly for the slots that belong to an object. */
  ghost predicate MapExact(bits: seq<bool>, table: Table) {
    forall k :: 0 <= k < |bits| ==> (bits[k] <==> Covered(table, k))
  }

  /** An aligned place for `n` slots: inside the heap, inside one page, and free. */
  ghost predicate Fits(bits: seq<bool>, d: nat, n: nat) {
    && d + n <= |bits|
    && d % PAGE_SLOTS + n <= PAGE_SLOTS
    && Free(bits, d, n)
  }

  ghost predicate Free(bits: seq<bool>, d: nat, n: nat)
    requires d + n <= |bits|
  {
    forall k :: d <= k < d + n ==> !bits[k]
  }

  /** `d` is the first place at or after `b`. */
  ghost predicate FirstFit(bits: seq<bool>, b: nat, n: nat, d: nat) {
    && b <= d
    && Fits(bits, d, n)
    && NoFit(bits, b, n, d)
  }

  /** No place starts at or after `b` and before `d`. */
  ghost predicate NoFit(bits: seq<bool>, b: nat, n: nat, d: nat) {
    forall e :: b <= e < d ==> !Fits(bits, e, n)
  }

  /** A place for `n` slots, if nothing behind the end of the heap were in the way. */
  ghost predicate FitsOpen(bits: seq<bool>, d: nat, n: nat) {
    && d % PAGE_SLOTS + n <= PAGE_SLOTS
    && forall k :: d <= k < d + n && k < |bits| ==> !bits[k]
  }

  /** A search from slot `b` ends at byte `p`: at the first such place, or, when it is behind the heap, not past it. */
  ghost predicate SearchEnds(bits: seq<bool>, b: nat, n: nat, p: nat) {
    && p % SLOT_BYTES == 0 && SLOT_BYTES * b <= p
    && (forall d :: b <= d < p / SLOT_BYTES ==> !FitsOpen(bits, d, n))
    && (p / SLOT_BYTES < |bits| ==> FitsOpen(bits, p / SLOT_BYTES, n))
  }

  // ---------------------------------------------------------------- addresses

  /** Payload address of the object at slot `s`. */
  function Address(base: nat, s: nat): nat {
    base + SLOT_BYTES * s + HEADER_BYTES
  }

  predicate InRange(base: nat, slots: nat, p: nat) {
    base <= p < base + SLOT_BYTES * slots
  }

  function SlotOf(base: nat, p: nat): nat
    requires base <= p
  {
    (p - base) / SLOT_BYTES
  }

  /** `p` is the payload address of an object of the table. */
  predicate IsPayload(base: nat, table: Table, p: nat) {
    && base <= p
    && (p - base) % SLOT_BYTES == HEADER_BYTES
    && SlotOf(base, p) in table
  }

  lemma AddressSlot(base: nat, s: nat)
    ensures SlotOf(base, Address(base, s)) == s
    ensures (Address(base, s) - base) % SLOT_BYTES == HEADER_BYTES
  {
  }

  lemma PayloadAddress(base: nat, table: Table, p: nat)
    requires IsPayload(base, table, p)
    ensures Address(base, SlotOf(base, p)) == p
  {
  }

  // ---------------------------------------------------------------- sums over a table

  /** Payload bytes of an object. */
  function PayloadBytes(o: Obj): int {
    SLOT_BYTES * o.slots - HEADER_BYTES
  }

  ghost function PayloadSum(table: Table): int {
    if table == map[] then 0
    else
      var s :| s in table;
      PayloadBytes(table[s]) + PayloadSum(table - {s})
  }

  lemma {:induction false} PayloadSumRemove(table: Table, k: nat)
    requires k in table
    ensures PayloadSum(table) == PayloadBytes(table[k]) + PayloadSum(table - {k})
    decreases |table|
  {
    var s :| s in table && PayloadSum(table) == PayloadBytes(table[s]) + PayloadSum(table - {s});
    if s != k {
      PayloadSumRemove(table - {s}, k);
      PayloadSumRemove(table - {k}, s);
      assert table - {s} - {k} == table - {k} - {s};
    }
  }

  lemma PayloadSumAdd(table: Table, k: nat, o: Obj)
    requires k !in table
    ensures PayloadSum(table[k := o]) == PayloadBytes(o) + PayloadSum(table)
  {
    PayloadSumRemove(table[k := o], k);
    assert table[k := o] - {k} == table;
  }
}

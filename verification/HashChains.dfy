/** Chained hashing on values: what the links of a hash table mean as a finite map. */
module HashChains {
  import opened FormatSize

  datatype Pair<K, V> = Pair(key: K, value: V)

  // ---------------------------------------------------------------- one chain

  ghost predicate KeysDistinct<K, V>(chain: seq<Pair<K, V>>) {
    forall i, j :: 0 <= i < j < |chain| ==> chain[i].key != chain[j].key
  }

  predicate HasKey<K(==), V>(chain: seq<Pair<K, V>>, k: K) {
    exists j :: 0 <= j < |chain| && chain[j].key == k
  }

  /** The value of the first link with the key. */
  function Find<K(==), V>(chain: seq<Pair<K, V>>, k: K): Option<V> {
    if chain == [] then None else if chain[0].key == k then Some(chain[0].value) else Find(chain[1..], k)
  }

  /** Index of the first link with the key, or the length of the chain. */
  function Position<K(==), V>(chain: seq<Pair<K, V>>, k: K): (p: nat)
    ensures p <= |chain|
    ensures p < |chain| ==> chain[p].key == k
    ensures forall j :: 0 <= j < p ==> chain[j].key != k
  {
    if chain == [] then 0 else if chain[0].key == k then 0 else 1 + Position(chain[1..], k)
  }

  /** An existing link gets the new value; otherwise a new link goes in front. */
  function PutChain<K(==), V>(chain: seq<Pair<K, V>>, k: K, v: V): seq<Pair<K, V>> {
    var p := Position(chain, k);
    if p < |chain| then chain[p := Pair(k, v)] else [Pair(k, v)] + chain
  }

  /** The link with the key is taken out. When there is none, the first link goes instead. */
  function DropChain<K(==), V>(chain: seq<Pair<K, V>>, k: K): seq<Pair<K, V>> {
    var p := if Position(chain, k) < |chain| then Position(chain, k) else 0;
    if chain == [] then [] else chain[..p] + chain[p + 1..]
  }

  lemma {:induction false} FindAt<K, V>(chain: seq<Pair<K, V>>, k: K)
    ensures Find(chain, k) == if Position(chain, k) < |chain| then Some(chain[Position(chain, k)].value) else None
  {
    if chain != [] && chain[0].key != k {
      FindAt(chain[1..], k);
    }
  }

  /** In a chain with distinct keys, a link is found under its key. */
  lemma PositionUnique<K, V>(chain: seq<Pair<K, V>>, j: nat)
    requires KeysDistinct(chain) && j < |chain|
    ensures Position(chain, chain[j].key) == j
  {
  }

  lemma PutChainFind<K, V>(chain: seq<Pair<K, V>>, k: K, v: V, k': K)
    requires KeysDistinct(chain)
    ensures KeysDistinct(PutChain(chain, k, v))
    ensures Find(PutChain(chain, k, v), k') == if k' == k then Some(v) else Find(chain, k')
  {
    var after := PutChain(chain, k, v);
    var p := Position(chain, k);
    FindAt(chain, k');
    FindAt(after, k');
    if p == |chain| {
      assert after[1..] == chain;
    } else {
      SamePosition(chain, after, k');
    }
  }

  lemma {:induction false} SamePosition<K, V>(chain: seq<Pair<K, V>>, after: seq<Pair<K, V>>, k: K)
    requires |after| == |chain| && forall j :: 0 <= j < |chain| ==> after[j].key == chain[j].key
    ensures Position(after, k) == Position(chain, k)
  {
    if chain != [] && chain[0].key != k {
      SamePosition(chain[1..], after[1..], k);
    }
  }

  lemma {:induction false} FindAppend<K, V>(a: seq<Pair<K, V>>, b: seq<Pair<K, V>>, k: K)
    ensures Find(a + b, k) == if Find(a, k).Some? then Find(a, k) else Find(b, k)
  {
    if a == [] {
      assert a + b == b;
    } else {
      assert (a + b)[1..] == a[1..] + b;
      if a[0].key != k {
        FindAppend(a[1..], b, k);
      }
    }
  }

  lemma {:induction false} FindSome<K, V>(chain: seq<Pair<K, V>>, k: K)
    ensures Find(chain, k).Some? <==> HasKey(chain, k)
  {
    FindAt(chain, k);
    if HasKey(chain, k) {
      var j :| 0 <= j < |chain| && chain[j].key == k;
      assert Position(chain, k) <= j;
    }
  }

  /** The rest of a chain with distinct keys does not have the key of the `p`th link. */
  lemma CutKeys<K, V>(chain: seq<Pair<K, V>>, p: nat)
    requires KeysDistinct(chain) && p < |chain|
    ensures KeysDistinct(chain[..p] + chain[p + 1..])
    ensures !HasKey(chain[..p], chain[p].key) && !HasKey(chain[p + 1..], chain[p].key)
  {
  }

  /** Taking out the `p`th link takes out its key and nothing else. */
  lemma CutFind<K, V>(chain: seq<Pair<K, V>>, p: nat, k: K)
    requires KeysDistinct(chain) && p < |chain|
    ensures Find(chain[..p] + chain[p + 1..], k) == if k == chain[p].key then None else Find(chain, k)
  {
    var front, back := chain[..p], chain[p + 1..];
    CutKeys(chain, p);
    FindSome(front, k);
    FindSome(back, k);
    FindAppend(front, [chain[p]] + back, k);
    FindAppend(front, back, k);
    FindAppend([chain[p]], back, k);
    assert chain == front + ([chain[p]] + back);
    hide KeysDistinct, HasKey;
  }

  // ---------------------------------------------------------------- all buckets

  function Index<K>(hash: K -> nat, n: nat, k: K): (i: nat)
    requires n > 0
    ensures i < n
  {
    hash(k) % n
  }

  /** Keys are distinct, and every link sits in the bucket of its key. */
  ghost predicate WellFormed<K, V>(hash: K -> nat, bs: seq<seq<Pair<K, V>>>) {
    && |bs| > 0
    && forall i :: 0 <= i < |bs| ==> BucketOk(hash, bs, i)
  }

  ghost predicate BucketOk<K, V>(hash: K -> nat, bs: seq<seq<Pair<K, V>>>, i: nat)
    requires i < |bs|
  {
    && KeysDistinct(bs[i])
    && forall j :: 0 <= j < |bs[i]| ==> hash(bs[i][j].key) % |bs| == i
  }

  function Get<K(==), V>(hash: K -> nat, bs: seq<seq<Pair<K, V>>>, k: K): Option<V>
    requires |bs| > 0
  {
    Find(bs[Index(hash, |bs|, k)], k)
  }

  function Put<K(==), V>(hash: K -> nat, bs: seq<seq<Pair<K, V>>>, k: K, v: V): (r: seq<seq<Pair<K, V>>>)
    requires |bs| > 0
    ensures |r| == |bs|
  {
    var i := Index(hash, |bs|, k);
    bs[i := PutChain(bs[i], k, v)]
  }

  /** Bucket `i` without its `p`th link. */
  function WithoutAt<T>(cs: seq<seq<T>>, i: nat, p: nat): seq<seq<T>> {
    if i < |cs| && p < |cs[i]| then cs[i := cs[i][..p] + cs[i][p + 1..]] else cs
  }

  function Drop<K(==), V>(hash: K -> nat, bs: seq<seq<Pair<K, V>>>, k: K): (r: seq<seq<Pair<K, V>>>)
    requires |bs| > 0
    ensures |r| == |bs|
  {
    var i := Index(hash, |bs|, k);
    bs[i := DropChain(bs[i], k)]
  }

  /** The number of links. */
  function CountLinks<K, V>(bs: seq<seq<Pair<K, V>>>): nat {
    if bs == [] then 0 else CountLinks(bs[..|bs| - 1]) + |bs[|bs| - 1]|
  }

  lemma {:induction false} CountUpdate<K, V>(bs: seq<seq<Pair<K, V>>>, i: nat, chain: seq<Pair<K, V>>)
    requires i < |bs|
    ensures CountLinks(bs[i := chain]) == CountLinks(bs) - |bs[i]| + |chain|
  {
    var init := bs[..|bs| - 1];
    if i < |bs| - 1 {
      CountUpdate(init, i, chain);
      assert bs[i := chain][..|bs| - 1] == init[i := chain];
    } else {
      assert bs[i := chain][..|bs| - 1] == init;
    }
  }

  /** The buckets represent the map `m`. */
  ghost predicate Represents<K(!new), V>(hash: K -> nat, bs: seq<seq<Pair<K, V>>>, m: map<K, V>) {
    && WellFormed(hash, bs)
    && CountLinks(bs) == |m|
    && forall k :: Get(hash, bs, k) == if k in m then Some(m[k]) else None
  }

  lemma PutGet<K, V>(hash: K -> nat, bs: seq<seq<Pair<K, V>>>, k: K, v: V, k': K)
    requires WellFormed(hash, bs)
    ensures Get(hash, Put(hash, bs, k, v), k') == if k' == k then Some(v) else Get(hash, bs, k')
  {
    var i := Index(hash, |bs|, k);
    assert BucketOk(hash, bs, i);
    PutChainFind(bs[i], k, v, k');
  }

  lemma PutWellFormed<K, V>(hash: K -> nat, bs: seq<seq<Pair<K, V>>>, k: K, v: V)
    requires WellFormed(hash, bs)
    ensures WellFormed(hash, Put(hash, bs, k, v))
    ensures CountLinks(Put(hash, bs, k, v)) == CountLinks(bs) + if Get(hash, bs, k).Some? then 0 else 1
  {
    var i, after := Index(hash, |bs|, k), Put(hash, bs, k, v);
    assert BucketOk(hash, bs, i);
    PutChainFind(bs[i], k, v, k);
    FindAt(bs[i], k);
    CountUpdate(bs, i, PutChain(bs[i], k, v));
    forall i' | 0 <= i' < |bs|
      ensures BucketOk(hash, after, i')
    {
      assert BucketOk(hash, bs, i');
    }
  }

  /** A key is in one link only. */
  lemma KeyElsewhere<K, V>(hash: K -> nat, bs: seq<seq<Pair<K, V>>>, i: nat, p: nat, i': nat, p': nat)
    requires WellFormed(hash, bs) && i < |bs| && p < |bs[i]| && i' < |bs| && p' < |bs[i']|
    requires i' != i || p' != p
    ensures bs[i'][p'].key != bs[i][p].key
  {
    assert BucketOk(hash, bs, i) && BucketOk(hash, bs, i');
  }

  /** Insertion refines map update. */
  lemma PutRepresents<K(!new), V>(hash: K -> nat, bs: seq<seq<Pair<K, V>>>, m: map<K, V>, k: K, v: V)
    requires Represents(hash, bs, m)
    ensures Represents(hash, Put(hash, bs, k, v), m[k := v])
  {
    PutWellFormed(hash, bs, k, v);
    forall k': K
      ensures Get(hash, Put(hash, bs, k, v), k') == if k' in m[k := v] then Some(m[k := v][k']) else None
    {
      PutGet(hash, bs, k, v, k');
    }
    if k in m {
      assert m[k := v].Keys == m.Keys;
    } else {
      assert m[k := v].Keys == m.Keys + {k};
    }
  }

  /** Which key a removal really takes out. */
  function Victim<K(==), V>(chain: seq<Pair<K, V>>, k: K): Option<K> {
    if chain == [] then None
    else if Position(chain, k) < |chain| then Some(k)
    else Some(chain[0].key)
  }

  /** Insertion either changes the value of one link or prepends one. */
  lemma PutIs<K, V>(hash: K -> nat, bs: seq<seq<Pair<K, V>>>, k: K, v: V)
    requires |bs| > 0
    ensures var i := Index(hash, |bs|, k);
            var p := Position(bs[i], k);
            Put(hash, bs, k, v) == if p < |bs[i]| then bs[i := bs[i][p := Pair(bs[i][p].key, v)]]
                                   else bs[i := [Pair(k, v)] + bs[i]]
  {
  }

  lemma VictimExists<K, V>(chain: seq<Pair<K, V>>, k: K)
    ensures Victim(chain, k).Some? <==> chain != []
  {
  }

  /** The victim is the key itself if it is present, else the first key of its bucket. */
  lemma VictimIs<K(!new), V>(hash: K -> nat, bs: seq<seq<Pair<K, V>>>, m: map<K, V>, k: K)
    requires Represents(hash, bs, m)
    ensures var chain := bs[Index(hash, |bs|, k)];
            Victim(chain, k) == if k in m then Some(k) else if chain == [] then None else Some(chain[0].key)
  {
    FindAt(bs[Index(hash, |bs|, k)], k);
    assert Get(hash, bs, k) == if k in m then Some(m[k]) else None;
  }

  lemma DropChainFind<K, V>(chain: seq<Pair<K, V>>, k: K, k': K)
    requires KeysDistinct(chain)
    ensures KeysDistinct(DropChain(chain, k))
    ensures Find(DropChain(chain, k), k') == if Victim(chain, k) == Some(k') then None else Find(chain, k')
    ensures |DropChain(chain, k)| == |chain| - if Victim(chain, k).Some? then 1 else 0
  {
    if chain != [] {
      var p := if Position(chain, k) < |chain| then Position(chain, k) else 0;
      CutKeys(chain, p);
      CutFind(chain, p, k');
    }
  }

  lemma DropWellFormed<K, V>(hash: K -> nat, bs: seq<seq<Pair<K, V>>>, k: K)
    requires WellFormed(hash, bs)
    ensures WellFormed(hash, Drop(hash, bs, k))
    ensures CountLinks(Drop(hash, bs, k)) ==
            CountLinks(bs) - if Victim(bs[Index(hash, |bs|, k)], k).Some? then 1 else 0
  {
    var i, after := Index(hash, |bs|, k), Drop(hash, bs, k);
    assert BucketOk(hash, bs, i);
    DropChainFind(bs[i], k, k);
    CountUpdate(bs, i, DropChain(bs[i], k));
    forall i' | 0 <= i' < |bs|
      ensures BucketOk(hash, after, i')
    {
      assert BucketOk(hash, bs, i');
    }
  }

  lemma VictimBucket<K, V>(hash: K -> nat, bs: seq<seq<Pair<K, V>>>, k: K)
    requires WellFormed(hash, bs)
    ensures var victim := Victim(bs[Index(hash, |bs|, k)], k);
            victim.Some? ==>
              && Index(hash, |bs|, victim.value) == Index(hash, |bs|, k)
              && Get(hash, bs, victim.value).Some?
  {
    var i := Index(hash, |bs|, k);
    assert BucketOk(hash, bs, i);
    var victim := Victim(bs[i], k);
    if victim.Some? {
      FindAt(bs[i], victim.value);
    }
  }

  lemma DropGet<K, V>(hash: K -> nat, bs: seq<seq<Pair<K, V>>>, k: K, k': K)
    requires WellFormed(hash, bs)
    ensures Get(hash, Drop(hash, bs, k), k') ==
            if Victim(bs[Index(hash, |bs|, k)], k) == Some(k') then None else Get(hash, bs, k')
  {
    var i := Index(hash, |bs|, k);
    assert BucketOk(hash, bs, i);
    DropChainFind(bs[i], k, k');
    VictimBucket(hash, bs, k);
  }

  /** What removal does to the map: the victim goes, if there is one. */
  lemma DropRepresents<K(!new), V>(hash: K -> nat, bs: seq<seq<Pair<K, V>>>, m: map<K, V>, k: K)
    requires Represents(hash, bs, m)
    ensures var victim := Victim(bs[Index(hash, |bs|, k)], k);
            Represents(hash, Drop(hash, bs, k), if victim.Some? then m - {victim.value} else m)
  {
    var victim := Victim(bs[Index(hash, |bs|, k)], k);
    var m' := if victim.Some? then m - {victim.value} else m;
    DropWellFormed(hash, bs, k);
    VictimBucket(hash, bs, k);
    forall k': K
      ensures Get(hash, Drop(hash, bs, k), k') == if k' in m' then Some(m'[k']) else None
    {
      DropGet(hash, bs, k, k');
    }
    if victim.Some? {
      assert victim.value in m;
      assert m'.Keys == m.Keys - {victim.value};
    }
  }

  /**
   Removal is map removal exactly when the key is present or its bucket is empty; otherwise the
   first link of the bucket, under another key, is lost.
   */
  lemma RemovalCorrect<K(!new), V>(hash: K -> nat, bs: seq<seq<Pair<K, V>>>, m: map<K, V>, k: K)
    requires Represents(hash, bs, m)
    ensures Represents(hash, Drop(hash, bs, k), m - {k}) <==> k in m || bs[hash(k) % |bs|] == []
  {
    var i := Index(hash, |bs|, k);
    FindAt(bs[i], k);
    DropRepresents(hash, bs, m, k);
    if k !in m {
      assert m - {k} == m;
      DropWellFormed(hash, bs, k);
    }
  }

  /** Removing the first key of a bucket empties no other one, and leaves the rest of its own. */
  lemma DropFirst<K(!new), V>(hash: K -> nat, bs: seq<seq<Pair<K, V>>>, i: nat, k: K)
    requires i < |bs| && Index(hash, |bs|, k) == i && bs[i] != [] && bs[i][0].key == k
    ensures Drop(hash, bs, k) == bs[i := bs[i][1..]]
  {
    assert Position(bs[i], k) == 0;
    assert bs[i][..0] + bs[i][1..] == bs[i][1..];
  }

  lemma {:induction false} NothingLeft<K, V>(bs: seq<seq<Pair<K, V>>>)
    requires forall i :: 0 <= i < |bs| ==> bs[i] == []
    ensures CountLinks(bs) == 0
  {
    if bs != [] {
      NothingLeft(bs[..|bs| - 1]);
    }
  }

  // ---------------------------------------------------------------- rehashing

  function Empty<K, V>(n: nat): (bs: seq<seq<Pair<K, V>>>)
    ensures |bs| == n
  {
    seq(n, _ => [])
  }

  lemma {:induction false} EmptyCount<K, V>(n: nat)
    ensures CountLinks(Empty<K, V>(n)) == 0
  {
    if n > 0 {
      EmptyCount<K, V>(n - 1);
      assert Empty<K, V>(n)[..n - 1] == Empty<K, V>(n - 1);
    }
  }

  lemma EmptyRepresents<K(!new), V>(hash: K -> nat, n: nat)
    requires n > 0
    ensures Represents(hash, Empty<K, V>(n), map[])
  {
    EmptyCount<K, V>(n);
  }

  /** Removing an absent key whose bucket is empty loses nothing, whatever is in the other buckets. */
  lemma RemovalKeepsOther<K(!new), V>(hash: K -> nat, n: nat, k: K, v: V, absent: K)
    requires n > 1 && hash(k) % n != hash(absent) % n
    ensures var bs := Put(hash, Empty(n), k, v);
            && Represents(hash, bs, map[k := v]) && bs[hash(k) % n] == [Pair(k, v)] && bs[hash(absent) % n] == []
            && Drop(hash, bs, absent) == bs && Represents(hash, Drop(hash, bs, absent), map[k := v] - {absent})
  {
    var bs := Put(hash, Empty(n), k, v);
    EmptyRepresents<K, V>(hash, n);
    PutRepresents(hash, Empty(n), map[], k, v);
    assert map[][k := v] == map[k := v];
    PutIs(hash, Empty(n), k, v);
    assert [Pair(k, v)] + [] == [Pair(k, v)];
    RemovalCorrect(hash, bs, map[k := v], absent);
  }

  /** With two buckets, odd and even keys are apart. */
  lemma TwoBuckets(odd: nat, even: nat, value: string)
    requires odd % 2 == 1 && even % 2 == 0
    ensures var bs := Put(key => key, Empty(2), odd, value);
            bs == [[], [Pair(odd, value)]] && Drop(key => key, bs, even) == bs
  {
    RemovalKeepsOther(key => key, 2, odd, value, even);
  }

  /** Removing an absent key from a table with one bucket and one key loses that key. */
  lemma RemovalLosesAnother<K(!new), V>(hash: K -> nat, k: K, v: V, absent: K)
    requires absent != k
    ensures var bs := Put(hash, Empty(1), k, v);
            && Represents(hash, bs, map[k := v]) && absent !in map[k := v]
            && Represents(hash, Drop(hash, bs, absent), map[])
            && !Represents(hash, Drop(hash, bs, absent), map[k := v] - {absent})
  {
    var bs := Put(hash, Empty(1), k, v);
    EmptyRepresents<K, V>(hash, 1);
    PutRepresents(hash, Empty(1), map[], k, v);
    assert map[][k := v] == map[k := v];
    PutIs(hash, Empty(1), k, v);
    assert Index(hash, 1, k) == 0 == Index(hash, 1, absent);
    assert Empty<K, V>(1)[0] == [] && [Pair(k, v)] + Empty<K, V>(1)[0] == [Pair(k, v)];
    assert bs[0] == [Pair(k, v)];
    RemovalCorrect(hash, bs, map[k := v], absent);
    DropRepresents(hash, bs, map[k := v], absent);
    VictimIs(hash, bs, map[k := v], absent);
    assert map[k := v] - {k} == map[];
  }

  /** All links, bucket by bucket. */
  function Flatten<K, V>(bs: seq<seq<Pair<K, V>>>): (ps: seq<Pair<K, V>>)
    ensures |ps| == CountLinks(bs)
  {
    if bs == [] then [] else Flatten(bs[..|bs| - 1]) + bs[|bs| - 1]
  }

  /** What prepending one element after another builds. */
  function Reversed<T>(s: seq<T>): (r: seq<T>)
    ensures |r| == |s|
  {
    if s == [] then [] else [s[|s| - 1]] + Reversed(s[..|s| - 1])
  }

  function KeysOf<K, V>(ps: seq<Pair<K, V>>): (ks: seq<K>)
    ensures |ks| == |ps|
  {
    seq(|ps|, i requires 0 <= i < |ps| => ps[i].key)
  }

  function ValuesOf<K, V>(ps: seq<Pair<K, V>>): (vs: seq<V>)
    ensures |vs| == |ps|
  {
    seq(|ps|, i requires 0 <= i < |ps| => ps[i].value)
  }

  lemma ReversedNext<K, V>(ps: seq<Pair<K, V>>, p: Pair<K, V>)
    ensures Reversed(KeysOf(ps + [p])) == [p.key] + Reversed(KeysOf(ps))
    ensures Reversed(ValuesOf(ps + [p])) == [p.value] + Reversed(ValuesOf(ps))
  {
    assert KeysOf(ps + [p])[..|ps|] == KeysOf(ps);
    assert ValuesOf(ps + [p])[..|ps|] == ValuesOf(ps);
  }

  lemma NothingSeen<K, V>(bs: seq<seq<Pair<K, V>>>)
    ensures Flatten(bs[..0]) == []
    ensures Reversed(KeysOf(Flatten(bs[..0]))) == [] && Reversed(ValuesOf(Flatten(bs[..0]))) == []
  {
  }

  lemma FlattenNext<K, V>(bs: seq<seq<Pair<K, V>>>, i: nat)
    requires i < |bs|
    ensures Flatten(bs[..i + 1]) == Flatten(bs[..i]) + bs[i]
  {
    assert bs[..i + 1][..i] == bs[..i];
  }

  /** Position `i` of the two lists holds the two halves of one pair. */
  lemma ListsPaired<K, V>(ps: seq<Pair<K, V>>, i: nat)
    requires i < |ps|
    ensures Pair(Reversed(KeysOf(ps))[i], Reversed(ValuesOf(ps))[i]) == Reversed(ps)[i]
  {
    hide Reversed, KeysOf, ValuesOf;
    ReversedAt(ps, i);
    ReversedAt(KeysOf(ps), i);
    ReversedAt(ValuesOf(ps), i);
    PairAt(ps, |ps| - 1 - i);
  }

  lemma PairAt<K, V>(ps: seq<Pair<K, V>>, j: nat)
    requires j < |ps|
    ensures KeysOf(ps)[j] == ps[j].key && ValuesOf(ps)[j] == ps[j].value
  {
  }

  lemma {:induction false} ReversedAt<T>(s: seq<T>, i: nat)
    requires i < |s|
    ensures Reversed(s)[i] == s[|s| - 1 - i]
  {
    if i > 0 {
      ReversedAt(s[..|s| - 1], i - 1);
    }
  }

  /** The map that results from inserting the pairs in order. */
  function MapOf<K, V>(ps: seq<Pair<K, V>>): map<K, V> {
    if ps == [] then map[] else MapOf(ps[..|ps| - 1])[ps[|ps| - 1].key := ps[|ps| - 1].value]
  }

  lemma {:induction false} MapOfConsistent<K, V>(ps: seq<Pair<K, V>>, m: map<K, V>)
    requires forall p :: p in ps ==> p.key in m && m[p.key] == p.value
    ensures forall k :: k in MapOf(ps) ==> k in m && MapOf(ps)[k] == m[k]
    ensures forall p :: p in ps ==> p.key in MapOf(ps)
  {
    if ps != [] {
      MapOfConsistent(ps[..|ps| - 1], m);
      assert ps == ps[..|ps| - 1] + [ps[|ps| - 1]];
    }
  }

  lemma {:induction false} InFlatten<K, V>(bs: seq<seq<Pair<K, V>>>, p: Pair<K, V>)
    ensures p in Flatten(bs) <==> exists i :: 0 <= i < |bs| && p in bs[i]
  {
    if bs != [] {
      InFlatten(bs[..|bs| - 1], p);
    }
  }

  lemma {:induction false} InReversed<T>(s: seq<T>, x: T)
    ensures x in Reversed(s) <==> x in s
  {
    if s != [] {
      InReversed(s[..|s| - 1], x);
      assert s == s[..|s| - 1] + [s[|s| - 1]];
    }
  }

  /** A link is found under its key. */
  lemma LinkFound<K(!new), V>(hash: K -> nat, bs: seq<seq<Pair<K, V>>>, m: map<K, V>, i: nat, p: Pair<K, V>)
    requires Represents(hash, bs, m) && i < |bs| && p in bs[i]
    ensures p.key in m && m[p.key] == p.value
  {
    var j :| 0 <= j < |bs[i]| && bs[i][j] == p;
    assert BucketOk(hash, bs, i);
    PositionUnique(bs[i], j);
    FindAt(bs[i], p.key);
    assert Get(hash, bs, p.key) == Some(p.value);
  }

  /** The paired key and value lists of a table, inserted in order, give back its map. */
  lemma ListsGiveMap<K(!new), V>(hash: K -> nat, bs: seq<seq<Pair<K, V>>>, m: map<K, V>)
    requires Represents(hash, bs, m)
    ensures MapOf(Reversed(Flatten(bs))) == m
  {
    var ps := Reversed(Flatten(bs));
    forall p | p in ps
      ensures p.key in m && m[p.key] == p.value
    {
      InReversed(Flatten(bs), p);
      InFlatten(bs, p);
      var i :| 0 <= i < |bs| && p in bs[i];
      LinkFound(hash, bs, m, i, p);
    }
    MapOfConsistent(ps, m);
    forall k | k in m
      ensures k in MapOf(ps)
    {
      var i := Index(hash, |bs|, k);
      assert Get(hash, bs, k) == Some(m[k]);
      FindAt(bs[i], k);
      var p := bs[i][Position(bs[i], k)];
      InFlatten(bs, p);
      InReversed(Flatten(bs), p);
      assert p in ps && p.key == k;
    }
  }

  lemma EmptyMapOf<K, V>(ps: seq<Pair<K, V>>)
    ensures MapOf(ps[..0]) == map[]
  {
  }

  lemma MapGrows<K, V>(m: map<K, V>, k: K, v: V)
    ensures |m[k := v]| == |m| + if k in m then 0 else 1
  {
    if k in m {
      assert m[k := v].Keys == m.Keys;
    } else {
      assert m[k := v].Keys == m.Keys + {k};
    }
  }

  lemma GetMeans<K(!new), V>(hash: K -> nat, bs: seq<seq<Pair<K, V>>>, m: map<K, V>, k: K)
    requires Represents(hash, bs, m)
    ensures var chain := bs[Index(hash, |bs|, k)];
            k in m <==> Position(chain, k) < |chain|
  {
    FindAt(bs[Index(hash, |bs|, k)], k);
    assert Get(hash, bs, k) == if k in m then Some(m[k]) else None;
  }

  lemma MapOfNext<K, V>(ps: seq<Pair<K, V>>, i: nat)
    requires i < |ps|
    ensures MapOf(ps[..i + 1]) == MapOf(ps[..i])[ps[i].key := ps[i].value]
  {
    assert ps[..i + 1][..i] == ps[..i];
  }

  // ---------------------------------------------------------------- load

  /** `key_count / bucket_count > 1.5`. */
  predicate Overloaded(keyCount: nat, bucketCount: nat)
    requires bucketCount > 0
  {
    keyCount as real / bucketCount as real > 1.5
  }

  /** The load never gets past one and a half keys to a bucket, and one more. */
  predicate LoadBounded(keyCount: nat, bucketCount: nat) {
    2 * keyCount <= 3 * bucketCount + 2
  }

  lemma FewerKeys(keyCount: nat, bucketCount: nat)
    requires LoadBounded(keyCount + 1, bucketCount)
    ensures LoadBounded(keyCount, bucketCount)
  {
  }

  lemma RatioMeans(a: real, b: real)
    requires b > 0.0
    ensures a / b > 1.5 <==> a > 1.5 * b
  {
    assert a == a / b * b;
    if a / b > 1.5 {
      assert a / b * b > 1.5 * b;
    } else {
      assert a / b * b <= 1.5 * b;
    }
  }

  lemma OverloadedMeans(keyCount: nat, bucketCount: nat)
    requires bucketCount > 0
    ensures Overloaded(keyCount, bucketCount) <==> 2 * keyCount > 3 * bucketCount
  {
    RatioMeans(keyCount as real, bucketCount as real);
  }

  lemma RoomLeft(keyCount: nat, bucketCount: nat)
    requires bucketCount > 0 && !Overloaded(keyCount, bucketCount)
    ensures LoadBounded(keyCount + 1, bucketCount)
  {
    OverloadedMeans(keyCount, bucketCount);
  }

  /** While the links of an overloaded table go into one twice its size, that one is never overloaded. */
  lemma RehashNeverOverloads(keyCount: nat, bucketCount: nat, inserted: nat)
    requires bucketCount > 0 && LoadBounded(keyCount, bucketCount) && inserted < keyCount
    ensures !Overloaded(inserted, 2 * bucketCount)
    ensures LoadBounded(keyCount + 1, 2 * bucketCount)
  {
    OverloadedMeans(inserted, 2 * bucketCount);
  }
}

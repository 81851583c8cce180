/** The resizing hash table: buckets of linked links, updated in place. */
module HashTables {
  import opened FormatSize
  import opened HashChains

  class Link<K, V> {
    const key: K
    var value: V
    var next: Link?<K, V>

    constructor (key: K, value: V, next: Link?<K, V>)
      ensures this.key == key && this.value == value && this.next == next
    {
      this.key, this.value, this.next := key, value, next;
    }
  }

  /** The links of a chain point to one another in order. */
  ghost predicate ChainLinked<K, V>(chain: seq<Link<K, V>>)
    reads chain
  {
    forall j :: 0 <= j < |chain| ==> chain[j].next == LinkAt(chain, j + 1)
  }

  ghost function LinkAt<K, V>(chain: seq<Link<K, V>>, j: nat): Link?<K, V> {
    if j < |chain| then chain[j] else null
  }

  ghost predicate ChainShows<K, V>(chain: seq<Link<K, V>>, pairs: seq<Pair<K, V>>)
    reads chain
  {
    && |pairs| == |chain|
    && forall j :: 0 <= j < |chain| ==> pairs[j] == Pair(chain[j].key, chain[j].value)
  }

  /** When the link before the `p`th one points past it, the rest is still a chain. */
  lemma CutChain<K, V>(chain: seq<Link<K, V>>, pairs: seq<Pair<K, V>>, p: nat)
    requires 0 < p < |chain| && |pairs| == |chain|
    requires forall j :: 0 <= j < |chain| ==> pairs[j] == Pair(chain[j].key, chain[j].value)
    requires forall j :: 0 <= j < |chain| && j != p - 1 ==> chain[j].next == LinkAt(chain, j + 1)
    requires chain[p - 1].next == LinkAt(chain, p + 1)
    ensures ChainLinked(chain[..p] + chain[p + 1..])
    ensures ChainShows(chain[..p] + chain[p + 1..], pairs[..p] + pairs[p + 1..])
    ensures LinkAt(chain[..p] + chain[p + 1..], 0) == LinkAt(chain, 0)
  {
    var cut := chain[..p] + chain[p + 1..];
    forall j | 0 <= j < |cut|
      ensures cut[j].next == LinkAt(cut, j + 1)
    {
      if j < p {
        assert cut[j] == chain[j];
      } else {
        assert cut[j] == chain[j + 1];
      }
    }
  }

  lemma PositionIs<K, V>(chain: seq<Pair<K, V>>, k: K, p: nat)
    requires p <= |chain| && (p < |chain| ==> chain[p].key == k)
    requires forall j :: 0 <= j < p ==> chain[j].key != k
    ensures Position(chain, k) == p
  {
  }

  class HashTable<K(==, !new), V> {
    const hash: K -> nat
    var bucketCount: nat
    var keyCount: nat
    var buckets: array<Link?<K, V>>
    /** The links of each bucket, and all of them together. */
    ghost var chains: seq<seq<Link<K, V>>>
    ghost var repr: set<Link<K, V>>
    /** The key-value pairs in the links. */
    ghost var model: seq<seq<Pair<K, V>>>
    /** The finite map that the table stands for. */
    ghost var contents: map<K, V>

    /** The buckets hold the links `cs`, and the links hold the pairs `ps`. */
    ghost predicate Holds(cs: seq<seq<Link<K, V>>>, ps: seq<seq<Pair<K, V>>>)
      reads `bucketCount, `buckets, `repr, buckets, repr
    {
      && bucketCount == buckets.Length == |cs| == |ps| > 0
      && (forall i :: 0 <= i < |cs| ==> (set l | l in cs[i]) <= repr)
      && (forall i :: 0 <= i < |cs| ==> buckets[i] == LinkAt(cs[i], 0))
      && (forall i :: 0 <= i < |cs| ==> ChainLinked(cs[i]) && ChainShows(cs[i], ps[i]))
    }

    /** Bucket `i` holds the links of `cs[i]`, and they hold the pairs of `ps[i]`. */
    ghost predicate BucketHolds(cs: seq<seq<Link<K, V>>>, ps: seq<seq<Pair<K, V>>>, i: nat)
      requires bucketCount == buckets.Length == |cs| == |ps| && i < |cs| && (set l | l in cs[i]) <= repr
      reads `bucketCount, `buckets, `repr, buckets, repr
    {
      buckets[i] == LinkAt(cs[i], 0) && ChainLinked(cs[i]) && ChainShows(cs[i], ps[i])
    }

    /** All buckets but one. */
    ghost predicate OthersHold(cs: seq<seq<Link<K, V>>>, ps: seq<seq<Pair<K, V>>>, i: nat)
      reads `bucketCount, `buckets, `repr, buckets, repr
    {
      && bucketCount == buckets.Length == |cs| == |ps|
      && forall i' :: 0 <= i' < |cs| && i' != i ==> (set l | l in cs[i']) <= repr && BucketHolds(cs, ps, i')
    }

    /** One bucket has changed, and the other ones are as they were. */
    lemma ReplaceChain(cs: seq<seq<Link<K, V>>>, ps: seq<seq<Pair<K, V>>>, i: nat, chain: seq<Link<K, V>>,
                       pairs: seq<Pair<K, V>>)
      requires OthersHold(cs, ps, i) && i < |cs|
      requires (set l | l in chain) <= repr && buckets[i] == LinkAt(chain, 0)
      requires ChainLinked(chain) && ChainShows(chain, pairs)
      ensures Holds(cs[i := chain], ps[i := pairs])
    {
      forall i' | 0 <= i' < |cs| && i' != i
        ensures buckets[i'] == LinkAt(cs[i'], 0) && ChainLinked(cs[i']) && ChainShows(cs[i'], ps[i'])
      {
        assert BucketHolds(cs, ps, i');
      }
    }

    ghost predicate Linked()
      reads this, buckets, repr
    {
      Holds(chains, model)
    }

    ghost predicate Valid()
      reads this, buckets, repr
    {
      && Linked()
      && Represents(hash, model, contents)
      && keyCount == |contents|
      && LoadBounded(keyCount, bucketCount)
    }

    constructor (bucketCount: nat, hash: K -> nat)
      requires bucketCount > 0
      ensures Valid() && fresh(buckets) && repr == {}
      ensures contents == map[] && this.bucketCount == bucketCount && this.hash == hash
    {
      this.hash := hash;
      this.bucketCount := bucketCount;
      keyCount := 0;
      buckets := new Link?<K, V>[bucketCount](_ => null);
      chains := seq(bucketCount, _ => []);
      repr := {};
      model := Empty(bucketCount);
      contents := map[];
      new;
      EmptyRepresents<K, V>(hash, bucketCount);
    }

    // -------------------------------------------------------------- single links

    /** Walks a bucket to the link with the key. */
    method ApplyToOne(k: K) returns (link: Link?<K, V>, ghost i: nat, ghost p: nat)
      requires Linked()
      ensures i == hash(k) % bucketCount && p == Position(model[i], k)
      ensures link == LinkAt(chains[i], p)
    {
      var index := hash(k) % bucketCount;
      i, p := index, 0;
      link := buckets[index];
      assert ChainLinked(chains[i]) && ChainShows(chains[i], model[i]);
      while link != null
        invariant p <= |chains[i]| && link == LinkAt(chains[i], p)
        invariant forall j :: 0 <= j < p ==> model[i][j].key != k
        decreases |chains[i]| - p
      {
        if link.key == k {
          PositionIs(model[i], k, p);
          return;
        }
        link := link.next;
        p := p + 1;
      }
      PositionIs(model[i], k, p);
    }

    /** `update_value`, on a link found before. */
    method UpdateValue(link: Link<K, V>, v: V, ghost i: nat, ghost p: nat)
      requires Linked() && WellFormed(hash, model)
      requires i < |chains| && p < |chains[i]| && link == chains[i][p]
      modifies this`model, link`value
      ensures Linked()
      ensures model == old(model)[i := old(model)[i][p := Pair(old(model)[i][p].key, v)]]
    {
      ghost var before := model;
      assert ChainShows(chains[i], model[i]);
      link.value := v;
      model := model[i := model[i][p := Pair(model[i][p].key, v)]];
      forall i' | 0 <= i' < |chains|
        ensures ChainLinked(chains[i']) && ChainShows(chains[i'], model[i'])
      {
        assert old(ChainLinked(chains[i'])) && old(ChainShows(chains[i'], model[i']));
        forall j | 0 <= j < |chains[i']|
          ensures model[i'][j] == Pair(chains[i'][j].key, chains[i'][j].value)
        {
          if i' != i || j != p {
            KeyElsewhere(hash, before, i, p, i', j);
          }
        }
      }
    }

    /** `create_link`, in front of a bucket. */
    method Prepend(k: K, v: V, ghost i: nat)
      requires Linked() && i == hash(k) % bucketCount
      modifies this`chains, this`repr, this`model, buckets
      ensures Linked()
      ensures model == old(model)[i := [Pair(k, v)] + old(model)[i]]
      ensures fresh(repr - old(repr))
    {
      var index := hash(k) % bucketCount;
      var newHead := new Link(k, v, buckets[index]);
      buckets[index] := newHead;
      chains := chains[i := [newHead] + chains[i]];
      repr := repr + {newHead};
      model := model[i := [Pair(k, v)] + model[i]];
      forall i' | 0 <= i' < |chains|
        ensures ChainLinked(chains[i']) && ChainShows(chains[i'], model[i'])
      {
        assert old(ChainLinked(chains[i'])) && old(ChainShows(chains[i'], model[i']));
      }
    }

    /** The slot that holds the link with the key: in the link before it, or in the bucket array. */
    method FindPreviousPointer(k: K) returns (prev: Link?<K, V>, ghost i: nat, ghost p: nat)
      requires Linked()
      ensures i == hash(k) % bucketCount
      ensures p == if Position(model[i], k) < |model[i]| then Position(model[i], k) else 0
      ensures prev == if p == 0 then null else LinkAt(chains[i], p - 1)
    {
      var index := hash(k) % bucketCount;
      i, p, prev := index, 0, null;
      var link := buckets[index];
      assert ChainLinked(chains[i]) && ChainShows(chains[i], model[i]);
      while link != null
        invariant p <= |chains[i]| && link == LinkAt(chains[i], p)
        invariant prev == if p == 0 then null else LinkAt(chains[i], p - 1)
        invariant forall j :: 0 <= j < p ==> model[i][j].key != k
        decreases |chains[i]| - p
      {
        if link.key == k {
          PositionIs(model[i], k, p);
          return;
        }
        prev := link;
        link := link.next;
        p := p + 1;
      }
      PositionIs(model[i], k, p);
      p, prev := 0, null;
    }

    /** Takes the first link out of its bucket. */
    method UnlinkFirst(index: nat, toUnlink: Link<K, V>)
      requires Linked() && index < |chains| && chains[index] != [] && toUnlink == chains[index][0]
      modifies this`chains, this`model, buckets
      ensures Linked()
      ensures model == old(model)[index := old(model)[index][1..]]
      ensures chains == old(chains)[index := old(chains)[index][1..]]
    {
      assert ChainLinked(chains[index]) && ChainShows(chains[index], model[index]);
      buckets[index] := toUnlink.next;
      chains := chains[index := chains[index][1..]];
      model := model[index := model[index][1..]];
      forall i' | 0 <= i' < |chains|
        ensures ChainLinked(chains[i']) && ChainShows(chains[i'], model[i'])
      {
        assert old(ChainLinked(chains[i'])) && old(ChainShows(chains[i'], model[i']));
      }
    }

    /** Lets the link before the `p`th one point past it. */
    method PointPast(prev: Link<K, V>, toUnlink: Link<K, V>, ghost i: nat, ghost p: nat)
      requires Linked() && WellFormed(hash, model)
      requires i < |chains| && 0 < p < |chains[i]| && toUnlink == chains[i][p] && prev == chains[i][p - 1]
      modifies prev`next
      ensures OthersHold(chains, model, i) && i < |model| && p < |model[i]|
      ensures buckets[i] == LinkAt(chains[i], 0) && (set l | l in chains[i]) <= repr
      ensures ChainLinked(chains[i][..p] + chains[i][p + 1..])
      ensures ChainShows(chains[i][..p] + chains[i][p + 1..], model[i][..p] + model[i][p + 1..])
      ensures LinkAt(chains[i][..p] + chains[i][p + 1..], 0) == LinkAt(chains[i], 0)
    {
      hide WellFormed, Position;
      OnlyLink(i, p - 1);
      assert ChainLinked(chains[i]) && ChainShows(chains[i], model[i]);
      prev.next := toUnlink.next;
      assert chains[i][p].next == LinkAt(chains[i], p + 1);
      CutChain(chains[i], model[i], p);
      forall i' | 0 <= i' < |chains| && i' != i
        ensures ChainLinked(chains[i']) && ChainShows(chains[i'], model[i'])
      {
        assert prev !in chains[i'];
        assert old(ChainLinked(chains[i'])) && old(ChainShows(chains[i'], model[i']));
      }
    }

    /** Takes the link behind `prev` out of its bucket. */
    method UnlinkBehind(prev: Link<K, V>, toUnlink: Link<K, V>, ghost i: nat, ghost p: nat)
      requires Linked() && WellFormed(hash, model)
      requires i < |chains| && 0 < p < |chains[i]| && toUnlink == chains[i][p] && prev == chains[i][p - 1]
      modifies this`chains, this`model, prev`next
      ensures Linked()
      ensures model == old(model)[i := old(model)[i][..p] + old(model)[i][p + 1..]]
      ensures chains == old(chains)[i := old(chains)[i][..p] + old(chains)[i][p + 1..]]
    {
      hide ChainLinked, ChainShows, WellFormed, OthersHold, Holds;
      PointPast(prev, toUnlink, i, p);
      ghost var cut, pairs := chains[i][..p] + chains[i][p + 1..], model[i][..p] + model[i][p + 1..];
      assert forall l :: l in cut ==> l in chains[i];
      ReplaceChain(chains, model, i, cut, pairs);
      chains, model := chains[i := cut], model[i := pairs];
    }

    /** A link is in one place only. */
    lemma OnlyLink(i: nat, p: nat)
      requires Linked() && WellFormed(hash, model) && i < |chains| && p < |chains[i]|
      ensures forall i', j ::
                0 <= i' < |chains| && 0 <= j < |chains[i']| && chains[i'][j] == chains[i][p] ==> i' == i && j == p
    {
      forall i', j | 0 <= i' < |chains| && 0 <= j < |chains[i']| && chains[i'][j] == chains[i][p]
        ensures i' == i && j == p
      {
        assert ChainShows(chains[i], model[i]) && ChainShows(chains[i'], model[i']);
        if i' != i || j != p {
          KeyElsewhere(hash, model, i, p, i', j);
        }
      }
    }

    // -------------------------------------------------------------- lookup and removal

    /** The value under a key, if there is one. */
    method Lookup(k: K) returns (value: Option<V>)
      requires Valid()
      ensures value == if k in contents then Some(contents[k]) else None
    {
      var link;
      ghost var i, p;
      link, i, p := ApplyToOne(k);
      FindAt(model[i], k);
      assert Get(hash, model, k) == Find(model[i], k);
      assert ChainShows(chains[i], model[i]);
      value := if link == null then None else Some(link.value);
    }

    /** Takes out the link that a slot holds, if it holds one. */
    method TakeOut(index: nat, prev: Link?<K, V>, ghost p: nat) returns (taken: bool)
      requires Linked() && WellFormed(hash, model) && index < |chains|
      requires prev == if p == 0 then null else LinkAt(chains[index], p - 1)
      requires p > 0 ==> p < |chains[index]|
      modifies this`chains, this`model, buckets, repr
      ensures Linked()
      ensures taken <==> old(model)[index] != []
      ensures model == WithoutAt(old(model), index, p) && chains == WithoutAt(old(chains), index, p)
    {
      hide WellFormed;
      assert ChainShows(chains[index], model[index]) && ChainLinked(chains[index]);
      if prev == null {
        taken := buckets[index] != null;
        if taken {
          assert chains[index][..0] + chains[index][1..] == chains[index][1..];
          assert model[index][..0] + model[index][1..] == model[index][1..];
          UnlinkFirst(index, buckets[index]);
        }
      } else {
        UnlinkBehind(prev, prev.next, index, p);
        taken := true;
      }
    }

    /** Where removal takes a link out. */
    ghost function Place(k: K): (p: nat)
      requires Linked()
      reads this, buckets, repr
    {
      var chain := model[hash(k) % bucketCount];
      if Position(chain, k) < |chain| then Position(chain, k) else 0
    }

    /** Takes out the link with the key, or, when there is none, the first link of the bucket. */
    method Unlink(k: K)
      requires Linked() && WellFormed(hash, model) && keyCount == CountLinks(model)
      modifies this`keyCount, this`chains, this`model, buckets, repr
      ensures Linked() && model == Drop(hash, old(model), k) && keyCount == CountLinks(model) <= old(keyCount)
      ensures chains == WithoutAt(old(chains), hash(k) % old(bucketCount), old(Place(k)))
    {
      hide WellFormed, Victim, ChainLinked;
      var prev;
      ghost var i, p;
      prev, i, p := FindPreviousPointer(k);
      assert ChainShows(chains[i], model[i]);
      var index := hash(k) % bucketCount;
      DropWellFormed(hash, model, k);
      VictimExists(model[i], k);
      ghost var before := model;
      var taken := TakeOut(index, prev, p);
      assert model == Drop(hash, before, k);
      if taken {
        keyCount := keyCount - 1;
      }
    }

    /** Takes the key, or else the first key of its bucket, out of the table. */
    method Remove(k: K)
      requires Valid()
      modifies this, buckets, repr
      ensures Valid() && repr == old(repr) && buckets == old(buckets) && bucketCount == old(bucketCount)
      ensures k in old(contents) || old(model)[hash(k) % bucketCount] == [] ==> contents == old(contents) - {k}
      ensures k !in old(contents) && old(model)[hash(k) % bucketCount] != [] ==>
                contents == old(contents) - {old(model)[hash(k) % bucketCount][0].key}
      ensures model == Drop(hash, old(model), k)
      ensures chains == WithoutAt(old(chains), hash(k) % old(bucketCount), old(Place(k)))
    {
      hide WellFormed, ChainLinked, ChainShows, Get, Holds, Victim, Drop, LoadBounded, Place;
      ValidParts();
      DropRepresents(hash, model, contents, k);
      VictimIs(hash, model, contents, k);
      ghost var victim := Victim(model[hash(k) % bucketCount], k);
      Unlink(k);
      contents := if victim.Some? then contents - {victim.value} else contents;
    }

    // -------------------------------------------------------------- traversal

    /** Prepends every key to a list, bucket by bucket. */
    method Keys() returns (keyList: seq<K>)
      requires Linked()
      ensures keyList == Reversed(KeysOf(Flatten(model)))
    {
      hide ChainLinked, ChainShows, Flatten, Reversed, KeysOf;
      keyList := [];
      NothingSeen(model);
      for bucketIndex := 0 to bucketCount
        invariant keyList == Reversed(KeysOf(Flatten(model[..bucketIndex])))
      {
        keyList := PrependKeys(bucketIndex, keyList, Flatten(model[..bucketIndex]));
        FlattenNext(model, bucketIndex);
      }
      assert model[..bucketCount] == model;
    }

    method PrependKeys(bucketIndex: nat, before: seq<K>, ghost seen: seq<Pair<K, V>>) returns (keyList: seq<K>)
      requires Linked() && bucketIndex < bucketCount && before == Reversed(KeysOf(seen))
      ensures keyList == Reversed(KeysOf(seen + model[bucketIndex]))
    {
      hide Reversed, KeysOf;
      ghost var chain, pairs, j := chains[bucketIndex], model[bucketIndex], 0;
      assert ChainLinked(chain) && ChainShows(chain, pairs);
      keyList := before;
      var link := buckets[bucketIndex];
      assert seen + pairs[..0] == seen;
      while link != null
        invariant j <= |chain| && link == LinkAt(chain, j)
        invariant keyList == Reversed(KeysOf(seen + pairs[..j]))
        decreases |chain| - j
      {
        ReversedNext(seen + pairs[..j], pairs[j]);
        assert seen + pairs[..j + 1] == (seen + pairs[..j]) + [pairs[j]];
        keyList := [link.key] + keyList;
        link := link.next;
        j := j + 1;
      }
      assert pairs[..j] == pairs;
    }

    /** Prepends every value to a list, in the same order. */
    method Values() returns (valueList: seq<V>)
      requires Linked()
      ensures valueList == Reversed(ValuesOf(Flatten(model)))
    {
      hide ChainLinked, ChainShows, Flatten, Reversed, ValuesOf;
      valueList := [];
      NothingSeen(model);
      for bucketIndex := 0 to bucketCount
        invariant valueList == Reversed(ValuesOf(Flatten(model[..bucketIndex])))
      {
        valueList := PrependValues(bucketIndex, valueList, Flatten(model[..bucketIndex]));
        FlattenNext(model, bucketIndex);
      }
      assert model[..bucketCount] == model;
    }

    method PrependValues(bucketIndex: nat, before: seq<V>, ghost seen: seq<Pair<K, V>>) returns (valueList: seq<V>)
      requires Linked() && bucketIndex < bucketCount && before == Reversed(ValuesOf(seen))
      ensures valueList == Reversed(ValuesOf(seen + model[bucketIndex]))
    {
      hide Reversed, ValuesOf;
      ghost var chain, pairs, j := chains[bucketIndex], model[bucketIndex], 0;
      assert ChainLinked(chain) && ChainShows(chain, pairs);
      valueList := before;
      var link := buckets[bucketIndex];
      assert seen + pairs[..0] == seen;
      while link != null
        invariant j <= |chain| && link == LinkAt(chain, j)
        invariant valueList == Reversed(ValuesOf(seen + pairs[..j]))
        decreases |chain| - j
      {
        ReversedNext(seen + pairs[..j], pairs[j]);
        assert seen + pairs[..j + 1] == (seen + pairs[..j]) + [pairs[j]];
        valueList := [link.value] + valueList;
        link := link.next;
        j := j + 1;
      }
      assert pairs[..j] == pairs;
    }

    /** The first buckets are empty. */
    ghost predicate EmptyBelow(n: nat)
      reads this
    {
      n <= |model| && forall i :: 0 <= i < n ==> model[i] == []
    }

    /** Removes the keys of one bucket, saving the successor of each link before the link goes. */
    method ClearBucket(bucketIndex: nat)
      requires Valid() && bucketIndex < bucketCount && EmptyBelow(bucketIndex)
      modifies this, buckets, repr
      ensures Valid() && EmptyBelow(bucketIndex + 1)
      ensures repr == old(repr) && buckets == old(buckets) && bucketCount == old(bucketCount)
    {
      hide Represents, LoadBounded, Drop, ChainLinked, ChainShows;
      var link := buckets[bucketIndex];
      while link != null
        invariant Valid() && EmptyBelow(bucketIndex)
        invariant repr == old(repr) && buckets == old(buckets) && bucketCount == old(bucketCount)
        invariant link == LinkAt(chains[bucketIndex], 0)
        decreases |chains[bucketIndex]|
      {
        FirstLink(bucketIndex, link);
        var nextLink := link.next;
        DropFirst(hash, model, bucketIndex, link.key);
        Remove(link.key);
        link := nextLink;
      }
      NoLink(bucketIndex);
    }

    /** The first link of a bucket is found under its own key. */
    lemma FirstLink(i: nat, link: Link<K, V>)
      requires Valid() && i < |chains| && chains[i] != [] && link == chains[i][0]
      ensures link in repr && hash(link.key) % bucketCount == i && Place(link.key) == 0
      ensures model[i] != [] && model[i][0].key == link.key
      ensures link.next == LinkAt(chains[i][..0] + chains[i][1..], 0)
    {
      assert link in (set l | l in chains[i]);
      assert ChainLinked(chains[i]) && ChainShows(chains[i], model[i]);
      assert BucketOk(hash, model, i);
    }

    lemma NoLink(i: nat)
      requires Linked() && i < |chains| && chains[i] == []
      ensures model[i] == []
    {
      assert ChainShows(chains[i], model[i]);
    }

    /** Removes every key while walking the table. */
    method Clear()
      requires Valid()
      modifies this, buckets, repr
      ensures Valid() && contents == map[] && keyCount == 0
      ensures repr == old(repr) && buckets == old(buckets) && bucketCount == old(bucketCount)
      ensures forall i :: 0 <= i < buckets.Length ==> buckets[i] == null
    {
      for bucketIndex := 0 to bucketCount
        invariant Valid() && EmptyBelow(bucketIndex)
        invariant repr == old(repr) && buckets == old(buckets) && bucketCount == old(bucketCount)
      {
        ClearBucket(bucketIndex);
      }
      NothingLeft(model);
      assert contents == map[];
      forall i | 0 <= i < buckets.Length
        ensures buckets[i] == null
      {
        assert ChainShows(chains[i], model[i]);
      }
    }

    // -------------------------------------------------------------- insertion and resizing

    /** Insertion when no resize is due. */
    method InsertLink(k: K, v: V)
      requires Valid() && LoadBounded(keyCount + 1, bucketCount)
      modifies this, buckets, repr
      ensures Valid() && contents == old(contents)[k := v] && keyCount <= old(keyCount) + 1
      ensures fresh(repr - old(repr)) && buckets == old(buckets) && bucketCount == old(bucketCount)
    {
      hide Represents, LoadBounded, Position, Put, Holds;
      WellLinked();
      PutRepresents(hash, model, contents, k, v);
      MapGrows(contents, k, v);
      GetMeans(hash, model, contents, k);
      FewerKeys(keyCount, bucketCount);
      var link;
      ghost var i, p;
      link, i, p := ApplyToOne(k);
      LinkKey(i, p);
      PutIs(hash, model, k, v);
      if link != null {
        UpdateValue(link, v, i, p);
      } else {
        Prepend(k, v, i);
        keyCount := keyCount + 1;
      }
      contents := contents[k := v];
    }

    /** Every link sits in the bucket of its key. */
    lemma LinkInBucket(i: nat, p: nat)
      requires Valid() && i < |chains| && p < |chains[i]|
      ensures chains[i][p] in repr && hash(chains[i][p].key) % bucketCount == i
    {
      LinkKey(i, p);
      WellLinked();
      assert BucketOk(hash, model, i);
    }

    lemma ValidParts()
      requires Valid()
      ensures Linked() && WellFormed(hash, model) && keyCount == CountLinks(model) == |contents|
      ensures Represents(hash, model, contents) && bucketCount == |model| > 0
      ensures forall n: nat :: n <= keyCount ==> LoadBounded(n, bucketCount)
    {
    }

    lemma WellLinked()
      requires Valid()
      ensures WellFormed(hash, model) && bucketCount == |model| == |chains| > 0
    {
    }

    lemma LinkKey(i: nat, p: nat)
      requires Linked() && i < |chains|
      ensures |chains[i]| == |model[i]|
      ensures p < |chains[i]| ==> chains[i][p] in repr && model[i][p].key == chains[i][p].key
    {
      assert ChainShows(chains[i], model[i]);
      if p < |chains[i]| {
        assert chains[i][p] in (set l | l in chains[i]);
      }
    }

    /**
     Insertion refines map update, with a resize first when the table is overloaded. The recursion
     between insertion and resizing is one level deep: the measure only allows a resize from an
     overloaded table, and in the doubled table it never is.
     */
    method Insert(k: K, v: V)
      requires Valid()
      modifies this, buckets, repr
      ensures Valid() && contents == old(contents)[k := v] && keyCount <= old(keyCount) + 1
      ensures bucketCount == if old(Overloaded(keyCount, bucketCount)) then 2 * old(bucketCount) else old(bucketCount)
      ensures fresh(repr - old(repr))
      ensures if old(Overloaded(keyCount, bucketCount)) then fresh(buckets) else buckets == old(buckets)
      decreases if Overloaded(keyCount, bucketCount) then 1 else 0, 3
    {
      hide Represents, Holds, LoadBounded, Overloaded;
      WellLinked();
      if Overloaded(keyCount, bucketCount) {
        Resize();
      } else {
        RoomLeft(keyCount, bucketCount);
      }
      InsertLink(k, v);
    }

    /** Moves all links into a table with twice the buckets. */
    method Resize()
      requires Valid() && Overloaded(keyCount, bucketCount)
      modifies this, buckets, repr
      ensures Valid() && contents == old(contents) && bucketCount == 2 * old(bucketCount)
      ensures LoadBounded(keyCount + 1, bucketCount)
      ensures fresh(buckets) && fresh(repr)
      decreases 1, 2
    {
      hide Represents, LoadBounded, Overloaded, Holds, MapOf, Flatten, Reversed, KeysOf, ValuesOf;
      ListsOfModel();
      var newTable := Rehashed();
      Clear();
      Adopt(newTable);
    }

    /** A table with twice the buckets and all the links. */
    method Rehashed() returns (newTable: HashTable<K, V>)
      requires Valid() && Overloaded(keyCount, bucketCount)
      ensures fresh(newTable) && fresh(newTable.buckets) && fresh(newTable.repr)
      ensures newTable.Valid() && newTable.hash == hash && newTable.bucketCount == 2 * bucketCount
      ensures newTable.contents == contents && newTable.keyCount == keyCount
      decreases 1, 1
    {
      hide Represents, LoadBounded, Overloaded, Holds, MapOf, Flatten, Reversed, KeysOf, ValuesOf;
      ListsOfModel();
      newTable := new HashTable<K, V>(2 * bucketCount, hash);
      var keyList := Keys();
      var valueList := Values();
      newTable.Fill(keyList, valueList, Flatten(model), keyCount, bucketCount);
    }

    /** Takes over the buckets of another table. */
    method Adopt(newTable: HashTable<K, V>)
      requires newTable.Valid() && newTable.hash == hash && newTable != this
      modifies this
      ensures Valid() && contents == newTable.contents && keyCount == newTable.keyCount
      ensures bucketCount == newTable.bucketCount && buckets == newTable.buckets && repr == newTable.repr
    {
      hide Represents, LoadBounded, Holds;
      bucketCount := newTable.bucketCount;
      keyCount := newTable.keyCount;
      buckets := newTable.buckets;
      chains, repr, model, contents := newTable.chains, newTable.repr, newTable.model, newTable.contents;
      SameTable(newTable);
    }

    lemma SameTable(other: HashTable<K, V>)
      requires other.Valid() && other.hash == hash && other.bucketCount == bucketCount && other.keyCount == keyCount
      requires other.buckets == buckets && other.chains == chains && other.repr == repr
      requires other.model == model && other.contents == contents
      ensures Valid()
    {
    }

    lemma ListsOfModel()
      requires Valid() && Overloaded(keyCount, bucketCount)
      ensures MapOf(Reversed(Flatten(model))) == contents && |Flatten(model)| == keyCount
      ensures LoadBounded(keyCount, bucketCount) && bucketCount > 0
      ensures LoadBounded(keyCount + 1, 2 * bucketCount)
    {
      OverloadedMeans(keyCount, bucketCount);
      ListsGiveMap(hash, model, contents);
    }

    /** Inserts the pairs of the two lists into this table, which never has to be resized for them. */
    method Fill(keyList: seq<K>, valueList: seq<V>, ghost ps: seq<Pair<K, V>>, ghost oldCount: nat,
                ghost oldBuckets: nat)
      requires Valid() && contents == map[] && keyCount == 0 && oldBuckets > 0 && bucketCount == 2 * oldBuckets
      requires keyList == Reversed(KeysOf(ps)) && valueList == Reversed(ValuesOf(ps))
      requires |ps| == oldCount && LoadBounded(oldCount, oldBuckets)
      modifies this, buckets, repr
      ensures Valid() && contents == MapOf(Reversed(ps)) && keyCount <= oldCount
      ensures fresh(repr - old(repr)) && buckets == old(buckets) && bucketCount == old(bucketCount)
      decreases 1, 0
    {
      hide Represents, LoadBounded, Overloaded, Holds, MapOf;
      EmptyMapOf(Reversed(ps));
      var i := 0;
      while i < |keyList| && i < |valueList|
        invariant i <= oldCount && Valid() && contents == MapOf(Reversed(ps)[..i]) && keyCount <= i
        invariant fresh(repr - old(repr)) && buckets == old(buckets) && bucketCount == old(bucketCount)
      {
        RehashNeverOverloads(oldCount, oldBuckets, keyCount);
        ListsPaired(ps, i);
        MapOfNext(Reversed(ps), i);
        Insert(keyList[i], valueList[i]);
        i := i + 1;
      }
      assert Reversed(ps)[..i] == Reversed(ps);
    }
  }
}

/** What a PMap's bucket vector means (pyrsistent.py, class PMap): a
    sequence of buckets, each `None` or a list of key/value pairs, read as the
    dictionary of the pairs listed bucket by bucket. */
module PMapSpec {
  import opened Wrappers
  import opened Concats

  type Bucket<K, V> = Option<seq<(K, V)>>

  /** The pairs of one bucket; `None` holds none. */
  function Chain<K, V>(b: Bucket<K, V>): seq<(K, V)>
  {
    if b.Some? then b.value else []
  }

  /** Python's `if bucket:` — present and non-empty. */
  predicate Occupied<K, V>(b: Bucket<K, V>)
  {
    b.Some? && b.value != []
  }

  ghost function Chains<K, V>(bs: seq<Bucket<K, V>>): (r: seq<seq<(K, V)>>)
    ensures |r| == |bs| && forall i :: 0 <= i < |bs| ==> r[i] == Chain(bs[i])
  {
    seq(|bs|, i requires 0 <= i < |bs| => Chain(bs[i]))
  }

  /** `iteritems`: every pair, bucket by bucket. */
  ghost function Pairs<K, V>(bs: seq<Bucket<K, V>>): seq<(K, V)>
  {
    Concat(Chains(bs))
  }

  ghost function KeysOf<K, V>(ps: seq<(K, V)>): set<K>
  {
    set p | p in ps :: p.0
  }

  /** The value of the first pair whose key is `k`. */
  function Find<K(==), V>(ps: seq<(K, V)>, k: K): (r: Option<V>)
    ensures r.Some? <==> k in KeysOf(ps)
    ensures r.Some? ==> (k, r.value) in ps
  {
    if ps == [] then None
    else if ps[0].0 == k then Some(ps[0].1)
    else
      KeysOfRest(ps);
      Find(ps[1..], k)
  }

  lemma KeysOfRest<K, V>(ps: seq<(K, V)>)
    requires ps != []
    ensures KeysOf(ps) == {ps[0].0} + KeysOf(ps[1..])
    ensures forall p :: p in ps[1..] ==> p in ps
  {
    assert ps == [ps[0]] + ps[1..];
  }

  /** The dictionary the buckets stand for, independent of any hash. */
  ghost function Items<K, V>(bs: seq<Bucket<K, V>>): (m: map<K, V>)
    ensures m.Keys == KeysOf(Pairs(bs))
  {
    map k | k in KeysOf(Pairs(bs)) :: Find(Pairs(bs), k).value
  }

  ghost predicate UniqueKeys<K, V>(ps: seq<(K, V)>)
  {
    forall i, j :: 0 <= i < j < |ps| ==> ps[i].0 != ps[j].0
  }

  /** Every pair sits in the bucket its key hashes to (`hash(k) % len`). */
  ghost predicate Placed<K, V>(h: K -> int, bs: seq<Bucket<K, V>>)
  {
    forall i, p :: 0 <= i < |bs| && p in Chain(bs[i]) ==> h(p.0) % |bs| == i
  }

  /** The shape every PMap's buckets keep: placed by hash, no key twice in
      a bucket, at least one bucket. */
  ghost predicate WellFormed<K, V>(h: K -> int, bs: seq<Bucket<K, V>>)
  {
    && |bs| > 0 && Placed(h, bs)
    && forall i :: 0 <= i < |bs| ==> UniqueKeys(Chain(bs[i]))
  }

  /** No bucket is an empty list: a bucket emptied by `dissoc` is stored
      as `None`. */
  ghost predicate Compact<K, V>(bs: seq<Bucket<K, V>>)
  {
    forall i :: 0 <= i < |bs| ==> bs[i] != Some([])
  }

  /** In a list without repeated keys the first match is the only one. */
  lemma FindUnique<K, V>(ps: seq<(K, V)>, k: K, v: V)
    requires UniqueKeys(ps)
    ensures Find(ps, k) == Some(v) <==> (k, v) in ps
  {
    if (k, v) in ps {
      var w := Find(ps, k).value;
      var i :| 0 <= i < |ps| && ps[i] == (k, v);
      var j :| 0 <= j < |ps| && ps[j] == (k, w);
      assert i == j;
    }
  }

  /** A pair is among all pairs exactly when it is in its key's bucket. */
  lemma PairsMember<K, V>(h: K -> int, bs: seq<Bucket<K, V>>, p: (K, V))
    requires |bs| > 0 && Placed(h, bs)
    ensures p in Pairs(bs) <==> p in Chain(bs[h(p.0) % |bs|])
  {
    ConcatMember(Chains(bs), p);
  }

  /** No key appears twice among all pairs. */
  lemma PairsUnique<K, V>(h: K -> int, bs: seq<Bucket<K, V>>)
    requires WellFormed(h, bs)
    ensures UniqueKeys(Pairs(bs))
  {
    PrefixUnique(h, bs, |bs|);
    assert Chains(bs)[..|bs|] == Chains(bs);
  }

  lemma {:induction false} PrefixUnique<K, V>(h: K -> int, bs: seq<Bucket<K, V>>, t: nat)
    requires WellFormed(h, bs) && t <= |bs|
    ensures UniqueKeys(Concat(Chains(bs)[..t]))
    ensures forall p :: p in Concat(Chains(bs)[..t]) ==> h(p.0) % |bs| < t
  {
    var cs := Chains(bs);
    if t > 0 {
      PrefixUnique(h, bs, t - 1);
      ConcatPrefix(cs, t - 1);
      var a, b := Concat(cs[..t - 1]), cs[t - 1];
      assert forall p: (K, V) :: p in b ==> h(p.0) % |bs| == t - 1;
      UniqueAppend(a, b);
    }
  }

  lemma UniqueAppend<K, V>(a: seq<(K, V)>, b: seq<(K, V)>)
    requires UniqueKeys(a) && UniqueKeys(b)
    requires forall p, q :: p in a && q in b ==> p.0 != q.0
    ensures UniqueKeys(a + b)
  {
    var ab := a + b;
    forall i, j | 0 <= i < j < |ab|
      ensures ab[i].0 != ab[j].0
    {
      if i < |a| && j >= |a| {
        assert ab[i] in a && ab[j] in b;
      }
    }
  }

  /** The dictionary holds `v` under `k` exactly when `(k, v)` is one of
      the pairs. */
  lemma ItemsPairs<K, V>(h: K -> int, bs: seq<Bucket<K, V>>, k: K, v: V)
    requires WellFormed(h, bs)
    ensures (k in Items(bs) && Items(bs)[k] == v) <==> (k, v) in Pairs(bs)
  {
    PairsUnique(h, bs);
    FindUnique(Pairs(bs), k, v);
  }

  /** ... and exactly when `(k, v)` is in the bucket `k` hashes to. */
  lemma ItemsBucket<K, V>(h: K -> int, bs: seq<Bucket<K, V>>, k: K, v: V)
    requires WellFormed(h, bs)
    ensures (k in Items(bs) && Items(bs)[k] == v) <==> (k, v) in Chain(bs[h(k) % |bs|])
  {
    ItemsPairs(h, bs, k, v);
    PairsMember(h, bs, (k, v));
  }

  /** Searching the key's bucket finds what the dictionary holds: the
      lookup of `__getitem__` and `__contains__` is sound and complete. */
  lemma FindInBucket<K, V>(h: K -> int, bs: seq<Bucket<K, V>>, k: K)
    requires WellFormed(h, bs)
    ensures var c := Chain(bs[h(k) % |bs|]);
      && (k in Items(bs) ==> Find(c, k) == Some(Items(bs)[k]))
      && (k !in Items(bs) <==> Find(c, k) == None)
  {
    var c := Chain(bs[h(k) % |bs|]);
    var r := Find(c, k);
    if k in Items(bs) {
      ItemsBucket(h, bs, k, Items(bs)[k]);
      FindUnique(c, k, Items(bs)[k]);
    }
    if r.Some? {
      ItemsBucket(h, bs, k, r.value);
    }
  }

  /** Buckets whose pairs are exactly the entries of `d` stand for `d`. */
  lemma ItemsExact<K, V>(h: K -> int, bs: seq<Bucket<K, V>>, d: map<K, V>)
    requires WellFormed(h, bs)
    requires forall p :: p in Pairs(bs) ==> p.0 in d && d[p.0] == p.1
    requires forall k :: k in d ==> (k, d[k]) in Pairs(bs)
    ensures Items(bs) == d
  {
    forall k | k in Items(bs)
      ensures k in d && d[k] == Items(bs)[k]
    {
      var v := Items(bs)[k];
      ItemsPairs(h, bs, k, v);
      assert (k, v) in Pairs(bs);
      assert (k, v).0 in d;
    }
    forall k | k in d
      ensures k in Items(bs)
    {
      assert (k, d[k]) in Pairs(bs);
      ItemsPairs(h, bs, k, d[k]);
    }
  }

  /** Every key counts once: the dictionary has as many entries as there
      are pairs, which is the `_size` a PMap keeps. */
  lemma ItemsCount<K, V>(h: K -> int, bs: seq<Bucket<K, V>>)
    requires WellFormed(h, bs)
    ensures |Items(bs)| == |Pairs(bs)|
  {
    PairsUnique(h, bs);
    UniqueCount(Pairs(bs));
    assert Items(bs).Keys == KeysOf(Pairs(bs));
  }

  lemma {:induction false} UniqueCount<K, V>(ps: seq<(K, V)>)
    requires UniqueKeys(ps)
    ensures |KeysOf(ps)| == |ps|
  {
    if ps != [] {
      var init, last := ps[..|ps| - 1], ps[|ps| - 1];
      UniqueCount(init);
      assert ps == init + [last];
      assert KeysOf(ps) == KeysOf(init) + {last.0};
      assert last.0 !in KeysOf(init);
    }
  }

  /** The bucket `key` hashes to is replaced by `b`, which keeps every pair
      of the old bucket under another key and adds pairs only under `key`. */
  ghost predicate LocalUpdate<K, V>(h: K -> int, bs: seq<Bucket<K, V>>, b: Bucket<K, V>, key: K)
  {
    && WellFormed(h, bs) && UniqueKeys(Chain(b))
    && (forall p :: p in Chain(b) ==> p.0 == key || p in Chain(bs[h(key) % |bs|]))
    && (forall p :: p in Chain(bs[h(key) % |bs|]) && p.0 != key ==> p in Chain(b))
  }

  lemma UpdateWellFormed<K, V>(h: K -> int, bs: seq<Bucket<K, V>>, b: Bucket<K, V>, key: K)
    requires LocalUpdate(h, bs, b, key)
    ensures WellFormed(h, bs[h(key) % |bs| := b])
  {
    var i := h(key) % |bs|;
    var bs' := bs[i := b];
    forall j, p | 0 <= j < |bs'| && p in Chain(bs'[j])
      ensures h(p.0) % |bs'| == j
    {
      if j == i && p !in Chain(bs[i]) {
        assert p.0 == key;
      }
    }
  }

  /** Under a local update every other key keeps its entry. */
  lemma UpdateOtherKey<K, V>(h: K -> int, bs: seq<Bucket<K, V>>, b: Bucket<K, V>, key: K, k: K)
    requires LocalUpdate(h, bs, b, key) && k != key
    ensures var bs' := bs[h(key) % |bs| := b];
      && (k in Items(bs') <==> k in Items(bs))
      && (k in Items(bs) ==> Items(bs')[k] == Items(bs)[k])
  {
    var bs' := bs[h(key) % |bs| := b];
    UpdateWellFormed(h, bs, b, key);
    if k in Items(bs) {
      var v := Items(bs)[k];
      ItemsBucket(h, bs, k, v);
      OtherPair(h, bs, b, key, (k, v));
      ItemsBucket(h, bs', k, v);
    }
    if k in Items(bs') {
      var v := Items(bs')[k];
      ItemsBucket(h, bs', k, v);
      OtherPair(h, bs, b, key, (k, v));
      ItemsBucket(h, bs, k, v);
    }
  }

  /** A pair under another key sits in its bucket before a local update
      exactly when it does after. */
  lemma OtherPair<K, V>(h: K -> int, bs: seq<Bucket<K, V>>, b: Bucket<K, V>, key: K, p: (K, V))
    requires LocalUpdate(h, bs, b, key) && p.0 != key
    ensures var bs' := bs[h(key) % |bs| := b];
      p in Chain(bs'[h(p.0) % |bs|]) <==> p in Chain(bs[h(p.0) % |bs|])
  {
  }

  /** Under a local update `key`'s entry is what the new bucket holds. */
  lemma UpdateKey<K, V>(h: K -> int, bs: seq<Bucket<K, V>>, b: Bucket<K, V>, key: K)
    requires LocalUpdate(h, bs, b, key)
    ensures var bs' := bs[h(key) % |bs| := b];
      && (key in Items(bs') <==> key in KeysOf(Chain(b)))
      && (forall v :: (key, v) in Chain(b) ==> key in Items(bs') && Items(bs')[key] == v)
  {
    var bs' := bs[h(key) % |bs| := b];
    UpdateWellFormed(h, bs, b, key);
    if key in Items(bs') {
      ItemsBucket(h, bs', key, Items(bs')[key]);
    }
    forall v | (key, v) in Chain(b)
      ensures key in Items(bs') && Items(bs')[key] == v
    {
      ItemsBucket(h, bs', key, v);
    }
  }

  /** A local update that leaves `(key, val)` as `key`'s only pair stores
      `val` under `key` and changes nothing else. */
  lemma UpdateAssoc<K, V>(h: K -> int, bs: seq<Bucket<K, V>>, b: Bucket<K, V>, key: K, val: V)
    requires LocalUpdate(h, bs, b, key) && (key, val) in Chain(b)
    ensures WellFormed(h, bs[h(key) % |bs| := b])
    ensures Items(bs[h(key) % |bs| := b]) == Items(bs)[key := val]
  {
    var m1, m2 := Items(bs[h(key) % |bs| := b]), Items(bs);
    UpdateWellFormed(h, bs, b, key);
    UpdateKey(h, bs, b, key);
    forall k | k != key
      ensures (k in m1 <==> k in m2) && (k in m2 ==> m1[k] == m2[k])
    {
      UpdateOtherKey(h, bs, b, key, k);
    }
    MapStore(m1, m2, key, val);
  }

  /** A local update that leaves no pair under `key` removes `key` and
      changes nothing else. */
  lemma UpdateRemove<K, V>(h: K -> int, bs: seq<Bucket<K, V>>, b: Bucket<K, V>, key: K)
    requires LocalUpdate(h, bs, b, key) && key !in KeysOf(Chain(b))
    ensures WellFormed(h, bs[h(key) % |bs| := b])
    ensures Items(bs[h(key) % |bs| := b]) == Items(bs) - {key}
  {
    var m1, m2 := Items(bs[h(key) % |bs| := b]), Items(bs);
    UpdateWellFormed(h, bs, b, key);
    UpdateKey(h, bs, b, key);
    forall k | k != key
      ensures (k in m1 <==> k in m2) && (k in m2 ==> m1[k] == m2[k])
    {
      UpdateOtherKey(h, bs, b, key, k);
    }
    MapDrop(m1, m2, key);
  }

  lemma MapStore<K, V>(m1: map<K, V>, m2: map<K, V>, key: K, val: V)
    requires key in m1 && m1[key] == val
    requires forall k :: k != key ==> (k in m1 <==> k in m2) && (k in m2 ==> m1[k] == m2[k])
    ensures m1 == m2[key := val]
  {
  }

  lemma DropCount<K, V>(m: map<K, V>, key: K)
    requires key in m
    ensures |m - {key}| == |m| - 1
  {
    assert (m - {key}).Keys == m.Keys - {key};
  }

  /** Taking one more key out of the keys still to do adds its entry. */
  lemma MapGrow<K, V>(d: map<K, V>, remaining: set<K>, k: K)
    requires k in remaining && k in d
    ensures d - (remaining - {k}) == (d - remaining)[k := d[k]]
  {
    MapStore(d - (remaining - {k}), d - remaining, k, d[k]);
  }

  /** The same, with the entries of `d` stored over those of `c`. */
  lemma MapGrowOver<K, V>(c: map<K, V>, d: map<K, V>, remaining: set<K>, k: K)
    requires k in remaining && k in d
    ensures c + (d - (remaining - {k})) == (c + (d - remaining))[k := d[k]]
  {
    MapStore(c + (d - (remaining - {k})), c + (d - remaining), k, d[k]);
  }

  lemma MapDropNone<K, V>(d: map<K, V>)
    ensures d - {} == d
  {
  }

  lemma MapDrop<K, V>(m1: map<K, V>, m2: map<K, V>, key: K)
    requires key !in m1
    requires forall k :: k != key ==> (k in m1 <==> k in m2) && (k in m2 ==> m1[k] == m2[k])
    ensures m1 == m2 - {key}
  {
  }

  /** `dict(pairs)`: later pairs overwrite earlier ones. */
  function ToDict<K, V>(ps: seq<(K, V)>): (d: map<K, V>)
    ensures d.Keys == KeysOf(ps)
  {
    if ps == [] then map[]
    else
      var init, last := ps[..|ps| - 1], ps[|ps| - 1];
      assert ps == init + [last];
      ToDict(init)[last.0 := last.1]
  }

  /** In a list without repeated keys, each pair's key is new to the
      dictionary of the pairs before it. */
  lemma FreshKey<K, V>(ps: seq<(K, V)>, t: nat)
    requires UniqueKeys(ps) && t < |ps|
    ensures ps[t].0 !in ToDict(ps[..t]) && ToDict(ps[..t + 1]) == ToDict(ps[..t])[ps[t].0 := ps[t].1]
  {
    assert ps[..t + 1][..t] == ps[..t];
    forall p | p in ps[..t]
      ensures p.0 != ps[t].0
    {
      var i :| 0 <= i < t && ps[..t][i] == p;
    }
  }

  /** One step of `_reallocate_to_list`: pair `t` of a list without
      repeated keys joins its bucket, and the buckets then hold the
      dictionary of the first `t + 1` pairs. */
  lemma SpreadStep<K, V>(h: K -> int, bs: seq<Bucket<K, V>>, ps: seq<(K, V)>, t: nat)
    requires UniqueKeys(ps) && t < |ps|
    requires WellFormed(h, bs) && Items(bs) == ToDict(ps[..t]) && Compact(bs)
    ensures var i := h(ps[t].0) % |bs|;
      var bs' := bs[i := Some(Chain(bs[i]) + [(ps[t].0, ps[t].1)])];
      WellFormed(h, bs') && Items(bs') == ToDict(ps[..t + 1]) && Compact(bs')
  {
    FreshKey(ps, t);
    InsertPair(h, bs, ps[t].0, ps[t].1);
  }

  /** One step of `_turbo_mapping`: the entry of `d` under a key still to
      do joins its bucket. */
  lemma FillStep<K, V>(h: K -> int, bs: seq<Bucket<K, V>>, d: map<K, V>, remaining: set<K>, k: K)
    requires remaining <= d.Keys && k in remaining
    requires WellFormed(h, bs) && Items(bs) == d - remaining && Compact(bs)
    ensures var i := h(k) % |bs|;
      var bs' := bs[i := Some(Chain(bs[i]) + [(k, d[k])])];
      WellFormed(h, bs') && Items(bs') == d - (remaining - {k}) && Compact(bs')
  {
    InsertPair(h, bs, k, d[k]);
    MapGrow(d, remaining, k);
  }

  /** The value `dict` keeps for a key is the one in its last pair. */
  lemma {:induction false} ToDictLast<K, V>(ps: seq<(K, V)>, j: nat)
    requires j < |ps|
    requires forall t :: j < t < |ps| ==> ps[t].0 != ps[j].0
    ensures ToDict(ps)[ps[j].0] == ps[j].1
  {
    if j < |ps| - 1 {
      var init := ps[..|ps| - 1];
      ToDictLast(init, j);
    }
  }

  /** `dict.update` over a list of mappings: the rightmost value wins. */
  function MergeAll<K, V>(ms: seq<map<K, V>>): map<K, V>
  {
    if ms == [] then map[] else MergeAll(ms[..|ms| - 1]) + ms[|ms| - 1]
  }

  /** A key is merged in exactly when some mapping holds it. */
  lemma {:induction false} MergeAllKeys<K, V>(ms: seq<map<K, V>>, k: K)
    ensures k in MergeAll(ms) <==> exists t :: 0 <= t < |ms| && k in ms[t]
  {
    if ms != [] {
      var init := ms[..|ms| - 1];
      MergeAllKeys(init, k);
      assert forall t :: 0 <= t < |init| ==> init[t] == ms[t];
    }
  }

  /** The value merged in for a key comes from the last mapping holding it. */
  lemma {:induction false} MergeAllLast<K, V>(ms: seq<map<K, V>>, t: nat, k: K)
    requires t < |ms| && k in ms[t]
    requires forall u :: t < u < |ms| ==> k !in ms[u]
    ensures k in MergeAll(ms) && MergeAll(ms)[k] == ms[t][k]
  {
    if t < |ms| - 1 {
      var init := ms[..|ms| - 1];
      assert init[t] == ms[t];
      assert forall u :: t < u < |init| ==> init[u] == ms[u];
      MergeAllLast(init, t, k);
    }
  }

  /** Buckets that are all `None` stand for the empty dictionary. */
  lemma EmptyBuckets<K, V>(h: K -> int, bs: seq<Bucket<K, V>>)
    requires |bs| > 0 && forall i :: 0 <= i < |bs| ==> bs[i] == None
    ensures WellFormed(h, bs) && Items(bs) == map[]
  {
    ConcatUniform(Chains(bs), 0);
    assert Pairs(bs) == [];
  }

  /** Appending a pair for a new key to the bucket it hashes to adds that
      entry (`_reallocate_to_list`, `_turbo_mapping`). */
  lemma InsertPair<K, V>(h: K -> int, bs: seq<Bucket<K, V>>, k: K, v: V)
    requires WellFormed(h, bs) && k !in Items(bs)
    ensures var i := h(k) % |bs|;
      var bs' := bs[i := Some(Chain(bs[i]) + [(k, v)])];
      && WellFormed(h, bs') && Items(bs') == Items(bs)[k := v]
  {
    var i := h(k) % |bs|;
    var c := Chain(bs[i]);
    forall p | p in c
      ensures p.0 != k
    {
      if p.0 == k {
        ItemsBucket(h, bs, k, p.1);
      }
    }
    UniqueAppend(c, [(k, v)]);
    UpdateAssoc(h, bs, Some(c + [(k, v)]), k, v);
  }

  /** Reading the pairs in order into a `dict` gives the same dictionary. */
  lemma ItemsAsDict<K, V>(h: K -> int, bs: seq<Bucket<K, V>>)
    requires WellFormed(h, bs)
    ensures Items(bs) == ToDict(Pairs(bs))
  {
    var ps := Pairs(bs);
    var d := ToDict(ps);
    PairsUnique(h, bs);
    forall p | p in ps
      ensures p.0 in d && d[p.0] == p.1
    {
      var j :| 0 <= j < |ps| && ps[j] == p;
      ToDictLast(ps, j);
    }
    forall k | k in d
      ensures (k, d[k]) in ps
    {
      var p :| p in ps && p.0 == k;
      var j :| 0 <= j < |ps| && ps[j] == p;
      ToDictLast(ps, j);
    }
    ItemsExact(h, bs, d);
  }
}

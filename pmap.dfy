/** The persistent map (pyrsistent.py, class PMap): a PVector of buckets,
    each key stored in the bucket `hash(key) % len(buckets)`, the bucket
    vector doubled when a collision finds it less than 0.67 times the size.
    Python's `hash` is the parameter `h`, the same function for every call. */
module PMaps {
  import opened Wrappers
  import opened PVectors
  import opened PVectorTransients
  import opened PMapSpec
  import opened Concats

  /** `[(k2, v2) if k2 != k else (k2, val) for k2, v2 in bucket]`. */
  function Replace<K(==), V>(ps: seq<(K, V)>, key: K, val: V): (r: seq<(K, V)>)
    ensures |r| == |ps|
  {
    seq(|ps|, j requires 0 <= j < |ps| => if ps[j].0 != key then ps[j] else (ps[j].0, val))
  }

  /** `[(k, v) for (k, v) in bucket if k != key]`. */
  function Without<K(==), V>(ps: seq<(K, V)>, key: K): (r: seq<(K, V)>)
    ensures |r| <= |ps|
  {
    if ps == [] then []
    else (if ps[0].0 != key then [ps[0]] else []) + Without(ps[1..], key)
  }

  /** Filtering keeps exactly the pairs under other keys. */
  lemma {:induction false} WithoutMember<K, V>(ps: seq<(K, V)>, key: K, p: (K, V))
    ensures p in Without(ps, key) <==> p in ps && p.0 != key
  {
    if ps != [] {
      WithoutMember(ps[1..], key, p);
      assert ps == [ps[0]] + ps[1..];
    }
  }

  /** Filtering shortens the list exactly when `key` was in it, and keeps
      keys unique. */
  lemma {:induction false} WithoutFacts<K, V>(ps: seq<(K, V)>, key: K)
    ensures forall p :: p in Without(ps, key) <==> p in ps && p.0 != key
    ensures |Without(ps, key)| < |ps| <==> key in KeysOf(ps)
    ensures UniqueKeys(ps) ==> UniqueKeys(Without(ps, key))
  {
    forall p
      ensures p in Without(ps, key) <==> p in ps && p.0 != key
    {
      WithoutMember(ps, key, p);
    }
    if ps != [] {
      WithoutFacts(ps[1..], key);
      KeysOfRest(ps);
      var rest := Without(ps[1..], key);
      var head := if ps[0].0 != key then [ps[0]] else [];
      if UniqueKeys(ps) {
        assert UniqueKeys(ps[1..]);
        forall p, q | p in head && q in rest
          ensures p.0 != q.0
        {
          WithoutMember(ps[1..], key, q);
          var j :| 0 <= j < |ps[1..]| && ps[1..][j] == q;
          assert ps[j + 1] == q;
        }
        UniqueAppend(head, rest);
      }
    }
  }

  /** Replacing `key`'s value in a bucket holding `key` is a local update
      that leaves `(key, val)` in it. */
  lemma ReplaceLocal<K, V>(h: K -> int, bs: seq<Bucket<K, V>>, key: K, val: V)
    requires WellFormed(h, bs) && key in KeysOf(Chain(bs[h(key) % |bs|]))
    ensures var ps := Chain(bs[h(key) % |bs|]);
      LocalUpdate(h, bs, Some(Replace(ps, key, val)), key) && (key, val) in Replace(ps, key, val)
  {
    var ps := Chain(bs[h(key) % |bs|]);
    var r := Replace(ps, key, val);
    assert forall j :: 0 <= j < |ps| ==> r[j].0 == ps[j].0;
    forall p | p in ps && p.0 != key
      ensures p in r
    {
      var j :| 0 <= j < |ps| && ps[j] == p;
      assert r[j] == p;
    }
    var q :| q in ps && q.0 == key;
    var j :| 0 <= j < |ps| && ps[j] == q;
    assert r[j] == (key, val);
  }

  /** Putting `(key, val)` in front of a bucket without `key` is a local
      update. */
  lemma PrependLocal<K, V>(h: K -> int, bs: seq<Bucket<K, V>>, key: K, val: V)
    requires WellFormed(h, bs) && key !in KeysOf(Chain(bs[h(key) % |bs|]))
    ensures var ps := Chain(bs[h(key) % |bs|]);
      LocalUpdate(h, bs, Some([(key, val)] + ps), key)
  {
    var ps := Chain(bs[h(key) % |bs|]);
    UniqueAppend([(key, val)], ps);
  }

  /** Filtering `key` out of a bucket is a local update, and it shortens
      the bucket exactly when the map holds `key`. */
  lemma WithoutLocal<K, V>(h: K -> int, bs: seq<Bucket<K, V>>, key: K, b: Bucket<K, V>)
    requires WellFormed(h, bs)
    requires var w := Without(Chain(bs[h(key) % |bs|]), key);
      b == if w != [] then Some(w) else None
    ensures LocalUpdate(h, bs, b, key) && key !in KeysOf(Chain(b))
    ensures |Without(Chain(bs[h(key) % |bs|]), key)| < |Chain(bs[h(key) % |bs|])| <==> key in Items(bs)
  {
    WithoutFacts(Chain(bs[h(key) % |bs|]), key);
    FindInBucket(h, bs, key);
  }

  /** What `dissoc` relies on: filtering `key` out of its bucket shortens
      the bucket exactly when the map holds `key`, and then storing the
      filtered bucket (`None` if emptied) removes exactly that entry. */
  lemma RemovalFacts<K, V>(h: K -> int, bs: seq<Bucket<K, V>>, key: K)
    requires WellFormed(h, bs)
    ensures var i := h(key) % |bs|;
      var c := Chain(bs[i]);
      var w := Without(c, key);
      var b := if w != [] then Some(w) else None;
      && (Occupied(bs[i]) && |c| > |w| <==> key in Items(bs))
      && (key in Items(bs) ==>
            WellFormed(h, bs[i := b]) && Items(bs[i := b]) == Items(bs) - {key}
            && |Items(bs[i := b])| == |Items(bs)| - 1)
      && (key !in Items(bs) ==> Items(bs) - {key} == Items(bs))
  {
    var i := h(key) % |bs|;
    var c := Chain(bs[i]);
    var w := Without(c, key);
    var b := if w != [] then Some(w) else None;
    WithoutLocal(h, bs, key, b);
    if key in Items(bs) {
      UpdateRemove(h, bs, b, key);
      DropCount(Items(bs), key);
    }
  }

  /** A valid bucket vector holding well-formed buckets `bs` and a count of
      their entries make a valid map whose contents are those entries. */
  lemma Rebuilt<K, V>(h: K -> int, n: nat, nb: Vector<Bucket<K, V>>, bs: seq<Bucket<K, V>>)
    requires nb.Valid() && nb.Elements() == bs && WellFormed(h, bs) && n == |Items(bs)|
    ensures PMap(n, nb).Valid(h) && PMap(n, nb).Contents() == Items(bs)
  {
  }

  /** `_reallocate_to_list`'s and `_turbo_mapping`'s step: the pair joins
      the end of the bucket its key hashes to, creating the bucket if it
      is empty. */
  method Insert<K, V>(a: array<Bucket<K, V>>, h: K -> int, k: K, v: V)
    requires a.Length > 0
    modifies a
    ensures a[..] == old(a[..])[h(k) % a.Length := Some(Chain(old(a[h(k) % a.Length])) + [(k, v)])]
    ensures Compact(old(a[..])) ==> Compact(a[..])
  {
    var index := h(k) % a.Length;
    if Occupied(a[index]) {
      a[index] := Some(a[index].value + [(k, v)]);
    } else {
      assert Chain(a[index]) + [(k, v)] == [(k, v)];
      a[index] := Some([(k, v)]);
    }
  }

  /** The scan `for k, v in bucket: if k == key` of `__getitem__`,
      `__contains__` and `assoc`: the value of the first pair under `key`. */
  method Scan<K(==), V>(ps: seq<(K, V)>, key: K) returns (r: Option<V>)
    ensures r == Find(ps, key)
  {
    for j := 0 to |ps|
      invariant Find(ps[j..], key) == Find(ps, key)
    {
      if ps[j].0 == key {
        return Some(ps[j].1);
      }
      assert ps[j..][1..] == ps[j + 1..];
    }
    return None;
  }

  /** `self._buckets.assoc(index, bucket)` for an index inside the vector:
      the same vector with that one bucket replaced. */
  method SetBucket<K, V>(v: Vector<Bucket<K, V>>, index: nat, b: Bucket<K, V>)
    returns (r: Vector<Bucket<K, V>>)
    requires v.Valid() && index < v.count
    ensures r.Valid() && r.count == v.count && r.Elements() == v.Elements()[index := b]
  {
    var res := v.Assoc(index, b);
    r := res.value;
  }

  /** The loop of `_reallocate_to_list`: each pair, in order, joins the end
      of bucket `h(k) % newSize` of a fresh list of empty buckets. */
  method Spread<K, V>(h: K -> int, ps: seq<(K, V)>, newSize: nat) returns (r: seq<Bucket<K, V>>)
    requires UniqueKeys(ps) && newSize > 0
    ensures |r| == newSize && WellFormed(h, r) && Items(r) == ToDict(ps) && Compact(r)
  {
    var a := new Bucket<K, V>[newSize](_ => None);
    EmptyBuckets(h, a[..]);
    for t := 0 to |ps|
      invariant WellFormed(h, a[..]) && Items(a[..]) == ToDict(ps[..t]) && Compact(a[..])
    {
      SpreadStep(h, a[..], ps, t);
      Insert(a, h, ps[t].0, ps[t].1);
    }
    r := a[..];
    assert ps[..|ps|] == ps;
  }

  /** The first half of `merge`: `maps[0]` itself when it is alone,
      otherwise a copy of it updated with each later mapping in turn. */
  method MergeMaps<K, V>(maps: seq<map<K, V>>) returns (mergeMap: map<K, V>)
    requires maps != []
    ensures mergeMap == MergeAll(maps)
  {
    assert maps[..1] == [maps[0]] && maps[..1][..0] == [];
    assert MergeAll(maps[..1]) == maps[0];
    if |maps| > 1 {
      mergeMap := maps[0];
      for t := 1 to |maps|
        invariant mergeMap == MergeAll(maps[..t])
      {
        mergeMap := mergeMap + maps[t];
        assert maps[..t + 1][..t] == maps[..t];
      }
      assert maps[..|maps|] == maps;
    } else {
      mergeMap := maps[0];
    }
  }

  /** The map after `self._buckets.assoc(i, b)`: valid when the new
      buckets are well formed and counted, and compact when the old ones
      were and `b` is not an empty list. */
  lemma Stored<K, V>(h: K -> int, n: nat, nb: Vector<Bucket<K, V>>, bs: seq<Bucket<K, V>>, i: nat, b: Bucket<K, V>)
    requires i < |bs| && b != Some([]) && nb.Valid() && nb.Elements() == bs[i := b]
    requires WellFormed(h, bs[i := b]) && n == |Items(bs[i := b])|
    ensures PMap(n, nb).Valid(h) && PMap(n, nb).Contents() == Items(bs[i := b])
    ensures Compact(bs) ==> Compact(nb.Elements())
  {
  }

  datatype PMap<K(==), V(==)> = PMap(size: nat, buckets: Vector<Bucket<K, V>>)
  {
    /** What every map the library builds satisfies: a valid bucket vector,
        keys placed by `h`, and `_size` the number of entries. */
    ghost predicate Valid(h: K -> int)
    {
      && buckets.Valid()
      && WellFormed(h, buckets.Elements())
      && size == |Items(buckets.Elements())|
    }

    /** The dictionary the map stands for. */
    ghost function Contents(): map<K, V>
      requires buckets.Valid()
    {
      Items(buckets.Elements())
    }

    /** `__len__`: the entry count, which is also the number of pairs that
        `iteritems` lists. */
    lemma LenIsCount(h: K -> int)
      requires Valid(h)
      ensures size == |Contents()| == |Pairs(buckets.Elements())|
    {
      ItemsCount(h, buckets.Elements());
    }

    /** `_get_bucket`: the bucket `key` hashes to and its index. */
    method GetBucket(h: K -> int, key: K) returns (index: nat, bucket: Bucket<K, V>)
      requires Valid(h)
      ensures index == h(key) % |buckets.Elements()| && buckets.count == |buckets.Elements()|
      ensures bucket == buckets.Elements()[index]
    {
      index := h(key) % buckets.count;
      var r := buckets.GetItem(index);
      bucket := r.value;
    }

    /** `__getitem__`: the value under `key`, or KeyError. */
    method GetItem(h: K -> int, key: K) returns (r: Result<V>)
      requires Valid(h)
      ensures key in Contents() ==> r == Ok(Contents()[key])
      ensures key !in Contents() ==> r == Err(KeyError)
    {
      var index, bucket := GetBucket(h, key);
      FindInBucket(h, buckets.Elements(), key);
      if Occupied(bucket) {
        var found := Scan(bucket.value, key);
        if found.Some? {
          return Ok(found.value);
        }
      }
      return Err(KeyError);
    }

    /** `__contains__`: whether `key` has an entry. */
    method Contains(h: K -> int, key: K) returns (r: bool)
      requires Valid(h)
      ensures r <==> key in Contents()
    {
      var index, bucket := GetBucket(h, key);
      FindInBucket(h, buckets.Elements(), key);
      if Occupied(bucket) {
        var found := Scan(bucket.value, key);
        return found.Some?;
      }
      return false;
    }

    /** `iteritems` (and `items`): every entry exactly once, bucket by
        bucket. */
    method IterItems(h: K -> int) returns (r: seq<(K, V)>)
      requires Valid(h)
      ensures r == Pairs(buckets.Elements())
      ensures UniqueKeys(r) && |r| == size
      ensures forall p :: p in r <==> p.0 in Contents() && Contents()[p.0] == p.1
    {
      var bs := buckets.ToList();
      ghost var cs := Chains(bs);
      r := [];
      for i := 0 to |bs|
        invariant r == Concat(cs[..i])
      {
        if Occupied(bs[i]) {
          r := r + bs[i].value;
        }
        ConcatPrefix(cs, i);
      }
      assert cs[..|bs|] == cs;
      PairsUnique(h, bs);
      ItemsCount(h, bs);
      forall p | true
        ensures p in r <==> p.0 in Contents() && Contents()[p.0] == p.1
      {
        ItemsPairs(h, bs, p.0, p.1);
      }
    }

    /** `_reallocate_to_list`: the same entries spread over `newSize` fresh
        buckets by `h(k) % newSize`. */
    method ReallocateToList(h: K -> int, newSize: nat) returns (r: seq<Bucket<K, V>>)
      requires Valid(h) && newSize > 0
      ensures |r| == newSize && WellFormed(h, r) && Items(r) == Contents() && Compact(r)
    {
      var ps := IterItems(h);
      r := Spread(h, ps, newSize);
      ItemsAsDict(h, buckets.Elements());
    }

    /** `_reallocate`: the reallocated buckets as a new bucket vector. */
    method Reallocate(h: K -> int, newSize: nat) returns (r: Vector<Bucket<K, V>>)
      requires Valid(h) && newSize > 0
      ensures r.Valid() && r.count == newSize
      ensures WellFormed(h, r.Elements()) && Items(r.Elements()) == Contents()
      ensures Compact(r.Elements())
    {
      var list := ReallocateToList(h, newSize);
      r := FromSeq(list);
    }

    /** `assoc`: the map with `val` under `key`. An equal value already
        there gives back this map; a key new to an occupied bucket first
        doubles the buckets while they number less than 0.67 times the
        size. */
    method Assoc(h: K -> int, key: K, val: V) returns (r: PMap<K, V>)
      requires Valid(h)
      ensures r.Valid(h) && r.Contents() == Contents()[key := val]
      ensures r.size == if key in Contents() then size else size + 1
      ensures key in Contents() && Contents()[key] == val ==> r == this
      ensures key in Contents() ==> r.buckets.count == buckets.count
      ensures r.buckets.count >= buckets.count
      ensures Compact(buckets.Elements()) ==> Compact(r.buckets.Elements())
      decreases if 100 * buckets.count < 67 * size then 67 * size - 100 * buckets.count else 0
    {
      var index, bucket := GetBucket(h, key);
      ghost var bs := buckets.Elements();
      FindInBucket(h, bs, key);
      if Occupied(bucket) {
        var ps := bucket.value;
        var found := Scan(ps, key);
        if found.Some? {
          if found.value == val {
            return this;
          }
          var newBucket := Replace(ps, key, val);
          ReplaceLocal(h, bs, key, val);
          UpdateAssoc(h, bs, Some(newBucket), key, val);
          var nb := SetBucket(buckets, index, Some(newBucket));
          Stored(h, size, nb, bs, index, Some(newBucket));
          return PMap(size, nb);
        }
        if 100 * buckets.count < 67 * size {
          var bigger := Reallocate(h, 2 * buckets.count);
          r := PMap(size, bigger).Assoc(h, key, val);
          return;
        }
        var newBucket := [(key, val)] + ps;
        PrependLocal(h, bs, key, val);
        UpdateAssoc(h, bs, Some(newBucket), key, val);
        var nb := SetBucket(buckets, index, Some(newBucket));
        Stored(h, size + 1, nb, bs, index, Some(newBucket));
        return PMap(size + 1, nb);
      }
      PrependLocal(h, bs, key, val);
      assert [(key, val)] + Chain(bucket) == [(key, val)];
      UpdateAssoc(h, bs, Some([(key, val)]), key, val);
      var nb := SetBucket(buckets, index, Some([(key, val)]));
      Stored(h, size + 1, nb, bs, index, Some([(key, val)]));
      r := PMap(size + 1, nb);
    }

    /** `dissoc`: the map without `key`; this map itself when `key` has no
        entry. An emptied bucket becomes `None`. */
    method Dissoc(h: K -> int, key: K) returns (r: PMap<K, V>)
      requires Valid(h)
      ensures r.Valid(h) && r.Contents() == Contents() - {key}
      ensures r.size == if key in Contents() then size - 1 else size
      ensures key !in Contents() ==> r == this
      ensures r.buckets.count == buckets.count
      ensures Compact(buckets.Elements()) ==> Compact(r.buckets.Elements())
    {
      var index, bucket := GetBucket(h, key);
      ghost var bs := buckets.Elements();
      RemovalFacts(h, bs, key);
      if Occupied(bucket) {
        var newBucket := Without(bucket.value, key);
        var b := if newBucket != [] then Some(newBucket) else None;
        if |bucket.value| > |newBucket| {
          var nb := SetBucket(buckets, index, b);
          Stored(h, size - 1, nb, bs, index, b);
          return PMap(size - 1, nb);
        }
      }
      return this;
    }

    /** `merge`: the entries of `maps` stored over this map's, the rightmost
        mapping winning; this map itself when there are none. Entries go in
        in no particular order, as a Python `dict` yields them. */
    method Merge(h: K -> int, maps: seq<map<K, V>>) returns (r: PMap<K, V>)
      requires Valid(h)
      ensures r.Valid(h) && r.Contents() == Contents() + MergeAll(maps)
      ensures maps == [] ==> r == this
    {
      if maps == [] {
        return this;
      }
      var mergeMap := MergeMaps(maps);
      r := AssocEach(h, mergeMap);
    }

    /** The second half of `merge`: each entry of `d`, in no particular
        order, stored with `assoc`. */
    method AssocEach(h: K -> int, d: map<K, V>) returns (r: PMap<K, V>)
      requires Valid(h)
      ensures r.Valid(h) && r.Contents() == Contents() + d
    {
      r := this;
      var remaining := d.Keys;
      while remaining != {}
        invariant remaining <= d.Keys
        invariant r.Valid(h) && r.Contents() == Contents() + (d - remaining)
        decreases |remaining|
      {
        var k :| k in remaining;
        r := r.Assoc(h, k, d[k]);
        MapGrowOver(Contents(), d, remaining, k);
        remaining := remaining - {k};
      }
      MapDropNone(d);
    }
  }

  /** The first argument of `pmap`: a Mapping, or an iterable of pairs. */
  datatype Initial<K, V> = FromMapping(m: map<K, V>) | FromPairs(ps: seq<(K, V)>)
  {
    /** `len(initial)`, taken before any conversion. */
    function Len(): nat
    {
      match this
      case FromMapping(m) => |m|
      case FromPairs(ps) => |ps|
    }

    /** `dict(initial)` for an iterable; the mapping itself otherwise. */
    function AsDict(): map<K, V>
    {
      match this
      case FromMapping(m) => m
      case FromPairs(ps) => ToDict(ps)
    }
  }

  /** `_turbo_mapping`: `pre_size` buckets, else twice `len(initial)`, else
      8; each entry appended to its bucket. */
  method TurboMapping<K(==), V(==)>(h: K -> int, initial: Initial<K, V>, preSize: nat)
    returns (r: PMap<K, V>)
    ensures r.Valid(h) && r.Contents() == initial.AsDict() && Compact(r.buckets.Elements())
    ensures r.buckets.count ==
      if preSize != 0 then preSize else if 2 * initial.Len() != 0 then 2 * initial.Len() else 8
  {
    var size := if preSize != 0 then preSize else if 2 * initial.Len() != 0 then 2 * initial.Len() else 8;
    var d := initial.AsDict();
    var bs := FillBuckets(h, d, size);
    var buckets := FromSeq(bs);
    Rebuilt(h, |d|, buckets, bs);
    r := PMap(|d|, buckets);
  }

  /** The loop of `_turbo_mapping`: each entry of `d`, in no particular
      order, joins the end of bucket `h(k) % size` of a fresh list of empty
      buckets. */
  method FillBuckets<K, V>(h: K -> int, d: map<K, V>, size: nat) returns (r: seq<Bucket<K, V>>)
    requires size > 0
    ensures |r| == size && WellFormed(h, r) && Items(r) == d && Compact(r)
  {
    var a := new Bucket<K, V>[size](_ => None);
    var remaining := d.Keys;
    EmptyBuckets(h, a[..]);
    while remaining != {}
      invariant remaining <= d.Keys
      invariant WellFormed(h, a[..]) && Items(a[..]) == d - remaining && Compact(a[..])
      decreases |remaining|
    {
      var k :| k in remaining;
      FillStep(h, a[..], d, remaining, k);
      Insert(a, h, k, d[k]);
      remaining := remaining - {k};
    }
    MapDropNone(d);
    r := a[..];
  }

  /** `pmap`: the map of `initial`; an empty `initial` gives the empty map
      with 8 buckets whatever `pre_size` says. */
  method Pmap<K(==), V(==)>(h: K -> int, initial: Initial<K, V>, preSize: nat) returns (r: PMap<K, V>)
    ensures r.Valid(h) && r.Contents() == initial.AsDict() && Compact(r.buckets.Elements())
    ensures initial.Len() == 0 ==> r.buckets.count == 8 && r.size == 0
    ensures initial.Len() != 0 ==> r.buckets.count == if preSize != 0 then preSize else 2 * initial.Len()
  {
    if initial.Len() == 0 {
      r := TurboMapping(h, FromMapping(map[]), 0);
      assert initial.AsDict() == map[] by {
        if initial.FromPairs? {
          assert initial.ps == [];
        }
      }
      return;
    }
    r := TurboMapping(h, initial, preSize);
  }
}

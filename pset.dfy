/** The persistent set (pyrsistent.py, class PSet): a PMap from each element
    to `True`, every operation handed on to the map. */
module PSets {
  import opened Wrappers
  import opened PMapSpec
  import opened PMaps

  /** Every value stored in the map is `True`. */
  ghost predicate AllTrue<E>(d: map<E, bool>)
  {
    forall e :: e in d ==> d[e]
  }

  /** Storing `True` keeps every value `True` and adds the key. */
  lemma AllTrueStore<E>(d: map<E, bool>, e: E)
    requires AllTrue(d)
    ensures AllTrue(d[e := true]) && d[e := true].Keys == d.Keys + {e}
    ensures e in d ==> d[e]
  {
  }

  datatype PSet<E(==)> = PSet(m: PMap<E, bool>)
  {
    /** A valid map whose values are all `True`. */
    ghost predicate Valid(h: E -> int)
    {
      m.Valid(h) && AllTrue(m.Contents())
    }

    /** The elements: the keys of the map. */
    ghost function Elements(): set<E>
      requires m.buckets.Valid()
    {
      m.Contents().Keys
    }

    /** `__len__`: the length of the map, which is the number of elements. */
    function Len(): nat
    {
      m.size
    }

    lemma LenIsCount(h: E -> int)
      requires Valid(h)
      ensures Len() == |Elements()|
    {
      m.LenIsCount(h);
    }

    /** `__contains__`: membership in the map. */
    method Contains(h: E -> int, element: E) returns (r: bool)
      requires Valid(h)
      ensures r <==> element in Elements()
    {
      r := m.Contains(h, element);
    }

    /** `add`: the set with `element`; this set itself when it is already
        there, since its value is already `True`. */
    method Add(h: E -> int, element: E) returns (r: PSet<E>)
      requires Valid(h)
      ensures r.Valid(h) && r.Elements() == Elements() + {element}
      ensures element in Elements() ==> r == this
    {
      AllTrueStore(m.Contents(), element);
      var nm := m.Assoc(h, element, true);
      r := PSet(nm);
    }

    /** `remove`: the set without `element`, or KeyError when it is not
        there. */
    method Remove(h: E -> int, element: E) returns (r: Result<PSet<E>>)
      requires Valid(h)
      ensures element in Elements() ==>
        r.Ok? && r.value.Valid(h) && r.value.Elements() == Elements() - {element}
      ensures element !in Elements() ==> r == Err(KeyError)
    {
      var present := m.Contains(h, element);
      if present {
        var nm := m.Dissoc(h, element);
        return Ok(PSet(nm));
      }
      return Err(KeyError);
    }

    /** `discard`: the set without `element`; this set itself when it is
        not there. */
    method Discard(h: E -> int, element: E) returns (r: PSet<E>)
      requires Valid(h)
      ensures r.Valid(h) && r.Elements() == Elements() - {element}
      ensures element !in Elements() ==> r == this
    {
      var present := m.Contains(h, element);
      if present {
        var nm := m.Dissoc(h, element);
        return PSet(nm);
      }
      return this;
    }
  }

  /** `{k: True for k in it}`. */
  function TrueMap<E>(it: seq<E>): (d: map<E, bool>)
    ensures d.Keys == set e | e in it
  {
    map e | e in it :: true
  }

  /** `_from_iterable`: the set of the elements of `it`, its map built by
      `pmap` with `preSize` buckets. */
  method FromIterable<E(==)>(h: E -> int, it: seq<E>, preSize: nat) returns (r: PSet<E>)
    ensures r.Valid(h) && r.Elements() == set e | e in it
    ensures it == [] ==> r.m.buckets.count == 8 && r.Len() == 0
    ensures it != [] ==> r.m.buckets.count == if preSize != 0 then preSize else 2 * |r.Elements()|
  {
    if it != [] {
      assert it[0] in TrueMap(it);
    }
    var nm := Pmap(h, FromMapping(TrueMap(it)), preSize);
    r := PSet(nm);
  }

  /** `pset`: the set of the elements of `sequence`; the empty set with 8
      buckets when there are none, whatever `preSize` says. */
  method Pset<E(==)>(h: E -> int, sequence: seq<E>, preSize: nat) returns (r: PSet<E>)
    ensures r.Valid(h) && r.Elements() == set e | e in sequence
    ensures sequence == [] ==> r.m.buckets.count == 8 && r.Len() == 0
    ensures sequence != [] ==>
      r.m.buckets.count == if preSize != 0 then preSize else 2 * |r.Elements()|
  {
    if sequence == [] {
      var empty := TurboMapping(h, FromMapping(map[]), 0);
      return PSet(empty);
    }
    r := FromIterable(h, sequence, preSize);
  }
}

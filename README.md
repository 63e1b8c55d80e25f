# pyrsistent in Dafny: PVector, PMap and PSet

This project models the three persistent collections of `pyrsistent.py` and
proves what they promise.

- **PVector** is a persistent vector: a 32-way trie of Python lists plus a
  tail buffer of at most 32 elements.
  - Reads walk down from the root.
  - `assoc` copies the path to the changed leaf.
  - `append` either copies the tail or pushes a full tail into the trie, and
    adds a root level when the trie is full.
  - `extend` appends once persistently. It then fills and pushes the tail of
    that fresh vector in place, in a `while` loop.
- **PMap** is a chained hash map. Its buckets are a PVector whose entries
  are `None` or a list of key/value pairs. The bucket of a key is
  `hash(key) % len(buckets)`.
- **PSet** is a PMap from each element to `True`.

Files and modules:

- `wrappers.dfy` (`Wrappers`): `Option`, and `Result` with the two Python
  errors raised (`IndexError`, `KeyError`).
- `bits.dfy` (`Bits`): powers of two and the shift/mask arithmetic
  (`i >> level & 31` is `(i / 2^level) % 32`).
- `concat.dfy` (`Concats`): concatenation of a sequence of sequences.
- `pvector.dfy` (`PVectors`):
  - the trie as the datatype `Node` and the vector as the datatype `Vector`;
  - the shape invariant `Vector.Valid` and the abstraction `Vector.Elements`,
    which is the root flattened depth first, then the tail;
  - the path-copying operations as functions and the reads as methods.
- `transient.dfy` (`PVectorTransients`):
  - the class `Transient`, the vector object while `extend` mutates it in
    place: `count`, `shift`, `root`, `tail` and `tailOffset` are its fields;
  - `extend`, `__add__` and `pvector`.
- `pmap_spec.dfy` (`PMapSpec`):
  - what a bucket sequence means: `Items`, the dictionary of the pairs read
    bucket by bucket;
  - the invariant `WellFormed`: every pair sits in the bucket its key hashes
    to, and no key is listed twice in a bucket;
  - lemmas on local bucket updates, on `dict(...)` and on `dict.update`.
- `pmap.dfy` (`PMaps`): the datatype `PMap` (`size`, `buckets`) with its
  operations as methods, together with `_turbo_mapping` and `pmap`.
- `pset.dfy` (`PSets`): the datatype `PSet` over a `PMap<E, bool>`.

The collections are immutable values, so no operation can change the
object it is called on; the new vector or map is the method's result.
`hash` is a parameter `h: K -> int` of every map and set operation. Python's
`%` with a positive divisor is never negative, like Dafny's.

## Model

| member | source | states |
|---|---|---|
| PVectors.DenseLength | pyrsistent.py:61-70 | a left-packed trie dense for `n` elements flattens to exactly `n` elements, so the root of a valid vector holds `_tail_offset` (`Vector.TailOffset`, `count - len(tail)`) elements |
| PVectors.Vector.Elements | pyrsistent.py:72-77 | on a valid vector the element sequence has `count` elements, so `__len__` counts the elements |
| PVectors.Empty | pyrsistent.py:415 | `_EMPTY_VECTOR` (empty root at shift 5) satisfies the shape invariant and holds no elements |
| PVectors.Vector.NodeFor | pyrsistent.py:251-262 | for `0 <= i < count` the list returned (the tail, or the leaf the descent reaches) holds element `i` at slot `i & 31`; any other index is IndexError |
| PVectors.Vector.GetItem | pyrsistent.py:99-102 | after a negative index is counted from the end (`Normalize`), `v[i]` is element `i` when `0 <= i < count`, and IndexError otherwise |
| PVectors.Vector.Assoc | pyrsistent.py:204-239 | for an in-range index, the result has the same count and `val` at that position, and every other element is unchanged; index `count` gives exactly `append(val)`; any other index is IndexError |
| PVectors.Vector.AssocInTail | pyrsistent.py:229-232 | an index at or past `_tail_offset` is slot `i & 31` of the tail, and rewriting that slot replaces exactly element `i` |
| PVectors.Vector.AssocInTrie | pyrsistent.py:234 | an index below `_tail_offset` is rewritten by `_do_assoc` on the root, which replaces exactly element `i` and keeps the shape invariant |
| PVectors.DoAssoc | pyrsistent.py:241-249 | the copied path keeps the trie dense for the same count, and its flattening is the old one with position `i` replaced by `val` |
| PVectors.Vector.Append | pyrsistent.py:276-294 | the result keeps the shape invariant, has `count + 1` elements and reads as the old elements followed by `x`, whether or not the tail was full; the shift grows by 5 exactly when a full tail meets a full trie |
| PVectors.Vector.CreateNewRoot | pyrsistent.py:264-274 | the new trie holds the old trie's elements followed by the full tail and is dense for `count`; the new shift is `shift + 5` exactly when `count >> 5 > 1 << shift`, and `shift` otherwise |
| PVectors.Vector.GrownRoot | pyrsistent.py:268-270 | on a full trie, `[root, _new_path(shift, tail)]` one level up is dense for `count` and flattens to the old elements followed by the tail |
| PVectors.Vector.PushedRoot | pyrsistent.py:271-272 | when the trie has room, pushing the tail from the root gives a trie dense for `count` that flattens to the old elements followed by the tail |
| PVectors.Vector.WithTailPushed | pyrsistent.py:302-304 | the vector with the new root and an empty tail keeps the shape invariant, the count and the element sequence, and takes `_create_new_root`'s shift |
| PVectors.Vector.PushTail | pyrsistent.py:346-367 | the copy of `parent` with the full leaf placed after its last element is dense for 32 more elements and flattens to the old ones followed by the leaf's |
| PVectors.NewPath | pyrsistent.py:296-300 | the chain of single-child lists down to a full leaf is dense for 32 elements at its level and flattens to the leaf's elements |
| PVectors.Vector.FillList | pyrsistent.py:162-168 | appends to the accumulator exactly the elements under `node`, depth first |
| PVectors.Vector.FillChildren | pyrsistent.py:165-166 | appends the elements of each child in turn, which is the concatenation of their flattenings |
| PVectors.Vector.ToList | pyrsistent.py:170-177 | `_tolist()` is the vector's element sequence |
| PVectors.TailGrows | pyrsistent.py:287-290 | elements added to a tail that has room for them keep the shape invariant and come last |
| PVectors.AppendAll | pyrsistent.py:276-294 | appending the elements of `xs` one at a time keeps the shape invariant and gives the old elements followed by `xs` (the reference for `extend`) |
| PVectorTransients.Transient.MutatingInsertTail | pyrsistent.py:302-304 | the full tail moves into the trie in place: same count and elements, an empty tail, the invariant kept |
| PVectorTransients.Slice | pyrsistent.py:311 | Python's `sequence[lo:hi]` for non-negative bounds: the elements from `lo` up to `hi` clamped to the length, empty when `lo` is past the end or past `hi` |
| PVectorTransients.Transient.MutatingFillTail | pyrsistent.py:306-315 | the tail grows in place by the clamped slice `sequence[offset:offset + 32 - len(tail)]`, the count by its length, and the next offset is returned |
| PVectorTransients.Transient.MutatingExtend | pyrsistent.py:317-325 | the loop ends with all of `sequence` appended to the elements in place, the invariant kept and `_tail_offset` refreshed |
| PVectorTransients.Extend | pyrsistent.py:327-344 | the result has the elements of `v` followed by `xs`, the same elements as appending `xs` one at a time, and is `v` itself when `xs` is empty |
| PVectorTransients.Add | pyrsistent.py:104-111 | `v + other` holds the elements of `v` followed by those of `other` |
| PVectorTransients.FromSeq | pyrsistent.py:418-427 | `pvector(xs)` is a valid vector whose elements are `xs` |
| PMapSpec.Find | pyrsistent.py:497-499 | scanning a bucket finds a value exactly when the key is listed, and the pair found is in the bucket |
| PMapSpec.PairsUnique | pyrsistent.py:489-492 | when every pair sits in its key's bucket and no bucket lists a key twice, no key appears twice in the whole map |
| PMapSpec.ItemsPairs | pyrsistent.py:533-537 | the map holds `v` under `k` exactly when `(k, v)` is among the pairs that `iteritems` yields |
| PMapSpec.ItemsBucket | pyrsistent.py:489-492 | the map holds `v` under `k` exactly when `(k, v)` is in the bucket `hash(k) % len(buckets)` |
| PMapSpec.FindInBucket | pyrsistent.py:494-512 | searching the key's bucket gives the map's value for a present key and nothing for an absent one |
| PMapSpec.ItemsCount | pyrsistent.py:548-549 | the number of entries equals the number of pairs stored |
| PMapSpec.UpdateWellFormed | pyrsistent.py:577-597 | replacing the key's bucket by one that keeps every other pair and adds pairs only under `key` keeps the map well formed |
| PMapSpec.UpdateOtherKey | pyrsistent.py:577-597 | such a bucket update leaves every other key's presence and value unchanged |
| PMapSpec.UpdateAssoc | pyrsistent.py:584-597 | a bucket update that lists `(key, val)` gives the old dictionary with `key` set to `val` |
| PMapSpec.UpdateRemove | pyrsistent.py:615-617 | a bucket update that lists no pair under `key` gives the old dictionary without `key` |
| PMapSpec.ToDict | pyrsistent.py:688 | `dict(pairs)` has exactly the keys listed in the pairs |
| PMapSpec.ToDictLast | pyrsistent.py:688 | `dict(pairs)` keeps the value of the last pair under each key |
| PMapSpec.ItemsAsDict | pyrsistent.py:533-537 | reading the pairs of a well-formed map into `dict` gives exactly the map's dictionary |
| PMapSpec.MergeAllKeys | pyrsistent.py:633-638 | the merged dictionary has a key exactly when one of the mappings has it |
| PMapSpec.MergeAllLast | pyrsistent.py:633-638 | the merged value of a key comes from the rightmost mapping holding it |
| PMapSpec.EmptyBuckets | pyrsistent.py:681-682 | a list of `None` buckets is well formed and stands for the empty dictionary |
| PMapSpec.InsertPair | pyrsistent.py:666-669 | appending a pair for an absent key to its bucket adds exactly that entry and keeps the map well formed |
| PMapSpec.SpreadStep | pyrsistent.py:664-669 | each pair that `_reallocate_to_list` places makes the buckets stand for the pairs placed so far |
| PMapSpec.FillStep | pyrsistent.py:690-698 | each entry that `_turbo_mapping` places makes the buckets stand for the entries placed so far |
| PMaps.WithoutFacts | pyrsistent.py:615-616 | the filter `Without` keeps exactly the pairs under other keys, and shortens the bucket exactly when `key` was in it |
| PMaps.ReplaceLocal | pyrsistent.py:584 | the comprehension `Replace`, rewriting the value of `key` in its bucket, changes only `key`'s pair, to `(key, val)` |
| PMaps.PrependLocal | pyrsistent.py:590-592 | putting `(key, val)` in front of a bucket without `key` changes nothing else in the bucket |
| PMaps.WithoutLocal | pyrsistent.py:615-617 | the filtered bucket, or `None` when emptied, changes only `key`, lists no pair under it, and is shorter exactly when the map held `key` |
| PMaps.RemovalFacts | pyrsistent.py:612-617 | the bucket shrinks exactly when the map holds `key`, and storing the filtered bucket then removes exactly that entry |
| PMaps.Insert | pyrsistent.py:666-669 | the pair is appended to its bucket in the array, or starts that bucket when it is empty; no other bucket changes |
| PMaps.Scan | pyrsistent.py:497-499 | the loop over a bucket returns the value of the first pair under `key`, or nothing |
| PMaps.SetBucket | pyrsistent.py:592 | `self._buckets.assoc(index, bucket)` replaces exactly that bucket |
| PMaps.Spread | pyrsistent.py:663-671 | the fresh buckets are well formed, hold no empty list and stand for `dict` of the pairs |
| PMaps.MergeMaps | pyrsistent.py:631-638 | `maps[0]` alone, or `dict(maps[0])` updated by each later mapping, is the rightmost-wins merge of all of them |
| PMaps.PMap.LenIsCount | pyrsistent.py:548-549 | `__len__` is the number of entries, which is also the number of pairs stored |
| PMaps.PMap.GetBucket | pyrsistent.py:489-492 | the index is `hash(key) % len(buckets)` and the bucket is the one stored there |
| PMaps.PMap.GetItem | pyrsistent.py:494-501 | the value under a present key; KeyError for an absent one |
| PMaps.PMap.Contains | pyrsistent.py:503-512 | true exactly when the key has an entry |
| PMaps.PMap.IterItems | pyrsistent.py:533-537 | yields every entry exactly once, with no key repeated, as many pairs as `__len__` |
| PMaps.PMap.ReallocateToList | pyrsistent.py:662-671 | the same entries spread over `new_size` fresh buckets, each placed by its hash |
| PMaps.PMap.Reallocate | pyrsistent.py:673-674 | a valid bucket vector of `new_size` buckets holding the same entries |
| PMaps.PMap.Assoc | pyrsistent.py:562-597 | the result holds `val` under `key` and every other entry unchanged; size grows by one exactly when `key` was absent; the map itself when the same value is present; the reallocate-and-retry recursion terminates |
| PMaps.PMap.Dissoc | pyrsistent.py:599-619 | the result lacks `key` and keeps every other entry; size drops by one exactly when `key` was present; the map itself otherwise; an emptied bucket is stored as `None` |
| PMaps.PMap.Merge | pyrsistent.py:621-644 | the entries of the maps, rightmost first, stored over this map's; the map itself when no maps are given |
| PMaps.PMap.AssocEach | pyrsistent.py:640-644 | storing each entry of `d` in any order gives this map's entries overwritten by `d` |
| PMaps.TurboMapping | pyrsistent.py:680-700 | a valid map of `dict(initial)` with `pre_size or 2 * len(initial) or 8` buckets, `len` taken before conversion |
| PMaps.FillBuckets | pyrsistent.py:690-698 | the fresh buckets are well formed, hold no empty list and stand for the given dictionary |
| PMaps.Pmap | pyrsistent.py:706-719 | a valid map of `initial`; an empty `initial` gives the empty 8-bucket map whatever `pre_size` is |
| PSets.PSet.LenIsCount | pyrsistent.py:764-765 | `len(s)` (`PSet.Len`, the map's size) is the number of elements |
| PSets.PSet.Contains | pyrsistent.py:758-759 | true exactly when the element is in the set |
| PSets.PSet.Add | pyrsistent.py:779-787 | the set with `element` added; the same set when it was already there |
| PSets.PSet.Remove | pyrsistent.py:789-800 | the set without `element` when present; KeyError otherwise |
| PSets.PSet.Discard | pyrsistent.py:802-809 | the set without `element`; the same set when it was absent |
| PSets.TrueMap | pyrsistent.py:777 | `{k: True for k in it}` has exactly the elements of `it` as keys |
| PSets.FromIterable | pyrsistent.py:775-777 | the set of the elements of `it`, every value `True`, with `pre_size` buckets (or twice the element count, or 8 when empty) |
| PSets.Pset | pyrsistent.py:842-855 | the set of the elements of `sequence`; the empty 8-bucket set when there are none, otherwise `pre_size` buckets, or twice the element count when `pre_size` is 0 |

## Left out

- Slicing `v[a:b]` (pyrsistent.py:89-97), `__mul__`, `index`, `count`, the ordering comparisons, `__eq__`/`__ne__` and `__repr__` of PVector are not modelled. They convert to and from Python lists and compare arbitrary objects.
- `recur` and `_make_persistent` are not modelled, and neither is `assoc_in` on either collection. These need run-time type dispatch over nested values. `recur` is taken to be false.
- A non-integer index to `assoc` raises TypeError in the source. The model's indices are integers, so that error cannot occur.
- The `__hash__` methods and Python's built-in `hash` are not modelled. The hash is the parameter `h`.
- `iterkeys`, `itervalues`, `keys`, `values` and `__iter__` of PMap are not modelled. They project the pairs of `iteritems`, which is modelled.
- `Mapping.get`, `Mapping.__eq__` and `__getattr__` are not modelled; neither are the PSet comparison and set-algebra operators borrowed from `collections`. Their code is not part of this model.
- `immutable()` and the optional `pvectorc` C extension are not part of this model.
- Keys and set elements are compared with Dafny's `==`. The source uses Python's `==` on arbitrary objects, which need not be reflexive or agree with `hash`. The model assumes keys whose `==` is reflexive and consistent with `hash`. Without that, the source can keep two pairs for one key, for example `pmap().assoc(float('nan'), 1).assoc(float('nan'), 2)` has length 2, while `PMaps.PMap.Assoc` promises an overwrite.
- The singletons `_EMPTY_VECTOR`, `_EMPTY_PMAP` and `_EMPTY_PSET` are modelled as values: object identity is not modelled. Likewise `v is val` in `assoc` is modelled as value equality.
- PMaps.PMap.Assoc: the growth test `len(buckets) < 0.67 * size` is modelled as `100 * len(buckets) < 67 * size`. The two can differ only where floating-point rounding of `0.67 * size` matters.
- PMaps.PMap.Merge and PMaps.TurboMapping: Python's dict iteration order is modelled as an arbitrary choice of the next key. The contracts hold for every order.
- PVectorTransients.Extend: proved to give the same elements as appending one at a time, not the same trie. When a full tail is pushed, `extend` leaves an empty tail where `append` would keep the full one until the next element.
- PVectorTransients.Add: `other` is a PVector read with `_tolist`. Any other iterable reaches `extend` as the sequence `list(obj)`, which `Extend` takes directly.
- PVectorTransients.Transient: `_tail_offset` is refreshed only when `_mutating_extend` ends, as in the source. No read goes through it while the vector is being extended.
- The loops written inline in the source are modelled as separate methods with their own contracts: `FillChildren`, `Scan`, `Spread`, `FillBuckets`, `AssocEach` and `MergeMaps`.
- Bucket lists that `_reallocate_to_list` and `_turbo_mapping` fill in place are modelled as an array (`PMaps.Insert`). Each chain append is modelled as a new sequence, and aliasing between chains is not modelled.
- `pre_size` is a `nat` parameter without a default. The defaults are 0 for `pmap` and 8 for `pset` and `_from_iterable`.
- The doc comment of PMap (pyrsistent.py:459-460) describes a different growth rule from the test at pyrsistent.py:587. The model follows the code: it reallocates when `len(buckets) < 0.67 * size`, and only when the target bucket is occupied and lacks the key.

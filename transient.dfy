/** `extend` builds its result in place: it appends the first element
    persistently, then fills the new vector's tail and pushes each full tail
    into the trie, mutating that one fresh object (pyrsistent.py, PVector
    `_mutating_*`, `extend`, `_pvector`). */
module PVectorTransients {
  import opened Bits
  import opened PVectors

  /** Python's `s[lo:hi]` for non-negative bounds: both ends are clamped. */
  function Slice<T>(s: seq<T>, lo: nat, hi: nat): (r: seq<T>)
    ensures lo <= |s| && lo <= hi ==> r == s[lo..if hi <= |s| then hi else |s|]
    ensures lo > |s| || lo > hi ==> r == []
  {
    var a := if lo <= |s| then lo else |s|;
    var b := if hi <= |s| then hi else |s|;
    if a <= b then s[a..b] else []
  }

  /** A `PVector` object while `extend` is still mutating it. `tailOffset`
      is the stored `_tail_offset`, refreshed only when extending ends. */
  class Transient<T> {
    var count: nat
    var shift: nat
    var root: Node<T>
    var tail: seq<T>
    var tailOffset: int

    ghost function Snapshot(): Vector<T>
      reads this
    {
      Vector(count, shift, root, tail)
    }

    ghost predicate Valid()
      reads this
    {
      Snapshot().Valid()
    }

    ghost function Elements(): seq<T>
      reads this
      requires Valid()
    {
      Snapshot().Elements()
    }

    constructor (v: Vector<T>)
      ensures Snapshot() == v && tailOffset == v.TailOffset()
    {
      count, shift, root, tail := v.count, v.shift, v.root, v.tail;
      tailOffset := v.TailOffset();
    }

    /** `_mutating_insert_tail`: the full tail moves into the trie. */
    method MutatingInsertTail()
      requires Valid() && |tail| == BranchFactor
      modifies this
      ensures Valid() && tail == [] && count == old(count)
      ensures Snapshot() == old(Snapshot().WithTailPushed())
      ensures Elements() == old(Elements())
      ensures tailOffset == old(tailOffset)
    {
      var v := Vector(count, shift, root, tail).WithTailPushed();
      root, shift := v.root, v.shift;
      tail := [];
    }

    /** `_mutating_fill_tail`: moves as many elements of `sequence` from
        `offset` on as the tail has room for; returns the next offset. */
    method MutatingFillTail(offset: nat, sequence: seq<T>) returns (next: nat)
      requires Valid()
      modifies this
      ensures var delta := Slice(sequence, offset, offset + (BranchFactor - old(|tail|)));
        && tail == old(tail) + delta && count == old(count) + |delta|
        && next == offset + |delta|
      ensures root == old(root) && shift == old(shift) && tailOffset == old(tailOffset)
      ensures Valid() && Elements() == old(Elements()) + tail[old(|tail|)..]
      ensures offset <= |sequence| ==>
        next <= |sequence| && Elements() == old(Elements()) + sequence[offset..next]
    {
      ghost var v := Snapshot();
      var maxDeltaLen := BranchFactor - |tail|;
      var delta := Slice(sequence, offset, offset + maxDeltaLen);
      TailGrows(v, delta);
      tail := tail + delta;
      count := count + |delta|;
      next := offset + |delta|;
      assert Snapshot() == Vector(v.count + |delta|, v.shift, v.root, v.tail + delta);
      assert tail[old(|tail|)..] == delta;
    }

    /** `_mutating_extend`: fills and pushes until all of `sequence` is in. */
    method MutatingExtend(sequence: seq<T>)
      requires Valid()
      modifies this
      ensures Valid() && count == old(count) + |sequence|
      ensures Elements() == old(Elements()) + sequence
      ensures tailOffset == count - |tail|
    {
      var offset := 0;
      var sequenceLen := |sequence|;
      while offset < sequenceLen
        invariant offset <= sequenceLen && Valid()
        invariant count == old(count) + offset
        invariant Elements() == old(Elements()) + sequence[..offset]
        // When the first element filled the tail, the first pass moves
        // nothing and only pushes the tail: the offset stays put, so the
        // measure also counts whether the tail is full.
        decreases sequenceLen - offset, if |tail| == BranchFactor then 1 else 0
      {
        ghost var at := offset;
        offset := MutatingFillTail(offset, sequence);
        PrefixGrows(old(Elements()), sequence, at, offset);
        if |tail| == BranchFactor {
          MutatingInsertTail();
        }
      }
      tailOffset := count - |tail|;
    }
  }

  lemma PrefixGrows<T>(e: seq<T>, s: seq<T>, a: nat, b: nat)
    requires a <= b <= |s|
    ensures (e + s[..a]) + s[a..b] == e + s[..b]
  {
    assert s[..b] == s[..a] + s[a..b];
  }

  /** `extend`: a vector holding the elements of `v` followed by `xs`; `v`
      itself when `xs` is empty. */
  method Extend<T>(v: Vector<T>, xs: seq<T>) returns (r: Vector<T>)
    requires v.Valid()
    ensures r.Valid() && r.count == v.count + |xs|
    ensures r.Elements() == v.Elements() + xs
    ensures r.Elements() == AppendAll(v, xs).Elements()
    ensures xs == [] ==> r == v
  {
    if xs == [] {
      return v;
    }
    var t := new Transient(v.Append(xs[0]));
    t.MutatingExtend(xs[1..]);
    r := Vector(t.count, t.shift, t.root, t.tail);
    assert r == t.Snapshot();
    assert [xs[0]] + xs[1..] == xs;
  }

  /** `__add__`: extends by the elements of another vector, read with
      `_tolist`. */
  method Add<T>(v: Vector<T>, other: Vector<T>) returns (r: Vector<T>)
    requires v.Valid() && other.Valid()
    ensures r.Valid() && r.count == v.count + other.count
    ensures r.Elements() == v.Elements() + other.Elements()
  {
    var l := other.ToList();
    r := Extend(v, l);
  }

  /** `pvector(sequence)`: the empty vector extended by `xs`. */
  method FromSeq<T>(xs: seq<T>) returns (r: Vector<T>)
    ensures r.Valid() && r.count == |xs| && r.Elements() == xs
  {
    var empty := Empty();
    r := Extend(empty, xs);
    assert empty.Elements() + xs == xs;
  }
}

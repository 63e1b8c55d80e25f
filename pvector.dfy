/** The persistent vector: a 32-way trie of variable-length nodes plus a
    tail buffer of at most 32 elements (pyrsistent.py, class PVector). */
module PVectors {
  import opened Wrappers
  import opened Bits
  import opened Concats

  /** A trie node is a Python list: leaf values at level 0, child nodes above. */
  datatype Node<T> = Leaf(values: seq<T>) | Branch(children: seq<Node<T>>)

  /** Number of children of a node at a level whose children span `p`
      elements each, when the node holds `n` elements. */
  ghost predicate ChildCount(k: int, n: int, p: int)
  {
    (k - 1) * p < n <= k * p
  }

  /** Elements held by child `j`: every child is full except the last. */
  function ChildSize(n: int, p: int, j: int): int
  {
    if (j + 1) * p <= n then p else n - j * p
  }

  /** `node`, read at `level`, is a left-packed trie holding `n` elements:
      every leaf holds 32 values and only the rightmost path may be partial. */
  ghost predicate Dense<T>(node: Node<T>, level: nat, n: int)
    decreases node
  {
    if level == 0 then
      node.Leaf? && |node.values| == BranchFactor && n == BranchFactor
    else
      && level >= Shift && level % Shift == 0
      && node.Branch? && 0 <= n <= Cap(level) && n % BranchFactor == 0
      && ChildCount(|node.children|, n, Pow2(level))
      && forall j :: 0 <= j < |node.children| ==>
           Dense(node.children[j], level - Shift, ChildSize(n, Pow2(level), j))
  }

  /** The elements under `node`, depth first (`_fill_list`). */
  ghost function Flatten<T>(node: Node<T>, level: nat): seq<T>
    requires level % Shift == 0
    decreases node
  {
    if level == 0 then
      (match node case Leaf(vs) => vs case Branch(_) => [])
    else
      match node
      case Leaf(_) => []
      case Branch(cs) =>
        Concat(seq(|cs|, j requires 0 <= j < |cs| => Flatten(cs[j], level - Shift)))
  }

  ghost function Flats<T>(cs: seq<Node<T>>, level: nat): (r: seq<seq<T>>)
    requires level % Shift == 0
    ensures |r| == |cs| && forall j :: 0 <= j < |cs| ==> r[j] == Flatten(cs[j], level)
  {
    seq(|cs|, j requires 0 <= j < |cs| => Flatten(cs[j], level))
  }

  lemma FlattenBranch<T>(cs: seq<Node<T>>, level: nat)
    requires level >= Shift && level % Shift == 0
    ensures Flatten(Branch(cs), level) == Concat(Flats(cs, level - Shift))
  {
    assert Flats(cs, level - Shift)
        == seq(|cs|, j requires 0 <= j < |cs| => Flatten(cs[j], level - Shift));
  }

  lemma ChildSizes(k: int, n: int, p: int, j: int)
    requires p > 0 && n >= 0 && ChildCount(k, n, p) && 0 <= j < k
    ensures j < k - 1 ==> ChildSize(n, p, j) == p
    ensures 0 < ChildSize(n, p, j) <= p
    ensures j * p + ChildSize(n, p, j) <= n
    ensures j == k - 1 ==> j * p + ChildSize(n, p, j) == n
  {
    if j < k - 1 {
      MulMono(j + 1, k - 1, p);
    }
    MulMono(j, k - 1, p);
  }

  /** A dense trie holds exactly `n` elements. */
  lemma {:induction false} DenseLength<T>(node: Node<T>, level: nat, n: int)
    requires level % Shift == 0 && Dense(node, level, n)
    ensures |Flatten(node, level)| == n
    decreases node, 1
  {
    if level > 0 && |node.children| > 0 {
      var cs, p := node.children, Pow2(level);
      var k := |cs|;
      var last := ChildSize(n, p, k - 1);
      DenseChild(cs, level, n, k - 1);
      DenseLength(cs[k - 1], level - Shift, last);
      var fl := Flats(cs, level - Shift);
      assert |fl[k - 1]| == last;
      FlattenBranch(cs, level);
      FullBefore(cs, level, n, k - 1, fl);
      ConcatUniform(fl[..k - 1], p);
      var head := |Concat(fl[..k - 1])|;
      assert head == (k - 1) * p;
      ChildSizes(k, n, p, k - 1);
      ConcatPrefix(fl, k - 1);
      assert fl[..k] == fl;
      assert |Flatten(node, level)| == head + last;
    }
  }

  /** Each child of a dense branch is dense, holding its share. */
  lemma DenseChild<T>(cs: seq<Node<T>>, level: nat, n: int, j: nat)
    requires level >= Shift && Dense(Branch(cs), level, n) && j < |cs|
    ensures Dense(cs[j], level - Shift, ChildSize(n, Pow2(level), j))
  {
  }

  /** The child that `(i >> level) & 31` selects exists and holds the index. */
  lemma DescendIndex(k: int, n: int, p: int, i: nat)
    requires p > 0 && n >= 0 && ChildCount(k, n, p) && i % (32 * p) < n
    ensures var j := (i / p) % 32;
      && 0 <= j < k
      && i % (32 * p) == j * p + i % p
      && i % p < ChildSize(n, p, j)
  {
    var j := (i / p) % 32;
    ChildSelect(i, p);
    DivModIdentity(i % (32 * p), p);
    if j >= k {
      MulMono(k, j, p);
    }
    ChildSizes(k, n, p, j);
  }

  /** One step down `_node_for`: child `(i >> level) & 31` holds the element
      the index names, at the same offset modulo the child's span. */
  lemma Descend<T>(node: Node<T>, level: nat, n: int, i: nat)
    requires level >= Shift && Dense(node, level, n) && i % Cap(level) < n
    ensures var p := Pow2(level);
      var j := (i / p) % BranchFactor;
      && j < |node.children|
      && Dense(node.children[j], level - Shift, ChildSize(n, p, j))
      && i % Cap(level - Shift) < ChildSize(n, p, j)
      && |Flatten(node.children[j], level - Shift)| == ChildSize(n, p, j)
      && |Flatten(node, level)| == n
      && Flatten(node.children[j], level - Shift)[i % Cap(level - Shift)]
         == Flatten(node, level)[i % Cap(level)]
  {
    var cs, p := node.children, Pow2(level);
    Pow2AtLeast32(level);
    DescendIndex(|cs|, n, p, i);
    var j := (i / p) % BranchFactor;
    BranchAt(cs, level, n, j, p, i % p, i % Cap(level));
  }

  /** Offset `i` of the elements under `node` (taken modulo its capacity)
      is `x`: what `_node_for` keeps true on its way down. */
  ghost predicate Reaches<T>(node: Node<T>, level: nat, n: int, i: nat, x: T)
  {
    && level % Shift == 0 && Dense(node, level, n)
    && i % Cap(level) < n == |Flatten(node, level)|
    && Flatten(node, level)[i % Cap(level)] == x
  }

  /** The walk of `_node_for` takes one step down and still reaches `x`. */
  lemma ReachesChild<T>(node: Node<T>, level: nat, n: int, i: nat, x: T)
    requires level > 0 && Reaches(node, level, n, i, x)
    ensures node.Branch? && level >= Shift
    ensures var j := (i / Pow2(level)) % BranchFactor;
      j < |node.children| && Reaches(node.children[j], level - Shift, ChildSize(n, Pow2(level), j), i, x)
  {
    Descend(node, level, n, i);
  }

  /** Offset `x` in child `j` is offset `j * p + x` of the whole branch,
      every child before `j` being full. */
  lemma BranchAt<T>(cs: seq<Node<T>>, level: nat, n: int, j: nat, p: nat, x: nat, idx: nat)
    requires level >= Shift && level % Shift == 0 && p == Pow2(level)
    requires Dense(Branch(cs), level, n)
    requires j < |cs| && idx == j * p + x && x < ChildSize(n, p, j)
    ensures |Flatten(cs[j], level - Shift)| == ChildSize(n, p, j)
    ensures |Flatten(Branch(cs), level)| == n
    ensures Flatten(cs[j], level - Shift)[x] == Flatten(Branch(cs), level)[idx]
  {
    DenseLength(Branch(cs), level, n);
    DenseLength(cs[j], level - Shift, ChildSize(n, p, j));
    var fl := Flats(cs, level - Shift);
    FlattenBranch(cs, level);
    FullBefore(cs, level, n, j, fl);
    ConcatIndex(fl, j, p, x);
  }

  /** The shape conditions of a branch, stated child by child. */
  lemma DenseBranch<T>(cs: seq<Node<T>>, level: nat, n: int)
    requires level >= Shift && level % Shift == 0
    requires 0 <= n <= Cap(level) && n % BranchFactor == 0
    requires ChildCount(|cs|, n, Pow2(level))
    requires forall j :: 0 <= j < |cs| ==> Dense(cs[j], level - Shift, ChildSize(n, Pow2(level), j))
    ensures Dense(Branch(cs), level, n)
  {
  }

  /** The children of a dense node before child `j` are full. */
  lemma FullBefore<T>(cs: seq<Node<T>>, level: nat, n: int, j: nat, fl: seq<seq<T>>)
    requires level >= Shift && Dense(Branch(cs), level, n) && j < |cs|
    requires fl == Flats(cs, level - Shift)
    ensures forall t :: 0 <= t < j ==> |fl[t]| == Pow2(level)
    ensures forall t :: 0 <= t < j ==> |fl[..j][t]| == Pow2(level)
    decreases Branch(cs), 0
  {
    var p := Pow2(level);
    forall t | 0 <= t < j
      ensures |fl[t]| == p
    {
      ChildSizes(|cs|, n, p, t);
      DenseLength(cs[t], level - Shift, ChildSize(n, p, t));
    }
  }

  /** Rewriting one child of a dense node, in place of the element at offset
      `x` of that child, keeps the node dense and rewrites one element. */
  lemma ReplaceChild<T>(cs: seq<Node<T>>, level: nat, n: int, p: nat, sub: nat, child: Node<T>, x: nat, val: T,
                        idx: nat)
    requires level >= Shift && level % Shift == 0 && p == Pow2(level) && sub < |cs|
    requires Dense(Branch(cs), level, n)
    requires Dense(child, level - Shift, ChildSize(n, p, sub))
    requires x < |Flatten(cs[sub], level - Shift)| && idx == sub * p + x
    requires Flatten(child, level - Shift) == Flatten(cs[sub], level - Shift)[x := val]
    ensures Dense(Branch(cs[sub := child]), level, n)
    ensures idx < |Flatten(Branch(cs), level)|
    ensures Flatten(Branch(cs[sub := child]), level) == Flatten(Branch(cs), level)[idx := val]
  {
    ReplaceChildDense(cs, level, n, p, sub, child);
    var fl := Flats(cs, level - Shift);
    FullBefore(cs, level, n, sub, fl);
    FlatsReplace(cs, level - Shift, sub, child, x, val, fl);
    ConcatUpdateAt(fl, sub, p, x, val, idx);
    FlattenUpdate(cs, cs[sub := child], level, idx, val);
  }

  /** The flattening of a branch follows its pieces' concatenation. */
  lemma FlattenUpdate<T>(cs: seq<Node<T>>, cs': seq<Node<T>>, level: nat, idx: nat, val: T)
    requires level >= Shift && level % Shift == 0
    requires idx < |Concat(Flats(cs, level - Shift))|
    requires Concat(Flats(cs', level - Shift)) == Concat(Flats(cs, level - Shift))[idx := val]
    ensures idx < |Flatten(Branch(cs), level)|
    ensures Flatten(Branch(cs'), level) == Flatten(Branch(cs), level)[idx := val]
  {
    FlattenBranch(cs, level);
    FlattenBranch(cs', level);
  }

  /** Rewriting one element of one child rewrites that element of that
      child's piece. */
  lemma FlatsReplace<T>(cs: seq<Node<T>>, lower: nat, sub: nat, child: Node<T>, x: nat, val: T,
                        fl: seq<seq<T>>)
    requires lower % Shift == 0 && sub < |cs| && fl == Flats(cs, lower)
    requires x < |Flatten(cs[sub], lower)|
    requires Flatten(child, lower) == Flatten(cs[sub], lower)[x := val]
    ensures Flats(cs[sub := child], lower) == fl[sub := fl[sub][x := val]]
  {
    assert fl[sub] == Flatten(cs[sub], lower);
    FlatsUpdate(cs, lower, sub, child);
  }

  /** Replacing one child replaces one piece of the flattening. */
  lemma FlatsUpdate<T>(cs: seq<Node<T>>, level: nat, sub: nat, child: Node<T>)
    requires level % Shift == 0 && sub < |cs|
    ensures Flats(cs[sub := child], level) == Flats(cs, level)[sub := Flatten(child, level)]
  {
  }

  lemma ReplaceChildDense<T>(cs: seq<Node<T>>, level: nat, n: int, p: nat, sub: nat, child: Node<T>)
    requires level >= Shift && level % Shift == 0 && p == Pow2(level) && sub < |cs|
    requires Dense(Branch(cs), level, n)
    requires Dense(child, level - Shift, ChildSize(n, p, sub))
    ensures Dense(Branch(cs[sub := child]), level, n)
  {
    var cs' := cs[sub := child];
    forall j | 0 <= j < |cs'|
      ensures Dense(cs'[j], level - Shift, ChildSize(n, p, j))
    {
    }
    DenseBranch(cs', level, n);
  }

  /** `_new_path`: a chain of single-child branches down to `node`. */
  function NewPath<T>(level: nat, node: Node<T>): (r: Node<T>)
    requires level % Shift == 0 && Dense(node, 0, BranchFactor)
    ensures Dense(r, level, BranchFactor)
    ensures Flatten(r, level) == Flatten(node, 0)
    decreases level
  {
    if level == 0 then node
    else
      var child := NewPath(level - Shift, node);
      SingleChild(child, level);
      Branch([child])
  }

  lemma SingleChild<T>(child: Node<T>, level: nat)
    requires level >= Shift && level % Shift == 0 && Dense(child, level - Shift, BranchFactor)
    ensures Dense(Branch([child]), level, BranchFactor)
    ensures Flatten(Branch([child]), level) == Flatten(child, level - Shift)
  {
    SingleChildDense(child, level);
    SingleChildFlatten(child, level);
  }

  lemma SingleChildFlatten<T>(child: Node<T>, level: nat)
    requires level >= Shift && level % Shift == 0
    ensures Flatten(Branch([child]), level) == Flatten(child, level - Shift)
  {
    var a := Flatten(child, level - Shift);
    assert Flats([child], level - Shift) == [] + [a];
    FlattenBranch([child], level);
    ConcatPush([], a);
  }

  lemma SingleChildDense<T>(child: Node<T>, level: nat)
    requires level >= Shift && level % Shift == 0 && Dense(child, level - Shift, BranchFactor)
    ensures Dense(Branch([child]), level, BranchFactor)
  {
    Pow2AtLeast32(level);
    assert ChildCount(1, 32, Pow2(level));
    assert ChildSize(32, Pow2(level), 0) == 32;
    DenseBranch([child], level, 32);
  }

  /** Adding a new rightmost child to a node whose children are all full. */
  lemma AppendChild<T>(node: Node<T>, level: nat, n: int, child: Node<T>)
    requires level >= Shift && Dense(node, level, n) && n % Pow2(level) == 0
    requires n + BranchFactor <= Cap(level)
    requires Dense(child, level - Shift, BranchFactor)
    ensures Dense(Branch(node.children + [child]), level, n + BranchFactor)
    ensures Flatten(Branch(node.children + [child]), level)
         == Flatten(node, level) + Flatten(child, level - Shift)
  {
    AppendChildDense(node, level, n, child);
    FlattenAppendChild(node.children, level, child);
  }

  lemma FlattenAppendChild<T>(cs: seq<Node<T>>, level: nat, child: Node<T>)
    requires level >= Shift && level % Shift == 0
    ensures Flatten(Branch(cs + [child]), level) == Flatten(Branch(cs), level) + Flatten(child, level - Shift)
  {
    FlattenBranch(cs, level);
    FlattenBranch(cs + [child], level);
    assert Flats(cs + [child], level - Shift) == Flats(cs, level - Shift) + [Flatten(child, level - Shift)];
    ConcatPush(Flats(cs, level - Shift), Flatten(child, level - Shift));
  }

  lemma AppendArith(k: int, n: int, p: int)
    requires p >= 32 && n >= 0 && ChildCount(k, n, p) && n % p == 0
    ensures ChildCount(k + 1, n + 32, p) && ChildSize(n + 32, p, k) == 32
    ensures forall j :: 0 <= j < k ==> ChildSize(n + 32, p, j) == ChildSize(n, p, j)
  {
    CeilDiv(k, n, p);
    assert n == k * p;
    forall j | 0 <= j < k
      ensures ChildSize(n + 32, p, j) == ChildSize(n, p, j)
    {
      MulMono(j + 1, k, p);
    }
  }

  lemma AppendChildDense<T>(node: Node<T>, level: nat, n: int, child: Node<T>)
    requires level >= Shift && Dense(node, level, n) && n % Pow2(level) == 0
    requires n + BranchFactor <= Cap(level)
    requires Dense(child, level - Shift, BranchFactor)
    ensures Dense(Branch(node.children + [child]), level, n + BranchFactor)
  {
    var cs, p := node.children, Pow2(level);
    var k := |cs|;
    Pow2AtLeast32(level);
    AppendArith(k, n, p);
    var cs' := cs + [child];
    forall j | 0 <= j < |cs'|
      ensures Dense(cs'[j], level - Shift, ChildSize(n + 32, p, j))
    {
    }
    DenseBranch(cs', level, n + 32);
  }

  /** Growing the last, partial child of a node by a full leaf. */
  lemma ExtendLastChild<T>(node: Node<T>, level: nat, n: int, child: Node<T>, ts: seq<T>)
    requires level >= Shift && Dense(node, level, n) && n % Pow2(level) != 0
    requires n % Pow2(level) + BranchFactor <= Pow2(level)
    requires n + BranchFactor <= Cap(level)
    requires |node.children| == n / Pow2(level) + 1
    requires Dense(child, level - Shift, n % Pow2(level) + BranchFactor)
    requires Flatten(child, level - Shift) == Flatten(node.children[n / Pow2(level)], level - Shift) + ts
    ensures Dense(Branch(node.children[n / Pow2(level) := child]), level, n + BranchFactor)
    ensures Flatten(Branch(node.children[n / Pow2(level) := child]), level) == Flatten(node, level) + ts
  {
    ExtendLastChildDense(node.children, level, n, Pow2(level), n / Pow2(level), child);
    FlattenExtendLast(node.children, level, child, ts);
  }

  lemma FlattenExtendLast<T>(cs: seq<Node<T>>, level: nat, child: Node<T>, ts: seq<T>)
    requires level >= Shift && level % Shift == 0 && cs != []
    requires Flatten(child, level - Shift) == Flatten(cs[|cs| - 1], level - Shift) + ts
    ensures Flatten(Branch(cs[|cs| - 1 := child]), level) == Flatten(Branch(cs), level) + ts
  {
    var sub := |cs| - 1;
    FlattenBranch(cs, level);
    FlattenBranch(cs[sub := child], level);
    var fl := Flats(cs, level - Shift);
    assert Flats(cs[sub := child], level - Shift) == fl[sub := fl[sub] + ts];
    ConcatExtendLast(fl, ts);
  }

  lemma ExtendArith(k: int, n: int, p: int)
    requires p >= 32 && n >= 0 && ChildCount(k, n, p) && n % p != 0 && n % p + 32 <= p
    requires k == n / p + 1
    ensures ChildCount(k, n + 32, p) && ChildSize(n + 32, p, n / p) == n % p + 32
    ensures forall j :: 0 <= j < n / p ==> ChildSize(n + 32, p, j) == ChildSize(n, p, j)
  {
    var sub := n / p;
    assert n == sub * p + n % p;
    forall j | 0 <= j < sub
      ensures ChildSize(n + 32, p, j) == ChildSize(n, p, j)
    {
      MulMono(j + 1, sub, p);
    }
  }

  lemma ExtendLastChildDense<T>(cs: seq<Node<T>>, level: nat, n: int, p: nat, sub: nat, child: Node<T>)
    requires level >= Shift && level % Shift == 0 && p == Pow2(level)
    requires Dense(Branch(cs), level, n) && n % p != 0 && n % p + BranchFactor <= p
    requires n + BranchFactor <= Cap(level) && sub == n / p && |cs| == sub + 1
    requires Dense(child, level - Shift, n % p + BranchFactor)
    ensures Dense(Branch(cs[sub := child]), level, n + BranchFactor)
  {
    Pow2AtLeast32(level);
    ExtendArith(|cs|, n, p);
    var cs' := cs[sub := child];
    forall j | 0 <= j < |cs'|
      ensures Dense(cs'[j], level - Shift, ChildSize(n + 32, p, j))
    {
      if j < sub {
        assert cs'[j] == cs[j];
        assert Dense(cs[j], level - Shift, ChildSize(n, p, j));
      }
    }
    assert n % 32 == 0 && n >= 0;
    assert (n + 32) % 32 == 0;
    assert ChildCount(|cs'|, n + 32, p);
    DenseBranch(cs', level, n + 32);
  }

  /** Whether `append` must grow the root: `(count >> 5) > (1 << shift)`
      holds exactly when the tree below the root is full. */
  lemma GrowCondition(count: int, offset: int, shift: nat)
    requires count == offset + 32 && offset % 32 == 0 && 0 <= offset <= Cap(shift)
    ensures count / 32 > Pow2(shift) <==> offset == Cap(shift)
    ensures offset < Cap(shift) ==> (count - 32) % Cap(shift) == offset
  {
    DivModUnique(count, 32, offset / 32 + 1, 0);
    if offset < Cap(shift) {
      DivModUnique(count - 32, Cap(shift), 0, offset);
    }
  }

  /** `_do_assoc`: copy the path from `node` down to the leaf holding index
      `i` and write `val` there; every other subtree is shared. */
  function DoAssoc<T>(level: nat, node: Node<T>, i: nat, val: T, ghost n: int): (r: Node<T>)
    requires level % Shift == 0 && Dense(node, level, n) && i % Cap(level) < n
    ensures Dense(r, level, n)
    ensures |Flatten(node, level)| == n
    ensures Flatten(r, level) == Flatten(node, level)[i % Cap(level) := val]
    decreases node
  {
    if level == 0 then
      LeafAssoc(node, i, val);
      Leaf(node.values[i % BranchFactor := val])
    else
      var sub := (i / Pow2(level)) % BranchFactor;
      Descend(node, level, n, i);
      var child := DoAssoc(level - Shift, node.children[sub], i, val, ChildSize(n, Pow2(level), sub));
      DoAssocStep(node, level, n, i, val, child);
      Branch(node.children[sub := child])
  }

  lemma LeafAssoc<T>(node: Node<T>, i: nat, val: T)
    requires Dense(node, 0, BranchFactor)
    ensures Dense(Leaf(node.values[i % BranchFactor := val]), 0, BranchFactor)
    ensures |Flatten(node, 0)| == BranchFactor
    ensures Flatten(Leaf(node.values[i % BranchFactor := val]), 0) == Flatten(node, 0)[i % Cap(0) := val]
  {
    assert Cap(0) == BranchFactor;
  }

  lemma DoAssocStep<T>(node: Node<T>, level: nat, n: int, i: nat, val: T, child: Node<T>)
    requires level >= Shift && Dense(node, level, n) && i % Cap(level) < n
    requires (i / Pow2(level)) % BranchFactor < |node.children|
    requires var sub := (i / Pow2(level)) % BranchFactor;
      && Dense(child, level - Shift, ChildSize(n, Pow2(level), sub))
      && i % Cap(level - Shift) < |Flatten(node.children[sub], level - Shift)|
      && Flatten(child, level - Shift)
         == Flatten(node.children[sub], level - Shift)[i % Cap(level - Shift) := val]
    ensures var sub := (i / Pow2(level)) % BranchFactor;
      && Dense(Branch(node.children[sub := child]), level, n)
      && |Flatten(node, level)| == n
      && Flatten(Branch(node.children[sub := child]), level) == Flatten(node, level)[i % Cap(level) := val]
  {
    var p := Pow2(level);
    var sub := (i / p) % BranchFactor;
    Pow2AtLeast32(level);
    IndexSplit(i, p);
    DenseLength(node, level, n);
    ReplaceChild(node.children, level, n, p, sub, child, i % p, val, i % Cap(level));
  }

  /** The offset within a node splits into the child's number and the
      offset within the child. */
  lemma IndexSplit(i: nat, p: nat)
    requires p > 0
    ensures i % (BranchFactor * p) == ((i / p) % BranchFactor) * p + i % p
  {
    ChildSelect(i, p);
    DivModIdentity(i % (32 * p), p);
  }

  /** A vector: `count` elements, the first `count - |tail|` in the trie
      under `root` (read at level `shift`), the rest in `tail`. */
  datatype Vector<T> = Vector(count: nat, shift: nat, root: Node<T>, tail: seq<T>)
  {
    /** `_tail_offset`: index of the first element held in the tail. */
    function TailOffset(): int
    {
      count - |tail|
    }

    /** The shape invariant every vector the library hands out satisfies. */
    ghost predicate Valid()
    {
      && shift >= Shift && shift % Shift == 0
      && |tail| <= BranchFactor
      && 0 <= TailOffset() && TailOffset() % BranchFactor == 0
      && Dense(root, shift, TailOffset())
    }

    /** The elements in order (`_tolist`): the trie flattened, then the tail. */
    ghost function Elements(): (s: seq<T>)
      requires shift % Shift == 0
      ensures Valid() ==> |s| == count
    {
      if Valid() then DenseLength(root, shift, TailOffset()); Flatten(root, shift) + tail
      else Flatten(root, shift) + tail
    }

    /** `_new_path`/`_push_tail`: the copy of `parent` with the full leaf
        `tailNode` placed after its last element; `count` is the size of the
        vector whose tail is being pushed. */
    function PushTail(level: nat, parent: Node<T>, tailNode: Node<T>, ghost n: int): (r: Node<T>)
      requires level >= Shift && level % Shift == 0
      requires count >= BranchFactor && count % BranchFactor == 0
      requires n == PushOffset(count, level) && Dense(parent, level, n)
      requires Dense(tailNode, 0, BranchFactor)
      ensures Dense(r, level, n + BranchFactor)
      ensures Flatten(r, level) == Flatten(parent, level) + Flatten(tailNode, 0)
      decreases parent
    {
      PushTailSlot(count, level, parent);
      if level == Shift then
        PushTailAppend(count, level, parent, tailNode, tailNode)
      else
        var sub := SubIndex(count, level);
        if |parent.children| > sub then
          var child := PushTail(level - Shift, parent.children[sub], tailNode, PushOffset(count, level - Shift));
          PushTailExtend(count, level, parent, child, tailNode)
        else
          var path := NewPath(level - Shift, tailNode);
          PushTailAppend(count, level, parent, path, tailNode)
    }

    /** `_create_new_root`: the trie and shift after the full tail has been
        pushed into it, adding a level when the trie is full. */
    function CreateNewRoot(): (r: (Node<T>, nat))
      requires Valid() && |tail| == BranchFactor
      ensures r.1 >= Shift && r.1 % Shift == 0
      ensures r.1 == if count / BranchFactor > Pow2(shift) then shift + Shift else shift
      ensures Dense(r.0, r.1, count) && count <= Cap(r.1)
      ensures Flatten(r.0, r.1) == Flatten(root, shift) + tail
    {
      assert TailOffset() == count - BranchFactor;
      NewRootSlot(count, shift, root, tail);
      if count / BranchFactor > Pow2(shift) then (GrownRoot(), shift + Shift)
      else (PushedRoot(), shift)
    }

    /** `_create_new_root` on a full trie: a new root over the old one and
        a fresh path to the tail. */
    function GrownRoot(): (r: Node<T>)
      requires shift >= Shift && shift % Shift == 0 && |tail| == BranchFactor
      requires count == Cap(shift) + BranchFactor && Dense(root, shift, Cap(shift))
      ensures Dense(r, shift + Shift, count) && count <= Cap(shift + Shift)
      ensures Flatten(r, shift + Shift) == Flatten(root, shift) + tail
    {
      FullLeaf(tail);
      GrowTrie(root, shift, Leaf(tail))
    }

    /** `_create_new_root` when the trie has room: the tail pushed down
        from the root. */
    function PushedRoot(): (r: Node<T>)
      requires shift >= Shift && shift % Shift == 0 && |tail| == BranchFactor
      requires count >= BranchFactor && count % BranchFactor == 0 && count <= Cap(shift)
      requires count - BranchFactor == PushOffset(count, shift)
      requires Dense(root, shift, count - BranchFactor)
      ensures Dense(r, shift, count)
      ensures Flatten(r, shift) == Flatten(root, shift) + tail
    {
      FullLeaf(tail);
      var pushed := PushTail(shift, root, Leaf(tail), count - BranchFactor);
      DenseAt(pushed, shift, count - BranchFactor + BranchFactor, count);
      pushed
    }

    /** The vector once its full tail has moved into the trie: the same
        elements, the tail empty. */
    function WithTailPushed(): (r: Vector<T>)
      requires Valid() && |tail| == BranchFactor
      ensures r.Valid() && r.count == count && r.tail == []
      ensures r.shift == if count / BranchFactor > Pow2(shift) then shift + Shift else shift
      ensures r.Elements() == Elements()
    {
      var nr := CreateNewRoot();
      var w := Vector(count, nr.1, nr.0, []);
      assert w.TailOffset() == count;
      w
    }

    /** `append`: `x` joins the tail, or the full tail moves into the trie
        and `x` starts a new one. */
    function Append(x: T): (r: Vector<T>)
      requires Valid()
      ensures r.Valid() && r.count == count + 1
      ensures r.Elements() == Elements() + [x]
      ensures r.shift ==
        if |tail| == BranchFactor && count / BranchFactor > Pow2(shift) then shift + Shift else shift
    {
      if |tail| < BranchFactor then
        TailGrows(this, [x]);
        Vector(count + 1, shift, root, tail + [x])
      else
        var pushed := WithTailPushed();
        TailStarts(pushed, x);
        Vector(count + 1, pushed.shift, pushed.root, [x])
    }

    /** `assoc`: replace the element at index `i` (negative counts from the
        end); the index one past the end appends; any other index fails. */
    function Assoc(i: int, val: T): (r: Result<Vector<T>>)
      requires Valid()
      ensures var j := Normalize(i, count);
        && (0 <= j < count ==>
              r.Ok? && r.value.Valid() && r.value.count == count
              && r.value.Elements() == Elements()[j := val])
        && (j == count ==> r == Ok(Append(val)))
        && (j < 0 || j > count ==> r == Err(IndexError))
    {
      var j := Normalize(i, count);
      if 0 <= j < count then
        if j >= TailOffset() then
          AssocInTail(j, val);
          Ok(Vector(count, shift, root, tail[j % BranchFactor := val]))
        else
          AssocInTrie(j, val);
          Ok(Vector(count, shift, DoAssoc(shift, root, j, val, TailOffset()), tail))
      else if j == count then
        Ok(Append(val))
      else
        Err(IndexError)
    }

    /** An index at or past `_tail_offset` is slot `j % 32` of the tail. */
    lemma AssocInTail(j: int, val: T)
      requires Valid() && TailOffset() <= j < count
      ensures j % BranchFactor < |tail|
      ensures var r := Vector(count, shift, root, tail[j % BranchFactor := val]);
        r.Valid() && r.count == count && r.Elements() == Elements()[j := val]
    {
      DenseLength(root, shift, TailOffset());
      DivModUnique(j, BranchFactor, TailOffset() / BranchFactor, j - TailOffset());
      var r := Vector(count, shift, root, tail[j % BranchFactor := val]);
      assert r.Elements() == Flatten(root, shift) + tail[j - TailOffset() := val];
    }

    /** An index below `_tail_offset` is rewritten in the trie. */
    lemma AssocInTrie(j: int, val: T)
      requires Valid() && 0 <= j < TailOffset()
      ensures j % Cap(shift) < TailOffset()
      ensures var r := Vector(count, shift, DoAssoc(shift, root, j, val, TailOffset()), tail);
        r.Valid() && r.count == count && r.Elements() == Elements()[j := val]
    {
      DenseLength(root, shift, TailOffset());
      DivModUnique(j, Cap(shift), 0, j);
    }

    /** `_node_for`: the 32-element node holding index `i` (the tail, or a
        leaf reached by walking down from the root); out of range fails. */
    method NodeFor(i: int) returns (r: Result<seq<T>>)
      requires Valid()
      ensures 0 <= i < count ==>
        r.Ok? && i % BranchFactor < |r.value| && r.value[i % BranchFactor] == Elements()[i]
      ensures !(0 <= i < count) ==> r == Err(IndexError)
    {
      if 0 <= i < count {
        DenseLength(root, shift, TailOffset());
        if i >= TailOffset() {
          DivModUnique(i, BranchFactor, TailOffset() / BranchFactor, i - TailOffset());
          return Ok(tail);
        }
        DivModUnique(i, Cap(shift), 0, i);
        var node: Node<T>, level: nat := root, shift;
        ghost var n := TailOffset();
        while level > 0
          invariant Reaches(node, level, n, i, Elements()[i])
          decreases level
        {
          ReachesChild(node, level, n, i, Elements()[i]);
          var j := (i / Pow2(level)) % BranchFactor;
          n := ChildSize(n, Pow2(level), j);
          node, level := node.children[j], level - Shift;
        }
        return Ok(node.values);
      }
      return Err(IndexError);
    }

    /** `__getitem__` with an integer index: negative indices count from
        the end; out of range fails with IndexError. */
    method GetItem(index: int) returns (r: Result<T>)
      requires Valid()
      ensures var j := Normalize(index, count);
        && (0 <= j < count ==> r == Ok(Elements()[j]))
        && (!(0 <= j < count) ==> r == Err(IndexError))
    {
      var i := Normalize(index, count);
      var node := NodeFor(i);
      if node.Err? {
        return Err(node.error);
      }
      return Ok(node.value[i % BranchFactor]);
    }

    /** `_fill_list`: appends the elements under `node` to `acc`, depth first. */
    method FillList(node: Node<T>, level: nat, acc: seq<T>) returns (r: seq<T>)
      requires level % Shift == 0
      ensures r == acc + Flatten(node, level)
      decreases node, 1
    {
      if level != 0 {
        match node
        case Leaf(_) =>
          r := acc;
        case Branch(cs) =>
          FlattenBranch(cs, level);
          r := FillChildren(cs, level - Shift, acc);
      } else {
        match node
        case Leaf(vs) =>
          r := acc + vs;
        case Branch(_) =>
          r := acc;
      }
    }

    /** The loop of `_fill_list` over the children of a branch, each read
        at `level`. */
    method FillChildren(cs: seq<Node<T>>, level: nat, acc: seq<T>) returns (r: seq<T>)
      requires level % Shift == 0
      ensures r == acc + Concat(Flats(cs, level))
      decreases Branch(cs), 0
    {
      ghost var fl := Flats(cs, level);
      r := acc;
      for k := 0 to |cs|
        invariant r == acc + Concat(fl[..k])
      {
        assert fl[k] == Flatten(cs[k], level);
        r := FillList(cs[k], level, r);
        FlattenStep(acc, fl, k);
      }
      assert fl[..|cs|] == fl;
    }

    /** `_tolist`: the trie's elements, then the tail. */
    method ToList() returns (r: seq<T>)
      requires shift % Shift == 0
      ensures r == Elements()
    {
      r := FillList(root, shift, []);
      r := r + tail;
    }
  }

  /** Appending the elements of `xs` one at a time, left to right: the
      reference meaning of `extend`. */
  function AppendAll<T>(v: Vector<T>, xs: seq<T>): (r: Vector<T>)
    requires v.Valid()
    ensures r.Valid() && r.count == v.count + |xs|
    ensures r.Elements() == v.Elements() + xs
    decreases |xs|
  {
    if xs == [] then v
    else
      var r := AppendAll(v.Append(xs[0]), xs[1..]);
      AppendAssoc(v.Elements(), [xs[0]], xs[1..]);
      assert [xs[0]] + xs[1..] == xs;
      r
  }

  /** Elements added to a tail with room for them come last. */
  lemma TailGrows<T>(v: Vector<T>, delta: seq<T>)
    requires v.Valid() && |v.tail| + |delta| <= BranchFactor
    ensures var w := Vector(v.count + |delta|, v.shift, v.root, v.tail + delta);
      w.Valid() && w.Elements() == v.Elements() + delta
  {
    var w := Vector(v.count + |delta|, v.shift, v.root, v.tail + delta);
    assert w.TailOffset() == v.TailOffset();
  }

  /** Density depends on the count's value, not on how it is written. */
  lemma DenseAt<T>(node: Node<T>, level: nat, n: int, m: int)
    requires Dense(node, level, n) && n == m
    ensures Dense(node, level, m)
  {
  }

  /** A full tail makes a full leaf holding its elements. */
  lemma FullLeaf<T>(tail: seq<T>)
    requires |tail| == BranchFactor
    ensures Dense(Leaf(tail), 0, BranchFactor) && Flatten(Leaf(tail), 0) == tail
  {
  }

  /** The first element of an empty tail comes last. */
  lemma TailStarts<T>(v: Vector<T>, x: T)
    requires v.Valid() && v.tail == []
    ensures var w := Vector(v.count + 1, v.shift, v.root, [x]);
      w.Valid() && w.Elements() == v.Elements() + [x]
  {
    TailGrows(v, [x]);
    assert v.tail + [x] == [x];
  }

  /** One child more in `_fill_list`'s loop. */
  lemma FlattenStep<T>(acc: seq<T>, fl: seq<seq<T>>, k: nat)
    requires k < |fl|
    ensures (acc + Concat(fl[..k])) + fl[k] == acc + Concat(fl[..k + 1])
  {
    ConcatPrefix(fl, k);
    AppendAssoc(acc, Concat(fl[..k]), fl[k]);
  }

  lemma AppendAssoc<T>(a: seq<T>, b: seq<T>, c: seq<T>)
    ensures (a + b) + c == a + (b + c)
  {
  }

  /** Negative indices count from the end, as in Python. */
  function Normalize(i: int, count: nat): (j: int)
    ensures i >= 0 ==> j == i
    ensures i < 0 ==> j == count + i
  {
    if i < 0 then i + count else i
  }

  /** `_EMPTY_VECTOR`: no elements, an empty root read at level 5. */
  function Empty<T>(): (r: Vector<T>)
    ensures r.Valid() && r.count == 0 && r.Elements() == []
  {
    var none: seq<Node<T>> := [];
    FlattenBranch(none, Shift);
    Vector(0, Shift, Branch(none), [])
  }

  /** The root grows a level: the old, full trie becomes the first child and
      the pushed tail the second. */
  lemma GrowRoot<T>(root: Node<T>, shift: nat, path: Node<T>)
    requires shift >= Shift && shift % Shift == 0
    requires Dense(root, shift, Cap(shift)) && Dense(path, shift, BranchFactor)
    ensures Dense(Branch([root, path]), shift + Shift, Cap(shift) + BranchFactor)
    ensures Cap(shift) + BranchFactor <= Cap(shift + Shift)
    ensures Flatten(Branch([root, path]), shift + Shift) == Flatten(root, shift) + Flatten(path, shift)
  {
    GrowRootDense(root, shift, path);
    GrowRootFlatten(root, shift, path);
  }

  lemma GrowRootDense<T>(root: Node<T>, shift: nat, path: Node<T>)
    requires shift >= Shift && shift % Shift == 0
    requires Dense(root, shift, Cap(shift)) && Dense(path, shift, BranchFactor)
    ensures Dense(Branch([root, path]), shift + Shift, Cap(shift) + BranchFactor)
    ensures Cap(shift) + BranchFactor <= Cap(shift + Shift)
  {
    var level := shift + Shift;
    var p := Pow2(level);
    Pow2AtLeast32(level);
    var n := p + 32;
    var cs := [root, path];
    assert ChildSize(n, p, 0) == Cap(shift);
    assert ChildSize(n, p, 1) == 32;
    forall j | 0 <= j < |cs|
      ensures Dense(cs[j], level - Shift, ChildSize(n, p, j))
    {
      if j == 0 {
        assert cs[j] == root;
      } else {
        assert cs[j] == path;
      }
    }
    assert ChildCount(2, n, p);
    DenseBranch(cs, level, n);
  }

  lemma GrowRootFlatten<T>(root: Node<T>, shift: nat, path: Node<T>)
    requires shift % Shift == 0
    ensures Flatten(Branch([root, path]), shift + Shift) == Flatten(root, shift) + Flatten(path, shift)
  {
    var a, b := Flatten(root, shift), Flatten(path, shift);
    FlattenBranch([root, path], shift + Shift);
    assert Flats([root, path], shift) == [a] + [b];
    ConcatPush([a], b);
    ConcatPush([], a);
    assert [a] == [] + [a];
  }

  /** Number of elements already under a node at `level` on the path where
      the tail of a vector of `count` elements goes. */
  function PushOffset(count: int, level: nat): int
  {
    (count - BranchFactor) % Cap(level)
  }

  /** `subidx` of `_push_tail`: which child of a node at `level` receives the
      tail of a vector of `count` elements. */
  function SubIndex(count: int, level: nat): int
  {
    ((count - 1) / Pow2(level)) % BranchFactor
  }

  /** The tail goes into a new last child of `parent`. */
  ghost predicate AppendsChild<T>(count: int, level: nat, parent: Node<T>)
  {
    && level >= Shift
    && Dense(parent, level, PushOffset(count, level))
    && PushOffset(count, level) % Pow2(level) == 0
    && PushOffset(count, level) + BranchFactor <= Cap(level)
  }

  /** The tail goes into the partial last child of `parent`, which is the
      child `SubIndex` selects. */
  ghost predicate ExtendsChild<T>(count: int, level: nat, parent: Node<T>)
  {
    var n, p := PushOffset(count, level), Pow2(level);
    && level >= Shift
    && Dense(parent, level, n) && n % p != 0 && n % p + BranchFactor <= p
    && n + BranchFactor <= Cap(level)
    && |parent.children| == n / p + 1 && SubIndex(count, level) == n / p
  }

  /** Where `_push_tail` puts the tail: into the last child when that child
      is partial, as a new last child otherwise (always at level 5). */
  lemma PushTailSlot<T>(count: int, level: nat, parent: Node<T>)
    requires level >= Shift && level % Shift == 0
    requires count >= BranchFactor && count % BranchFactor == 0
    requires Dense(parent, level, PushOffset(count, level))
    ensures parent.Branch? && (level - Shift) % Shift == 0
    ensures level == Shift ==> |parent.children| <= SubIndex(count, level)
    ensures |parent.children| <= SubIndex(count, level) ==> AppendsChild(count, level, parent)
    ensures |parent.children| > SubIndex(count, level) ==>
      && ExtendsChild(count, level, parent)
      && Dense(parent.children[SubIndex(count, level)], level - Shift, PushOffset(count, level - Shift))
  {
    var n, p := PushOffset(count, level), Pow2(level);
    PushTailArith(count, level);
    CeilDiv(|parent.children|, n, p);
    if n % p != 0 {
      ChildSizes(|parent.children|, n, p, n / p);
    }
  }

  /** The integer facts behind `PushTailSlot`. */
  lemma PushTailArith(count: int, level: nat)
    requires level >= Shift && level % Shift == 0
    requires count >= BranchFactor && count % BranchFactor == 0
    ensures var n, p := PushOffset(count, level), Pow2(level);
      && 0 <= n && n % BranchFactor == 0 && n + BranchFactor <= Cap(level)
      && SubIndex(count, level) == n / p
      && PushOffset(count, level - Shift) == n % p
      && n % p + BranchFactor <= p
      && n == (n / p) * p + n % p
      && (level == Shift ==> n % p == 0)
  {
    var n, p := PushOffset(count, level), Pow2(level);
    Pow2AtLeast32(level);
    TailSlot(count, p);
    if level == Shift {
      assert p == 32;
    }
  }

  /** Adds `child` as the new last child of `parent`. */
  function PushTailAppend<T>(count: int, level: nat, parent: Node<T>, child: Node<T>, tailNode: Node<T>): (r: Node<T>)
    requires AppendsChild(count, level, parent)
    requires Dense(child, level - Shift, BranchFactor)
    requires Flatten(child, level - Shift) == Flatten(tailNode, 0)
    ensures Dense(r, level, PushOffset(count, level) + BranchFactor)
    ensures Flatten(r, level) == Flatten(parent, level) + Flatten(tailNode, 0)
  {
    AppendChild(parent, level, PushOffset(count, level), child);
    Branch(parent.children + [child])
  }

  /** Replaces the partial last child of `parent` by `child`. */
  function PushTailExtend<T>(count: int, level: nat, parent: Node<T>, child: Node<T>, tailNode: Node<T>): (r: Node<T>)
    requires level > Shift && level % Shift == 0
    requires count >= BranchFactor && count % BranchFactor == 0
    requires ExtendsChild(count, level, parent)
    requires Dense(child, level - Shift, PushOffset(count, level - Shift) + BranchFactor)
    requires Flatten(child, level - Shift)
          == Flatten(parent.children[SubIndex(count, level)], level - Shift) + Flatten(tailNode, 0)
    ensures Dense(r, level, PushOffset(count, level) + BranchFactor)
    ensures Flatten(r, level) == Flatten(parent, level) + Flatten(tailNode, 0)
  {
    var n, p := PushOffset(count, level), Pow2(level);
    Pow2AtLeast32(level);
    TailSlot(count, p);
    assert PushOffset(count, level - Shift) == n % p;
    ExtendLastChild(parent, level, n, child, Flatten(tailNode, 0));
    Branch(parent.children[n / p := child])
  }

  /** Which way `_create_new_root` goes: the trie is full exactly when
      `count >> 5 > 1 << shift`. */
  lemma NewRootSlot<T>(count: int, shift: nat, root: Node<T>, tail: seq<T>)
    requires shift >= Shift && shift % Shift == 0 && |tail| == BranchFactor
    requires count >= BranchFactor && (count - BranchFactor) % BranchFactor == 0
    requires Dense(root, shift, count - BranchFactor)
    ensures Dense(Leaf(tail), 0, BranchFactor) && Flatten(Leaf(tail), 0) == tail
    ensures count % BranchFactor == 0
    ensures count / BranchFactor > Pow2(shift) ==>
      count == Cap(shift) + BranchFactor && Dense(root, shift, Cap(shift))
    ensures count / BranchFactor <= Pow2(shift) ==>
      count <= Cap(shift) && count - BranchFactor == PushOffset(count, shift)
  {
    GrowCondition(count, count - BranchFactor, shift);
  }

  /** The root grows a level above a full trie, the pushed leaf on a new
      path as its second child. */
  function GrowTrie<T>(root: Node<T>, shift: nat, leaf: Node<T>): (r: Node<T>)
    requires shift >= Shift && shift % Shift == 0
    requires Dense(root, shift, Cap(shift)) && Dense(leaf, 0, BranchFactor)
    ensures Dense(r, shift + Shift, Cap(shift) + BranchFactor)
    ensures Cap(shift) + BranchFactor <= Cap(shift + Shift)
    ensures Flatten(r, shift + Shift) == Flatten(root, shift) + Flatten(leaf, 0)
  {
    var path := NewPath(shift, leaf);
    GrowRoot(root, shift, path);
    Branch([root, path])
  }
}

/** Flattening a sequence of sequences, the shape of every "walk the
    children left to right and extend the result" loop in the model. */
module Concats {
  import opened Bits

  function Concat<T>(xss: seq<seq<T>>): seq<T>
  {
    if xss == [] then [] else Concat(xss[..|xss| - 1]) + xss[|xss| - 1]
  }

  lemma {:induction false} ConcatAppend<T>(a: seq<seq<T>>, b: seq<seq<T>>)
    ensures Concat(a + b) == Concat(a) + Concat(b)
  {
    if b == [] {
      assert a + b == a;
    } else {
      var b' := b[..|b| - 1];
      assert (a + b)[..|a + b| - 1] == a + b';
      ConcatAppend(a, b');
    }
  }

  /** Element `j` sits between the flattened prefix and the flattened suffix. */
  lemma {:induction false} ConcatSplit<T>(xss: seq<seq<T>>, j: nat)
    requires j < |xss|
    ensures Concat(xss) == Concat(xss[..j]) + xss[j] + Concat(xss[j + 1..])
  {
    var pre, mid, post := xss[..j], [xss[j]], xss[j + 1..];
    assert xss == (pre + mid) + post;
    ConcatAppend(pre + mid, post);
    ConcatAppend(pre, mid);
    assert mid[..0] == [];
    assert Concat(mid) == Concat(mid[..0]) + mid[0];
  }

  /** Replacing one element replaces its segment and nothing else. */
  lemma ConcatUpdate<T>(xss: seq<seq<T>>, j: nat, y: seq<T>)
    requires j < |xss|
    ensures Concat(xss[j := y]) == Concat(xss[..j]) + y + Concat(xss[j + 1..])
    ensures |Concat(xss[j := y])| == |Concat(xss)| - |xss[j]| + |y|
  {
    var u := xss[j := y];
    ConcatSplit(u, j);
    ConcatSplit(xss, j);
    assert u[..j] == xss[..j];
    assert u[j + 1..] == xss[j + 1..];
  }

  /** A prefix of `j` equally long pieces flattens to `j * p` elements. */
  lemma {:induction false} ConcatUniform<T>(xss: seq<seq<T>>, p: nat)
    requires forall i :: 0 <= i < |xss| ==> |xss[i]| == p
    ensures |Concat(xss)| == |xss| * p
  {
    if xss != [] {
      var init := xss[..|xss| - 1];
      assert forall i :: 0 <= i < |init| ==> init[i] == xss[i];
      ConcatUniform(init, p);
      Distrib(|init|, 1, p);
    }
  }

  /** With `j` pieces of length `p` in front, element `x` of piece `j` is
      element `j * p + x` of the flattening. */
  lemma ConcatIndex<T>(xss: seq<seq<T>>, j: nat, p: nat, x: nat)
    requires j < |xss| && x < |xss[j]|
    requires forall i :: 0 <= i < j ==> |xss[i]| == p
    ensures j * p + x < |Concat(xss)|
    ensures Concat(xss)[j * p + x] == xss[j][x]
  {
    ConcatSplit(xss, j);
    var pre := xss[..j];
    assert forall i :: 0 <= i < |pre| ==> |pre[i]| == p;
    ConcatUniform(pre, p);
  }

  /** Writing element `x` of piece `j` writes element `j * p + x` of the
      flattening, and nothing else. */
  lemma ConcatUpdateAt<T>(xss: seq<seq<T>>, j: nat, p: nat, x: nat, v: T, idx: nat)
    requires j < |xss| && x < |xss[j]|
    requires forall i :: 0 <= i < j ==> |xss[i]| == p
    requires idx == j * p + x
    ensures idx < |Concat(xss)|
    ensures Concat(xss[j := xss[j][x := v]]) == Concat(xss)[idx := v]
  {
    ConcatSplit(xss, j);
    ConcatUpdate(xss, j, xss[j][x := v]);
    var pre := xss[..j];
    assert forall i :: 0 <= i < |pre| ==> |pre[i]| == p;
    ConcatUniform(pre, p);
    UpdateMiddle(Concat(pre), xss[j], Concat(xss[j + 1..]), x, v);
  }

  lemma UpdateMiddle<T>(a: seq<T>, b: seq<T>, c: seq<T>, x: nat, v: T)
    requires x < |b|
    ensures a + b[x := v] + c == (a + b + c)[|a| + x := v]
  {
  }

  /** Extending the last piece extends the flattening. */
  lemma ConcatExtendLast<T>(xss: seq<seq<T>>, ys: seq<T>)
    requires xss != []
    ensures Concat(xss[|xss| - 1 := xss[|xss| - 1] + ys]) == Concat(xss) + ys
  {
    var j := |xss| - 1;
    assert xss[j := xss[j] + ys][..j] == xss[..j];
  }

  lemma ConcatPush<T>(xss: seq<seq<T>>, ys: seq<T>)
    ensures Concat(xss + [ys]) == Concat(xss) + ys
  {
    assert (xss + [ys])[..|xss|] == xss;
  }

  /** Growing a prefix by one piece appends that piece. */
  lemma ConcatPrefix<T>(xss: seq<seq<T>>, k: nat)
    requires k < |xss|
    ensures Concat(xss[..k + 1]) == Concat(xss[..k]) + xss[k]
  {
    assert xss[..k + 1] == xss[..k] + [xss[k]];
    ConcatPush(xss[..k], xss[k]);
  }

  /** An element of the flattening is an element of one of the pieces. */
  lemma {:induction false} ConcatMember<T>(xss: seq<seq<T>>, x: T)
    ensures x in Concat(xss) <==> exists i :: 0 <= i < |xss| && x in xss[i]
  {
    if xss != [] {
      var init := xss[..|xss| - 1];
      ConcatMember(init, x);
      assert forall i :: 0 <= i < |init| ==> init[i] == xss[i];
    }
  }
}

/** Integer arithmetic behind the trie's bit tricks: for a non-negative index,
    `i >> s` is `i / 2^s` and `i & 31` is `i % 32`. */
module Bits {

  const BranchFactor: nat := 32
  const Shift: nat := 5

  function Pow2(s: nat): (r: nat)
    ensures r >= 1
  {
    if s == 0 then 1 else 2 * Pow2(s - 1)
  }

  /** Number of elements a full trie node at `level` holds: 32 leaf values
      at level 0, and 32 times as many per level above. */
  function Cap(level: nat): nat
  {
    BranchFactor * Pow2(level)
  }

  lemma {:induction false} Pow2Step(s: nat)
    ensures Pow2(s + Shift) == BranchFactor * Pow2(s)
  {
    calc {
      Pow2(s + 5);
      2 * Pow2(s + 4);
      2 * (2 * Pow2(s + 3));
      2 * (2 * (2 * Pow2(s + 2)));
      2 * (2 * (2 * (2 * Pow2(s + 1))));
      2 * (2 * (2 * (2 * (2 * Pow2(s)))));
    }
  }

  /** Above the leaves a level holds at least 32 elements per child. */
  lemma Pow2AtLeast32(level: nat)
    requires level >= Shift && level % Shift == 0
    ensures Pow2(level) >= 32 && Pow2(level) % 32 == 0
    ensures Pow2(level) == Cap(level - Shift)
  {
    Pow2Step(level - Shift);
    DivModUnique(Pow2(level), 32, Pow2(level - Shift), 0);
  }

  lemma MulAtLeast(a: int, d: int)
    requires a >= 1 && d > 0
    ensures a * d >= d
  {
    MulMono(1, a, d);
  }

  lemma MulMono(a: int, b: int, p: int)
    requires a <= b && p >= 0
    ensures a * p <= b * p
  {
    Distrib(b - a, a, p);
    MulNonNegative(b - a, p);
  }

  lemma MulNonNegative(a: int, p: int)
    requires a >= 0 && p >= 0
    ensures a * p >= 0
  {
  }

  lemma Distrib(a: int, b: int, p: int)
    ensures (a + b) * p == a * p + b * p
  {
  }

  lemma DivModIdentity(x: int, d: int)
    requires d > 0
    ensures x == (x / d) * d + x % d
  {
  }

  lemma DivModUnique(x: int, d: int, q: int, r: int)
    requires d > 0 && 0 <= r < d && x == q * d + r
    ensures x / d == q && x % d == r
  {
    var q', r' := x / d, x % d;
    assert x == q' * d + r';
    if q' > q {
      Distrib(q' - q, q, d);
      MulAtLeast(q' - q, d);
    } else if q' < q {
      Distrib(q - q', q', d);
      MulAtLeast(q - q', d);
    }
  }

  /** Selecting a child by `(i >> level) & 31` inside a node whose span is
      `32 * 2^level` picks the same child as dividing the offset within that
      span, and leaves the same offset within the child. */
  lemma ChildSelect(i: nat, p: nat)
    requires p > 0
    ensures (i % (32 * p)) / p == (i / p) % 32
    ensures (i % (32 * p)) % p == i % p
  {
    var q, s := i / p, i % p;
    var a, b := q / 32, q % 32;
    assert i == q * p + s;
    assert q == 32 * a + b;
    Distrib(32 * a, b, p);
    MulAssoc(a, p);
    MulMono(b, 31, p);
    Distrib(31, 1, p);
    DivModUnique(i, 32 * p, a, b * p + s);
    DivModUnique(b * p + s, p, b, s);
  }

  lemma MulAssoc(a: int, p: int)
    ensures (32 * a) * p == a * (32 * p)
  {
  }

  /** A non-negative multiple of 32 stays one after reduction modulo another. */
  lemma MultipleMod(x: int, d: int)
    requires x >= 0 && d > 0 && x % 32 == 0 && d % 32 == 0
    ensures (x % d) % 32 == 0
  {
    var a, b, q := x / 32, d / 32, x / d;
    assert x == 32 * a && d == 32 * b;
    assert x == q * d + x % d;
    MulAssoc(b, q);
    assert x % d == 32 * (a - b * q);
    DivModUnique(x % d, 32, a - b * q, 0);
  }

  /** `k` children, all but the last holding `p` elements, hold `n` elements:
      `k` is `n / p` rounded up. */
  lemma CeilDiv(k: int, n: int, p: int)
    requires p > 0 && n >= 0 && (k - 1) * p < n <= k * p
    ensures n % p == 0 ==> k == n / p
    ensures n % p != 0 ==> k == n / p + 1
  {
    var q, s := n / p, n % p;
    assert n == q * p + s;
    Distrib(q, 1, p);
    Distrib(k - 1, 1, p);
    if k - 1 >= q + 1 {
      MulMono(q + 1, k - 1, p);
    }
    if k < q {
      MulMono(k, q - 1, p);
      Distrib(q - 1, 1, p);
    }
    if k == q + 1 && s == 0 {
      assert false;
    }
  }

  /** Where `_push_tail` looks for the last child: with `count` the size of a
      vector whose full 32-element tail is being pushed, `n` the number of
      elements in the subtree at this level, and `p` the span of one child,
      `((count - 1) >> level) & 31` is the index of the child that receives
      the tail, and the offsets below this level agree. */
  lemma TailSlot(count: int, p: int)
    requires count >= 32 && count % 32 == 0 && p >= 32 && p % 32 == 0
    ensures var n := (count - 32) % (32 * p);
      && n % 32 == 0 && n + 32 <= 32 * p
      && ((count - 1) / p) % 32 == n / p
      && (count - 32) % p == n % p
      && n % p % 32 == 0 && n % p + 32 <= p
  {
    var n := (count - 32) % (32 * p);
    DivModUnique(32 * p, 32, p, 0);
    MultipleMod(count - 32, 32 * p);
    RoundDown32(n, 32 * p);
    MultipleMod(n, p);
    RoundDown32(n % p, p);
    ChildSelect(count - 1, p);
    ChildSelect(count - 32, p);
    var q := (count - 32) / (32 * p);
    assert count - 32 == q * (32 * p) + n;
    DivModUnique(count - 1, 32 * p, q, n + 31);
    DivModUnique(n + 31, p, n / p, n % p + 31);
  }

  /** Below a multiple of 32, a multiple of 32 leaves room for 32 more. */
  lemma RoundDown32(x: int, m: int)
    requires 0 <= x < m && x % 32 == 0 && m % 32 == 0
    ensures x + 32 <= m
  {
    assert x == 32 * (x / 32) && m == 32 * (m / 32);
  }

}

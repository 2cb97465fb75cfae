/** Merkle trees over any kind of node: the list-by-list definition, sibling paths, and folds.
    Text nodes, hash pointers and the free terms of FreeTerms are all instances. */
module MerkleTree {

  /** How nodes are combined. `blank` marks an absent node in a padded array. */
  datatype Algebra<!H> = Algebra(blank: H, parent: (H, H) -> H)

  ghost predicate Proper<H(!new)>(a: Algebra<H>) {
    forall l, r :: a.parent(l, r) != a.blank
  }

  ghost predicate Injective<H(!new)>(a: Algebra<H>) {
    forall l, r, l', r' :: a.parent(l, r) == a.parent(l', r') ==> l == l' && r == r'
  }

  function Pow2(k: nat): (p: nat)
    ensures p >= 1
  {
    if k == 0 then 1 else Pow2(k - 1) + Pow2(k - 1)
  }

  /** How many times n nodes must be paired up before one is left. */
  function Height(n: nat): (k: nat)
    requires n >= 1
    ensures n <= Pow2(k)
    ensures k >= 1 ==> Pow2(k - 1) < n
  {
    if n == 1 then 0 else 1 + Height((n + 1) / 2)
  }

  /** The node to the right of left node xs[i], which is xs[i] itself when it stands alone. */
  function RightOf<H>(xs: seq<H>, i: nat): H
    requires i < |xs|
  {
    if i + 1 < |xs| then xs[i + 1] else xs[i]
  }

  /** One step up: neighbours are paired, and a lone last node is paired with itself. */
  function NextLevel<H>(a: Algebra<H>, xs: seq<H>): (ys: seq<H>)
    ensures |ys| == (|xs| + 1) / 2
    ensures forall q {:trigger ys[q]} :: 0 <= q < |ys| ==> ys[q] == a.parent(xs[2 * q], RightOf(xs, 2 * q))
  {
    seq((|xs| + 1) / 2, q requires 0 <= q < (|xs| + 1) / 2 => a.parent(xs[2 * q], RightOf(xs, 2 * q)))
  }

  function Level<H>(a: Algebra<H>, xs: seq<H>, h: nat): seq<H>
    decreases h
  {
    if h == 0 then xs else Level(a, NextLevel(a, xs), h - 1)
  }

  /** The Merkle root of a non-empty list. */
  function Root<H>(a: Algebra<H>, xs: seq<H>): H
    requires |xs| >= 1
    decreases |xs|
  {
    if |xs| == 1 then xs[0] else Root(a, NextLevel(a, xs))
  }

  /** The node that is hashed together with xs[i]; a missing one is a copy of xs[i]. */
  function Sibling<H>(xs: seq<H>, i: nat): H
    requires i < |xs|
  {
    if i % 2 == 1 then xs[i - 1] else RightOf(xs, i)
  }

  /** The siblings met on the way up from leaf i. */
  function Path<H>(a: Algebra<H>, xs: seq<H>, i: nat): (path: seq<H>)
    requires i < |xs|
    ensures |path| == Height(|xs|)
    decreases |xs|
  {
    if |xs| == 1 then [] else [Sibling(xs, i)] + Path(a, NextLevel(a, xs), i / 2)
  }

  /** One step of a fold: the low bit of the index says on which side the working node goes. */
  function Up<H>(a: Algebra<H>, c: H, i: nat, sibling: H): H {
    if i % 2 == 0 then a.parent(c, sibling) else a.parent(sibling, c)
  }

  function Fold<H>(a: Algebra<H>, c: H, i: nat, path: seq<H>): H
    decreases |path|
  {
    if path == [] then c else Fold(a, Up(a, c, i, path[0]), i / 2, path[1..])
  }

  lemma Pow2Monotonic(j: nat, k: nat)
    requires j <= k
    ensures Pow2(j) <= Pow2(k)
    decreases k
  {
    if j < k {
      Pow2Monotonic(j, k - 1);
    }
  }

  lemma Pow2Doubles(j: nat, k: nat)
    ensures j < k ==> 2 * Pow2(j) <= Pow2(k)
  {
    if j < k {
      Pow2Monotonic(j + 1, k);
    }
  }

  /** The length of a Go slice is below 2^63, so its tree has at most 63 levels. */
  lemma HeightOfSlice(n: nat)
    requires 1 <= n < 0x8000_0000_0000_0000
    ensures Height(n) <= 63
  {
    hide Pow2, Height;
    var k := Height(n);
    SliceSize();
    if k > 63 {
      Pow2Monotonic(63, k - 1);
    }
  }

  lemma SliceSize()
    ensures Pow2(63) == 0x8000_0000_0000_0000
  {
    assert Pow2(0) == 1;
    hide Pow2;
    Shift7(0); Shift7(7); Shift7(14); Shift7(21); Shift7(28); Shift7(35); Shift7(42); Shift7(49); Shift7(56);
  }

  lemma Shift7(k: nat)
    ensures Pow2(k + 7) == 128 * Pow2(k)
  {
    assert Pow2(k + 2) == 4 * Pow2(k);
    assert Pow2(k + 4) == 4 * Pow2(k + 2);
    assert Pow2(k + 6) == 4 * Pow2(k + 4);
  }

  /** Level h has ceil(n / 2^h) nodes. */
  lemma {:induction false} LevelLength<H>(a: Algebra<H>, xs: seq<H>, h: nat)
    ensures |Level(a, xs, h)| == (|xs| + Pow2(h) - 1) / Pow2(h)
    decreases h
  {
    if h > 0 {
      LevelLength(a, NextLevel(a, xs), h - 1);
      CeilHalf(|xs|, Pow2(h - 1));
    }
  }

  lemma CeilHalf(n: nat, p: nat)
    requires p >= 1
    ensures ((n + 1) / 2 + p - 1) / p == (n + 2 * p - 1) / (2 * p)
  {
    var m := (n + 1) / 2 + p - 1;
    var d := m / p;
    assert m == d * p + m % p;
    var t := n + 2 * p - 1;
    assert t == 2 * m || t == 2 * m + 1;
    assert t == d * (2 * p) + (t - 2 * d * p);
    assert 0 <= t - 2 * (d * p) < 2 * p;
    DivisionIs(t, 2 * p, d);
  }

  lemma DivisionIs(t: int, m: nat, d: int)
    requires m >= 1 && 0 <= t - d * m < m
    ensures t / m == d
  {
    var e := t / m;
    assert t == e * m + t % m;
    TimesMonotonic(e + 1, d, m);
    TimesMonotonic(d + 1, e, m);
  }

  lemma TimesMonotonic(x: int, y: int, m: nat)
    ensures x <= y ==> x * m <= y * m
  {
  }

  /** Halving an index: the step from a node to its parent, on either side. */
  lemma NextLevelAt<H>(a: Algebra<H>, xs: seq<H>, i: nat)
    requires i < |xs|
    ensures i / 2 < |NextLevel(a, xs)|
    ensures NextLevel(a, xs)[i / 2] == Up(a, xs[i], i, Sibling(xs, i))
  {
  }

  /** Folding a leaf with its own path gives the root, for every tree and every leaf. */
  lemma {:induction false} FoldPath<H>(a: Algebra<H>, xs: seq<H>, i: nat)
    requires i < |xs|
    ensures Fold(a, xs[i], i, Path(a, xs, i)) == Root(a, xs)
    decreases |xs|
  {
    if |xs| > 1 {
      NextLevelAt(a, xs, i);
      FoldPath(a, NextLevel(a, xs), i / 2);
    }
  }

  /** The root is the only node of the last level. */
  lemma {:induction false} RootIsLastLevel<H>(a: Algebra<H>, xs: seq<H>)
    requires |xs| >= 1
    ensures Level(a, xs, Height(|xs|)) == [Root(a, xs)]
    decreases |xs|
  {
    if |xs| > 1 {
      RootIsLastLevel(a, NextLevel(a, xs));
    }
  }

  /** The low n bits of an index, which may be negative. */
  function LowBits(i: int, n: nat): nat {
    i % Pow2(n)
  }

  lemma LowBitsOfSmall(i: nat, n: nat)
    requires i < Pow2(n)
    ensures LowBits(i, n) == i
  {
    ModuloIs(i, Pow2(n), 0);
  }

  /** A fold reads only the low bits of the index. */
  lemma {:induction false} FoldIndexModulo<H>(a: Algebra<H>, c: H, i: nat, path: seq<H>)
    ensures Fold(a, c, i, path) == Fold(a, c, LowBits(i, |path|), path)
    decreases |path|
  {
    if path != [] {
      var p := Pow2(|path| - 1);
      HalveModulo(i, p);
      var up := Up(a, c, i, path[0]);
      FoldIndexModulo(a, up, i / 2, path[1..]);
    }
  }

  lemma HalveModulo(i: int, p: nat)
    requires p >= 1
    ensures (i % (p + p)) / 2 == (i / 2) % p
    ensures (i % (p + p)) % 2 == i % 2
  {
    var d, r := i / (p + p), i % (p + p);
    var dp := d * p;
    assert i == dp + dp + r by {
      assert d * (p + p) == dp + dp;
    }
    assert i / 2 == dp + r / 2;
    ModuloIs(i / 2, p, d);
  }

  lemma ModuloIs(t: int, m: nat, d: int)
    requires m >= 1 && 0 <= t - d * m < m
    ensures t % m == t - d * m
  {
    DivisionIs(t, m, d);
    assert t == (t / m) * m + t % m;
  }

  // ---------- changing the kind of node ----------

  function Map<A, B>(f: A -> B, xs: seq<A>): (ys: seq<B>)
    ensures |ys| == |xs|
    ensures forall i :: 0 <= i < |xs| ==> ys[i] == f(xs[i])
  {
    seq(|xs|, i requires 0 <= i < |xs| => f(xs[i]))
  }

  lemma MapFirst<A, B>(f: A -> B, xs: seq<A>)
    ensures xs == [] ==> Map(f, xs) == []
    ensures xs != [] ==> Map(f, xs) == [f(xs[0])] + Map(f, xs[1..])
  {
  }

  lemma MapAppend<A, B>(f: A -> B, xs: seq<A>, ys: seq<A>)
    ensures Map(f, xs + ys) == Map(f, xs) + Map(f, ys)
  {
  }

  ghost predicate Homomorphism<A(!new), B>(f: A -> B, a: Algebra<A>, b: Algebra<B>) {
    forall l, r :: f(a.parent(l, r)) == b.parent(f(l), f(r))
  }

  lemma {:induction false} MapRoot<A(!new), B>(f: A -> B, a: Algebra<A>, b: Algebra<B>, xs: seq<A>)
    requires Homomorphism(f, a, b) && |xs| >= 1
    ensures Root(b, Map(f, xs)) == f(Root(a, xs))
    decreases |xs|
  {
    if |xs| > 1 {
      MapNextLevel(f, a, b, xs);
      MapRoot(f, a, b, NextLevel(a, xs));
    }
  }

  lemma MapNextLevel<A(!new), B>(f: A -> B, a: Algebra<A>, b: Algebra<B>, xs: seq<A>)
    requires Homomorphism(f, a, b)
    ensures NextLevel(b, Map(f, xs)) == Map(f, NextLevel(a, xs))
  {
    forall q | 0 <= q < |NextLevel(a, xs)|
      ensures NextLevel(b, Map(f, xs))[q] == f(NextLevel(a, xs)[q])
    {
      assert f(a.parent(xs[2 * q], RightOf(xs, 2 * q))) == b.parent(f(xs[2 * q]), f(RightOf(xs, 2 * q)));
    }
  }

  lemma {:induction false} MapFold<A(!new), B>(f: A -> B, a: Algebra<A>, b: Algebra<B>, c: A, i: nat, path: seq<A>)
    requires Homomorphism(f, a, b)
    ensures Fold(b, f(c), i, Map(f, path)) == f(Fold(a, c, i, path))
    decreases |path|
  {
    if path != [] {
      MapFold(f, a, b, Up(a, c, i, path[0]), i / 2, path[1..]);
      assert Map(f, path)[1..] == Map(f, path[1..]);
    }
  }
}

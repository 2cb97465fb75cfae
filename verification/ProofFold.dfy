/** The fold of spv/verifymerkleproof.go over any kind of node: what an accepted proof means. */
module ProofFolds {
  import opened Outcomes
  import opened MerkleTree

  /** `Rejected` is a "*" on the left; otherwise the fold yields a root and the last-in-tree flag. */
  datatype Verdict<+H> = Rejected | Computed(root: H, lastInTree: bool)

  /** A "*" (None) stands for a copy of the working node. */
  function Resolve<H>(c: H, node: Option<H>): H {
    if node.Some? then node.value else c
  }

  function VerifyFold<H(==)>(a: Algebra<H>, c: H, i: nat, nodes: seq<Option<H>>): Verdict<H>
    decreases |nodes|
  {
    if nodes == [] then Computed(c, true)
    else if nodes[0].None? && i % 2 == 1 then Rejected
    else
      var p := Resolve(c, nodes[0]);
      var above := VerifyFold(a, Up(a, c, i, p), i / 2, nodes[1..]);
      if above.Rejected? then Rejected
      else Computed(above.root, above.lastInTree && (i % 2 == 1 || c == p))
  }

  /** A fold is rejected exactly when some "*" stands on a level where the working node is a right child, which
      is what the bit of the index for this level says. */
  lemma {:induction false} RejectedMeans<H>(a: Algebra<H>, c: H, i: nat, nodes: seq<Option<H>>)
    ensures VerifyFold(a, c, i, nodes).Rejected?
      <==> exists n :: 0 <= n < |nodes| && nodes[n].None? && BitOf(i, n) == 1
    decreases |nodes|
  {
    if nodes != [] {
      var up := Up(a, c, i, Resolve(c, nodes[0]));
      RejectedMeans(a, up, i / 2, nodes[1..]);
      assert BitOf(i, 0) == i % 2;
      forall n | 0 < n < |nodes| ensures BitOf(i, n) == BitOf(i / 2, n - 1) && nodes[n] == nodes[1..][n - 1] {
      }
    }
  }

  function BitOf(i: nat, n: nat): nat {
    if n == 0 then i % 2 else BitOf(i / 2, n - 1)
  }

  /** What is left of a fold, once `last` says whether the nodes so far allow the flag. */
  ghost predicate Continues<H>(fold: Verdict<H>, rest: Verdict<H>, last: bool) {
    && (fold.Rejected? <==> rest.Rejected?)
    && (fold.Computed? ==> fold == Computed(rest.root, last && rest.lastInTree))
  }

  lemma ContinueFold<H>(a: Algebra<H>, fold: Verdict<H>, c: H, i: nat, nodes: seq<Option<H>>, last: bool)
    requires nodes != [] && Continues(fold, VerifyFold(a, c, i, nodes), last)
    ensures var p := Resolve(c, nodes[0]);
      if nodes[0].None? && i % 2 == 1 then fold.Rejected?
      else Continues(fold, VerifyFold(a, if i % 2 == 0 then a.parent(c, p) else a.parent(p, c), i / 2, nodes[1..]),
                     last && (i % 2 == 1 || c == p))
  {
  }

  // ---------- soundness ----------

  /** The leaf for which index i stands in a tree of n leaves and k levels: i itself when it is a leaf,
      and otherwise the leaf that is copied into that place. */
  function Position(n: nat, k: nat, i: nat): (p: nat)
    requires n >= 1
    ensures p < n
    decreases k
  {
    if k == 0 then 0
    else
      var p := 2 * Position((n + 1) / 2, k - 1, i / 2) + i % 2;
      if p < n then p else n - 1
  }

  lemma {:induction false} PositionOfLeaf(n: nat, k: nat, i: nat)
    requires i < n <= Pow2(k)
    ensures Position(n, k, i) == i
    decreases k
  {
    if k > 0 {
      PositionOfLeaf((n + 1) / 2, k - 1, i / 2);
    }
  }

  /** The pair that the fold hashes at the level of c. */
  function UsedPair<H>(c: H, i: nat, node: Option<H>): (H, H) {
    if i % 2 == 0 then (c, Resolve(c, node)) else (Resolve(c, node), c)
  }

  /** The pair that the tree of k levels above xs hashes at that place. */
  function GenuinePair<H>(xs: seq<H>, k: nat, i: nat): (H, H)
    requires |xs| >= 1 && k >= 1
  {
    var q := Position((|xs| + 1) / 2, k - 1, i / 2);
    (xs[2 * q], RightOf(xs, 2 * q))
  }

  /** Walks up beside the tree, looking for a level where the proof hashes another pair than the tree to
      the same parent. */
  function FindClash<H(==)>(a: Algebra<H>, xs: seq<H>, c: H, i: nat, nodes: seq<Option<H>>)
    : (clash: Option<((H, H), (H, H))>)
    requires |xs| >= 1
    ensures clash.Some? ==>
      var (used, genuine) := clash.value;
      used != genuine && a.parent(used.0, used.1) == a.parent(genuine.0, genuine.1)
    decreases |nodes|
  {
    if nodes == [] then None
    else
      var used, genuine := UsedPair(c, i, nodes[0]), GenuinePair(xs, |nodes|, i);
      if used != genuine && a.parent(used.0, used.1) == a.parent(genuine.0, genuine.1)
      then Some((used, genuine))
      else FindClash(a, NextLevel(a, xs), a.parent(used.0, used.1), i / 2, nodes[1..])
  }

  /** Where the fold hashes the same pair as the tree, the working node is the one that stands there. */
  lemma SamePairSameNode<H>(xs: seq<H>, c: H, k: nat, i: nat, node: Option<H>)
    requires |xs| >= 1 && k >= 1 && UsedPair(c, i, node) == GenuinePair(xs, k, i)
    ensures c == xs[Position(|xs|, k, i)]
  {
  }

  /** Proof soundness for any hash: an accepted proof of the right length shows the leaf that stands at
      its index, unless walking up finds two different pairs with the same parent. */
  lemma {:induction false} AcceptedIsLeaf<H>(a: Algebra<H>, xs: seq<H>, c: H, i: nat, nodes: seq<Option<H>>)
    requires |xs| >= 1 && |nodes| == Height(|xs|)
    requires VerifyFold(a, c, i, nodes).Computed? && VerifyFold(a, c, i, nodes).root == Root(a, xs)
    ensures c == xs[Position(|xs|, |nodes|, i)] || FindClash(a, xs, c, i, nodes).Some?
    decreases |nodes|
  {
    if nodes != [] {
      hide NextLevel, Position, GenuinePair;
      var used, genuine := UsedPair(c, i, nodes[0]), GenuinePair(xs, |nodes|, i);
      var up := NextLevel(a, xs);
      AcceptedIsLeaf(a, up, a.parent(used.0, used.1), i / 2, nodes[1..]);
      GenuineParent(a, xs, |nodes|, i);
      if used == genuine {
        SamePairSameNode(xs, c, |nodes|, i, nodes[0]);
      }
    }
  }

  lemma GenuineParent<H>(a: Algebra<H>, xs: seq<H>, k: nat, i: nat)
    requires |xs| >= 1 && k >= 1
    ensures var genuine := GenuinePair(xs, k, i);
      a.parent(genuine.0, genuine.1) == NextLevel(a, xs)[Position(|NextLevel(a, xs)|, k - 1, i / 2)]
  {
  }

  lemma {:induction false} NoClashIfInjective<H(!new)>(
    a: Algebra<H>, xs: seq<H>, c: H, i: nat, nodes: seq<Option<H>>)
    requires Injective(a) && |xs| >= 1
    ensures FindClash(a, xs, c, i, nodes).None?
    decreases |nodes|
  {
    if nodes != [] {
      var used, genuine := UsedPair(c, i, nodes[0]), GenuinePair(xs, |nodes|, i);
      assert a.parent(used.0, used.1) == a.parent(genuine.0, genuine.1)
        ==> used.0 == genuine.0 && used.1 == genuine.1;
      NoClashIfInjective(a, NextLevel(a, xs), a.parent(used.0, used.1), i / 2, nodes[1..]);
    }
  }

  /** With an injective parent nothing can clash, so an accepted proof shows exactly the leaf at its
      index, and for an index past the last leaf the leaf that is copied there. */
  lemma AcceptedIsLeafIfInjective<H(!new)>(a: Algebra<H>, xs: seq<H>, c: H, i: nat, nodes: seq<Option<H>>)
    requires Injective(a) && |xs| >= 1 && |nodes| == Height(|xs|)
    requires VerifyFold(a, c, i, nodes).Computed? && VerifyFold(a, c, i, nodes).root == Root(a, xs)
    ensures c == xs[Position(|xs|, |nodes|, i)]
    ensures i < |xs| ==> c == xs[i]
  {
    AcceptedIsLeaf(a, xs, c, i, nodes);
    NoClashIfInjective(a, xs, c, i, nodes);
    if i < |xs| {
      PositionOfLeaf(|xs|, |nodes|, i);
    }
  }

  // ---------- genuine proofs and the last-in-tree flag ----------

  /** The nodes are the siblings of leaf i; a missing sibling is "*" or a copy of the node itself. */
  ghost predicate Genuine<H>(a: Algebra<H>, xs: seq<H>, i: nat, nodes: seq<Option<H>>)
    requires i < |xs|
    decreases |xs|
  {
    if |xs| == 1 then nodes == []
    else
      && nodes != []
      && (nodes[0] == Some(Sibling(xs, i)) || (nodes[0] == None && i % 2 == 0 && i + 1 == |xs|))
      && Genuine(a, NextLevel(a, xs), i / 2, nodes[1..])
  }

  /** The path of leaf i is a genuine proof, and so it is with "*" for every copy of the working node. */
  lemma {:induction false} PathIsGenuine<H>(a: Algebra<H>, xs: seq<H>, i: nat)
    requires i < |xs|
    ensures Genuine(a, xs, i, Starless(Path(a, xs, i)))
    ensures Genuine(a, xs, i, Starred(a, xs, i))
    decreases |xs|
  {
    if |xs| > 1 {
      var up := NextLevel(a, xs);
      PathIsGenuine(a, up, i / 2);
      assert Starless(Path(a, xs, i))[1..] == Starless(Path(a, up, i / 2));
      assert Starred(a, xs, i)[1..] == Starred(a, up, i / 2);
    }
  }

  /** The path of leaf i with "*" wherever the node has no sibling. */
  function Starred<H>(a: Algebra<H>, xs: seq<H>, i: nat): seq<Option<H>>
    requires i < |xs|
    decreases |xs|
  {
    if |xs| == 1 then []
    else [if i % 2 == 0 && i + 1 == |xs| then None else Some(Sibling(xs, i))] + Starred(a, NextLevel(a, xs), i / 2)
  }

  /** Two neighbours that are hashed together, at some level, are the same node. */
  ghost predicate HasTwins<H>(a: Algebra<H>, xs: seq<H>)
    decreases |xs|
  {
    || (exists q :: 0 <= q && 2 * q + 1 < |xs| && xs[2 * q] == xs[2 * q + 1])
    || (|xs| > 1 && HasTwins(a, NextLevel(a, xs)))
  }

  /** Genuine proofs are accepted, whatever the hash is. The flag is set for the last leaf; for another
      leaf only if two neighbours somewhere in the tree are equal. */
  lemma {:induction false} GenuineAccepted<H>(a: Algebra<H>, xs: seq<H>, i: nat, nodes: seq<Option<H>>)
    requires i < |xs| && Genuine(a, xs, i, nodes)
    ensures VerifyFold(a, xs[i], i, nodes).Computed? && VerifyFold(a, xs[i], i, nodes).root == Root(a, xs)
    ensures i == |xs| - 1 ==> VerifyFold(a, xs[i], i, nodes).lastInTree
    ensures VerifyFold(a, xs[i], i, nodes).lastInTree ==> i == |xs| - 1 || HasTwins(a, xs)
    decreases |xs|
  {
    if |xs| > 1 {
      NextLevelAt(a, xs, i);
      GenuineAccepted(a, NextLevel(a, xs), i / 2, nodes[1..]);
      assert Resolve(xs[i], nodes[0]) == Sibling(xs, i);
      if i % 2 == 0 && i + 1 < |xs| && xs[i] == xs[i + 1] {
        assert xs[2 * (i / 2)] == xs[2 * (i / 2) + 1];
      }
    }
  }

  ghost predicate Distinct<H>(xs: seq<H>) {
    forall p, q :: 0 <= p < q < |xs| ==> xs[p] != xs[q]
  }

  lemma {:induction false} NoTwinsIfInjective<H(!new)>(a: Algebra<H>, xs: seq<H>)
    requires Injective(a) && Distinct(xs)
    ensures !HasTwins(a, xs)
    decreases |xs|
  {
    if |xs| > 1 {
      var up := NextLevel(a, xs);
      forall p, q | 0 <= p < q < |up| ensures up[p] != up[q] {
        assert xs[2 * p] != xs[2 * q];
      }
      NoTwinsIfInjective(a, up);
    }
  }

  /** Two different pairs that are hashed on the same level of this very tree have the same parent. */
  ghost predicate HasClash<H>(a: Algebra<H>, xs: seq<H>)
    decreases |xs|
  {
    && |xs| > 1
    && ((exists p, q :: 0 <= p < q < |NextLevel(a, xs)| && IsTreeClash(a, xs, p, q)) || HasClash(a, NextLevel(a, xs)))
  }

  ghost predicate IsTreeClash<H>(a: Algebra<H>, xs: seq<H>, p: nat, q: nat)
    requires p < |NextLevel(a, xs)| && q < |NextLevel(a, xs)|
  {
    && (xs[2 * p], RightOf(xs, 2 * p)) != (xs[2 * q], RightOf(xs, 2 * q))
    && NextLevel(a, xs)[p] == NextLevel(a, xs)[q]
  }

  /** For any hash: above distinct leaves, equal neighbours mean that two different pairs of the tree clash. */
  lemma {:induction false} TwinsMeanClash<H>(a: Algebra<H>, xs: seq<H>)
    requires Distinct(xs) && HasTwins(a, xs)
    ensures HasClash(a, xs)
    decreases |xs|
  {
    var up := NextLevel(a, xs);
    if Distinct(up) {
      TwinsMeanClash(a, up);
    } else {
      var p, q :| 0 <= p < q < |up| && up[p] == up[q];
      assert xs[2 * p] != xs[2 * q];
      assert IsTreeClash(a, xs, p, q);
    }
  }

  /** The last-in-tree verdict: with an injective parent and distinct leaves, the genuine proof of leaf i
      is accepted, and flagged exactly when i is the last leaf. */
  lemma LastInTree<H(!new)>(a: Algebra<H>, xs: seq<H>, i: nat, nodes: seq<Option<H>>)
    requires Injective(a) && Distinct(xs)
    requires i < |xs| && Genuine(a, xs, i, nodes)
    ensures VerifyFold(a, xs[i], i, nodes) == Computed(Root(a, xs), i == |xs| - 1)
  {
    GenuineAccepted(a, xs, i, nodes);
    NoTwinsIfInjective(a, xs);
  }

  // ---------- proofs without "*" ----------

  function Starless<H>(path: seq<H>): seq<Option<H>> {
    Map((p: H) => Some(p), path)
  }

  /** Without "*" the verifier's fold is the plain fold. */
  lemma {:induction false} StarlessFold<H>(a: Algebra<H>, c: H, i: nat, path: seq<H>)
    ensures VerifyFold(a, c, i, Starless(path)).Computed?
    ensures VerifyFold(a, c, i, Starless(path)).root == Fold(a, c, i, path)
    decreases |path|
  {
    if path != [] {
      assert Starless(path)[1..] == Starless(path[1..]);
      StarlessFold(a, Up(a, c, i, path[0]), i / 2, path[1..]);
    }
  }

  // ---------- changing the kind of node ----------

  function MapNode<A, B>(f: A -> B, node: Option<A>): Option<B> {
    if node.Some? then Some(f(node.value)) else None
  }

  function MapNodes<A, B>(f: A -> B, nodes: seq<Option<A>>): seq<Option<B>> {
    Map((node: Option<A>) => MapNode(f, node), nodes)
  }

  lemma {:induction false} MapVerifyFold<A(!new), B>(
    f: A -> B, a: Algebra<A>, b: Algebra<B>, c: A, i: nat, nodes: seq<Option<A>>)
    requires Homomorphism(f, a, b)
    ensures var v, w := VerifyFold(a, c, i, nodes), VerifyFold(b, f(c), i, MapNodes(f, nodes));
      && (v.Rejected? <==> w.Rejected?)
      && (v.Computed? ==> w.root == f(v.root))
    decreases |nodes|
  {
    if nodes != [] && !(nodes[0].None? && i % 2 == 1) {
      var up := Up(a, c, i, Resolve(c, nodes[0]));
      assert MapNodes(f, nodes)[1..] == MapNodes(f, nodes[1..]);
      assert f(up) == Up(b, f(c), i, Resolve(f(c), MapNodes(f, nodes)[0]));
      MapVerifyFold(f, a, b, up, i / 2, nodes[1..]);
    }
  }

  // ---------- an injective parent exists ----------

  /** Free terms: a hash that remembers what it was made of. */
  datatype Term = Leaf(name: string) | Node(left: Term, right: Term)

  lemma FreeTermsAreInjective()
    ensures Injective(Algebra(Leaf(""), (l: Term, r: Term) => Node(l, r)))
    ensures Proper(Algebra(Leaf(""), (l: Term, r: Term) => Node(l, r)))
  {
  }
}

/** verifyProof of spv/verifymerkleproof.go: the fold over text nodes with "*" for a copy. */
module VerifyProofs {
  import opened Outcomes
  import opened ByteStrings
  import opened MerkleTree
  import opened MerkleTreeParents
  import opened MerklePaths
  import opened MerkleBranches
  import opened ProofFolds

  datatype ProofVerdict = ProofVerdict(valid: bool, isLastInTree: bool)

  /** The nodes of a proof as text, "*" standing for a copy of the working node. */
  function NodeOf(p: string): Option<string> {
    if p == "*" then None else Some(p)
  }

  function NodesOf(nodes: seq<string>): seq<Option<string>> {
    Map(NodeOf, nodes)
  }

  ghost predicate HexOrStarUpTo(nodes: seq<string>, count: nat)
    requires count <= |nodes|
  {
    forall n :: 0 <= n < count ==> nodes[n] == "*" || IsHex(nodes[n])
  }

  ghost predicate HexOrStar(nodes: seq<string>) {
    HexOrStarUpTo(nodes, |nodes|)
  }

  /** Everything that is hashed can be decoded: without nodes nothing is hashed at all. */
  ghost predicate Hashable(c: string, nodes: seq<string>) {
    nodes == [] || (IsHex(c) && HexOrStar(nodes))
  }

  /** The verdict on a proof, None being an error. */
  ghost function VerdictOf(sha: Sha256d, txid: string, merkleRoot: string, txIndex: nat, nodes: seq<string>)
    : Option<ProofVerdict>
  {
    var fold := VerifyFold(TextNodes(sha), txid, txIndex, NodesOf(nodes));
    if Hashable(txid, nodes) && fold.Computed?
    then Some(ProofVerdict(fold.root == merkleRoot, fold.lastInTree))
    else None
  }

  method VerifyProof(sha: Sha256d, txid: string, merkleRoot: string, txIndex: uint64, nodes: seq<string>)
    returns (r: Result<ProofVerdict>)
    ensures (if r.Ok? then Some(r.value) else None) == VerdictOf(sha, txid, merkleRoot, txIndex, nodes)
    ensures r.Err? ==> r.error == BadHex || r.error == InvalidNodes
  {
    hide IsHex, Continues, TextNodes, Map, HexOrStarUpTo, VerifyFold, MerkleTreeParentStr;
    var c := txid;
    var index := txIndex;
    var isLastInTree := true;
    ghost var a, all := TextNodes(sha), NodesOf(nodes);
    ghost var fold := VerifyFold(a, txid, txIndex, all);
    StartFold(fold);
    NoneYet(nodes);
    var n := 0;
    while n < |nodes|
      invariant 0 <= n <= |nodes|
      invariant if n == 0 then c == txid else IsHex(txid) && IsHex(c)
      invariant HexOrStarUpTo(nodes, n)
      invariant Continues(fold, VerifyFold(a, c, index, all[n..]), isLastInTree)
    {
      var p := nodes[n];
      var cIsLeft := index % 2 == 0;
      assert all[n..][0] == NodeOf(p) && all[n..][1..] == all[n + 1..];
      ContinueFold(a, fold, c, index, all[n..], isLastInTree);
      if p == "*" {
        if !cIsLeft {
          return Err(InvalidNodes);
        }
        p := c;
      }
      if cIsLeft && c != p {
        isLastInTree := false;
      }
      var parent := if cIsLeft then MerkleTreeParentStr(sha, c, p) else MerkleTreeParentStr(sha, p, c);
      ParentIsHex(sha, c, p);
      ParentIsHex(sha, p, c);
      OneMore(nodes, n);
      if parent.Err? {
        return Err(parent.error);
      }
      c := parent.value;
      index := index / 2;
      n := n + 1;
    }
    assert all[n..] == [];
    EndFold(a, fold, c, index, isLastInTree);
    return Ok(ProofVerdict(c == merkleRoot, isLastInTree));
  }

  lemma NoneYet(nodes: seq<string>)
    ensures HexOrStarUpTo(nodes, 0)
  {
  }

  lemma OneMore(nodes: seq<string>, n: nat)
    requires n < |nodes| && HexOrStarUpTo(nodes, n)
    ensures HexOrStarUpTo(nodes, n + 1) <==> nodes[n] == "*" || IsHex(nodes[n])
    ensures HexOrStar(nodes) ==> HexOrStarUpTo(nodes, n + 1)
  {
    hide IsHex;
  }

  lemma StartFold(fold: Verdict<string>)
    ensures Continues(fold, fold, true)
  {
  }

  lemma EndFold(a: Algebra<string>, fold: Verdict<string>, c: string, i: nat, last: bool)
    requires Continues(fold, VerifyFold(a, c, i, []), last)
    ensures fold == Computed(c, last)
  {
  }

  lemma ParentIsHex(sha: Sha256d, l: string, r: string)
    ensures IsHex(TextNodes(sha).parent(l, r))
    ensures MerkleTreeParentStr(sha, l, r) ==
      if IsHex(l) && IsHex(r) then Ok(TextNodes(sha).parent(l, r)) else Err(BadHex)
  {
    TextNodesProper(sha);
    ParentStrIsTextParent(sha, l, r);
    LowerIsHex(TextNodes(sha).parent(l, r));
  }

  /** When there is no verdict: there are nodes, and the leaf or a node is not hexadecimal or a "*" stands where
      the working node is a right child. A proof without nodes is never an error, whatever its texts are. */
  lemma VerdictErrs(sha: Sha256d, txid: string, merkleRoot: string, i: nat, nodes: seq<string>)
    ensures VerdictOf(sha, txid, merkleRoot, i, nodes).None? <==>
      && nodes != []
      && (!IsHex(txid)
          || (exists n :: 0 <= n < |nodes| && nodes[n] != "*" && !IsHex(nodes[n]))
          || (exists n :: 0 <= n < |nodes| && nodes[n] == "*" && BitOf(i, n) == 1))
    ensures VerdictOf(sha, txid, merkleRoot, i, []) == Some(ProofVerdict(txid == merkleRoot, true))
  {
    hide IsHex, BitOf, TextNodes;
    RejectedMeans(TextNodes(sha), txid, i, NodesOf(nodes));
    assert NodesOf([]) == [];
    forall n | 0 <= n < |nodes| ensures NodesOf(nodes)[n].None? <==> nodes[n] == "*" {
    }
  }

  // ---------- what a verdict means ----------

  /** A hash in display form. */
  predicate IsHash(s: string) {
    |s| == 64 && IsLowerHex(s)
  }

  ghost predicate AllHashes(txids: seq<string>) {
    forall i :: 0 <= i < |txids| ==> IsHash(txids[i])
  }

  /** Nodes of 32 bytes, in either case of letters, or "*". */
  ghost predicate HashesOrStars(nodes: seq<string>) {
    forall n :: 0 <= n < |nodes| ==> nodes[n] == "*" || (|nodes[n]| == 64 && IsHex(nodes[n]))
  }

  /** Proof soundness: an accepted proof of as many nodes as the tree has levels shows the txid at its
      index, and past the last index the txid that is copied there. Otherwise walking up beside the tree
      finds two different 64-byte strings with the same double SHA-256. */
  lemma ProofSoundness(sha: Sha256d, txids: seq<string>, txid: string, i: nat, nodes: seq<string>)
    requires |txids| >= 1 && AllHashes(txids) && IsHash(txid) && HashesOrStars(nodes)
    requires |nodes| == Height(|txids|)
    requires VerdictOf(sha, txid, Root(TextNodes(sha), txids), i, nodes).Some?
    requires VerdictOf(sha, txid, Root(TextNodes(sha), txids), i, nodes).value.valid
    ensures var clash := FindClash(ByteNodes(sha), Map(Read, txids), Read(txid), i, MapNodes(Read, NodesOf(nodes)));
      || txid == txids[Position(|txids|, |nodes|, i)]
      || (clash.Some? && IsCollision(sha, clash.value))
    ensures i < |txids| ==> Position(|txids|, |nodes|, i) == i
  {
    hide Read, Fold, Root, IsHex, IsLowerHex, VerifyFold, Map, FindClash, Position;
    var a, b, k := TextNodes(sha), ByteNodes(sha), |nodes|;
    ReadIsHomomorphism(sha);
    MapVerifyFold(Read, a, b, txid, i, NodesOf(nodes));
    MapRoot(Read, a, b, txids);
    AcceptedIsLeaf(b, Map(Read, txids), Read(txid), i, MapNodes(Read, NodesOf(nodes)));
    if i < |txids| {
      PositionOfLeaf(|txids|, k, i);
    }
    if Read(txid) == Read(txids[Position(|txids|, k, i)]) {
      ReadInjective(txid, txids[Position(|txids|, k, i)]);
    } else {
      HashesAre32Bytes(txids, txid, nodes);
      ClashIsCollision(sha, Map(Read, txids), Read(txid), i, MapNodes(Read, NodesOf(nodes)));
    }
  }

  /** Two different 64-byte strings, given by their halves, with the same hash. */
  ghost predicate IsCollision(sha: Sha256d, clash: ((seq<byte>, seq<byte>), (seq<byte>, seq<byte>))) {
    var ((l, r), (l', r')) := clash;
    |l + r| == |l' + r'| == 64 && l + r != l' + r' && sha(l + r) == sha(l' + r')
  }

  ghost predicate All32(xs: seq<seq<byte>>) {
    forall i :: 0 <= i < |xs| ==> |xs[i]| == 32
  }

  ghost predicate All32OrStar(nodes: seq<Option<seq<byte>>>) {
    forall n :: 0 <= n < |nodes| ==> nodes[n].None? || |nodes[n].value| == 32
  }

  lemma HashesAre32Bytes(txids: seq<string>, txid: string, nodes: seq<string>)
    requires AllHashes(txids) && IsHash(txid) && HashesOrStars(nodes)
    ensures All32(Map(Read, txids)) && |Read(txid)| == 32 && All32OrStar(MapNodes(Read, NodesOf(nodes)))
  {
    hide IsLowerHex, IsHex, Read;
    LowerIsHex(txid);
    forall i | 0 <= i < |txids| ensures |Read(txids[i])| == 32 {
      LowerIsHex(txids[i]);
    }
  }

  lemma {:induction false} ClashIsCollision(
    sha: Sha256d, xs: seq<seq<byte>>, c: seq<byte>, i: nat, nodes: seq<Option<seq<byte>>>)
    requires |xs| >= 1 && All32(xs) && |c| == 32 && All32OrStar(nodes)
    requires FindClash(ByteNodes(sha), xs, c, i, nodes).Some?
    ensures IsCollision(sha, FindClash(ByteNodes(sha), xs, c, i, nodes).value)
    decreases |nodes|
  {
    hide Position, NextLevel;
    var a := ByteNodes(sha);
    var used, genuine := UsedPair(c, i, nodes[0]), GenuinePair(xs, |nodes|, i);
    assert |used.0| == |used.1| == |genuine.0| == |genuine.1| == 32;
    if used != genuine && a.parent(used.0, used.1) == a.parent(genuine.0, genuine.1) {
      HalvesDiffer(used.0, used.1, genuine.0, genuine.1);
    } else {
      ClashIsCollision(sha, NextLevel(a, xs), a.parent(used.0, used.1), i / 2, nodes[1..]);
    }
  }

  lemma HalvesDiffer(l: seq<byte>, r: seq<byte>, l': seq<byte>, r': seq<byte>)
    requires |l| == |r| == |l'| == |r'| == 32
    ensures l + r == l' + r' ==> l == l' && r == r'
  {
    if l + r == l' + r' {
      assert l == (l + r)[..32] && l' == (l' + r')[..32];
      assert r == (l + r)[32..] && r' == (l' + r')[32..];
    }
  }

  /** The last-in-tree verdict on text: the genuine proof of every txid of every block is accepted, and is
      flagged for the last txid; for another one only if two neighbours in the tree are equal, and so, when
      the txids are distinct, only if two different pairs hashed in this tree have the same parent. */
  lemma GenuineTextProof(sha: Sha256d, txids: seq<string>, i: nat, nodes: seq<string>)
    requires i < |txids| && AllHashes(txids) && Genuine(TextNodes(sha), txids, i, NodesOf(nodes))
    ensures var v := VerdictOf(sha, txids[i], Root(TextNodes(sha), txids), i, nodes);
      && v.Some? && v.value.valid
      && (i == |txids| - 1 ==> v.value.isLastInTree)
      && (v.value.isLastInTree ==> i == |txids| - 1 || HasTwins(TextNodes(sha), txids))
      && (v.value.isLastInTree && Distinct(txids) ==> i == |txids| - 1 || HasClash(TextNodes(sha), txids))
  {
    hide IsLowerHex, IsHex, Root, HasTwins, HasClash, Height;
    if Distinct(txids) && HasTwins(TextNodes(sha), txids) {
      TwinsMeanClash(TextNodes(sha), txids);
    }
    GenuineAccepted(TextNodes(sha), txids, i, NodesOf(nodes));
    LowerIsHex(txids[i]);
    GenuineAreHashes(sha, txids, i, nodes);
    DisplayedIsHex(nodes);
  }

  /** The siblings in a tree of hashes are hashes. */
  ghost predicate DisplayedOrStar(nodes: seq<string>) {
    forall n :: 0 <= n < |nodes| ==> nodes[n] == "*" || IsHash(nodes[n])
  }

  lemma NextAreHashes(sha: Sha256d, txids: seq<string>)
    ensures AllHashes(NextLevel(TextNodes(sha), txids))
  {
    hide IsLowerHex;
    TextNodesProper(sha);
  }

  lemma {:induction false} GenuineAreHashes(sha: Sha256d, txids: seq<string>, i: nat, nodes: seq<string>)
    requires i < |txids| && AllHashes(txids) && Genuine(TextNodes(sha), txids, i, NodesOf(nodes))
    ensures |nodes| == Height(|txids|) && DisplayedOrStar(nodes)
    decreases |nodes|
  {
    hide IsHash;
    if nodes != [] {
      NextAreHashes(sha, txids);
      assert NodesOf(nodes)[1..] == NodesOf(nodes[1..]);
      GenuineAreHashes(sha, NextLevel(TextNodes(sha), txids), i / 2, nodes[1..]);
      assert nodes[0] == "*" || nodes[0] == Sibling(txids, i);
      forall n | 0 <= n < |nodes| ensures nodes[n] == "*" || IsHash(nodes[n]) {
        assert n > 0 ==> nodes[n] == nodes[1..][n - 1];
      }
    }
  }

  lemma DisplayedIsHex(nodes: seq<string>)
    requires DisplayedOrStar(nodes)
    ensures HexOrStar(nodes) && HashesOrStars(nodes)
  {
    hide IsLowerHex, IsHex;
    forall n | 0 <= n < |nodes| && nodes[n] != "*" ensures |nodes[n]| == 64 && IsHex(nodes[n]) {
      LowerIsHex(nodes[n]);
    }
  }

  lemma {:induction false} RootIsHash(sha: Sha256d, txids: seq<string>)
    requires |txids| >= 1 && AllHashes(txids)
    ensures IsHash(Root(TextNodes(sha), txids))
    decreases |txids|
  {
    hide IsHash;
    if |txids| > 1 {
      NextAreHashes(sha, txids);
      RootIsHash(sha, NextLevel(TextNodes(sha), txids));
    }
  }

  // ---------- the folds agree ----------

  /** On hexadecimal leaves and paths, and so without "*", CalculateRoot, verifyProof and
      MerkleRootFromBranches fold alike, and only the low bits of the index matter. The texts of the
      roots agree unless a lone leaf is not in lower case. */
  lemma FoldsAgree(sha: Sha256d, leaf: string, i: nat, path: seq<string>)
    requires IsHex(leaf) && AllHex(path)
    ensures var root := CalculatedRoot(sha, MerklePath(i, path), leaf);
      && root == CalculatedRoot(sha, MerklePath(LowBits(i, |path|), path), leaf)
      && (i < Pow2(|path|) ==> LowBits(i, |path|) == i)
      && VerdictOf(sha, leaf, root, i, path).Some?
      && (VerdictOf(sha, leaf, root, i, path).value.valid <==> path != [] || IsLowerHex(leaf))
  {
    hide IsLowerHex, IsHex, Read, Show, Fold, VerifyFold, LowBits, Map, Pow2, CalculatedRoot;
    OnlyLowBitsMatter(sha, leaf, i, path);
    CalculatedRootIsTextFold(sha, MerklePath(i, path), leaf);
    NoStars(path);
    StarlessFold(TextNodes(sha), leaf, i, path);
    assert HexOrStar(path);
  }

  lemma OnlyLowBitsMatter(sha: Sha256d, leaf: string, i: nat, path: seq<string>)
    ensures CalculatedRoot(sha, MerklePath(i, path), leaf)
      == CalculatedRoot(sha, MerklePath(LowBits(i, |path|), path), leaf)
    ensures i < Pow2(|path|) ==> LowBits(i, |path|) == i
  {
    hide Fold, Map, Read, Show, Pow2, LowBits;
    FoldIndexModulo(ByteNodes(sha), Read(leaf), i, Map(Read, path));
    if i < Pow2(|path|) {
      LowBitsOfSmall(i, |path|);
    }
  }

  lemma NoStars(path: seq<string>)
    requires AllHex(path)
    ensures NodesOf(path) == Starless(path)
  {
    forall n | 0 <= n < |path| ensures path[n] != "*" {
      assert IsHex(path[n]);
    }
  }
}

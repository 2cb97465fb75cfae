/** merklebranches.go, and BuildMerkleRootFromCoinbase of merkleroot.go: the branches of the first leaf,
    the root computed back from them, and the root computed from any leaf and its branches. */
module MerkleBranches {
  import opened Outcomes
  import opened ByteStrings
  import opened MerkleTree
  import opened MerkleTreeParents
  import opened MerklePaths

  /** Hashes as text in hashing order, as a mining template has them after `getHashes`. */
  function HexNodes(sha: Sha256d): Algebra<string> {
    Algebra("", (l: string, r: string) => Hex(HashBoth(sha, Unhex(l), Unhex(r))))
  }

  lemma HexParent(sha: Sha256d, l: string, r: string)
    ensures HexNodes(sha).parent(l, r) == Hex(sha(Unhex(l) + Unhex(r)))
  {
  }

  /** The recursive closure of GetMerkleBranches and the list that it captures. */
  class BranchWalker {
    var branches: seq<string>

    constructor ()
      ensures branches == []
    {
      branches := [];
    }

    /** Collects the siblings of the first node of every level. */
    method WalkBranch(sha: Sha256d, hashes: seq<string>) returns (results: seq<string>)
      modifies this
      ensures results == []
      ensures branches == old(branches) + if hashes == [] then [] else Path(HexNodes(sha), hashes, 0)
      decreases |hashes|
    {
      hide NextLevel, HexNodes, Unhex, Hex, Height;
      var tot := |hashes|;
      results := [];
      if tot < 2 {
        assert branches == branches + [];
        return [];
      }
      branches := branches + [hashes[1]];
      ghost var up := NextLevel(HexNodes(sha), hashes);
      var i := 0;
      while i < tot
        invariant i == 2 * |results| && i <= tot + 1
        invariant results == up[..|results|]
        invariant branches == old(branches) + [hashes[1]]
      {
        var a := Unhex(hashes[i]);
        var b := a;
        if i + 1 < tot {
          b := Unhex(hashes[i + 1]);
        }
        var hash := sha(a + b);
        HexParent(sha, hashes[i], RightOf(hashes, i));
        assert Hex(hash) == up[|results|];
        results := results + [Hex(hash)];
        i := i + 2;
      }
      assert results == up;
      results := WalkBranch(sha, results);
      assert |up| >= 1 && Path(HexNodes(sha), hashes, 0) == [hashes[1]] + Path(HexNodes(sha), up, 0);
      assert branches == old(branches) + ([hashes[1]] + Path(HexNodes(sha), up, 0));
    }
  }

  /** GetMerkleBranches from its already reversed hashes on. */
  method GetMerkleBranches(sha: Sha256d, hashes: seq<string>) returns (branches: seq<string>)
    ensures branches == if hashes == [] then [] else Path(HexNodes(sha), hashes, 0)
  {
    var walker := new BranchWalker();
    var _ := walker.WalkBranch(sha, hashes);
    branches := walker.branches;
  }

  method BuildMerkleRootFromCoinbase(sha: Sha256d, coinbaseHash: seq<byte>, merkleBranches: seq<string>)
    returns (acc: seq<byte>)
    ensures acc == Fold(ByteNodes(sha), coinbaseHash, 0, Map(Unhex, merkleBranches))
  {
    acc := coinbaseHash;
    ghost var path := Map(Unhex, merkleBranches);
    for i := 0 to |merkleBranches|
      invariant Fold(ByteNodes(sha), coinbaseHash, 0, path) == Fold(ByteNodes(sha), acc, 0, path[i..])
    {
      var branch := Unhex(merkleBranches[i]);
      assert path[i..][0] == branch && path[i..][1..] == path[i + 1..];
      assert sha(acc + branch) == Up(ByteNodes(sha), acc, 0, branch);
      acc := sha(acc + branch);
    }
  }

  lemma UnhexIsHomomorphism(sha: Sha256d)
    ensures Homomorphism(Unhex, HexNodes(sha), ByteNodes(sha))
  {
    forall l: string, r: string
      ensures Unhex(HexNodes(sha).parent(l, r)) == ByteNodes(sha).parent(Unhex(l), Unhex(r))
    {
      UnhexHex(HashBoth(sha, Unhex(l), Unhex(r)));
    }
  }

  /** The branches of the first leaf do not depend on that leaf. */
  lemma {:induction false} FirstPathIgnoresLeaf<H>(a: Algebra<H>, xs: seq<H>, x: H)
    requires |xs| >= 1
    ensures Path(a, xs[0 := x], 0) == Path(a, xs, 0)
    decreases |xs|
  {
    if |xs| > 1 {
      var up := NextLevel(a, xs);
      assert NextLevel(a, xs[0 := x]) == up[0 := a.parent(x, xs[1])];
      FirstPathIgnoresLeaf(a, up, a.parent(x, xs[1]));
    }
  }

  /** Coinbase branches: for every non-empty list of hashes and every replacement of the first one, the
      branches collected once from the list give the Merkle root of the list with the replacement. */
  lemma CoinbaseBranches(sha: Sha256d, hashes: seq<string>, coinbase: string)
    requires |hashes| >= 1
    ensures var branches := Path(HexNodes(sha), hashes, 0);
      && branches == Path(HexNodes(sha), hashes[0 := coinbase], 0)
      && Fold(ByteNodes(sha), Unhex(coinbase), 0, Map(Unhex, branches))
         == Root(ByteNodes(sha), Map(Unhex, hashes[0 := coinbase]))
  {
    hide Fold, Root, Path, Unhex;
    var a, replaced := HexNodes(sha), hashes[0 := coinbase];
    FirstPathIgnoresLeaf(a, hashes, coinbase);
    FoldPath(a, replaced, 0);
    UnhexIsHomomorphism(sha);
    MapFold(Unhex, a, ByteNodes(sha), coinbase, 0, Path(a, hashes, 0));
    MapRoot(Unhex, a, ByteNodes(sha), replaced);
  }

  ghost predicate AllHex(txts: seq<string>) {
    forall i :: 0 <= i < |txts| ==> IsHex(txts[i])
  }

  /** The root from a leaf at any position. A negative index is read in two's complement, so it passes
      the final range test; the fold only ever sees its low bits. */
  method MerkleRootFromBranches(sha: Sha256d, txHash: string, txIndex: int, branches: seq<string>)
    returns (r: Result<string>)
    ensures r == Err(BadHex) <==> !IsHex(txHash) || !AllHex(branches)
    ensures r == Err(IndexOutOfRange)
      <==> IsHex(txHash) && AllHex(branches) && txIndex >= Pow2(|branches|)
    ensures r.Ok? <==> IsHex(txHash) && AllHex(branches) && txIndex < Pow2(|branches|)
    ensures r.Ok? ==>
      r.value == CalculatedRoot(sha, MerklePath(LowBits(txIndex, |branches|), branches), txHash)
  {
    hide LowBits, Pow2, IsHex, Read, Show;
    if !IsHex(txHash) {
      return Err(BadHex);
    }
    var hash := Read(txHash);
    var index := txIndex;
    ghost var path := Map(Read, branches);
    ghost var root := Fold(ByteNodes(sha), hash, LowBits(txIndex, |branches|), path);
    var n := 0;
    while n < |branches|
      invariant 0 <= n <= |branches|
      invariant AllHex(branches[..n])
      invariant root == Fold(ByteNodes(sha), hash, LowBits(index, |branches| - n), path[n..])
      invariant txIndex >= Pow2(|branches|) <==> index >= Pow2(|branches| - n)
    {
      if !IsHex(branches[n]) {
        return Err(BadHex);
      }
      var h := Read(branches[n]);
      FoldStep(sha, hash, index, path[n..]);
      assert path[n..][1..] == path[n + 1..];
      assert branches[..n + 1] == branches[..n] + [branches[n]];
      if index % 2 > 0 {
        hash := sha(h + hash);
      } else {
        hash := sha(hash + h);
      }
      index := index / 2;
      n := n + 1;
    }
    assert branches[..n] == branches;
    assert Pow2(|branches| - n) == 1 by {
      Pow2Zero();
    }
    if index > 0 {
      return Err(IndexOutOfRange);
    }
    return Ok(Show(hash));
  }

  lemma FoldStep(sha: Sha256d, hash: seq<byte>, index: int, path: seq<seq<byte>>)
    requires |path| >= 1
    ensures Fold(ByteNodes(sha), hash, LowBits(index, |path|), path)
      == Fold(ByteNodes(sha), if index % 2 > 0 then sha(path[0] + hash) else sha(hash + path[0]),
              LowBits(index / 2, |path| - 1), path[1..])
    ensures index >= Pow2(|path|) <==> index / 2 >= Pow2(|path| - 1)
  {
    hide LowBits, Pow2;
    HalveLowBits(index, |path|);
    assert sha(path[0] + hash) == ByteNodes(sha).parent(path[0], hash);
    assert sha(hash + path[0]) == ByteNodes(sha).parent(hash, path[0]);
  }

  /** Halving an index drops the lowest of its low bits. */
  lemma HalveLowBits(index: int, n: nat)
    requires n >= 1
    ensures LowBits(index, n) / 2 == LowBits(index / 2, n - 1) && LowBits(index, n) % 2 == index % 2
    ensures index >= Pow2(n) <==> index / 2 >= Pow2(n - 1)
  {
    HalveModulo(index, Pow2(n - 1));
  }

  lemma Pow2Zero()
    ensures Pow2(0) == 1
  {
  }
}

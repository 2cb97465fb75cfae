/** merklepath.go: the path of a transaction, read out of the tree array, and its root. */
module MerklePaths {
  import opened Outcomes
  import opened ByteStrings
  import opened MerkleTree
  import opened MerkleTreeParents
  import opened MerkleRoot

  datatype MerklePath = MerklePath(index: nat, path: seq<string>)

  /** The neighbour of each node on the way up, or the node itself when the neighbour is empty. The
      rest of the array after its first half is the tree of the next level. */
  function GetPathElements(txIndex: int, hashes: seq<string>): Result<seq<string>>
    decreases |hashes|
  {
    var neighbour := if txIndex % 2 == 0 then txIndex + 1 else txIndex - 1;
    if !(0 <= neighbour < |hashes|) then Err(Panic)
    else if hashes[neighbour] == "" && !(0 <= txIndex < |hashes|) then Err(Panic)
    else
      var hash := if hashes[neighbour] == "" then hashes[txIndex] else hashes[neighbour];
      if |hashes| == 3 then Ok([hash])
      else
        var path :- GetPathElements(txIndex / 2, hashes[(|hashes| + 1) / 2..]);
        Ok([hash] + path)
  }

  function GetTxMerklePath(txIndex: nat, merkleTree: seq<string>): Result<MerklePath> {
    if |merkleTree| == 1 then Ok(MerklePath(txIndex, []))
    else
      var path :- GetPathElements(txIndex, merkleTree);
      Ok(MerklePath(txIndex, path))
  }

  /** Outside a tree array the recursion runs past the end. */
  lemma NoNeighbour(txIndex: nat, hashes: seq<string>)
    ensures |hashes| != 1 && (if txIndex % 2 == 0 then txIndex + 1 else txIndex - 1) >= |hashes| ==>
      GetTxMerklePath(txIndex, hashes) == Err(Panic)
  {
  }

  /** What CalculateRoot computes: a fold over bytes, shown as text. */
  function CalculatedRoot(sha: Sha256d, mp: MerklePath, txid: string): string {
    Show(Fold(ByteNodes(sha), Read(txid), mp.index, Map(Read, mp.path)))
  }

  method CalculateRoot(sha: Sha256d, mp: MerklePath, txid: string) returns (root: string)
    ensures root == CalculatedRoot(sha, mp, txid)
  {
    var workingHash := Read(txid);
    var lsb := mp.index;
    var n := 0;
    ghost var path := Map(Read, mp.path);
    while n < |mp.path|
      invariant 0 <= n <= |mp.path|
      invariant Fold(ByteNodes(sha), Read(txid), mp.index, path) == Fold(ByteNodes(sha), workingHash, lsb, path[n..])
    {
      var leafBytes := Read(mp.path[n]);
      var digest := if lsb % 2 > 0 then leafBytes + workingHash else workingHash + leafBytes;
      assert path[n..][0] == leafBytes && path[n..][1..] == path[n + 1..];
      assert sha(digest) == Up(ByteNodes(sha), workingHash, lsb, leafBytes);
      workingHash := sha(digest);
      lsb := lsb / 2;
      n := n + 1;
    }
    root := Show(workingHash);
  }

  /** Reading text nodes commutes with combining them, whatever the texts are. */
  lemma ReadIsHomomorphism(sha: Sha256d)
    ensures Homomorphism(Read, TextNodes(sha), ByteNodes(sha))
  {
    forall l: string, r: string
      ensures Read(TextNodes(sha).parent(l, r)) == ByteNodes(sha).parent(Read(l), Read(r))
    {
      ReadShow(HashBoth(sha, Read(l), Read(r)));
    }
  }

  lemma {:induction false} FoldIsLowerHex(sha: Sha256d, c: string, i: nat, path: seq<string>)
    requires IsLowerHex(c) || path != []
    ensures IsLowerHex(Fold(TextNodes(sha), c, i, path))
    decreases |path|
  {
    if path != [] {
      TextNodesProper(sha);
      FoldIsLowerHex(sha, Up(TextNodes(sha), c, i, path[0]), i / 2, path[1..]);
    }
  }

  /** Folding bytes and folding text agree, up to the case of the letters of a lone txid. */
  lemma CalculatedRootIsTextFold(sha: Sha256d, mp: MerklePath, txid: string)
    ensures CalculatedRoot(sha, mp, txid) == Show(Read(Fold(TextNodes(sha), txid, mp.index, mp.path)))
    ensures CalculatedRoot(sha, mp, txid) == Fold(TextNodes(sha), txid, mp.index, mp.path)
      <==> IsLowerHex(txid) || mp.path != []
  {
    ReadIsHomomorphism(sha);
    MapFold(Read, TextNodes(sha), ByteNodes(sha), txid, mp.index, mp.path);
    ShowRead(Fold(TextNodes(sha), txid, mp.index, mp.path));
    if IsLowerHex(txid) || mp.path != [] {
      FoldIsLowerHex(sha, txid, mp.index, mp.path);
    }
  }

  /** The array of a tree is its bottom level followed by the array of the next level. */
  lemma TreeAbove<H(!new)>(a: Algebra<H>, leaves: seq<H>)
    requires Proper(a) && NonBlank(a, leaves) && |leaves| >= 2
    ensures NonBlank(a, NextLevel(a, leaves))
    ensures Tree(a, leaves) == Bottom(a, leaves) + Tree(a, NextLevel(a, leaves))
  {
    hide PairUp, NextLevel, Pad, NextPowerOfTwo;
    var up := NextLevel(a, leaves);
    NextPowerOfTwoIsLeast(|leaves|, 0);
    NextPowerOfTwoIsLeast(|up|, 0);
    PairUpPad(a, leaves, Pow2(Height(|up|)));
  }

  lemma PathElementsStep(xs: seq<string>, bottom: seq<string>, above: seq<string>, i: nat)
    requires "" !in xs && i < |xs| <= |bottom|
    requires |bottom| >= 2 && |bottom| % 2 == 0 && |above| == |bottom| - 1
    requires forall j :: 0 <= j < |bottom| ==> bottom[j] == if j < |xs| then xs[j] else ""
    ensures |bottom| == 2 ==> GetPathElements(i, bottom + above) == Ok([Sibling(xs, i)])
    ensures |bottom| > 2 && GetPathElements(i / 2, above).Ok? ==>
      GetPathElements(i, bottom + above) == Ok([Sibling(xs, i)] + GetPathElements(i / 2, above).value)
  {
    hide Sibling;
    var hashes := bottom + above;
    assert (|hashes| + 1) / 2 == |bottom| && hashes[|bottom|..] == above;
    var neighbour := if i % 2 == 0 then i + 1 else i - 1;
    assert 0 <= neighbour < |bottom|;
    assert hashes[neighbour] == bottom[neighbour] && hashes[i] == bottom[i] == xs[i];
    SiblingIsNeighbour(xs, i, neighbour);
  }

  lemma SiblingIsNeighbour(xs: seq<string>, i: nat, neighbour: nat)
    requires i < |xs| && neighbour == if i % 2 == 0 then i + 1 else i - 1
    ensures Sibling(xs, i) == if neighbour < |xs| then xs[neighbour] else xs[i]
  {
  }

  lemma {:induction false} PathElementsOfTree(sha: Sha256d, txids: seq<string>, i: nat)
    requires "" !in txids && |txids| >= 2 && i < |txids|
    ensures GetPathElements(i, Tree(TextNodes(sha), txids)) == Ok(Path(TextNodes(sha), txids, i))
    decreases |txids|
  {
    hide NextLevel, Tree, Bottom, Sibling, GetPathElements, Height, Pow2;
    var a := TextNodes(sha);
    TextNodesProper(sha);
    TreeAbove(a, txids);
    var bottom, up := Bottom(a, txids), NextLevel(a, txids);
    TreeSize(a, txids);
    TreeSize(a, up);
    AbsentIsEmpty(sha, txids);
    PathElementsStep(txids, bottom, Tree(a, up), i);
    assert Path(a, txids, i) == [Sibling(txids, i)] + Path(a, up, i / 2);
    if |txids| > 2 {
      PathElementsOfTree(sha, up, i / 2);
    } else {
      assert |bottom| == 2 && Path(a, up, i / 2) == [];
      assert Path(a, txids, i) == [Sibling(txids, i)];
    }
  }

  lemma AbsentIsEmpty(sha: Sha256d, txids: seq<string>)
    requires |txids| >= 1
    ensures var bottom := Bottom(TextNodes(sha), txids);
      forall j :: 0 <= j < |bottom| ==> bottom[j] == if j < |txids| then txids[j] else ""
  {
    NextPowerOfTwoIsLeast(|txids|, 0);
  }

  lemma TreeSize<H>(a: Algebra<H>, leaves: seq<H>)
    requires |leaves| >= 1
    ensures |Tree(a, leaves)| == 2 * |Bottom(a, leaves)| - 1
    ensures |leaves| <= |Bottom(a, leaves)| < 2 * |leaves|
    ensures |leaves| >= 2 ==> |Bottom(a, leaves)| == 2 * |Bottom(a, NextLevel(a, leaves))|
  {
    NextPowerOfTwoIsLeast(|leaves|, 0);
    NextPowerOfTwoIsLeast((|leaves| + 1) / 2, 0);
  }

  lemma SingleTree<H>(a: Algebra<H>, leaves: seq<H>)
    requires |leaves| == 1
    ensures Tree(a, leaves) == leaves
  {
    NextPowerOfTwoIsLeast(1, 0);
  }

  /** The path read out of the array is the path of the simple definition. */
  lemma TxPathOfTree(sha: Sha256d, txids: seq<string>, i: nat)
    requires "" !in txids && i < |txids|
    ensures GetTxMerklePath(i, Tree(TextNodes(sha), txids)) == Ok(MerklePath(i, Path(TextNodes(sha), txids, i)))
  {
    hide Tree, GetPathElements, NextLevel, Sibling, TextNodes;
    if |txids| >= 2 {
      PathElementsOfTree(sha, txids, i);
      TreeSize(TextNodes(sha), txids);
    } else {
      SingleTree(TextNodes(sha), txids);
    }
  }

  /** Folding the path of the simple definition over bytes gives its root, up to the case of a lone txid. */
  lemma RootOfPath(sha: Sha256d, txids: seq<string>, i: nat)
    requires i < |txids|
    ensures CalculatedRoot(sha, MerklePath(i, Path(TextNodes(sha), txids, i)), txids[i]) == Root(TextNodes(sha), txids)
      <==> |txids| >= 2 || IsLowerHex(txids[0])
  {
    hide Fold, Path, Root, NextLevel, TextNodes, CalculatedRoot, IsLowerHex;
    var path := Path(TextNodes(sha), txids, i);
    FoldPath(TextNodes(sha), txids, i);
    CalculatedRootIsTextFold(sha, MerklePath(i, path), txids[i]);
    assert |path| == Height(|txids|);
  }

  /** Path completeness: for every list of txids and every index, the path read out of the array has
      ceil(log2 n) elements and leads back to the root of the tree; the only exception is a single txid
      that is not in lower case, which CalculateRoot normalises and BuildMerkleRoot does not. */
  lemma PathCompleteness(sha: Sha256d, txids: seq<string>, i: nat)
    requires "" !in txids && i < |txids|
    ensures var path := GetTxMerklePath(i, Tree(TextNodes(sha), txids));
      && path.Ok? && |path.value.path| == Height(|txids|)
      && (CalculatedRoot(sha, path.value, txids[i]) == Root(TextNodes(sha), txids)
          <==> |txids| >= 2 || IsLowerHex(txids[0]))
  {
    hide *;
    TxPathOfTree(sha, txids, i);
    RootOfPath(sha, txids, i);
  }

  /** The exception, for a block with the one txid "AB". */
  lemma LoneUpperCaseTxid(sha: Sha256d)
    ensures Root(TextNodes(sha), ["AB"]) == "AB"
    ensures CalculatedRoot(sha, MerklePath(0, []), "AB") == "ab"
  {
    assert Map(Read, []) == [];
    assert Unhex("AB") == [0xab] + Unhex("");
    assert Reverse([0xab]) == [0xab];
    assert Hex([0xab]) == [HexDigit(10), HexDigit(11)] + Hex([]);
  }
}

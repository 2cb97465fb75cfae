/** bump.go: the BUMP of one transaction taken from a tree array, and the root computed from it. */
module BumpRoots {
  import opened Outcomes
  import opened ByteStrings
  import opened MerkleTree
  import opened MerkleTreeParents
  import opened MerkleRoot
  import opened MerkleProofs
  import opened MerklePaths
  import opened Bumps
  import opened VerifyProofs

  // ---------- CalculateRootGivenTxid ----------

  /** The position with the low bit flipped. */
  function Flip(i: nat): (j: nat)
    ensures i < 0x1_0000_0000_0000_0000 ==> j < 0x1_0000_0000_0000_0000
  {
    if i % 2 == 0 then i + 1 else i - 1
  }

  /** i >> n. */
  function Shift(i: nat, n: nat): (j: nat)
    ensures j <= i
  {
    ShiftIsSmaller(i, Pow2(n));
    i / Pow2(n)
  }

  lemma ShiftIsSmaller(i: nat, p: nat)
    requires p >= 1
    ensures i / p <= i
  {
    var d := i / p;
    assert i == d * p + i % p;
    TimesMonotonic(1, p, d);
  }

  lemma ShiftOnce(i: nat, n: nat)
    ensures Shift(i, n) / 2 == Shift(i, n + 1)
    ensures Shift(i, 0) == i
  {
    var p := Pow2(n);
    var d := i / Pow2(n + 1);
    assert Pow2(n + 1) == p + p;
    assert i == d * (p + p) + i % (p + p);
    var e := i / p;
    var dp := d * p;
    assert i == dp + dp + i % (p + p) by {
      assert d * (p + p) == dp + dp;
    }
    if i % (p + p) < p {
      assert (2 * d) * p == dp + dp;
      DivisionIs(i, p, 2 * d);
    } else {
      assert (2 * d + 1) * p == dp + dp + p;
      DivisionIs(i, p, 2 * d + 1);
    }
  }

  /** The offset of the first leaf with this hash; a leaf without a hash before it panics. */
  function FindTxid(leaves: seq<Leaf>, txid: string): Result<nat> {
    if leaves == [] then Err(TxidNotInBump)
    else if leaves[0].hash.None? then Err(Panic)
    else if leaves[0].hash.value == txid then Ok(leaves[0].offset)
    else FindTxid(leaves[1..], txid)
  }

  function FindOffset(leaves: seq<Leaf>, offset: nat): Result<Leaf> {
    if leaves == [] then Err(OffsetNotFound)
    else if leaves[0].offset == offset then Ok(leaves[0])
    else FindOffset(leaves[1..], offset)
  }

  /** One level up from the node at this index. */
  function StepUp(sha: Sha256d, workingHash: seq<byte>, index: nat, leaves: seq<Leaf>): Result<seq<byte>> {
    var offset := Flip(index);
    var leaf :- FindOffset(leaves, offset);
    if leaf.duplicate.Some? then Ok(HashBoth(sha, workingHash, workingHash))
    else if leaf.hash.None? then Err(Panic)
    else if offset % 2 != 0 then Ok(HashBoth(sha, workingHash, Read(leaf.hash.value)))
    else Ok(HashBoth(sha, Read(leaf.hash.value), workingHash))
  }

  function FoldLevels(sha: Sha256d, workingHash: seq<byte>, index: nat, path: seq<seq<Leaf>>): Result<seq<byte>>
    decreases |path|
  {
    if path == [] then Ok(workingHash)
    else
      var up :- StepUp(sha, workingHash, index, path[0]);
      FoldLevels(sha, up, index / 2, path[1..])
  }

  function CalculatedBumpRoot(sha: Sha256d, bump: BUMP, txid: string): Result<string> {
    if |bump.path| == 1 && |bump.path[0]| == 1 then Ok(txid)
    else if bump.path == [] then Err(Panic)
    else
      var index :- FindTxid(bump.path[0], txid);
      var root :- FoldLevels(sha, Read(txid), index, bump.path);
      Ok(Show(root))
  }

  method CalculateRootGivenTxid(sha: Sha256d, bump: BUMP, txid: string) returns (r: Result<string>)
    ensures r == CalculatedBumpRoot(sha, bump, txid)
  {
    hide Read, Show, StepUp, Shift;
    if |bump.path| == 1 {
      if |bump.path[0]| == 1 {
        return Ok(txid);
      }
    }
    if bump.path == [] {
      return Err(Panic);
    }
    var found := SearchTxid(bump.path[0], txid);
    if found.Err? {
      return Err(found.error);
    }
    var index := found.value;
    var workingHash := Read(txid);
    ghost var whole := FoldLevels(sha, workingHash, index, bump.path);
    ShiftOnce(index, 0);
    var height := 0;
    while height < |bump.path|
      invariant 0 <= height <= |bump.path|
      invariant whole == FoldLevels(sha, workingHash, Shift(index, height), bump.path[height..])
    {
      ShiftOnce(index, height);
      assert bump.path[height..][0] == bump.path[height];
      assert bump.path[height..][1..] == bump.path[height + 1..];
      var up := HashLevel(sha, workingHash, Shift(index, height), bump.path[height]);
      if up.Err? {
        return Err(up.error);
      }
      workingHash := up.value;
      height := height + 1;
    }
    return Ok(Show(workingHash));
  }

  /** The loop that looks for the txid among the lowest leaves. */
  method SearchTxid(leaves: seq<Leaf>, txid: string) returns (r: Result<nat>)
    ensures r == FindTxid(leaves, txid)
  {
    for n := 0 to |leaves|
      invariant FindTxid(leaves, txid) == FindTxid(leaves[n..], txid)
    {
      var l := leaves[n];
      if l.hash.None? {
        return Err(Panic);
      }
      if l.hash.value == txid {
        return Ok(l.offset);
      }
    }
    return Err(TxidNotInBump);
  }

  /** One turn of the loop over the levels: find the sibling, then hash. */
  method HashLevel(sha: Sha256d, workingHash: seq<byte>, index: nat, leaves: seq<Leaf>) returns (r: Result<seq<byte>>)
    ensures r == StepUp(sha, workingHash, index, leaves)
  {
    hide Read;
    var offset := Flip(index);
    var offsetFound := false;
    var leafAtThisLevel := Leaf(0, None, None, None);
    var n := 0;
    while n < |leaves| && !offsetFound
      invariant 0 <= n <= |leaves|
      invariant FindOffset(leaves, offset) ==
        if offsetFound then Ok(leafAtThisLevel) else FindOffset(leaves[n..], offset)
      decreases |leaves| - n, !offsetFound
    {
      if leaves[n].offset == offset {
        offsetFound := true;
        leafAtThisLevel := leaves[n];
      }
      n := n + 1;
    }
    if !offsetFound {
      return Err(OffsetNotFound);
    }
    var digest;
    if leafAtThisLevel.duplicate.Some? {
      digest := workingHash + workingHash;
    } else {
      if leafAtThisLevel.hash.None? {
        return Err(Panic);
      }
      var leafBytes := Read(leafAtThisLevel.hash.value);
      if offset % 2 != 0 {
        digest := workingHash + leafBytes;
      } else {
        digest := leafBytes + workingHash;
      }
    }
    return Ok(sha(digest));
  }

  // ---------- NewBUMPFromMerkleTreeAndIndex ----------

  /** The leaf that describes the cell beside position i. */
  function CellLeaf(offset: uint64, cell: Option<Digest>): Leaf {
    if cell.None? then Leaf(offset, None, None, Some(true)) else Leaf(offset, Some(Show(cell.value)), None, None)
  }

  /** The sibling leaves of position i in `height` levels, the lowest one having `width` cells from `base` on. */
  function SiblingLevels(cells: seq<Option<Digest>>, base: nat, width: nat, i: uint64, height: nat)
    : (r: Result<seq<seq<Leaf>>>)
    ensures r.Ok? ==> |r.value| == height
    decreases height
  {
    if height == 0 then Ok([])
    else if base + Flip(i) >= |cells| then Err(Panic)
    else
      var others :- SiblingLevels(cells, base + width, width / 2, i / 2, height - 1);
      Ok([[CellLeaf(Flip(i), cells[base + Flip(i)])]] + others)
  }

  /** Some position on the way up is a right child. */
  function AnyOdd(i: nat, height: nat): bool {
    height > 0 && (i % 2 == 1 || AnyOdd(i / 2, height - 1))
  }

  function WithTxid(path: seq<seq<Leaf>>, txidLeaf: Leaf, odd: bool): seq<seq<Leaf>>
    requires path != []
  {
    [if odd then path[0] + [txidLeaf] else [txidLeaf] + path[0]] + path[1..]
  }

  /** What the constructor builds, as a function. */
  function BuiltBump(blockHeight: uint64, cells: seq<Option<Digest>>, txIndex: uint64): Result<BUMP> {
    if |cells| == 0 then Err(EmptyTree)
    else if txIndex >= |cells| || cells[txIndex].None? then Err(Panic)
    else
      var txidLeaf := Leaf(txIndex, Some(Show(cells[txIndex].value)), Some(true), None);
      if |cells| == 1 then Ok(BUMP(blockHeight, [[txidLeaf]]))
      else
        var numOfTxids := (|cells| + 1) / 2;
        var treeHeight := FloorLog2(numOfTxids);
        var siblings :- SiblingLevels(cells, 0, numOfTxids, txIndex, treeHeight);
        if siblings == [] then Err(Panic)
        else Ok(BUMP(blockHeight, WithTxid(siblings, txidLeaf, AnyOdd(txIndex, treeHeight))))
  }

  method NewBUMPFromMerkleTreeAndIndex(blockHeight: uint64, merkleTree: seq<Option<Digest>>, txIndex: uint64)
    returns (r: Result<BUMP>)
    ensures r == BuiltBump(blockHeight, merkleTree, txIndex)
  {
    hide Show, FloorLog2;
    if |merkleTree| == 0 {
      return Err(EmptyTree);
    }
    if |merkleTree| <= txIndex || merkleTree[txIndex].None? {
      return Err(Panic);
    }
    var txidLeaf := Leaf(txIndex, Some(Show(merkleTree[txIndex].value)), Some(true), None);
    if |merkleTree| == 1 {
      return Ok(BUMP(blockHeight, [[txidLeaf]]));
    }
    var numOfTxids := (|merkleTree| + 1) / 2;
    var treeHeight := FloorLog2(numOfTxids);
    var collected := CollectSiblings(merkleTree, txIndex, numOfTxids, treeHeight);
    if collected.Err? {
      return Err(collected.error);
    }
    var (path, oddTxIndex) := collected.value;
    if path == [] {
      return Err(Panic);
    }
    ghost var siblings := path;
    if oddTxIndex {
      path := path[0 := path[0] + [txidLeaf]];
    } else {
      path := path[0 := [txidLeaf] + path[0]];
    }
    assert path == WithTxid(siblings, txidLeaf, oddTxIndex);
    return Ok(BUMP(blockHeight, path));
  }

  /** The loop over the heights of the tree. */
  method CollectSiblings(merkleTree: seq<Option<Digest>>, txIndex: uint64, numOfTxids: nat, treeHeight: nat)
    returns (r: Result<(seq<seq<Leaf>>, bool)>)
    ensures var whole := SiblingLevels(merkleTree, 0, numOfTxids, txIndex, treeHeight);
      r == if whole.Ok? then Ok((whole.value, AnyOdd(txIndex, treeHeight))) else Err(whole.error)
  {
    hide Shift, CellLeaf;
    var oddTxIndex := false;
    var numOfHashes: nat := numOfTxids;
    var path: seq<seq<Leaf>> := [];
    var levelOffset: nat := 0;
    ghost var whole := SiblingLevels(merkleTree, 0, numOfTxids, txIndex, treeHeight);
    StartPath(whole);
    ShiftOnce(txIndex, 0);
    var height := 0;
    while height < treeHeight
      invariant 0 <= height <= treeHeight && |path| == height
      invariant whole == Below(path, SiblingLevels(merkleTree, levelOffset, numOfHashes, Shift(txIndex, height),
                                                   treeHeight - height))
      invariant AnyOdd(txIndex, treeHeight) == (oddTxIndex || AnyOdd(Shift(txIndex, height), treeHeight - height))
    {
      ShiftOnce(txIndex, height);
      var offset := Shift(txIndex, height);
      ghost var shifted := offset;
      if offset % 2 == 0 {
        offset := offset + 1;
      } else {
        oddTxIndex := true;
        offset := offset - 1;
      }
      assert offset == Flip(shifted);
      if |merkleTree| <= levelOffset + offset {
        return Err(Panic);
      }
      var thisLeaf := CellLeaf(offset, merkleTree[levelOffset + offset]);
      PathGrows(path, [thisLeaf], SiblingLevels(merkleTree, levelOffset + numOfHashes, numOfHashes / 2, shifted / 2,
                                                treeHeight - height - 1));
      path := path + [[thisLeaf]];
      levelOffset := levelOffset + numOfHashes;
      numOfHashes := numOfHashes / 2;
      height := height + 1;
    }
    assert path + [] == path;
    return Ok((path, oddTxIndex));
  }

  function Below(path: seq<seq<Leaf>>, others: Result<seq<seq<Leaf>>>): Result<seq<seq<Leaf>>> {
    if others.Ok? then Ok(path + others.value) else others
  }

  lemma StartPath(whole: Result<seq<seq<Leaf>>>)
    ensures Below([], whole) == whole
  {
    if whole.Ok? {
      assert [] + whole.value == whole.value;
    }
  }

  lemma PathGrows(path: seq<seq<Leaf>>, level: seq<Leaf>, others: Result<seq<seq<Leaf>>>)
    ensures Below(path + [level], others) == Below(path, Below([level], others))
  {
    if others.Ok? {
      assert path + [level] + others.value == path + ([level] + others.value);
    }
  }

  // ---------- completeness ----------

  /** The leaf beside node i of a level. */
  function SiblingLeaf(xs: seq<Option<Digest>>, i: uint64): Leaf
    requires i < |xs|
  {
    CellLeaf(Flip(i), if Flip(i) < |xs| then xs[Flip(i)] else None)
  }

  /** The sibling leaves on the way up from leaf i of a tree. */
  function SiblingPath(sha: Sha256d, xs: seq<Option<Digest>>, i: uint64): (path: seq<seq<Leaf>>)
    requires i < |xs|
    ensures |path| == Height(|xs|)
    decreases |xs|
  {
    if |xs| == 1 then []
    else [[SiblingLeaf(xs, i)]] + SiblingPath(sha, NextLevel(PointerNodes(sha), xs), i / 2)
  }

  lemma SiblingStep(before: seq<Option<Digest>>, bottom: seq<Option<Digest>>, above: seq<Option<Digest>>,
                    xs: seq<Option<Digest>>, i: uint64, height: nat)
    requires height >= 1 && i < |xs| <= |bottom| && |bottom| % 2 == 0
    requires forall j :: 0 <= j < |bottom| ==> bottom[j] == if j < |xs| then xs[j] else None
    ensures var others := SiblingLevels((before + bottom) + above, |before + bottom|, |bottom| / 2, i / 2, height - 1);
      SiblingLevels(before + (bottom + above), |before|, |bottom|, i, height)
      == if others.Ok? then Ok([[SiblingLeaf(xs, i)]] + others.value) else others
  {
    hide CellLeaf;
    var cells := before + (bottom + above);
    assert cells == (before + bottom) + above;
    assert cells[|before| + Flip(i)] == bottom[Flip(i)];
  }

  /** The constructor reads the siblings out of a tree array, which may lie behind other cells. */
  lemma {:induction false} SiblingLevelsOfTree(
    sha: Sha256d, before: seq<Option<Digest>>, xs: seq<Option<Digest>>, i: uint64)
    requires i < |xs| && NonBlank(PointerNodes(sha), xs)
    ensures var a := PointerNodes(sha);
      SiblingLevels(before + Tree(a, xs), |before|, |Bottom(a, xs)|, i, Height(|xs|)) == Ok(SiblingPath(sha, xs, i))
    decreases |xs|
  {
    hide *;
    var a := PointerNodes(sha);
    var bottom := Bottom(a, xs);
    if |xs| == 1 {
      NoSiblings(sha, before + Tree(a, xs), |before|, |bottom|, xs, i);
    } else {
      OneLevelUp(sha, xs, i);
      var up := NextLevel(a, xs);
      AbsentIsNil(sha, xs);
      SiblingLevelsOfTree(sha, before + bottom, up, i / 2);
      SiblingStep(before, bottom, Tree(a, up), xs, i, Height(|xs|));
    }
  }

  /** From a level to the next one: the array, the widths, the heights and the sibling paths. */
  lemma OneLevelUp(sha: Sha256d, xs: seq<Option<Digest>>, i: uint64)
    requires i < |xs| && |xs| >= 2 && NonBlank(PointerNodes(sha), xs)
    ensures var a := PointerNodes(sha);
      var up := NextLevel(a, xs);
      && NonBlank(a, up) && i / 2 < |up|
      && Tree(a, xs) == Bottom(a, xs) + Tree(a, up)
      && |xs| <= |Bottom(a, xs)| && |Bottom(a, xs)| % 2 == 0 && |Bottom(a, up)| == |Bottom(a, xs)| / 2
      && Height(|xs|) == Height(|up|) + 1
      && SiblingPath(sha, xs, i) == [[SiblingLeaf(xs, i)]] + SiblingPath(sha, up, i / 2)
  {
    hide NextLevel, Tree, Bottom, SiblingLeaf, PointerNodes;
    PointerNodesProper(sha);
    TreeAbove(PointerNodes(sha), xs);
    TreeSize(PointerNodes(sha), xs);
  }

  lemma NoSiblings(
    sha: Sha256d, cells: seq<Option<Digest>>, base: nat, width: nat, xs: seq<Option<Digest>>, i: uint64)
    requires i < |xs| == 1
    ensures SiblingLevels(cells, base, width, i, Height(|xs|)) == Ok(SiblingPath(sha, xs, i))
  {
  }

  lemma AbsentIsNil(sha: Sha256d, xs: seq<Option<Digest>>)
    requires |xs| >= 1
    ensures var bottom := Bottom(PointerNodes(sha), xs);
      forall j :: 0 <= j < |bottom| ==> bottom[j] == if j < |xs| then xs[j] else None
  {
    NextPowerOfTwoIsLeast(|xs|, 0);
  }

  /** Block hashes as the pointers that the tree builder takes. */
  function Pointers(txids: seq<Digest>): (xs: seq<Option<Digest>>)
    ensures |xs| == |txids|
  {
    Map((d: Digest) => Some(d), txids)
  }

  function TxidLeaf(txids: seq<Digest>, i: uint64): Leaf
    requires i < |txids|
  {
    Leaf(i, Some(Show(txids[i])), Some(true), None)
  }

  /** The BUMP of leaf i of a tree: its own leaf comes last on level 0 unless it is the first leaf. */
  function TreeBump(sha: Sha256d, blockHeight: uint64, txids: seq<Digest>, i: uint64): BUMP
    requires i < |txids|
  {
    if |txids| == 1 then BUMP(blockHeight, [[TxidLeaf(txids, i)]])
    else BUMP(blockHeight, WithTxid(SiblingPath(sha, Pointers(txids), i), TxidLeaf(txids, i), i != 0))
  }

  lemma {:induction false} OddSomewhere(i: nat, k: nat)
    requires i < Pow2(k)
    ensures AnyOdd(i, k) <==> i != 0
  {
    if k > 0 {
      OddSomewhere(i / 2, k - 1);
    }
  }

  lemma {:induction false} FloorLog2OfPow2(k: nat)
    ensures FloorLog2(Pow2(k)) == k
  {
    if k > 0 {
      FloorLog2OfPow2(k - 1);
    }
  }

  /** From a tree array the constructor builds exactly that BUMP. */
  lemma BuiltFromTree(sha: Sha256d, blockHeight: uint64, txids: seq<Digest>, i: uint64)
    requires i < |txids|
    ensures BuiltBump(blockHeight, Tree(PointerNodes(sha), Pointers(txids)), i)
      == Ok(TreeBump(sha, blockHeight, txids, i))
  {
    hide Tree, Bottom, SiblingLevels, AnyOdd, FloorLog2, Height, NextPowerOfTwo, Show, SiblingPath, PointerNodes;
    var a, xs := PointerNodes(sha), Pointers(txids);
    var n := |xs|;
    NextPowerOfTwoIsLeast(n, 0);
    TreeSize(a, xs);
    BottomIsFront(sha, xs, i);
    if n == 1 {
      SingleTree(a, xs);
    } else {
      FloorLog2OfPow2(Height(n));
      OddSomewhere(i, Height(n));
      BlanklessPointers(sha, txids);
      SiblingLevelsOfTree(sha, [], xs, i);
      assert [] + Tree(a, xs) == Tree(a, xs);
    }
  }

  lemma BlanklessPointers(sha: Sha256d, txids: seq<Digest>)
    ensures NonBlank(PointerNodes(sha), Pointers(txids))
  {
  }

  lemma BottomIsFront(sha: Sha256d, xs: seq<Option<Digest>>, i: nat)
    requires i < |xs|
    ensures i < |Tree(PointerNodes(sha), xs)| && Tree(PointerNodes(sha), xs)[i] == xs[i]
    ensures |Bottom(PointerNodes(sha), xs)| == Pow2(Height(|xs|))
  {
    hide Pad, PairUp, PointerNodes;
    var a := PointerNodes(sha);
    NextPowerOfTwoIsLeast(|xs|, 0);
    AbsentIsNil(sha, xs);
    assert Tree(a, xs)[..|Bottom(a, xs)|] == Bottom(a, xs);
  }

  // ---------- from the leaves back to the root ----------

  /** Hashing a node of a level with its sibling leaf gives its parent. */
  lemma StepUpSibling(sha: Sha256d, xs: seq<Option<Digest>>, i: uint64, leaves: seq<Leaf>)
    requires i < |xs| && |xs| >= 2 && NonBlank(PointerNodes(sha), xs)
    requires FindOffset(leaves, Flip(i)) == Ok(SiblingLeaf(xs, i))
    ensures StepUp(sha, Target(xs[i]), i, leaves) == Ok(Target(NextLevel(PointerNodes(sha), xs)[i / 2]))
  {
    hide Read, Show, FindOffset;
    var a := PointerNodes(sha);
    NextLevelAt(a, xs, i);
    if Flip(i) < |xs| {
      assert xs[Flip(i)].Some?;
      ReadShow(xs[Flip(i)].value);
    }
  }

  lemma {:induction false} FoldSiblings(sha: Sha256d, xs: seq<Option<Digest>>, i: uint64)
    requires i < |xs| && NonBlank(PointerNodes(sha), xs)
    ensures FoldLevels(sha, Target(xs[i]), i, SiblingPath(sha, xs, i)) == Ok(Target(Root(PointerNodes(sha), xs)))
    decreases |xs|
  {
    if |xs| > 1 {
      hide NextLevel, StepUp, SiblingLeaf, PointerNodes, Target;
      var a := PointerNodes(sha);
      var up := NextLevel(a, xs);
      var path := SiblingPath(sha, xs, i);
      NextIsNonBlank(sha, xs);
      OffsetOfSibling(xs, i);
      StepUpSibling(sha, xs, i, path[0]);
      FoldSiblings(sha, up, i / 2);
      assert path[1..] == SiblingPath(sha, up, i / 2);
    }
  }

  lemma NextIsNonBlank(sha: Sha256d, xs: seq<Option<Digest>>)
    ensures NonBlank(PointerNodes(sha), NextLevel(PointerNodes(sha), xs))
  {
  }

  lemma OffsetOfSibling(xs: seq<Option<Digest>>, i: uint64)
    requires i < |xs|
    ensures SiblingLeaf(xs, i).offset == Flip(i)
    ensures FindOffset([SiblingLeaf(xs, i)], Flip(i)) == Ok(SiblingLeaf(xs, i))
  {
  }

  /** The lowest level holds the txid and its sibling, in one order or the other. */
  ghost predicate LowestLevel(txids: seq<Digest>, i: uint64, leaves: seq<Leaf>)
    requires i < |txids|
  {
    var own, sibling := TxidLeaf(txids, i), SiblingLeaf(Pointers(txids), i);
    leaves == [own, sibling] || leaves == [sibling, own]
  }

  /** The sibling on level 0 is a copy: i is the last of an odd number of leaves. */
  predicate Alone(txids: seq<Digest>, i: nat) {
    i % 2 == 0 && i + 1 == |txids|
  }

  /** The search stops at a leaf that leads to the right parent, also when both txids are equal, unless a
      copy without a hash comes first. */
  lemma SearchLowest(sha: Sha256d, txids: seq<Digest>, i: uint64, leaves: seq<Leaf>)
    requires i < |txids| && |txids| >= 2 && LowestLevel(txids, i, leaves)
    ensures var found := FindTxid(leaves, Show(txids[i]));
      if Alone(txids, i) && leaves[0] == SiblingLeaf(Pointers(txids), i) then found == Err(Panic)
      else
        && found.Ok? && found.value / 2 == i / 2
        && StepUp(sha, txids[i], found.value, leaves)
           == Ok(Target(NextLevel(PointerNodes(sha), Pointers(txids))[i / 2]))
  {
    hide Read, Show;
    var xs := Pointers(txids);
    var own, sibling := TxidLeaf(txids, i), SiblingLeaf(xs, i);
    BlanklessPointers(sha, txids);
    OffsetOfSibling(xs, i);
    FindEither(leaves, own, sibling);
    StepUpSibling(sha, xs, i, leaves);
    if leaves[0] == sibling && sibling.hash == Some(Show(txids[i])) {
      EqualTwins(sha, txids, i);
    }
  }

  lemma FindEither(leaves: seq<Leaf>, x: Leaf, y: Leaf)
    requires x.offset != y.offset && (leaves == [x, y] || leaves == [y, x])
    ensures FindOffset(leaves, x.offset) == Ok(x) && FindOffset(leaves, y.offset) == Ok(y)
  {
    assert leaves[1..] == [leaves[1]];
  }

  /** Two equal txids side by side: either one's place gives the same parent. */
  lemma EqualTwins(sha: Sha256d, txids: seq<Digest>, i: uint64)
    requires i < |txids| && |txids| >= 2
    requires SiblingLeaf(Pointers(txids), i).hash == Some(Show(txids[i]))
    ensures Flip(Flip(i)) == i && Flip(i) / 2 == i / 2
    ensures Read(Show(txids[i])) == txids[i]
    ensures Target(NextLevel(PointerNodes(sha), Pointers(txids))[i / 2]) == HashBoth(sha, txids[i], txids[i])
  {
    hide Read, Show;
    var xs := Pointers(txids);
    ReadShow(txids[i]);
    ReadShow(txids[Flip(i)]);
    NextLevelAt(PointerNodes(sha), xs, i);
  }

  /** Whatever the order of the lowest level, the root comes out, or the search panics. */
  lemma RootFromLevels(sha: Sha256d, b: BUMP, txids: seq<Digest>, i: uint64)
    requires i < |txids| && |txids| >= 2
    requires |b.path| == Height(|txids|) && LowestLevel(txids, i, b.path[0])
    requires b.path[1..] == SiblingPath(sha, Pointers(txids), i)[1..]
    ensures CalculatedBumpRoot(sha, b, Show(txids[i])) ==
      if Alone(txids, i) && b.path[0][0] == SiblingLeaf(Pointers(txids), i) then Err(Panic)
      else Ok(ShowPointer(Root(PointerNodes(sha), Pointers(txids))))
  {
    hide Read, Show, StepUp, SiblingLeaf, Alone, NextLevel, PointerNodes, TxidLeaf, FindTxid;
    var xs := Pointers(txids);
    var a := PointerNodes(sha);
    var up := NextLevel(a, xs);
    SearchLowest(sha, txids, i, b.path[0]);
    ReadShow(txids[i]);
    NextIsNonBlank(sha, xs);
    FoldSiblings(sha, up, i / 2);
    RootIsSome(sha, up);
    assert Root(a, xs) == Root(a, up);
  }

  lemma {:induction false} RootIsSome(sha: Sha256d, xs: seq<Option<Digest>>)
    requires |xs| >= 1 && NonBlank(PointerNodes(sha), xs)
    ensures Root(PointerNodes(sha), xs).Some?
    decreases |xs|
  {
    if |xs| > 1 {
      NextIsNonBlank(sha, xs);
      RootIsSome(sha, NextLevel(PointerNodes(sha), xs));
    }
  }

  /** Straight from the constructor, before any round trip, the BUMP leads to the root exactly unless the
      transaction is the last of an odd number: then the leaf without a hash comes first and the search
      follows its nil pointer. */
  lemma BumpBeforeRoundTrip(sha: Sha256d, blockHeight: uint64, txids: seq<Digest>, i: uint64)
    requires i < |txids|
    ensures CalculatedBumpRoot(sha, TreeBump(sha, blockHeight, txids, i), Show(txids[i])) ==
      if |txids| > 1 && |txids| % 2 == 1 && i == |txids| - 1 then Err(Panic)
      else Ok(ShowPointer(Root(PointerNodes(sha), Pointers(txids))))
  {
    hide *;
    var b := TreeBump(sha, blockHeight, txids, i);
    if |txids| == 1 {
      TreeBumpOfOne(sha, blockHeight, txids, i);
      SingleBump(sha, b, txids, i);
    } else {
      TreeBumpShape(sha, blockHeight, txids, i);
      RootFromLevels(sha, b, txids, i);
      DifferentLeaves(txids, i);
      AloneMeans(txids, i);
    }
  }

  /** The exception, for the last of any three transactions. */
  lemma ThirdOfThreePanics(sha: Sha256d, txids: seq<Digest>)
    requires |txids| == 3
    ensures BuiltBump(0, Tree(PointerNodes(sha), Pointers(txids)), 2).Ok?
    ensures CalculatedBumpRoot(sha, BuiltBump(0, Tree(PointerNodes(sha), Pointers(txids)), 2).value, Show(txids[2]))
      == Err(Panic)
  {
    hide *;
    BuiltFromTree(sha, 0, txids, 2);
    BumpBeforeRoundTrip(sha, 0, txids, 2);
  }

  lemma AloneMeans(txids: seq<Digest>, i: nat)
    requires i < |txids|
    ensures Alone(txids, i) <==> |txids| % 2 == 1 && i == |txids| - 1
  {
  }

  lemma TreeBumpOfOne(sha: Sha256d, blockHeight: uint64, txids: seq<Digest>, i: uint64)
    requires i < |txids| == 1
    ensures TreeBump(sha, blockHeight, txids, i).path == [[TxidLeaf(txids, i)]]
  {
  }

  lemma TreeBumpShape(sha: Sha256d, blockHeight: uint64, txids: seq<Digest>, i: uint64)
    requires i < |txids| && |txids| >= 2
    ensures var path := TreeBump(sha, blockHeight, txids, i).path;
      var own, sibling := TxidLeaf(txids, i), SiblingLeaf(Pointers(txids), i);
      && |path| == Height(|txids|) && |path| >= 1
      && path[0] == (if i != 0 then [sibling, own] else [own, sibling])
      && LowestLevel(txids, i, path[0])
      && SiblingPath(sha, Pointers(txids), i) != []
      && path[1..] == SiblingPath(sha, Pointers(txids), i)[1..]
  {
    hide PointerNodes, NextLevel, SiblingLeaf, TxidLeaf, Pointers;
    FirstSibling(sha, txids, i);
  }

  lemma SingleBump(sha: Sha256d, b: BUMP, txids: seq<Digest>, i: uint64)
    requires i < |txids| == 1 && b.path == [[TxidLeaf(txids, i)]]
    ensures CalculatedBumpRoot(sha, b, Show(txids[i])) == Ok(ShowPointer(Root(PointerNodes(sha), Pointers(txids))))
  {
    hide Show;
  }

  lemma FirstSibling(sha: Sha256d, txids: seq<Digest>, i: uint64)
    requires i < |txids| && |txids| >= 2
    ensures var path := SiblingPath(sha, Pointers(txids), i);
      path != [] && path[0] == [SiblingLeaf(Pointers(txids), i)] && |path| == Height(|txids|)
  {
  }

  lemma DifferentLeaves(txids: seq<Digest>, i: uint64)
    requires i < |txids|
    ensures TxidLeaf(txids, i) != SiblingLeaf(Pointers(txids), i)
    ensures TxidLeaf(txids, i).offset == i && SiblingLeaf(Pointers(txids), i).offset == Flip(i)
  {
  }

  // ---------- through the binary form ----------

  lemma {:induction false} SiblingPathIsPlain(sha: Sha256d, xs: seq<Option<Digest>>, i: uint64)
    requires i < |xs|
    ensures forall level :: level in SiblingPath(sha, xs, i) ==> |level| == 1 && PlainLeaf(level[0])
    decreases |xs|
  {
    if |xs| > 1 {
      hide NextLevel, PlainLeaf, SiblingLeaf;
      var up := NextLevel(PointerNodes(sha), xs);
      SiblingLeafIsPlain(xs, i);
      SiblingPathIsPlain(sha, up, i / 2);
      assert SiblingPath(sha, xs, i) == [[SiblingLeaf(xs, i)]] + SiblingPath(sha, up, i / 2);
    }
  }

  lemma SiblingLeafIsPlain(xs: seq<Option<Digest>>, i: uint64)
    requires i < |xs|
    ensures PlainLeaf(SiblingLeaf(xs, i))
  {
  }

  /** One plain leaf arrives as it is; two arrive in the order of their offsets. */
  lemma PlainArrives(x: Leaf, y: Leaf)
    requires PlainLeaf(x) && PlainLeaf(y)
    ensures GoodLeaf(x) && Arrived([x]) == [x]
    ensures x.offset < y.offset ==> Arrived([x, y]) == [x, y] && Arrived([y, x]) == [x, y]
  {
    hide PlainLeaf, Canonical, GoodLeaf;
    PlainLevelIsCanonical([x]);
    PlainLevelIsCanonical([x, y]);
    PlainLevelIsCanonical([y, x]);
    assert [x, y][1..] == [y] && [y, x][1..] == [x];
    assert x in [x];
  }

  lemma SinglesArrive(path: seq<seq<Leaf>>)
    requires forall level :: level in path ==> |level| == 1 && PlainLeaf(level[0])
    ensures Map(Arrived, path) == path
    ensures forall level :: level in path ==> GoodLevel(level)
  {
    hide PlainLeaf, GoodLeaf, Arrived;
    forall n | 0 <= n < |path| ensures Arrived(path[n]) == path[n] && GoodLevel(path[n]) {
      var level := path[n];
      assert level in path;
      assert level == [level[0]];
      PlainArrives(level[0], level[0]);
    }
  }

  /** The levels of a tree's BUMP, and what they arrive as. */
  lemma TreeBumpArrives(sha: Sha256d, blockHeight: uint64, txids: seq<Digest>, i: uint64)
    requires i < |txids| < 0x8000_0000_0000_0000 && |txids| >= 2
    ensures var b := TreeBump(sha, blockHeight, txids, i);
      var arrived := ArrivedBump(b);
      && GoodPath(b.path) && [] !in b.path
      && |b.path| == Height(|txids|) >= 1 && TxidLeaf(txids, i) in b.path[0]
      && LowestLevel(txids, i, arrived.path[0])
      && (Alone(txids, i) ==> arrived.path[0][0] == TxidLeaf(txids, i))
      && SiblingPath(sha, Pointers(txids), i) != []
      && arrived.path[1..] == SiblingPath(sha, Pointers(txids), i)[1..]
  {
    hide NextLevel, PlainLeaf, SiblingLeaf, TxidLeaf, Arrived, GoodLeaf, PointerNodes, Height, Pointers,
      SiblingPath, TreeBump;
    var b := TreeBump(sha, blockHeight, txids, i);
    var own, sibling := TxidLeaf(txids, i), SiblingLeaf(Pointers(txids), i);
    HeightOfSlice(|txids|);
    TreeBumpShape(sha, blockHeight, txids, i);
    var tail := b.path[1..];
    DifferentLeaves(txids, i);
    OwnLeafIsPlain(txids, i);
    SiblingLeafIsPlain(Pointers(txids), i);
    SiblingPathIsPlain(sha, Pointers(txids), i);
    PlainArrives(own, sibling);
    PlainArrives(sibling, own);
    SinglesArrive(tail);
    assert b.path == [b.path[0]] + tail;
    assert Map(Arrived, b.path)[1..] == Map(Arrived, tail);
    assert GoodLevel(b.path[0]);
  }

  lemma OwnLeafIsPlain(txids: seq<Digest>, i: uint64)
    requires i < |txids|
    ensures PlainLeaf(TxidLeaf(txids, i)) && TxidLeaf(txids, i).duplicate.None?
  {
  }

  /** BUMP completeness: for every list of at most 2^63 hashes, repeated ones included, and every index,
      the BUMP taken from the tree array, written to bytes and read back from any stream, leads from the
      txid to the last cell of the array. */
  lemma BumpCompleteness(sha: Sha256d, blockHeight: uint64, txids: seq<Digest>, i: uint64, rest: seq<byte>)
    requires i < |txids| < 0x8000_0000_0000_0000
    ensures var cells := Tree(PointerNodes(sha), Pointers(txids));
      var built := BuiltBump(blockHeight, cells, i);
      && built.Ok? && AllEncodable(built.value.path)
      && var read := ParseBump(BumpBytes(built.value) + rest);
      && read.Ok? && read.value.1 == rest
      && CalculatedBumpRoot(sha, read.value.0, Show(txids[i])) == Ok(ShowPointer(cells[|cells| - 1]))
  {
    hide *;
    var a, xs := PointerNodes(sha), Pointers(txids);
    var b := TreeBump(sha, blockHeight, txids, i);
    BuiltFromTree(sha, blockHeight, txids, i);
    BlanklessPointers(sha, txids);
    PointerNodesProper(sha);
    LastCellIsRoot(a, xs);
    TreeBumpIsReadable(sha, blockHeight, txids, i);
    BumpRoundTrip(b, rest);
    ArrivedIsParsed(b, rest);
    if |txids| >= 2 {
      RootFromArrived(sha, blockHeight, txids, i);
    } else {
      RootFromSingle(sha, blockHeight, txids, i);
    }
  }

  lemma TreeBumpIsReadable(sha: Sha256d, blockHeight: uint64, txids: seq<Digest>, i: uint64)
    requires i < |txids| < 0x8000_0000_0000_0000
    ensures var b := TreeBump(sha, blockHeight, txids, i);
      Readable(b) && GoodPath(b.path) && AllEncodable(b.path)
  {
    hide BumpBytes, PlainLeaf, GoodLeaf, TxidLeaf, SiblingPath;
    var b := TreeBump(sha, blockHeight, txids, i);
    var own := TxidLeaf(txids, i);
    OwnLeafIsPlain(txids, i);
    PlainLeafIsCanonical(own);
    if |txids| >= 2 {
      TreeBumpArrives(sha, blockHeight, txids, i);
    } else {
      assert b.path == [[own]];
    }
    var lf :| 0 <= lf < |b.path[0]| && b.path[0][lf] == own;
    HashedLeafSuffices(b, 0, lf);
    GoodIsEncodable(b.path);
  }

  lemma GoodIsEncodable(path: seq<seq<Leaf>>)
    requires GoodPath(path)
    ensures AllEncodable(path)
  {
    forall n, m | 0 <= n < |path| && 0 <= m < |path[n]| ensures LeafEncodable(path[n][m]) {
      assert path[n] in path && path[n][m] in path[n];
    }
  }

  lemma ArrivedIsParsed(b: BUMP, rest: seq<byte>)
    requires Readable(b)
    ensures ParseBump(BumpBytes(b) + rest) == Ok((ArrivedBump(b), rest))
  {
    hide BumpBytes, ParseBump, Arrived, GoodPath;
    BumpRoundTrip(b, rest);
  }

  lemma RootFromArrived(sha: Sha256d, blockHeight: uint64, txids: seq<Digest>, i: uint64)
    requires i < |txids| < 0x8000_0000_0000_0000 && |txids| >= 2
    ensures CalculatedBumpRoot(sha, ArrivedBump(TreeBump(sha, blockHeight, txids, i)), Show(txids[i]))
      == Ok(ShowPointer(Root(PointerNodes(sha), Pointers(txids))))
  {
    hide Show, PointerNodes, NextLevel, SiblingLeaf, TxidLeaf, CalculatedBumpRoot, Root, SiblingPath, TreeBump, Arrived;
    TreeBumpArrives(sha, blockHeight, txids, i);
    DifferentLeaves(txids, i);
    RootFromLevels(sha, ArrivedBump(TreeBump(sha, blockHeight, txids, i)), txids, i);
  }

  lemma RootFromSingle(sha: Sha256d, blockHeight: uint64, txids: seq<Digest>, i: uint64)
    requires i < |txids| == 1
    ensures CalculatedBumpRoot(sha, ArrivedBump(TreeBump(sha, blockHeight, txids, i)), Show(txids[i]))
      == Ok(ShowPointer(Root(PointerNodes(sha), Pointers(txids))))
  {
    hide Show, CalculatedBumpRoot, Root, PlainLeaf, TxidLeaf, PointerNodes;
    var b := TreeBump(sha, blockHeight, txids, i);
    OwnLeafIsPlain(txids, i);
    PlainArrives(TxidLeaf(txids, i), TxidLeaf(txids, i));
    assert ArrivedBump(b).path == b.path;
    SingleBump(sha, ArrivedBump(b), txids, i);
  }
}

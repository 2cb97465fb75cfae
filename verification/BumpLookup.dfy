/** bump.go: what CalculateRootGivenTxid does with any BUMP: the txids it refuses, and the root from a BUMP for
    many transactions of a block. */
module BumpLookups {
  import opened Outcomes
  import opened ByteStrings
  import opened MerkleTree
  import opened MerkleTreeParents
  import opened MerkleRoot
  import opened Bumps
  import opened BumpRoots

  // ---------- which txids are found ----------

  /** A BUMP for a block with more than one transaction, as far as the first test of the code can tell. */
  predicate SeveralLeaves(b: BUMP) {
    b.path != [] && !(|b.path| == 1 && |b.path[0]| == 1)
  }

  /** The n-th leaf is the first one with this hash, and no leaf before it lacks a hash. */
  ghost predicate FirstWithHash(leaves: seq<Leaf>, txid: string, n: int) {
    && 0 <= n < |leaves| && leaves[n].hash == Some(txid)
    && forall m :: 0 <= m < n ==> leaves[m].hash.Some? && leaves[m].hash != Some(txid)
  }

  lemma {:induction false} FindTxidMeans(leaves: seq<Leaf>, txid: string)
    ensures FindTxid(leaves, txid).Ok? ==>
      exists n :: FirstWithHash(leaves, txid, n) && FindTxid(leaves, txid).value == leaves[n].offset
    ensures forall n :: FirstWithHash(leaves, txid, n) ==> FindTxid(leaves, txid) == Ok(leaves[n].offset)
    ensures FindTxid(leaves, txid) == Err(TxidNotInBump)
      <==> forall n :: 0 <= n < |leaves| ==> leaves[n].hash.Some? && leaves[n].hash != Some(txid)
    ensures FindTxid(leaves, txid).Err? ==>
      FindTxid(leaves, txid).error == TxidNotInBump || FindTxid(leaves, txid).error == Panic
  {
    if leaves != [] && leaves[0].hash.Some? && leaves[0].hash.value != txid {
      var others := leaves[1..];
      FindTxidMeans(others, txid);
      if FindTxid(leaves, txid).Ok? {
        var n :| FirstWithHash(others, txid, n) && FindTxid(others, txid).value == others[n].offset;
        forall m | 0 <= m < n + 1 ensures leaves[m].hash.Some? && leaves[m].hash != Some(txid) {
          assert m > 0 ==> leaves[m] == others[m - 1];
        }
        assert leaves[n + 1] == others[n];
        assert FirstWithHash(leaves, txid, n + 1);
      }
      forall n | FirstWithHash(leaves, txid, n) ensures FindTxid(leaves, txid) == Ok(leaves[n].offset) {
        assert n > 0;
        assert FirstWithHash(others, txid, n - 1) by {
          forall m | 0 <= m < n - 1 ensures others[m].hash.Some? && others[m].hash != Some(txid) {
            assert others[m] == leaves[m + 1];
          }
        }
      }
      if FindTxid(leaves, txid) == Err(TxidNotInBump) {
        forall n | 0 <= n < |leaves| ensures leaves[n].hash.Some? && leaves[n].hash != Some(txid) {
          assert n > 0 ==> leaves[n] == others[n - 1];
        }
      } else {
        var n :| 0 <= n < |others| && !(others[n].hash.Some? && others[n].hash != Some(txid));
        assert leaves[n + 1] == others[n];
      }
    } else if leaves != [] && leaves[0].hash == Some(txid) {
      assert FirstWithHash(leaves, txid, 0);
    }
  }

  lemma {:induction false} FoldNeverMissesTxid(sha: Sha256d, c: seq<byte>, i: nat, path: seq<seq<Leaf>>)
    ensures FoldLevels(sha, c, i, path) != Err(TxidNotInBump)
    decreases |path|
  {
    if path != [] {
      FindOffsetError(path[0], Flip(i));
      var up := StepUp(sha, c, i, path[0]);
      if up.Ok? {
        FoldNeverMissesTxid(sha, up.value, i / 2, path[1..]);
      }
    }
  }

  lemma {:induction false} FindOffsetError(leaves: seq<Leaf>, offset: nat)
    ensures FindOffset(leaves, offset).Err? ==> FindOffset(leaves, offset).error == OffsetNotFound
    ensures FindOffset(leaves, offset).Err? <==> forall n :: 0 <= n < |leaves| ==> leaves[n].offset != offset
    ensures FindOffset(leaves, offset).Ok? ==>
      FindOffset(leaves, offset).value in leaves && FindOffset(leaves, offset).value.offset == offset
  {
    if leaves != [] && leaves[0].offset != offset {
      FindOffsetError(leaves[1..], offset);
      forall n | 0 < n < |leaves| ensures leaves[n] == leaves[1..][n - 1] {
      }
    }
  }

  /** The txids that are refused, for every BUMP: if all lowest leaves have hashes, exactly those of which none
      is the hash. */
  lemma AbsentTxid(sha: Sha256d, b: BUMP, txid: string)
    requires SeveralLeaves(b) && forall n :: 0 <= n < |b.path[0]| ==> b.path[0][n].hash.Some?
    ensures CalculatedBumpRoot(sha, b, txid) == Err(TxidNotInBump)
      <==> forall n :: 0 <= n < |b.path[0]| ==> b.path[0][n].hash != Some(txid)
  {
    hide FindTxid, FoldLevels, Read, Show;
    FindTxidMeans(b.path[0], txid);
    if FindTxid(b.path[0], txid).Ok? {
      FoldNeverMissesTxid(sha, Read(txid), FindTxid(b.path[0], txid).value, b.path);
    }
  }

  /** A root is only ever computed for a txid that is the hash of a lowest leaf, from the place of the first
      such leaf. */
  lemma PresentTxid(sha: Sha256d, b: BUMP, txid: string)
    requires SeveralLeaves(b)
    ensures CalculatedBumpRoot(sha, b, txid).Ok? ==> exists n :: FirstWithHash(b.path[0], txid, n)
    ensures forall n :: FirstWithHash(b.path[0], txid, n) ==>
      var root := FoldLevels(sha, Read(txid), b.path[0][n].offset, b.path);
      CalculatedBumpRoot(sha, b, txid) == if root.Ok? then Ok(Show(root.value)) else Err(root.error)
  {
    hide FindTxid, FoldLevels, Read, Show, FirstWithHash;
    FindTxidMeans(b.path[0], txid);
  }

  lemma SingleLeaf(sha: Sha256d, b: BUMP, txid: string)
    requires b.path != [] && !SeveralLeaves(b)
    ensures CalculatedBumpRoot(sha, b, txid) == Ok(txid)
  {
  }

  // ---------- one level up ----------

  /** The n-th leaf is the first one at this offset. */
  ghost predicate FirstAt(leaves: seq<Leaf>, offset: nat, n: int) {
    0 <= n < |leaves| && leaves[n].offset == offset && forall m :: 0 <= m < n ==> leaves[m].offset != offset
  }

  lemma {:induction false} FindOffsetMeans(leaves: seq<Leaf>, offset: nat, n: int)
    requires FirstAt(leaves, offset, n)
    ensures FindOffset(leaves, offset) == Ok(leaves[n])
  {
    if n > 0 {
      assert FirstAt(leaves[1..], offset, n - 1);
      FindOffsetMeans(leaves[1..], offset, n - 1);
    }
  }

  /** What is hashed at a level: the first leaf beside the working node decides. A duplicate is a copy of the working
      node, a leaf with neither mark nor hash panics, and the working node goes on the left when its place is even. */
  lemma StepUpMeans(sha: Sha256d, c: seq<byte>, i: nat, leaves: seq<Leaf>, n: int)
    ensures (forall m :: 0 <= m < |leaves| ==> leaves[m].offset != if i % 2 == 0 then i + 1 else i - 1) ==>
      StepUp(sha, c, i, leaves) == Err(OffsetNotFound)
    ensures FirstAt(leaves, if i % 2 == 0 then i + 1 else i - 1, n) ==>
      StepUp(sha, c, i, leaves) ==
        if leaves[n].duplicate.Some? then Ok(sha(c + c))
        else if leaves[n].hash.None? then Err(Panic)
        else if i % 2 == 0 then Ok(sha(c + Read(leaves[n].hash.value)))
        else Ok(sha(Read(leaves[n].hash.value) + c))
  {
    hide FindOffset, Read;
    var offset := Flip(i);
    FindOffsetError(leaves, offset);
    if FirstAt(leaves, offset, n) {
      FindOffsetMeans(leaves, offset, n);
    }
  }

  // ---------- one BUMP for many transactions ----------

  /** The leaf tells the truth about a level: the hash of its place, or a copy past the end. */
  ghost predicate LeafIsTrue(xs: seq<Option<Digest>>, l: Leaf) {
    if l.offset < |xs| then xs[l.offset].Some? && l.hash == Some(Show(xs[l.offset].value)) && l.duplicate.None?
    else l.duplicate.Some? && l.hash.None?
  }

  /** So do all leaves of all levels; there may be any number of them in any order. */
  ghost predicate IsTrue(sha: Sha256d, xs: seq<Option<Digest>>, path: seq<seq<Leaf>>)
    decreases |path|
  {
    path == []
    || ((forall n :: 0 <= n < |path[0]| ==> LeafIsTrue(xs, path[0][n]))
        && IsTrue(sha, NextLevel(PointerNodes(sha), xs), path[1..]))
  }

  /** On every level a leaf stands beside the place that lies above i. */
  ghost predicate HasSiblings(path: seq<seq<Leaf>>, i: nat)
    decreases |path|
  {
    path == []
    || ((exists n :: 0 <= n < |path[0]| && path[0][n].offset == Flip(i)) && HasSiblings(path[1..], i / 2))
  }

  lemma StepUpTrue(sha: Sha256d, xs: seq<Option<Digest>>, i: uint64, leaves: seq<Leaf>)
    requires i < |xs| && |xs| >= 2 && NonBlank(PointerNodes(sha), xs)
    requires FindOffset(leaves, Flip(i)).Ok?
    requires LeafIsTrue(xs, FindOffset(leaves, Flip(i)).value) && FindOffset(leaves, Flip(i)).value.offset == Flip(i)
    ensures StepUp(sha, Target(xs[i]), i, leaves) == Ok(Target(NextLevel(PointerNodes(sha), xs)[i / 2]))
  {
    hide Read, Show, FindOffset, NextLevel, Sibling;
    NextLevelAt(PointerNodes(sha), xs, i);
    SiblingIsBeside(xs, i);
    if Flip(i) < |xs| {
      ReadShow(xs[Flip(i)].value);
    }
  }

  lemma SiblingIsBeside(xs: seq<Option<Digest>>, i: nat)
    requires i < |xs|
    ensures Sibling(xs, i) == if Flip(i) < |xs| then xs[Flip(i)] else xs[i]
    ensures Flip(i) % 2 != i % 2 && (Flip(i) >= |xs| ==> i % 2 == 0)
  {
  }

  lemma {:induction false} FoldTrue(sha: Sha256d, xs: seq<Option<Digest>>, i: uint64, path: seq<seq<Leaf>>)
    requires i < |xs| && NonBlank(PointerNodes(sha), xs)
    requires |path| == Height(|xs|) && IsTrue(sha, xs, path)
    ensures FoldLevels(sha, Target(xs[i]), i, path) ==
      if HasSiblings(path, i) then Ok(Target(Root(PointerNodes(sha), xs))) else Err(OffsetNotFound)
    decreases |path|
  {
    if path != [] {
      hide NextLevel, StepUp, PointerNodes, Target, LeafIsTrue, Flip, FindOffset;
      FindOffsetError(path[0], Flip(i));
      if FindOffset(path[0], Flip(i)).Ok? {
        var up := NextLevel(PointerNodes(sha), xs);
        NextIsNonBlank(sha, xs);
        StepUpTrue(sha, xs, i, path[0]);
        FoldTrue(sha, up, i / 2, path[1..]);
      } else {
        NoStepUp(sha, Target(xs[i]), i, path[0]);
      }
    }
  }

  lemma NoStepUp(sha: Sha256d, c: seq<byte>, i: nat, leaves: seq<Leaf>)
    requires FindOffset(leaves, Flip(i)) == Err(OffsetNotFound)
    ensures StepUp(sha, c, i, leaves) == Err(OffsetNotFound)
  {
  }

  /** One BUMP for a whole block: if it tells the truth about the block, level by level and with any leaves in
      any order, then for every txid that it finds the result is the root of the block, or an error exactly
      when some sibling on the way up is not there. Txids may be repeated. Only when it has a single leaf in all,
      which the code takes for a block of one, is the txid itself the result. */
  lemma WholeBlockBump(sha: Sha256d, b: BUMP, txids: seq<Digest>, txid: string, n: nat)
    requires 2 <= |txids| < 0x8000_0000_0000_0000
    requires |b.path| == Height(|txids|) && IsTrue(sha, Pointers(txids), b.path)
    requires FirstWithHash(b.path[0], txid, n)
    ensures var i := b.path[0][n].offset;
      && i < |txids| && txid == Show(txids[i])
      && CalculatedBumpRoot(sha, b, txid) ==
         if !SeveralLeaves(b) then Ok(txid)
         else if HasSiblings(b.path, i) then Ok(ShowPointer(Root(PointerNodes(sha), Pointers(txids))))
         else Err(OffsetNotFound)
  {
    hide Show, Read, FoldLevels, CalculatedBumpRoot, Root, PointerNodes, HasSiblings, Height, NextLevel;
    var xs, i := Pointers(txids), b.path[0][n].offset;
    assert LeafIsTrue(xs, b.path[0][n]);
    BlanklessPointers(sha, txids);
    if !SeveralLeaves(b) {
      SingleLeaf(sha, b, txid);
      return;
    }
    PresentTxid(sha, b, txid);
    ReadShow(txids[i]);
    FoldTrue(sha, xs, i, b.path);
    RootIsSome(sha, xs);
  }
}

/** merkletreeparent.go and endian.go: the parent of two nodes, on bytes, on text and on hash pointers. */
module MerkleTreeParents {
  import opened Outcomes
  import opened ByteStrings
  import opened MerkleTree

  /** Both children and the parent are in display order; hashing is done in the reverse order. */
  function MerkleTreeParent(sha: Sha256d, leftNode: seq<byte>, rightNode: seq<byte>): seq<byte> {
    Reverse(sha(Reverse(leftNode) + Reverse(rightNode)))
  }

  function MerkleTreeParentStr(sha: Sha256d, leftNode: string, rightNode: string): Result<string> {
    if !IsHex(leftNode) || !IsHex(rightNode) then Err(BadHex)
    else Ok(Hex(MerkleTreeParent(sha, Unhex(leftNode), Unhex(rightNode))))
  }

  /** The children of this one are not reversed. */
  function MerkleTreeParentBytes(sha: Sha256d, l: Digest, r: Digest): Digest {
    sha(l + r)
  }

  function HashBoth(sha: Sha256d, l: seq<byte>, r: seq<byte>): Digest {
    sha(l + r)
  }

  /** Hashes as plain bytes, as the loops over a working hash see them. */
  function ByteNodes(sha: Sha256d): Algebra<seq<byte>> {
    Algebra([], (l: seq<byte>, r: seq<byte>) => HashBoth(sha, l, r))
  }

  /** Hashes as display text, "" being the absent node. */
  function TextNodes(sha: Sha256d): Algebra<string> {
    Algebra("", (l: string, r: string) => Show(HashBoth(sha, Read(l), Read(r))))
  }

  /** Pointers to hashes, nil being the absent node. */
  function PointerNodes(sha: Sha256d): Algebra<Option<Digest>> {
    Algebra(None, (l: Option<Digest>, r: Option<Digest>) => Some(HashBoth(sha, Target(l), Target(r))))
  }

  function Target(p: Option<Digest>): seq<byte> {
    match p
    case Some(d) => d
    case None => []
  }

  /** The text that shows a pointer, "" for nil. */
  function ShowPointer(p: Option<Digest>): string {
    match p
    case Some(d) => Show(d)
    case None => ""
  }

  /** The text function is the combination of text nodes, on hexadecimal arguments. */
  lemma ParentStrIsTextParent(sha: Sha256d, l: string, r: string)
    ensures MerkleTreeParentStr(sha, l, r).Ok? <==> IsHex(l) && IsHex(r)
    ensures IsHex(l) && IsHex(r) ==> MerkleTreeParentStr(sha, l, r) == Ok(TextNodes(sha).parent(l, r))
  {
    assert TextNodes(sha).parent(l, r) == Hex(MerkleTreeParent(sha, Unhex(l), Unhex(r)));
  }

  /** The three node kinds hash the same 64 bytes: showing or reading commutes with combining. */
  lemma ParentsAgree(sha: Sha256d, l: Digest, r: Digest)
    ensures TextNodes(sha).parent(Show(l), Show(r)) == Show(MerkleTreeParentBytes(sha, l, r))
    ensures PointerNodes(sha).parent(Some(l), Some(r)) == Some(MerkleTreeParentBytes(sha, l, r))
    ensures ByteNodes(sha).parent(l, r) == MerkleTreeParentBytes(sha, l, r)
  {
    ReadShow(l);
    ReadShow(r);
    assert PointerNodes(sha).parent(Some(l), Some(r)) == Some(HashBoth(sha, l, r));
  }

  lemma TextNodesProper(sha: Sha256d)
    ensures Proper(TextNodes(sha))
    ensures forall l, r :: IsLowerHex(TextNodes(sha).parent(l, r)) && |TextNodes(sha).parent(l, r)| == 64
  {
  }

  lemma PointerNodesProper(sha: Sha256d)
    ensures Proper(PointerNodes(sha))
  {
  }
}

/** The two verifiers of spv/verifymerkleproof.go: of the binary format and of the JSON format. */
module Verifiers {
  import opened Outcomes
  import opened ByteStrings
  import opened MerkleTree
  import opened MerkleTreeParents
  import opened ProofFolds
  import opened VerifyProofs
  import opened VarInts
  import opened MerkleProofs
  import opened ProofBinaries

  /** What the verifiers ask of code outside this repository: the Merkle root in the header of a block
      hash, and the id of a serialised transaction. None is an error. */
  datatype Lookups = Lookups(rootOfBlock: string -> Option<string>, txidOf: string -> Option<string>)

  datatype MerkleProofValidation = MerkleProofValidation(txid: string, valid: bool, isLastInTree: bool)

  function ValidateTxOrId(flags: byte, txOrId: string): bool {
    !(|txOrId| > 64 && flags % 2 == 0) && !(|txOrId| == 64 && flags % 2 == 1)
  }

  function TxidFromTxOrId(env: Lookups, txOrId: string): Option<string> {
    if |txOrId| == 64 then Some(txOrId)
    else if |txOrId| > 64 then env.txidOf(txOrId)
    else None
  }

  /** The root in an 80-byte block header, which starts with 4 bytes of version and 32 of parent hash. */
  function ExtractMerkleRootFromBlockHeader(header: string): Option<string> {
    if |header| != 160 || !IsHex(header) then None
    else Some(Hex(Reverse(Unhex(header)[36..68])))
  }

  /** The root comes out of exactly the headers of 80 bytes, and it is the one between the parent's hash
      and the time. */
  lemma RootOfHeader(header: string, version: seq<byte>, parent: Digest, root: Digest, others: seq<byte>)
    requires |version| == 4 && |others| == 12
    ensures ExtractMerkleRootFromBlockHeader(Hex(version + parent + root + others)) == Some(Show(root))
    ensures ExtractMerkleRootFromBlockHeader(header).Some? <==> |header| == 160 && IsHex(header)
  {
    var bytes := version + parent + root + others;
    UnhexHex(bytes);
    LowerIsHex(Hex(bytes));
    assert bytes[36..68] == root;
  }

  function BinaryRoot(env: Lookups, flags: byte, target: string): Option<string> {
    match TargetBits(flags)
    case 0 => env.rootOfBlock(target)
    case 2 => Some(target)
    case 1 => ExtractMerkleRootFromBlockHeader(target)
    case _ => None
  }

  function JsonRoot(env: Lookups, targetType: string, target: string): Option<string> {
    if targetType == "" || targetType == "hash" then
      if |target| != 64 then None else env.rootOfBlock(target)
    else if targetType == "header" && |target| == 160 then ExtractMerkleRootFromBlockHeader(target)
    else if targetType == "merkleRoot" && |target| == 64 then Some(target)
    else None
  }

  /** The common end of both verifiers. */
  ghost function Conclude(sha: Sha256d, txid: Option<string>, root: Option<string>, index: nat, nodes: seq<string>)
    : Option<MerkleProofValidation>
  {
    if txid.None? || root.None? || txid.value == "" || root.value == "" then None
    else
      var v := VerdictOf(sha, txid.value, root.value, index, nodes);
      if v.None? then None
      else Some(MerkleProofValidation(txid.value, v.value.valid, v.value.isLastInTree))
  }

  /** The result of the binary verifier; None is an error. */
  ghost function BinaryOutcome(sha: Sha256d, env: Lookups, proof: seq<byte>): Option<MerkleProofValidation> {
    var mpb := Parse(proof);
    if mpb.Err? || !ValidateTxOrId(mpb.value.flags, mpb.value.txOrId) then None
    else
      Conclude(sha, TxidFromTxOrId(env, mpb.value.txOrId), BinaryRoot(env, mpb.value.flags, mpb.value.target),
               mpb.value.index, mpb.value.nodes)
  }

  /** The result of the JSON verifier; None is an error. */
  ghost function JsonOutcome(sha: Sha256d, env: Lookups, proof: MerkleProof): Option<MerkleProofValidation> {
    if (proof.proofType != "" && proof.proofType != "branch") || proof.composite then None
    else
      Conclude(sha, TxidFromTxOrId(env, proof.txOrId), JsonRoot(env, proof.targetType, proof.target),
               proof.index, proof.nodes)
  }

  /** The txid that the binary verifier reports, also beside an error. */
  function ReportedTxid(env: Lookups, proof: seq<byte>): Option<string> {
    var mpb := Parse(proof);
    if mpb.Err? || !ValidateTxOrId(mpb.value.flags, mpb.value.txOrId) then None
    else TxidFromTxOrId(env, mpb.value.txOrId)
  }

  /** On an error the response may still carry the txid, but never a verdict. */
  method VerifyMerkleProof(sha: Sha256d, env: Lookups, proof: seq<byte>)
    returns (response: Option<MerkleProofValidation>, err: Option<Error>)
    ensures err.None? ==> response.Some?
    ensures (if err.None? then response else None) == BinaryOutcome(sha, env, proof)
    ensures err.Some? && response.Some? ==> !response.value.valid && !response.value.isLastInTree
    ensures (if response.Some? then Some(response.value.txid) else None) == ReportedTxid(env, proof)
  {
    hide ExtractMerkleRootFromBlockHeader, Parse, VerdictOf;
    var mpb := ParseBinaryMerkleProof(proof);
    if mpb.Err? {
      return None, Some(mpb.error);
    }
    var m := mpb.value;
    if !ValidateTxOrId(m.flags, m.txOrId) {
      return None, Some(TxOrIdMismatch);
    }
    var txid := TxidFromTxOrId(env, m.txOrId);
    if txid.None? {
      return None, Some(BadTx);
    }
    response := Some(MerkleProofValidation(txid.value, false, false));
    var merkleRoot := "";
    if TargetBits(m.flags) == 0 {
      var root := env.rootOfBlock(m.target);
      if root.None? {
        return response, Some(HeaderNotFound);
      }
      merkleRoot := root.value;
    } else if TargetBits(m.flags) == 2 {
      merkleRoot := m.target;
    } else if TargetBits(m.flags) == 1 {
      var root := ExtractMerkleRootFromBlockHeader(m.target);
      if root.None? {
        return response, Some(BadTarget);
      }
      merkleRoot := root.value;
    } else {
      return response, Some(InvalidMerkleFlags);
    }
    if txid.value == "" {
      return response, Some(MissingTxid);
    }
    if merkleRoot == "" {
      return response, Some(MissingRoot);
    }
    var verdict := VerifyProof(sha, txid.value, merkleRoot, m.index, m.nodes);
    if verdict.Err? {
      return response, Some(verdict.error);
    }
    response := Some(MerkleProofValidation(txid.value, verdict.value.valid, verdict.value.isLastInTree));
    return response, None;
  }

  method VerifyMerkleProofJSON(sha: Sha256d, env: Lookups, proof: MerkleProof) returns (r: Result<ProofVerdict>)
    ensures r.Ok? <==> JsonOutcome(sha, env, proof).Some?
    ensures r.Ok? ==>
      var outcome := JsonOutcome(sha, env, proof).value;
      r.value == ProofVerdict(outcome.valid, outcome.isLastInTree)
  {
    hide ExtractMerkleRootFromBlockHeader, VerdictOf;
    var txid := TxidFromTxOrId(env, proof.txOrId);
    if txid.None? {
      return Err(BadTx);
    }
    var merkleRoot := JsonRoot(env, proof.targetType, proof.target);
    if merkleRoot.None? {
      return Err(BadTarget);
    }
    if proof.proofType != "" && proof.proofType != "branch" {
      return Err(UnsupportedProofType);
    }
    if proof.composite {
      return Err(UnsupportedProofType);
    }
    if txid.value == "" {
      return Err(MissingTxid);
    }
    if merkleRoot.value == "" {
      return Err(MissingRoot);
    }
    r := VerifyProof(sha, txid.value, merkleRoot.value, proof.index, proof.nodes);
  }

  // ---------- when a proof is refused ----------

  /** A lookup that gives no text that can be used. */
  predicate Unusable(found: Option<string>) {
    found == None || found == Some("")
  }

  /** The JSON verifier errs exactly on composite proofs, on other proof types, on a transaction field that is too
      short or does not decode, on a target that does not fit its type or leads to no root, and where the fold of
      the txid errs. */
  lemma JsonRefuses(sha: Sha256d, env: Lookups, p: MerkleProof)
    ensures var txid := if |p.txOrId| == 64 then Some(p.txOrId) else env.txidOf(p.txOrId);
      JsonOutcome(sha, env, p).None? <==>
        || p.composite || (p.proofType != "" && p.proofType != "branch")
        || |p.txOrId| < 64 || Unusable(txid)
        || ((p.targetType == "" || p.targetType == "hash")
            && (|p.target| != 64 || Unusable(env.rootOfBlock(p.target))))
        || (p.targetType == "header" && (|p.target| != 160 || !IsHex(p.target)))
        || (p.targetType == "merkleRoot" && |p.target| != 64)
        || (p.targetType != "" && p.targetType != "hash" && p.targetType != "header" && p.targetType != "merkleRoot")
        || (forall root :: VerdictOf(sha, txid.value, root, p.index, p.nodes).None?)
  {
    hide VerdictOf, IsHex, Reverse, Hex, Unhex;
    HeaderRoot(p.target);
    if |p.txOrId| >= 64 {
      var txid := if |p.txOrId| == 64 then Some(p.txOrId) else env.txidOf(p.txOrId);
      if txid.Some? {
        VerdictErrsForAll(sha, txid.value, p.index, p.nodes);
      }
    }
  }

  lemma HeaderRoot(header: string)
    ensures ExtractMerkleRootFromBlockHeader(header).Some? <==> |header| == 160 && IsHex(header)
    ensures ExtractMerkleRootFromBlockHeader(header) != Some("")
  {
    hide IsHex;
  }

  /** Whether there is a verdict does not depend on the root. */
  lemma VerdictErrsForAll(sha: Sha256d, txid: string, i: nat, nodes: seq<string>)
    ensures forall r, s :: VerdictOf(sha, txid, r, i, nodes).None? == VerdictOf(sha, txid, s, i, nodes).None?
  {
    hide IsHex, VerifyFold;
  }

  /** The binary verifier errs exactly on bytes that do not parse, on a transaction that does not decode, on a
      target that leads to no root, and where the fold of the txid errs. */
  lemma BinaryRefuses(sha: Sha256d, env: Lookups, proof: seq<byte>)
    requires Parse(proof).Ok?
    ensures var m := Parse(proof).value;
      var txid := if m.flags % 2 == 0 then Some(m.txOrId) else env.txidOf(m.txOrId);
      BinaryOutcome(sha, env, proof).None? <==>
        || Unusable(txid)
        || (m.flags % 8 <= 1 && Unusable(env.rootOfBlock(m.target)))
        || (forall root :: VerdictOf(sha, txid.value, root, m.index, m.nodes).None?)
    ensures BinaryOutcome(sha, env, proof).None? || BinaryOutcome(sha, env, proof).value.txid
      == if Parse(proof).value.flags % 2 == 0 then Parse(proof).value.txOrId
         else env.txidOf(Parse(proof).value.txOrId).value
  {
    hide VerdictOf, Parse, IsHex, Reverse, Hex, Unhex, HashesOrStars;
    var m := Parse(proof).value;
    ParsedIsTyped(proof);
    ParsedTarget(proof);
    HeaderRoot(m.target);
    assert TargetBits(m.flags) == m.flags % 8 / 2;
    var txid := if m.flags % 2 == 0 then Some(m.txOrId) else env.txidOf(m.txOrId);
    if txid.Some? {
      VerdictErrsForAll(sha, txid.value, m.index, m.nodes);
    }
  }

  /** The parsed target has the length of its kind, and is never of the fourth kind. */
  lemma ParsedTarget(proof: seq<byte>)
    requires Parse(proof).Ok?
    ensures var m := Parse(proof).value;
      && TargetBits(m.flags) != 3 && IsHex(m.target)
      && |m.target| == if TargetBits(m.flags) == 1 then 160 else 64
  {
    hide ReadVarInt, ParseTx, ParseNodeList, IsHex, IsLowerHex;
    LowerIsHex(Parse(proof).value.target);
  }

  // ---------- the two verifiers agree ----------

  /** The JSON proofs for which both formats are meant: lower-case text, a known target type, and a single
      branch proof. */
  ghost predicate IsBranchProof(p: MerkleProof) {
    && WellFormed(p)
    && IsLowerHex(p.txOrId) && IsLowerHex(p.target)
    && (forall n :: 0 <= n < |p.nodes| ==> p.nodes[n] == "*" || IsLowerHex(p.nodes[n]))
    && (p.targetType == "" || p.targetType == "hash" || p.targetType == "header" || p.targetType == "merkleRoot")
    && (p.proofType == "" || p.proofType == "branch") && !p.composite
  }

  /** Both verifiers give the same txid, validity, last-in-tree flag or error when the index is in range
      of at most 63 nodes; otherwise the binary verifier always errs. */
  lemma VerifiersAgree(sha: Sha256d, env: Lookups, p: MerkleProof)
    requires IsBranchProof(p)
    ensures BinaryOutcome(sha, env, Encoding(p))
      == if InRange(p.index, |p.nodes|) then JsonOutcome(sha, env, p) else None
  {
    hide Encoding, Parse, Conclude, ExtractMerkleRootFromBlockHeader, WellFormed, InRange, Lower, IsLowerHex,
      Read, Show;
    ProofRoundTrip(p);
    LowerOfLower(p.nodes);
    LowerIsSame(p.txOrId);
    LowerIsSame(p.target);
    FieldsOfWellFormed(p);
  }

  lemma LowerIsSame(s: string)
    requires IsLowerHex(s)
    ensures Lower(s) == s
  {
    ShowRead(s);
  }

  lemma FieldsOfWellFormed(p: MerkleProof)
    requires WellFormed(p)
    ensures |p.txOrId| >= 64 && |p.target| == if p.targetType == "header" then 160 else 64
  {
  }

  // ---------- what a verified proof means ----------

  /** The root against which the binary verifier checks these bytes. */
  function CheckedRoot(env: Lookups, proof: seq<byte>): Option<string> {
    var mpb := Parse(proof);
    if mpb.Ok? then BinaryRoot(env, mpb.value.flags, mpb.value.target) else None
  }

  /** Walking up beside the tree finds two different 64-byte strings with the same double SHA-256. */
  ghost predicate BreaksHash(sha: Sha256d, txids: seq<string>, txid: string, i: nat, nodes: seq<string>) {
    && |txids| >= 1
    && var clash := FindClash(ByteNodes(sha), Map(Read, txids), Read(txid), i, MapNodes(Read, NodesOf(nodes)));
       clash.Some? && IsCollision(sha, clash.value)
  }

  /** Soundness of the binary verifier: when it calls bytes valid against the root of a block, with as many
      nodes as the block's tree has levels, the txid is one of the block, and for an index of the block the
      very one at this index; otherwise the proof breaks the hash function. */
  lemma VerifierSoundness(sha: Sha256d, env: Lookups, txids: seq<string>, proof: seq<byte>)
    requires |txids| >= 1 && AllHashes(txids)
    requires BinaryOutcome(sha, env, proof).Some? && BinaryOutcome(sha, env, proof).value.valid
    requires IsHash(BinaryOutcome(sha, env, proof).value.txid)
    requires CheckedRoot(env, proof) == Some(Root(TextNodes(sha), txids))
    requires |Parse(proof).value.nodes| == Height(|txids|)
    ensures var m, txid := Parse(proof).value, BinaryOutcome(sha, env, proof).value.txid;
      && m.index < Pow2(|m.nodes|)
      && (m.flags % 2 == 0 ==> txid == m.txOrId)
      && (m.flags % 2 == 1 ==> env.txidOf(m.txOrId) == Some(txid))
      && ((txid in txids && (m.index < |txids| ==> txid == txids[m.index]))
          || BreaksHash(sha, txids, txid, m.index, m.nodes))
  {
    hide Parse, VerdictOf, Root, Height, Pow2, IsHash, AllHashes, HashesOrStars, FindClash, IsCollision, Position,
      Read, Map, MapNodes, NodesOf;
    var m := Parse(proof).value;
    ParsedIsTyped(proof);
    ParsedIsInRange(proof);
    ProofSoundness(sha, txids, BinaryOutcome(sha, env, proof).value.txid, m.index, m.nodes);
  }

  // ---------- genuine proofs are valid ----------

  /** The target of a proof names this root: by the hash of a known block, inside an 80-byte block header, or
      as it is. */
  ghost predicate TargetNames(env: Lookups, targetType: string, target: string, root: string) {
    || ((targetType == "" || targetType == "hash") && IsHash(target) && env.rootOfBlock(target) == Some(root))
    || (targetType == "header" && IsHeaderWith(target, root))
    || (targetType == "merkleRoot" && target == root)
  }

  /** A header with this root between the hash of the parent and the time. */
  ghost predicate IsHeaderWith(header: string, root: string) {
    exists version, parent: Digest, hash: Digest, others ::
      |version| == 4 && |others| == 12 && header == Hex(version + parent + hash + others) && root == Show(hash)
  }

  /** A JSON proof for leaf i of a block: a single branch proof whose nodes are the siblings of the leaf, with
      "*" or a copy where there is none. It carries the txid or the whole transaction. */
  ghost predicate IsGenuine(sha: Sha256d, env: Lookups, txids: seq<string>, i: nat, p: MerkleProof)
    requires i < |txids|
  {
    && p.index == i && Genuine(TextNodes(sha), txids, i, NodesOf(p.nodes))
    && (p.txOrId == txids[i]
        || (|p.txOrId| > 64 && IsLowerHex(p.txOrId) && |Read(p.txOrId)| < 0x1_0000_0000_0000_0000
            && env.txidOf(p.txOrId) == Some(txids[i])))
    && TargetNames(env, p.targetType, p.target, Root(TextNodes(sha), txids))
    && (p.proofType == "" || p.proofType == "branch") && !p.composite
  }

  /** Completeness of both verifiers: for every block, every leaf and every genuine proof of it, whatever the
      target is, both verifiers say that the txid is valid. It is flagged as last in the tree if it is, and
      otherwise only if two neighbours in the tree are equal. */
  lemma GenuineIsValid(sha: Sha256d, env: Lookups, txids: seq<string>, i: nat, p: MerkleProof)
    requires i < |txids| < 0x8000_0000_0000_0000 && AllHashes(txids) && IsGenuine(sha, env, txids, i, p)
    ensures exists last: bool ::
      && JsonOutcome(sha, env, p) == Some(MerkleProofValidation(txids[i], true, last))
      && BinaryOutcome(sha, env, Encoding(p)) == Some(MerkleProofValidation(txids[i], true, last))
      && (i == |txids| - 1 ==> last)
      && (last ==> i == |txids| - 1 || HasTwins(TextNodes(sha), txids))
  {
    hide *;
    GenuineIsBranch(sha, env, txids, i, p);
    VerifiersAgree(sha, env, p);
    GenuineJson(sha, env, txids, i, p);
  }

  lemma GenuineIsBranch(sha: Sha256d, env: Lookups, txids: seq<string>, i: nat, p: MerkleProof)
    requires i < |txids| < 0x8000_0000_0000_0000 && AllHashes(txids) && IsGenuine(sha, env, txids, i, p)
    ensures IsBranchProof(p) && InRange(p.index, |p.nodes|)
  {
    hide Height, Pow2, Root, Genuine, IsHex, IsLowerHex, Read, IsHeaderWith, NodesOf, HexOrStar, HashesOrStars;
    GenuineAreHashes(sha, txids, i, p.nodes);
    DisplayedIsHex(p.nodes);
    HeightOfSlice(|txids|);
    LowerIsHexIfLower(p.txOrId);
    HashHas32Bytes(txids[i]);
    RootIsHash(sha, txids);
    TargetIsText(env, p.targetType, p.target, Root(TextNodes(sha), txids));
  }

  lemma HashHas32Bytes(s: string)
    requires IsHash(s)
    ensures |s| == 64 && IsLowerHex(s) && IsHex(s) && |Read(s)| == 32
  {
    LowerIsHex(s);
  }

  lemma LowerIsHexIfLower(s: string)
    ensures IsLowerHex(s) ==> IsHex(s)
  {
    if IsLowerHex(s) {
      LowerIsHex(s);
    }
  }

  lemma TargetIsText(env: Lookups, targetType: string, target: string, root: string)
    requires TargetNames(env, targetType, target, root) && IsHash(root)
    ensures IsLowerHex(target) && IsHex(target)
    ensures |target| == if targetType == "header" then 160 else 64
    ensures targetType == "" || targetType == "hash" || targetType == "header" || targetType == "merkleRoot"
    ensures JsonRoot(env, targetType, target) == Some(root)
  {
    hide IsLowerHex, IsHex, Show, ExtractMerkleRootFromBlockHeader;
    if targetType == "header" {
      var version, parent: Digest, hash: Digest, others :|
        |version| == 4 && |others| == 12 && target == Hex(version + parent + hash + others) && root == Show(hash);
      RootOfHeader(target, version, parent, hash, others);
    }
    LowerIsHexIfLower(target);
  }

  lemma GenuineJson(sha: Sha256d, env: Lookups, txids: seq<string>, i: nat, p: MerkleProof)
    requires i < |txids| && AllHashes(txids) && IsGenuine(sha, env, txids, i, p)
    ensures exists last: bool ::
      && JsonOutcome(sha, env, p) == Some(MerkleProofValidation(txids[i], true, last))
      && (i == |txids| - 1 ==> last)
      && (last ==> i == |txids| - 1 || HasTwins(TextNodes(sha), txids))
  {
    hide Root, Genuine, HasTwins, HasClash, JsonRoot, TargetNames, IsLowerHex, VerdictOf, Distinct;
    var root := Root(TextNodes(sha), txids);
    RootIsHash(sha, txids);
    TargetIsText(env, p.targetType, p.target, root);
    GenuineTextProof(sha, txids, i, p.nodes);
    var v := VerdictOf(sha, txids[i], root, i, p.nodes).value;
    assert JsonOutcome(sha, env, p) == Some(MerkleProofValidation(txids[i], true, v.isLastInTree));
  }
}

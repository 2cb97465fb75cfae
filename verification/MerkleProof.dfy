/** merkleproof.go: a Merkle proof in the TSC format and its encoding. */
module MerkleProofs {
  import opened Outcomes
  import opened ByteStrings
  import opened VarInts
  import opened VerifyProofs

  datatype MerkleProof = MerkleProof(
    index: uint64,
    txOrId: string,
    target: string,
    nodes: seq<string>,
    targetType: string,
    proofType: string,
    composite: bool)

  function FlagsOf(txOrId: string, targetType: string): byte {
    (if |txOrId| > 64 then 1 else 0)
    + (if targetType == "header" then 2 else if targetType == "merkleRoot" then 4 else 0)
  }

  function NodeBytes(n: string): seq<byte> {
    if n == "*" then [1] else [0] + Read(n)
  }

  function NodesBytes(nodes: seq<string>): seq<byte> {
    if nodes == [] then [] else NodeBytes(nodes[0]) + NodesBytes(nodes[1..])
  }

  /** The encoding of a proof whose texts are hexadecimal, part by part from the last field on. */
  function NodePart(mp: MerkleProof): seq<byte> {
    [|mp.nodes| % 256] + NodesBytes(mp.nodes)
  }

  function TargetPart(mp: MerkleProof): seq<byte> {
    Read(mp.target) + NodePart(mp)
  }

  /** The length prefix is a 64-bit integer. */
  function TxLength(mp: MerkleProof): seq<byte> {
    if |mp.txOrId| > 64 then VarInt(|Read(mp.txOrId)| % 0x1_0000_0000_0000_0000) else []
  }

  function TxPart(mp: MerkleProof): seq<byte> {
    TxLength(mp) + (Read(mp.txOrId) + TargetPart(mp))
  }

  function Encoding(mp: MerkleProof): seq<byte> {
    [FlagsOf(mp.txOrId, mp.targetType)] + (VarInt(mp.index) + TxPart(mp))
  }

  ghost predicate Encodable(mp: MerkleProof) {
    IsHex(mp.txOrId) && IsHex(mp.target) && HexOrStar(mp.nodes)
  }

  lemma {:induction false} NodesBytesAppend(nodes: seq<string>, n: string)
    ensures NodesBytes(nodes + [n]) == NodesBytes(nodes) + NodeBytes(n)
  {
    if nodes == [] {
      assert NodesBytes([n]) == NodeBytes(n) + [];
    } else {
      assert (nodes + [n])[1..] == nodes[1..] + [n];
      NodesBytesAppend(nodes[1..], n);
    }
  }

  lemma NoNodes()
    ensures NodesBytes([]) == []
  {
  }

  lemma NodeBytesOf(n: string)
    ensures NodeBytes(n) == if n == "*" then [1] else [0] + Read(n)
  {
  }

  method Bytes(mp: MerkleProof) returns (r: Result<seq<byte>>)
    ensures r == if Encodable(mp) then Ok(Encoding(mp)) else Err(BadHex)
  {
    hide IsHex, Read, NodesBytes, NodeBytes, VarInt, Encoding;
    var index := VarInt(mp.index);
    if !IsHex(mp.txOrId) {
      return Err(BadHex);
    }
    var txOrId := Read(mp.txOrId);
    if !IsHex(mp.target) {
      return Err(BadHex);
    }
    var target := Read(mp.target);
    var nodes: seq<byte> := [];
    assert NodesBytes([]) == [] by { NoNodes(); }
    for n := 0 to |mp.nodes|
      invariant HexOrStarUpTo(mp.nodes, n)
      invariant nodes == NodesBytes(mp.nodes[..n])
    {
      var node := mp.nodes[n];
      assert mp.nodes[..n + 1] == mp.nodes[..n] + [node];
      NodesBytesAppend(mp.nodes[..n], node);
      NodeBytesOf(node);
      if node == "*" {
        nodes := nodes + [1];
      } else {
        if !IsHex(node) {
          return Err(BadHex);
        }
        nodes := nodes + ([0] + Read(node));
      }
    }
    assert mp.nodes[..|mp.nodes|] == mp.nodes;
    var flags := 0;
    var txLength: seq<byte> := [];
    if |mp.txOrId| > 64 {
      flags := flags + 1;
      txLength := VarInt(|txOrId| % 0x1_0000_0000_0000_0000);
    }
    if mp.targetType == "header" {
      flags := flags + 2;
    } else if mp.targetType == "merkleRoot" {
      flags := flags + 4;
    }
    var bytes := Assemble(mp, flags, index, txLength, txOrId, target, nodes, |mp.nodes|);
    return Ok(bytes);
  }

  /** The final appends. */
  method Assemble(ghost mp: MerkleProof, flags: byte, index: seq<byte>, txLength: seq<byte>, txOrId: seq<byte>,
                  target: seq<byte>, nodes: seq<byte>, nodeCount: nat)
    returns (bytes: seq<byte>)
    requires flags == FlagsOf(mp.txOrId, mp.targetType) && index == VarInt(mp.index)
    requires txLength == TxLength(mp) && txOrId == Read(mp.txOrId) && target == Read(mp.target)
    requires nodes == NodesBytes(mp.nodes) && nodeCount == |mp.nodes|
    ensures bytes == Encoding(mp)
  {
    hide TxLength, Read, VarInt, NodesBytes, FlagsOf;
    bytes := [];
    bytes := bytes + [flags];
    Append(bytes, index, TxPart(mp));
    bytes := bytes + index;
    Append(bytes, txLength, txOrId + TargetPart(mp));
    bytes := bytes + txLength;
    Append(bytes, txOrId, TargetPart(mp));
    bytes := bytes + txOrId;
    Append(bytes, target, NodePart(mp));
    bytes := bytes + target;
    Append(bytes, [nodeCount % 256], nodes);
    bytes := bytes + [nodeCount % 256];
    bytes := bytes + nodes;
  }

  lemma Append(a: seq<byte>, b: seq<byte>, c: seq<byte>)
    ensures a + (b + c) == (a + b) + c
  {
  }
}

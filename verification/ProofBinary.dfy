/** parseBinaryMerkleProof of spv/verifymerkleproof.go, and its round trip with the encoder. */
module ProofBinaries {
  import opened Outcomes
  import opened ByteStrings
  import opened MerkleTree
  import opened VarInts
  import opened Codecs
  import opened VerifyProofs
  import opened MerkleProofs

  datatype MerkleProofBinary = MerkleProofBinary(
    flags: byte,
    index: uint64,
    txOrId: string,
    target: string,
    nodes: seq<string>)

  /** 1 << n in uint64 arithmetic: every bit is shifted out from 64 on. */
  function ShiftOne(n: nat): nat {
    if n >= 64 then 0 else Pow2(n)
  }

  /** The two target bits of the flags, as a number from 0 to 3. */
  function TargetBits(flags: byte): nat {
    (flags / 2) % 4
  }

  /** The first `n` bytes and the rest; a slice past the end panics. */
  function Split(b: seq<byte>, n: nat): (r: Result<(seq<byte>, seq<byte>)>)
    ensures r.Ok? ==> |b| == n + |r.value.1|
  {
    if |b| < n then Err(Panic) else Ok((b[..n], b[n..]))
  }

  /** `count` nodes from the front of the bytes. */
  function ParseNodes(b: seq<byte>, count: nat): (r: Result<seq<string>>)
    ensures r.Ok? ==> |r.value| == count
  {
    if count == 0 then Ok([])
    else if b == [] then Err(Panic)
    else if b[0] == 0 then
      var node :- Split(b[1..], 32);
      var others :- ParseNodes(node.1, count - 1);
      Ok([Show(node.0)] + others)
    else if b[0] == 1 then
      var others :- ParseNodes(b[1..], count - 1);
      Ok(["*"] + others)
    else Err(InvalidNodeType)
  }

  /** The txOrId field and what follows it; its length is 32 or is read first. */
  function ParseTx(flags: byte, b: seq<byte>): Result<(seq<byte>, seq<byte>)> {
    if flags % 2 == 0 then Split(b, 32)
    else
      var length :- ReadVarInt(b);
      if length.0 <= 32 then Err(InvalidTxLength) else Split(b[length.1..], length.0)
  }

  function ParseTarget(flags: byte, b: seq<byte>): Result<(seq<byte>, seq<byte>)> {
    match TargetBits(flags)
    case 0 => Split(b, 32)
    case 2 => Split(b, 32)
    case 1 => Split(b, 80)
    case _ => Err(InvalidMerkleFlags)
  }

  function ParseNodeList(index: nat, b: seq<byte>): Result<seq<string>> {
    var nodeCount :- ReadVarInt(b);
    if index >= ShiftOne(nodeCount.0) then Err(InvalidProof)
    else ParseNodes(b[nodeCount.1..], nodeCount.0)
  }

  /** The parser as a function of the bytes that are left. */
  function Parse(proof: seq<byte>): Result<MerkleProofBinary> {
    if proof == [] then Err(Panic)
    else
      var flags := proof[0];
      var index :- ReadVarInt(proof[1..]);
      var tx :- ParseTx(flags, proof[1..][index.1..]);
      var target :- ParseTarget(flags, tx.1);
      var nodes :- ParseNodeList(index.0, target.1);
      Ok(MerkleProofBinary(flags, index.0, Show(tx.0), Show(target.0), nodes))
  }

  lemma SplitAt(b: seq<byte>, offset: nat, n: nat)
    requires offset + n <= |b|
    ensures Split(b[offset..], n) == Ok((b[offset..offset + n], b[offset + n..]))
  {
    assert b[offset..][..n] == b[offset..offset + n];
    assert b[offset..][n..] == b[offset + n..];
  }

  method ParseBinaryMerkleProof(proof: seq<byte>) returns (r: Result<MerkleProofBinary>)
    ensures r == Parse(proof)
  {
    hide ParseTx, ParseTarget, ParseNodeList, ReadVarInt, Show;
    var offset := 0;
    if |proof| <= offset {
      return Err(Panic);
    }
    var flags := proof[offset];
    offset := offset + 1;
    var index := ReadVarInt(proof[offset..]);
    if index.Err? {
      return Err(index.error);
    }
    offset := offset + index.value.1;
    assert proof[offset..] == proof[1..][index.value.1..];
    var tx := ParseTxField(proof, offset, flags);
    if tx.Err? {
      return Err(tx.error);
    }
    offset := tx.value.1;
    var target := ParseTargetField(proof, offset, flags);
    if target.Err? {
      return Err(target.error);
    }
    offset := target.value.1;
    var nodes := ParseNodeLoop(proof, offset, index.value.0);
    if nodes.Err? {
      return Err(nodes.error);
    }
    return Ok(MerkleProofBinary(flags, index.value.0, Show(tx.value.0), Show(target.value.0), nodes.value));
  }

  method ParseTxField(proof: seq<byte>, start: nat, flags: byte) returns (r: Result<(seq<byte>, nat)>)
    requires start <= |proof|
    ensures r.Ok? ==> r.value.1 <= |proof|
    ensures Left(proof, r) == ParseTx(flags, proof[start..])
  {
    hide ReadVarInt;
    var offset := start;
    var txLength := 32;
    if flags % 2 == 1 {
      var length := ReadVarInt(proof[offset..]);
      if length.Err? {
        return Err(length.error);
      }
      offset := offset + length.value.1;
      assert proof[offset..] == proof[start..][length.value.1..];
      txLength := length.value.0;
      if txLength <= 32 {
        return Err(InvalidTxLength);
      }
    }
    if |proof| < offset + txLength {
      return Err(Panic);
    }
    SplitAt(proof, offset, txLength);
    return Ok((proof[offset..offset + txLength], offset + txLength));
  }

  method ParseTargetField(proof: seq<byte>, start: nat, flags: byte) returns (r: Result<(seq<byte>, nat)>)
    requires start <= |proof|
    ensures r.Ok? ==> r.value.1 <= |proof|
    ensures Left(proof, r) == ParseTarget(flags, proof[start..])
  {
    var targetLength := 32;
    if TargetBits(flags) == 1 {
      targetLength := 80;
    } else if TargetBits(flags) == 3 {
      return Err(InvalidMerkleFlags);
    }
    if |proof| < start + targetLength {
      return Err(Panic);
    }
    SplitAt(proof, start, targetLength);
    return Ok((proof[start..start + targetLength], start + targetLength));
  }

  /** The last part of the parser: the node count, the range test of the index, and the node loop. */
  method ParseNodeLoop(proof: seq<byte>, start: nat, index: nat) returns (r: Result<seq<string>>)
    requires start <= |proof|
    ensures r == ParseNodeList(index, proof[start..])
  {
    hide Show;
    var nodeCount := ReadVarInt(proof[start..]);
    if nodeCount.Err? {
      return Err(nodeCount.error);
    }
    var offset := start + nodeCount.value.1;
    assert proof[offset..] == proof[start..][nodeCount.value.1..];
    if index >= ShiftOne(nodeCount.value.0) {
      return Err(InvalidProof);
    }
    ghost var whole := ParseNodes(proof[offset..], nodeCount.value.0);
    PrependNoNodes(whole);
    var nodes := [];
    var i := 0;
    while i < nodeCount.value.0
      invariant 0 <= i <= nodeCount.value.0 && offset <= |proof|
      invariant whole == PrependNodes(nodes, ParseNodes(proof[offset..], nodeCount.value.0 - i))
    {
      if |proof| <= offset {
        return Err(Panic);
      }
      ghost var left := proof[offset..];
      var t := proof[offset];
      offset := offset + 1;
      assert proof[offset..] == left[1..];
      var n := "*";
      if t == 0 {
        if |proof| < offset + 32 {
          return Err(Panic);
        }
        n := Show(proof[offset..offset + 32]);
        assert proof[offset..offset + 32] == left[1..][..32];
        assert proof[offset + 32..] == left[1..][32..];
        offset := offset + 32;
      } else if t != 1 {
        return Err(InvalidNodeType);
      }
      PrependOneNode(nodes, n, ParseNodes(proof[offset..], nodeCount.value.0 - i - 1));
      nodes := nodes + [n];
      i := i + 1;
    }
    assert nodes + [] == nodes;
    return Ok(nodes);
  }

  function PrependNodes(nodes: seq<string>, others: Result<seq<string>>): Result<seq<string>> {
    if others.Ok? then Ok(nodes + others.value) else others
  }

  lemma PrependNoNodes(others: Result<seq<string>>)
    ensures PrependNodes([], others) == others
  {
    if others.Ok? {
      assert [] + others.value == others.value;
    }
  }

  lemma PrependOneNode(nodes: seq<string>, n: string, others: Result<seq<string>>)
    ensures PrependNodes(nodes + [n], others) == PrependNodes(nodes, PrependNodes([n], others))
  {
    if others.Ok? {
      assert nodes + [n] + others.value == nodes + ([n] + others.value);
    }
  }

  // ---------- round trip ----------

  /** The proofs the format is made for: a txid or a longer transaction, a target of the length that its
      type asks for, nodes of 32 bytes, and a node count that fits in one byte of a VarInt. */
  ghost predicate WellFormed(mp: MerkleProof) {
    && IsHex(mp.txOrId) && |mp.txOrId| >= 64 && |Read(mp.txOrId)| < 0x1_0000_0000_0000_0000
    && IsHex(mp.target) && |mp.target| == (if mp.targetType == "header" then 160 else 64)
    && HashesOrStars(mp.nodes) && |mp.nodes| < 0xfd
  }

  /** The text of the same bytes in lower case. */
  function Lower(s: string): string {
    Show(Read(s))
  }

  function LowerNode(n: string): string {
    if n == "*" then n else Lower(n)
  }

  /** The index is one of the 2^n positions below n nodes, and a 64-bit shift can hold that number. */
  predicate InRange(index: nat, n: nat) {
    n <= 63 && index < Pow2(n)
  }

  lemma SplitParts(field: seq<byte>, rest: seq<byte>)
    ensures Split(field + rest, |field|) == Ok((field, rest))
  {
    assert (field + rest)[..|field|] == field && (field + rest)[|field|..] == rest;
  }

  /** One node, and what is parsed behind it. */
  lemma ParseOneNode(n: string, tail: seq<byte>, count: nat)
    requires n == "*" || (|n| == 64 && IsHex(n))
    ensures ParseNodes(NodeBytes(n) + tail, count + 1) ==
      var others := ParseNodes(tail, count);
      if others.Ok? then Ok([LowerNode(n)] + others.value) else others
  {
    hide Read, Show, IsHex;
    var b := NodeBytes(n) + tail;
    if n == "*" {
      assert b[1..] == tail;
    } else {
      Append([0], Read(n), tail);
      assert b[1..] == Read(n) + tail;
      SplitParts(Read(n), tail);
    }
  }

  lemma {:induction false} ParseNodesBytes(nodes: seq<string>, rest: seq<byte>)
    requires HashesOrStars(nodes)
    ensures ParseNodes(NodesBytes(nodes) + rest, |nodes|) == Ok(Map(LowerNode, nodes))
  {
    hide IsHex, NodeBytes, LowerNode, Map;
    MapFirst(LowerNode, nodes);
    if nodes != [] {
      hide ParseNodes;
      var n, others := nodes[0], nodes[1..];
      var tail := NodesBytes(others) + rest;
      ParseNodesBytes(others, rest);
      ParseOneNode(n, tail, |others|);
      Append(NodeBytes(n), NodesBytes(others), rest);
      assert NodesBytes(nodes) + rest == NodeBytes(n) + tail;
    }
  }

  lemma ParseNodePart(mp: MerkleProof)
    requires HashesOrStars(mp.nodes) && |mp.nodes| < 0xfd
    ensures ParseNodeList(mp.index, NodePart(mp)) ==
      if InRange(mp.index, |mp.nodes|) then Ok(Map(LowerNode, mp.nodes)) else Err(InvalidProof)
  {
    hide ParseNodes, NodesBytes, Map;
    var k := |mp.nodes|;
    var body := NodesBytes(mp.nodes);
    assert ReadVarInt([k] + body) == Ok((k, 1));
    assert ([k] + body)[1..] == body;
    ParseNodesBytes(mp.nodes, []);
    assert body + [] == body;
  }

  lemma ParseTargetPart(mp: MerkleProof)
    requires WellFormed(mp)
    ensures ParseTarget(FlagsOf(mp.txOrId, mp.targetType), TargetPart(mp)) == Ok((Read(mp.target), NodePart(mp)))
  {
    hide NodePart, IsHex, Split, VarInt;
    SplitParts(Read(mp.target), NodePart(mp));
  }

  lemma ParseTxPart(mp: MerkleProof)
    requires WellFormed(mp)
    ensures ParseTx(FlagsOf(mp.txOrId, mp.targetType), TxPart(mp)) == Ok((Read(mp.txOrId), TargetPart(mp)))
  {
    hide TargetPart, Split, ReadVarInt;
    var tx := Read(mp.txOrId);
    SplitParts(tx, TargetPart(mp));
    if |mp.txOrId| > 64 {
      assert |tx| > 32;
      VarIntRoundTrip(|tx|, tx + TargetPart(mp));
    } else {
      assert TxPart(mp) == tx + TargetPart(mp);
    }
  }

  /** The TSC round trip: for every well-formed proof, parsing its encoding gives back its fields, texts
      in lower case, exactly when the index is in range of at most 63 nodes; otherwise it is rejected. */
  lemma ProofRoundTrip(mp: MerkleProof)
    requires WellFormed(mp)
    ensures Parse(Encoding(mp)) ==
      if InRange(mp.index, |mp.nodes|)
      then Ok(MerkleProofBinary(FlagsOf(mp.txOrId, mp.targetType), mp.index, Lower(mp.txOrId), Lower(mp.target),
                                Map(LowerNode, mp.nodes)))
      else Err(InvalidProof)
  {
    hide TxPart, WellFormed, ParseTx, ParseTarget, ParseNodeList, Split, ReadVarInt, FlagsOf, Map, InRange, Show;
    var flags := FlagsOf(mp.txOrId, mp.targetType);
    var tail := VarInt(mp.index) + TxPart(mp);
    assert Encoding(mp)[1..] == tail;
    VarIntRoundTrip(mp.index, TxPart(mp));
    ParseTxPart(mp);
    ParseTargetPart(mp);
    NodesOfWellFormed(mp);
    ParseNodePart(mp);
  }

  lemma NodesOfWellFormed(mp: MerkleProof)
    requires WellFormed(mp)
    ensures HashesOrStars(mp.nodes) && |mp.nodes| < 0xfd
    ensures Encodable(mp)
  {
  }

  /** No byte string whatever parses to 64 or more nodes or to an index out of range: from 64 on, the
      shift in the range test has lost its bit. */
  lemma ParsedIsInRange(proof: seq<byte>)
    ensures Parse(proof).Ok? ==> InRange(Parse(proof).value.index, |Parse(proof).value.nodes|)
  {
    hide ParseTx, ParseTarget, Split, ReadVarInt, Show;
  }

  lemma {:induction false} ParsedNodesAreHashes(b: seq<byte>, count: nat)
    ensures ParseNodes(b, count).Ok? ==> HashesOrStars(ParseNodes(b, count).value)
    decreases count
  {
    hide Show, IsHex, IsLowerHex;
    if ParseNodes(b, count).Ok? && count > 0 {
      if b[0] == 0 {
        var node := Split(b[1..], 32).value;
        ParsedNodesAreHashes(node.1, count - 1);
        LowerIsHex(Show(node.0));
      } else {
        ParsedNodesAreHashes(b[1..], count - 1);
      }
    }
  }

  /** Whatever the bytes are, the nodes that come out are 32-byte hashes or "*", and a proof without the
      transaction flag names its transaction by a 32-byte id. */
  lemma ParsedIsTyped(proof: seq<byte>)
    ensures Parse(proof).Ok? ==>
      var m := Parse(proof).value;
      && HashesOrStars(m.nodes)
      && (m.flags % 2 == 0 ==> |m.txOrId| == 64) && (m.flags % 2 == 1 ==> |m.txOrId| > 64)
  {
    hide ReadVarInt, ParseNodes, HashesOrStars;
    if Parse(proof).Ok? {
      var index := ReadVarInt(proof[1..]).value;
      var tx := ParseTx(proof[0], proof[1..][index.1..]).value;
      var target := ParseTarget(proof[0], tx.1).value;
      var nodeCount := ReadVarInt(target.1).value;
      ParsedNodesAreHashes(target.1[nodeCount.1..], nodeCount.0);
    }
  }

  lemma {:induction false} LowerOfLower(nodes: seq<string>)
    requires forall n :: 0 <= n < |nodes| ==> nodes[n] == "*" || IsLowerHex(nodes[n])
    ensures Map(LowerNode, nodes) == nodes
  {
    forall n | 0 <= n < |nodes| ensures LowerNode(nodes[n]) == nodes[n] {
      ShowRead(nodes[n]);
    }
  }
}

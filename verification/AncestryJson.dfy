/** spv/ancestry_json.go: a nested ancestry and its flattening into chunks. */
module AncestryJsons {
  import opened Outcomes
  import opened ByteStrings
  import opened VarInts
  import opened Codecs
  import opened MerkleProofs
  import opened AncestryBinary

  /** mAPI responses are kept as the bytes that they encode to. */
  datatype AncestryJSON = AncestryJSON(
    txid: string,
    rawTx: string,
    proof: Option<MerkleProof>,
    mapiResponses: seq<seq<byte>>,
    parents: map<string, AncestryJSON>)

  // ---------- the writer ----------

  function Field(flag: byte, data: seq<byte>): seq<byte> {
    ChunkBytes(Chunk(flag, data))
  }

  /** One mAPI response behind its length. */
  function ResponseBytes(response: seq<byte>): seq<byte> {
    VarInt(|response| % 0x1_0000_0000_0000_0000) + response
  }

  /** The writer puts the number of responses where the parser reads a length. */
  function MapiBytes(responses: seq<seq<byte>>): seq<byte> {
    if responses == [] then []
    else [FLAG_MAPI] + (VarInt(|responses| % 0x1_0000_0000_0000_0000) + Concat(ResponseBytes, responses))
  }

  function ProofBytes(proof: Option<MerkleProof>): seq<byte> {
    if proof.Some? then Field(FLAG_PROOF, Encoding(proof.value)) else []
  }

  /** What an ancestor writes of itself. */
  function OwnBytes(n: AncestryJSON): seq<byte> {
    Field(FLAG_TX, Unhex(n.rawTx)) + (MapiBytes(n.mapiResponses) + ProofBytes(n.proof))
  }

  ghost predicate NodeEncodable(n: AncestryJSON) {
    IsHex(n.rawTx) && (n.proof.Some? ==> Encodable(n.proof.value))
  }

  /** The writer goes on to the parents of an ancestor that has no proof. */
  predicate Descends(n: AncestryJSON) {
    n.proof.None? && n.parents != map[]
  }

  /** The bytes are those of the parents with these keys, in some order. A map is walked in any order, so
      there are many such byte strings; the parent that was written last is split off. */
  ghost predicate Serialises(e: AncestryJSON, keys: set<string>, b: seq<byte>)
    requires keys <= e.parents.Keys
    decreases e, keys
  {
    if keys == {} then b == []
    else exists k, before, below {:trigger IsLast(e, keys, b, k, before, below)} ::
      && IsLast(e, keys, b, k, before, below)
      && Serialises(e, keys - {k}, before)
      && (if Descends(e.parents[k]) then Serialises(e.parents[k], e.parents[k].parents.Keys, below) else below == [])
  }

  ghost predicate IsLast(
    e: AncestryJSON, keys: set<string>, b: seq<byte>, k: string, before: seq<byte>, below: seq<byte>)
    requires keys <= e.parents.Keys
  {
    k in keys && b == before + (OwnBytes(e.parents[k]) + below)
  }

  /** Everything that the writer reaches can be encoded. */
  ghost predicate AllNodesEncodable(e: AncestryJSON)
    decreases e
  {
    forall k :: k in e.parents ==>
      NodeEncodable(e.parents[k]) && (Descends(e.parents[k]) ==> AllNodesEncodable(e.parents[k]))
  }

  /** serialiseInputs, walking the map of parents in an arbitrary order. */
  method SerialiseInputs(e: AncestryJSON) returns (r: Result<seq<byte>>)
    ensures r.Ok? <==> AllNodesEncodable(e)
    ensures r.Ok? ==> Serialises(e, e.parents.Keys, r.value)
    decreases e
  {
    hide OwnBytes, NodeEncodable;
    var binary: seq<byte> := [];
    var todo := e.parents.Keys;
    ghost var done: set<string> := {};
    while todo != {}
      invariant todo <= e.parents.Keys && done == e.parents.Keys - todo
      invariant Serialises(e, done, binary)
      invariant forall k :: k in done ==>
        NodeEncodable(e.parents[k]) && (Descends(e.parents[k]) ==> AllNodesEncodable(e.parents[k]))
      decreases todo
    {
      var k :| k in todo;
      var input := e.parents[k];
      var own := SerialiseOwn(input);
      if own.Err? {
        return own;
      }
      var below := Ok([]);
      if input.proof.None? && input.parents != map[] {
        below := SerialiseInputs(input);
        if below.Err? {
          return below;
        }
      }
      ghost var before := binary;
      binary := binary + (own.value + below.value);
      assert IsLast(e, done + {k}, binary, k, before, below.value);
      assert done + {k} - {k} == done;
      done := done + {k};
      todo := todo - {k};
    }
    assert done == e.parents.Keys;
    return Ok(binary);
  }

  /** The part of the loop body that does not recurse. */
  method SerialiseOwn(input: AncestryJSON) returns (r: Result<seq<byte>>)
    ensures r == if NodeEncodable(input) then Ok(OwnBytes(input)) else Err(BadHex)
  {
    hide IsHex, Unhex, Encoding, VarInt, Encodable;
    if !IsHex(input.rawTx) {
      return Err(BadHex);
    }
    var currentTx := Unhex(input.rawTx);
    var binary: seq<byte> := [FLAG_TX];
    binary := binary + (VarInt(|currentTx| % 0x1_0000_0000_0000_0000) + currentTx);
    var mapi: seq<byte> := [];
    if |input.mapiResponses| > 0 {
      mapi := [FLAG_MAPI];
      var body := VarInt(|input.mapiResponses| % 0x1_0000_0000_0000_0000);
      ghost var count := body;
      for n := 0 to |input.mapiResponses|
        invariant body == count + Concat(ResponseBytes, input.mapiResponses[..n])
      {
        var mapiR := input.mapiResponses[n];
        assert input.mapiResponses[..n + 1] == input.mapiResponses[..n] + [mapiR];
        ConcatAppend(ResponseBytes, input.mapiResponses[..n], [mapiR]);
        ConcatOne(ResponseBytes, mapiR);
        Append(count, Concat(ResponseBytes, input.mapiResponses[..n]), ResponseBytes(mapiR));
        body := body + (VarInt(|mapiR| % 0x1_0000_0000_0000_0000) + mapiR);
      }
      assert input.mapiResponses[..|input.mapiResponses|] == input.mapiResponses;
      mapi := mapi + body;
    }
    assert mapi == MapiBytes(input.mapiResponses);
    var proofBytes: seq<byte> := [];
    if input.proof.Some? {
      var proof := Bytes(input.proof.value);
      if proof.Err? {
        return proof;
      }
      proofBytes := [FLAG_PROOF] + (VarInt(|proof.value| % 0x1_0000_0000_0000_0000) + proof.value);
    }
    return Ok(binary + (mapi + proofBytes));
  }

  /** AncestryJSON.Bytes: the version and then the parents; the transaction itself is not written. */
  method AncestryBytes(e: AncestryJSON) returns (r: Result<seq<byte>>)
    ensures r.Ok? <==> AllNodesEncodable(e)
    ensures r.Ok? ==> IsBytesOf(e, r.value)
  {
    hide Serialises, AllNodesEncodable;
    var ancestryBinary: seq<byte> := [1];
    var binary := SerialiseInputs(e);
    if binary.Err? {
      return binary;
    }
    ancestryBinary := ancestryBinary + binary.value;
    assert ancestryBinary[1..] == binary.value;
    return Ok(ancestryBinary);
  }

  /** The bytes are the result of some walk over the maps. */
  ghost predicate IsBytesOf(e: AncestryJSON, b: seq<byte>) {
    b != [] && b[0] == 1 && Serialises(e, e.parents.Keys, b[1..])
  }
}

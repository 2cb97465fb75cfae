/** The CrunchyNut format of spv/envelope.go: an envelope is written parent by parent, and read back by a
    recursive parser that fills envelope objects while it moves a shared offset. */
module CrunchyNuts {
  import opened Outcomes
  import opened ByteStrings
  import opened VarInts
  import opened Codecs
  import opened MerkleProofs
  import opened ProofBinaries
  import opened VerifyProofs
  import opened AncestryBinary
  import opened AncestryJsons

  // ---------- the writer ----------

  /** mAPI responses are written one flake each. */
  function MapiFlake(response: seq<byte>): seq<byte> {
    Field(FLAG_MAPI, response)
  }

  function MapiFlakes(responses: seq<seq<byte>>): seq<byte> {
    Concat(MapiFlake, responses)
  }

  /** serialiseCrunchyNutInputs over the parents of an envelope, in any order. Defects of hexadecimal text
      are only reported on the console, and the walk ends after the first parent without a proof. */
  method SerialiseInputs(e: AncestryJSON) returns (flake: seq<byte>, err: Option<Error>)
    ensures forall id :: e.parents.Keys == {id} && IsChainShape(e.parents[id]) ==>
      err.None? && flake == ChainBytes(e.parents[id])
    decreases e
  {
    hide ChunkBytes, Encoding, Encodable, Unhex, MapiFlakes;
    flake := [];
    err := None;
    var todo := e.parents.Keys;
    while todo != {}
      invariant todo <= e.parents.Keys
      invariant todo == e.parents.Keys ==> flake == []
      invariant forall id :: e.parents.Keys == {id} && IsChainShape(e.parents[id]) && todo == {} ==>
        flake == ChainBytes(e.parents[id])
      decreases todo
    {
      var id :| id in todo;
      var input := e.parents[id];
      ghost var before := flake;
      flake := SerialiseOwn(input, flake);
      if input.proof.Some? {
        var proof := Bytes(input.proof.value);
        if proof.Err? {
          return flake, Some(proof.error);
        }
        Behind(before, OwnFlakes(input), Field(FLAG_PROOF, proof.value));
        flake := flake + Field(FLAG_PROOF, proof.value);
      } else if input.parents != map[] {
        var below;
        below, err := SerialiseInputs(input);
        Behind(before, OwnFlakes(input), below);
        flake := flake + below;
        return;
      }
      todo := todo - {id};
    }
  }

  lemma Behind(before: seq<byte>, own: seq<byte>, rest: seq<byte>)
    ensures before == [] ==> (before + own) + rest == own + rest
  {
    assert before == [] ==> before + own == own;
  }

  /** The transaction of a parent and its responses, behind what has been written before. */
  method SerialiseOwn(input: AncestryJSON, before: seq<byte>) returns (flake: seq<byte>)
    ensures flake == before + OwnFlakes(input)
  {
    hide ChunkBytes, Unhex;
    flake := before + Field(FLAG_TX, Unhex(input.rawTx));
    ghost var tx := flake;
    for n := 0 to |input.mapiResponses|
      invariant flake == tx + MapiFlakes(input.mapiResponses[..n])
    {
      var mapiR := input.mapiResponses[n];
      assert input.mapiResponses[..n + 1] == input.mapiResponses[..n] + [mapiR];
      ConcatAppend(MapiFlake, input.mapiResponses[..n], [mapiR]);
      ConcatOne(MapiFlake, mapiR);
      Append(tx, MapiFlakes(input.mapiResponses[..n]), MapiFlake(mapiR));
      flake := flake + MapiFlake(mapiR);
    }
    assert input.mapiResponses[..|input.mapiResponses|] == input.mapiResponses;
    Append(before, Field(FLAG_TX, Unhex(input.rawTx)), MapiFlakes(input.mapiResponses));
  }

  /** The envelope itself is written like a parent, behind the version. */
  method CrunchyNutBytes(e: AncestryJSON) returns (flake: seq<byte>)
    ensures IsChainShape(e) ==> flake == [1] + ChainBytes(e)
  {
    hide ChainBytes;
    flake := [1];
    var initialTx := AncestryJSON("", "", None, [], map[e.txid := e]);
    var inputs, err := SerialiseInputs(initialTx);
    assert initialTx.parents.Keys == {e.txid} && initialTx.parents[e.txid] == e;
    flake := flake + inputs;
  }

  /** One parent after the other, down to a proof. */
  ghost predicate IsChainShape(e: AncestryJSON)
    decreases e
  {
    if e.proof.Some? then Encodable(e.proof.value)
    else exists id :: e.parents.Keys == {id} && IsChainShape(e.parents[id])
  }

  ghost function OnlyParent(e: AncestryJSON): string
    requires exists id :: e.parents.Keys == {id}
    ensures e.parents.Keys == {OnlyParent(e)}
  {
    var id :| e.parents.Keys == {id};
    id
  }

  function OwnFlakes(e: AncestryJSON): seq<byte> {
    Field(FLAG_TX, Unhex(e.rawTx)) + MapiFlakes(e.mapiResponses)
  }

  ghost function ChainBytes(e: AncestryJSON): seq<byte>
    requires IsChainShape(e)
    decreases e
  {
    OwnFlakes(e)
    + if e.proof.Some? then Field(FLAG_PROOF, Encoding(e.proof.value)) else ChainBytes(e.parents[OnlyParent(e)])
  }

  /** What follows the responses of a link: its proof, or the chain of its parent. */
  ghost function EndBytes(e: AncestryJSON): seq<byte>
    requires IsChainShape(e)
  {
    if e.proof.Some? then Field(FLAG_PROOF, Encoding(e.proof.value)) else ChainBytes(e.parents[OnlyParent(e)])
  }

  // ---------- the envelopes that the parser fills ----------

  class Envelope {
    var txid: string
    var rawTx: string
    var proof: Option<MerkleProof>
    var mapiResponses: seq<seq<byte>>
    var parents: map<string, Envelope>

    constructor ()
      ensures IsEmpty()
    {
      txid, rawTx, proof, mapiResponses, parents := "", "", None, [], map[];
    }

    predicate IsEmpty()
      reads this
    {
      txid == "" && rawTx == "" && proof == None && mapiResponses == [] && parents == map[]
    }

    /** Neither a proof nor parents have been filled in. */
    predicate IsOpen()
      reads this
    {
      proof == None && parents == map[]
    }
  }

  /** The objects below this envelope have the content of the value. */
  ghost predicate Represents(e: Envelope, v: AncestryJSON)
    reads *
    decreases v
  {
    && e.txid == v.txid && e.rawTx == v.rawTx && e.proof == v.proof && e.mapiResponses == v.mapiResponses
    && e.parents.Keys == v.parents.Keys
    && forall id :: id in v.parents ==> Represents(e.parents[id], v.parents[id])
  }

  // ---------- the chains that are written ----------

  function FlagType(flags: byte): string {
    match TargetBits(flags)
    case 0 => "blockhash"
    case 2 => "blockhash"
    case 1 => "header"
    case _ => ""
  }

  /** A proof of which nothing but the target type can get lost: its text is in lower case, and it has
      neither a proof type nor the composite mark, which the binary form drops. */
  ghost predicate PlainProof(mp: MerkleProof) {
    && WellFormed(mp) && InRange(mp.index, |mp.nodes|) && |Encoding(mp)| < 0x1_0000_0000_0000_0000
    && mp.proofType == "" && !mp.composite
    && IsLowerHex(mp.txOrId) && IsLowerHex(mp.target)
    && forall n :: 0 <= n < |mp.nodes| ==> mp.nodes[n] == "*" || IsLowerHex(mp.nodes[n])
  }

  /** The target types that the parser knows how to name. */
  predicate LastingType(targetType: string) {
    targetType == "header" || targetType == "blockhash"
  }

  ghost predicate LastingProof(mp: MerkleProof) {
    PlainProof(mp) && LastingType(mp.targetType)
  }

  /** The parser of a single mAPI response; None is an error. */
  type CallbackParser = seq<byte> -> Option<seq<byte>>

  /** The texts of an envelope are those of one transaction, which survives its encoding, and its responses
      survive theirs. */
  ghost predicate IsLink(sha: Sha256d, dec: Decoders, callback: CallbackParser, v: AncestryJSON) {
    && |Unhex(v.rawTx)| < 0x1_0000_0000_0000_0000
    && dec.tx(Unhex(v.rawTx)).Some?
    && (var tx := dec.tx(Unhex(v.rawTx)).value;
        v.rawTx == Hex(tx.raw) && v.txid == Show(sha(tx.raw)))
    && forall n :: 0 <= n < |v.mapiResponses| ==> GoodResponse(callback, v.mapiResponses[n])
  }

  predicate GoodResponse(callback: CallbackParser, response: seq<byte>) {
    |response| < 0x1_0000_0000_0000_0000 && callback(response) == Some(response)
  }

  /** The transaction spends from this parent and from nothing else. */
  ghost predicate SpendsOnly(tx: Tx, id: string) {
    tx.inputs != [] && forall n :: 0 <= n < |tx.inputs| ==> Hex(tx.inputs[n].txid) == id
  }

  /** A chain of any length: each transaction spends only its parent, down to one with a proof. */
  ghost predicate IsChain(sha: Sha256d, dec: Decoders, callback: CallbackParser, v: AncestryJSON)
    decreases v
  {
    && IsLink(sha, dec, callback, v)
    && if v.proof.Some? then v.parents == map[] && LastingProof(v.proof.value)
       else exists id :: v.parents.Keys == {id} && SpendsOnly(dec.tx(Unhex(v.rawTx)).value, id)
                         && v.parents[id].txid == id && IsChain(sha, dec, callback, v.parents[id])
  }

  lemma {:induction false} ChainHasShape(sha: Sha256d, dec: Decoders, callback: CallbackParser, v: AncestryJSON)
    requires IsChain(sha, dec, callback, v)
    ensures IsChainShape(v)
    decreases v
  {
    hide WellFormed, Encoding, Unhex, Hex, IsLink;
    if v.proof.Some? {
      NodesOfWellFormed(v.proof.value);
    } else {
      var id :| v.parents.Keys == {id} && IsChain(sha, dec, callback, v.parents[id]);
      ChainHasShape(sha, dec, callback, v.parents[id]);
    }
  }

  /** What the parser makes of the bytes of a proof. */
  function ProofOf(m: MerkleProofBinary): MerkleProof {
    MerkleProof(m.index, m.txOrId, m.target, m.nodes, FlagType(m.flags), "", false)
  }

  /** A proof comes back as it was exactly when its target type is "header" or "blockhash": a Merkle root,
      or a block hash under another name, comes back as "blockhash". */
  lemma ProofReturns(mp: MerkleProof)
    requires PlainProof(mp)
    ensures Parse(Encoding(mp)).Ok?
    ensures ProofOf(Parse(Encoding(mp)).value) == mp <==> LastingType(mp.targetType)
  {
    hide Parse, Encoding, WellFormed, InRange, Lower, IsLowerHex, Read, Show;
    ProofRoundTrip(mp);
    LowerOfLower(mp.nodes);
    ShowRead(mp.txOrId);
    ShowRead(mp.target);
    LowerMeans(mp.txOrId);
    LowerMeans(mp.target);
    assert FlagType(FlagsOf(mp.txOrId, mp.targetType)) == if mp.targetType == "header" then "header" else "blockhash";
  }

  lemma LastingProofReturns(mp: MerkleProof)
    requires LastingProof(mp)
    ensures Parse(Encoding(mp)).Ok? && ProofOf(Parse(Encoding(mp)).value) == mp
  {
    hide PlainProof, Parse, Encoding, ProofOf;
    ProofReturns(mp);
  }

  lemma LowerMeans(s: string)
    ensures Lower(s) == Show(Read(s))
  {
  }

  // ---------- what the parser makes of a chain ----------

  /** What comes back from the bytes of a chain, in an envelope that already has some responses. Without a proof
      the responses of a link make the parser go on in the same envelope, so that its transaction is replaced by
      that of its parent. */
  ghost function Rebuilt(v: AncestryJSON, earlier: seq<seq<byte>>): AncestryJSON
    requires IsChainShape(v)
    decreases v
  {
    if v.proof.Some? then AncestryJSON(v.txid, v.rawTx, v.proof, earlier + v.mapiResponses, map[])
    else
      var id := OnlyParent(v);
      if v.mapiResponses == []
      then AncestryJSON(v.txid, v.rawTx, None, earlier, map[id := Rebuilt(v.parents[id], [])])
      else Rebuilt(v.parents[id], earlier + v.mapiResponses)
  }

  /** Only the link with the proof has responses. */
  ghost predicate ResponsesAtEnd(v: AncestryJSON)
    requires IsChainShape(v)
    decreases v
  {
    v.proof.Some? || (v.mapiResponses == [] && ResponsesAtEnd(v.parents[OnlyParent(v)]))
  }

  ghost function ChainTxids(v: AncestryJSON): set<string>
    requires IsChainShape(v)
    decreases v
  {
    {v.txid} + if v.proof.Some? then {} else ChainTxids(v.parents[OnlyParent(v)])
  }

  /** No transaction spends, however indirectly, from itself. */
  ghost predicate NoCycle(v: AncestryJSON)
    requires IsChainShape(v)
    decreases v
  {
    v.proof.Some? || (v.txid !in ChainTxids(v.parents[OnlyParent(v)]) && NoCycle(v.parents[OnlyParent(v)]))
  }

  lemma {:induction false} RebuiltTxid(v: AncestryJSON, earlier: seq<seq<byte>>)
    requires IsChainShape(v)
    ensures Rebuilt(v, earlier).txid in ChainTxids(v)
    decreases v
  {
    if v.proof.None? && v.mapiResponses != [] {
      RebuiltTxid(v.parents[OnlyParent(v)], earlier + v.mapiResponses);
    }
  }

  /** A chain comes back as it was exactly when only its last link has responses. */
  lemma {:induction false} RebuiltIsSame(sha: Sha256d, dec: Decoders, callback: CallbackParser, v: AncestryJSON)
    requires IsChain(sha, dec, callback, v) && IsChainShape(v)
    ensures ResponsesAtEnd(v) ==> Rebuilt(v, []) == v
    ensures NoCycle(v) && Rebuilt(v, []) == v ==> ResponsesAtEnd(v)
    decreases v
  {
    hide LastingProof, IsLink, SpendsOnly;
    assert [] + v.mapiResponses == v.mapiResponses;
    if v.proof.None? {
      var id := OnlyParent(v);
      RebuiltIsSame(sha, dec, callback, v.parents[id]);
      assert v.parents == map[id := v.parents[id]];
      if v.mapiResponses != [] {
        RebuiltTxid(v.parents[id], v.mapiResponses);
      } else {
        assert Rebuilt(v, []).parents[id] == Rebuilt(v.parents[id], []);
      }
    }
  }

  /** The shortest chain that does not come back: a child with responses and no proof is lost, and its
      responses are found with its proven parent. */
  lemma LostChild(child: AncestryJSON, parent: AncestryJSON, id: string)
    requires child.proof.None? && child.parents == map[id := parent] && child.mapiResponses != []
    requires parent.proof.Some? && Encodable(parent.proof.value)
    ensures IsChainShape(parent) && IsChainShape(child)
    ensures Rebuilt(child, []) ==
      AncestryJSON(parent.txid, parent.rawTx, parent.proof, child.mapiResponses + parent.mapiResponses, map[])
  {
    hide Encodable;
    assert IsChainShape(parent);
    assert child.parents.Keys == {id} && IsChainShape(child.parents[id]);
    assert IsChainShape(child);
    assert OnlyParent(child) in child.parents.Keys;
    assert [] + child.mapiResponses == child.mapiResponses;
  }

  lemma {:induction false} RepresentsOne(e: Envelope, v: AncestryJSON, w: AncestryJSON)
    requires Represents(e, v) && Represents(e, w)
    ensures v == w
    decreases v
  {
    forall id | id in v.parents ensures v.parents[id] == w.parents[id] {
      RepresentsOne(e.parents[id], v.parents[id], w.parents[id]);
    }
    assert v.parents == w.parents;
  }

  // ---------- the parser ----------

  /** What is left are the flakes of this chain. */
  ghost predicate ChainAhead(
    sha: Sha256d, dec: Decoders, callback: CallbackParser, b: seq<byte>, offset: nat, v: AncestryJSON)
    requires offset <= |b|
  {
    IsChain(sha, dec, callback, v) && IsChainShape(v) && b[offset..] == ChainBytes(v)
  }

  /** What is left are the flakes of this link from its k-th response on, and what follows it. */
  ghost predicate TailAhead(
    sha: Sha256d, dec: Decoders, callback: CallbackParser, b: seq<byte>, offset: nat, v: AncestryJSON, k: nat)
    requires offset <= |b|
  {
    && IsChain(sha, dec, callback, v) && IsChainShape(v) && k <= |v.mapiResponses|
    && b[offset..] == MapiFlakes(v.mapiResponses[k..]) + EndBytes(v)
  }

  /** The tail is read into the same envelope: it starts with a response or with a proof. */
  ghost predicate StaysInEnvelope(v: AncestryJSON, k: nat) {
    v.proof.Some? || k < |v.mapiResponses|
  }

  /** What the envelope of a link becomes when its tail has been read. */
  ghost function AfterTail(v: AncestryJSON, k: nat, txid: string, rawTx: string, earlier: seq<seq<byte>>): AncestryJSON
    requires IsChainShape(v) && k <= |v.mapiResponses|
  {
    if v.proof.Some? then AncestryJSON(txid, rawTx, v.proof, earlier + v.mapiResponses[k..], map[])
    else Rebuilt(v.parents[OnlyParent(v)], earlier + v.mapiResponses[k..])
  }

  lemma RebuiltByTail(v: AncestryJSON, earlier: seq<seq<byte>>)
    requires IsChainShape(v) && StaysInEnvelope(v, 0)
    ensures Rebuilt(v, earlier) == AfterTail(v, 0, v.txid, v.rawTx, earlier)
  {
    assert v.mapiResponses[0..] == v.mapiResponses;
  }

  lemma TailGoesOn(v: AncestryJSON, k: nat, txid: string, rawTx: string, earlier: seq<seq<byte>>)
    requires IsChainShape(v) && k < |v.mapiResponses|
    ensures AfterTail(v, k, txid, rawTx, earlier)
      == AfterTail(v, k + 1, txid, rawTx, earlier + [v.mapiResponses[k]])
    ensures v.proof.None? && k + 1 == |v.mapiResponses| ==>
      AfterTail(v, k, txid, rawTx, earlier) == Rebuilt(v.parents[OnlyParent(v)], earlier + [v.mapiResponses[k]])
  {
    hide Rebuilt;
    assert earlier + [v.mapiResponses[k]] + v.mapiResponses[k + 1..] == earlier + v.mapiResponses[k..];
    if k + 1 == |v.mapiResponses| {
      assert v.mapiResponses[k..] == [v.mapiResponses[k]];
    }
  }

  /** A chunk at an offset, and what it leaves. */
  lemma ChunkAhead(b: seq<byte>, start: nat, chunk: Chunk, rest: seq<byte>)
    requires start <= |b| && |chunk.data| < 0x1_0000_0000_0000_0000 && b[start..] == ChunkBytes(chunk) + rest
    ensures ParseChunk(b[start..]) == Ok((chunk, rest))
    ensures start < |b| && b[start] == chunk.contentType && b[|b| - |rest|..] == rest
  {
    hide ParseChunk, ChunkBytes;
    ParseChunkBytes(chunk, rest);
    FieldStarts(chunk.contentType, chunk.data);
    assert b[start] == b[start..][0];
  }

  /** The first flake of a chain. */
  lemma FirstOfChain(
    sha: Sha256d, dec: Decoders, callback: CallbackParser, b: seq<byte>, start: nat, v: AncestryJSON)
    requires start <= |b| && ChainAhead(sha, dec, callback, b, start, v)
    ensures ParseChunk(b[start..]).Ok?
    ensures var (chunk, rest) := ParseChunk(b[start..]).value;
      && chunk == Chunk(FLAG_TX, Unhex(v.rawTx))
      && TailAhead(sha, dec, callback, b, |b| - |rest|, v, 0)
  {
    hide ParseChunk, ChunkBytes, Encoding, Unhex, MapiFlakes, IsChain, EndBytes, IsChainShape, IsLink;
    ChainSplits(v);
    assert v.mapiResponses[0..] == v.mapiResponses;
    LinkIsShort(sha, dec, callback, v);
    ChunkAhead(b, start, Chunk(FLAG_TX, Unhex(v.rawTx)), MapiFlakes(v.mapiResponses) + EndBytes(v));
  }

  lemma ChainSplits(v: AncestryJSON)
    requires IsChainShape(v)
    ensures ChainBytes(v) == ChunkBytes(Chunk(FLAG_TX, Unhex(v.rawTx))) + (MapiFlakes(v.mapiResponses) + EndBytes(v))
  {
    hide MapiFlakes, Encoding, Unhex, ChunkBytes;
    Append(Field(FLAG_TX, Unhex(v.rawTx)), MapiFlakes(v.mapiResponses), EndBytes(v));
  }

  lemma LinkIsShort(sha: Sha256d, dec: Decoders, callback: CallbackParser, v: AncestryJSON)
    requires IsChain(sha, dec, callback, v)
    ensures IsLink(sha, dec, callback, v) && |Unhex(v.rawTx)| < 0x1_0000_0000_0000_0000
    ensures v.proof.Some? ==> v.parents == map[] && LastingProof(v.proof.value)
  {
    hide Unhex, LastingProof;
  }

  lemma FieldStarts(flag: byte, data: seq<byte>)
    ensures Field(flag, data) != [] && Field(flag, data)[0] == flag
  {
  }

  /** A response, as the first flake of a tail. */
  lemma ResponseFirst(
    sha: Sha256d, dec: Decoders, callback: CallbackParser, b: seq<byte>, start: nat, v: AncestryJSON, k: nat)
    requires start <= |b| && TailAhead(sha, dec, callback, b, start, v, k) && k < |v.mapiResponses|
    ensures start < |b| && b[start] == FLAG_MAPI
    ensures ParseChunk(b[start..]).Ok?
    ensures var (chunk, rest) := ParseChunk(b[start..]).value;
      && chunk == Chunk(FLAG_MAPI, v.mapiResponses[k]) && callback(chunk.data) == Some(chunk.data)
      && TailAhead(sha, dec, callback, b, |b| - |rest|, v, k + 1)
  {
    hide ParseChunk, ChunkBytes, IsChain, EndBytes, IsChainShape, Unhex, MapiFlakes;
    LinkIsShort(sha, dec, callback, v);
    assert GoodResponse(callback, v.mapiResponses[k]);
    FlakesSplit(v.mapiResponses, k, EndBytes(v));
    ChunkAhead(b, start, Chunk(FLAG_MAPI, v.mapiResponses[k]), MapiFlakes(v.mapiResponses[k + 1..]) + EndBytes(v));
  }

  lemma FlakesSplit(responses: seq<seq<byte>>, k: nat, end: seq<byte>)
    requires k < |responses|
    ensures MapiFlakes(responses[k..]) + end
      == ChunkBytes(Chunk(FLAG_MAPI, responses[k])) + (MapiFlakes(responses[k + 1..]) + end)
  {
    hide ChunkBytes;
    assert responses[k..][1..] == responses[k + 1..];
    Append(ChunkBytes(Chunk(FLAG_MAPI, responses[k])), MapiFlakes(responses[k + 1..]), end);
  }

  /** The proof, as the only flake of a tail. */
  lemma ProofFirst(
    sha: Sha256d, dec: Decoders, callback: CallbackParser, b: seq<byte>, start: nat, v: AncestryJSON, k: nat)
    requires start <= |b| && TailAhead(sha, dec, callback, b, start, v, k)
    requires k == |v.mapiResponses| && v.proof.Some?
    ensures start < |b| && b[start] == FLAG_PROOF
    ensures ParseChunk(b[start..]) == Ok((Chunk(FLAG_PROOF, Encoding(v.proof.value)), []))
    ensures LastingProof(v.proof.value)
  {
    hide ParseChunk, ChunkBytes, Encoding, IsChain, IsChainShape, MapiFlakes, IsLink, LastingProof;
    var chunk := Chunk(FLAG_PROOF, Encoding(v.proof.value));
    LinkIsShort(sha, dec, callback, v);
    ProofIsShort(v.proof.value);
    NoResponses();
    assert v.mapiResponses[k..] == [];
    assert b[start..] == ChunkBytes(chunk) + [];
    ChunkAhead(b, start, chunk, []);
  }

  lemma ProofIsShort(mp: MerkleProof)
    requires LastingProof(mp)
    ensures |Encoding(mp)| < 0x1_0000_0000_0000_0000
  {
    hide Encoding;
  }

  /** The chain of the parent, as what is left of a tail. */
  lemma ParentFirst(
    sha: Sha256d, dec: Decoders, callback: CallbackParser, b: seq<byte>, start: nat, v: AncestryJSON, k: nat)
    requires start <= |b| && TailAhead(sha, dec, callback, b, start, v, k)
    requires k == |v.mapiResponses| && v.proof.None?
    ensures start < |b| && b[start] == FLAG_TX
    ensures ChainAhead(sha, dec, callback, b, start, v.parents[OnlyParent(v)])
    ensures SpendsOnly(dec.tx(Unhex(v.rawTx)).value, OnlyParent(v))
  {
    hide ChunkBytes, Encoding, Unhex, Hex, Show, LastingProof, MapiFlakes, SpendsOnly, GoodResponse;
    var id := OnlyParent(v);
    NoResponses();
    assert v.mapiResponses[k..] == [];
    assert b[start..] == ChainBytes(v.parents[id]);
    ChainSplits(v.parents[id]);
    FieldStarts(FLAG_TX, Unhex(v.parents[id].rawTx));
    assert b[start] == b[start..][0];
  }

  lemma NoResponses()
    ensures MapiFlakes([]) == []
  {
  }

  /** An empty envelope for every transaction that is spent. */
  method NewInputs(tx: Tx) returns (inputs: map<string, Envelope>)
    ensures forall id :: id in inputs ==> fresh(inputs[id]) && inputs[id].IsEmpty()
    ensures inputs.Keys == set n | 0 <= n < |tx.inputs| :: Hex(tx.inputs[n].txid)
  {
    hide Hex;
    inputs := map[];
    for n := 0 to |tx.inputs|
      invariant forall id :: id in inputs ==> fresh(inputs[id]) && inputs[id].IsEmpty()
      invariant inputs.Keys == set m | 0 <= m < n :: Hex(tx.inputs[m].txid)
    {
      var input := new Envelope();
      inputs := inputs[Hex(tx.inputs[n].txid) := input];
    }
  }

  /** The only input of a chain. */
  lemma SpentKeys(tx: Tx, id: string)
    requires SpendsOnly(tx, id)
    ensures (set n | 0 <= n < |tx.inputs| :: Hex(tx.inputs[n].txid)) == {id}
  {
    hide Hex;
    assert Hex(tx.inputs[0].txid) == id;
  }

  /** There is one input, and what is left is the chain of this parent. */
  ghost predicate OneChainAhead(
    sha: Sha256d, dec: Decoders, callback: CallbackParser, b: seq<byte>, offset: nat, inputs: map<string, Envelope>,
    v: AncestryJSON, id: string)
    requires offset <= |b|
  {
    inputs.Keys == {id} && id in v.parents && ChainAhead(sha, dec, callback, b, offset, v.parents[id])
  }

  lemma ChainIsNotOver(
    sha: Sha256d, dec: Decoders, callback: CallbackParser, b: seq<byte>, offset: nat, inputs: map<string, Envelope>,
    v: AncestryJSON, id: string)
    requires offset <= |b|
    ensures OneChainAhead(sha, dec, callback, b, offset, inputs, v, id) ==>
      offset < |b| && IsChainShape(v.parents[id])
  {
    hide IsChain, Unhex, MapiFlakes;
    if OneChainAhead(sha, dec, callback, b, offset, inputs, v, id) {
      FieldStarts(FLAG_TX, Unhex(v.parents[id].rawTx));
    }
  }

  /** The loop over the inputs of a transaction: each goes on with what the ones before it have left. When
      nothing is left, nothing changes. */
  method ParseInputs(
    sha: Sha256d, dec: Decoders, callback: CallbackParser, b: seq<byte>, start: nat,
    inputs: map<string, Envelope>, ghost v: AncestryJSON)
    returns (r: Result<nat>)
    requires start <= |b|
    modifies inputs.Values
    ensures r.Ok? ==> start <= r.value <= |b|
    ensures start == |b| ==> r == Ok(|b|)
    ensures start == |b| ==>
      forall e: Envelope, w: AncestryJSON :: old(allocated(e)) && old(Represents(e, w)) ==> Represents(e, w)
    ensures forall id :: OneChainAhead(sha, dec, callback, b, start, inputs, v, id) && old(inputs[id].IsEmpty()) ==>
      r == Ok(|b|) && IsChainShape(v.parents[id]) && Represents(inputs[id], Rebuilt(v.parents[id], []))
    decreases |b| - start, 1
  {
    hide IsChain, IsChainShape, ChainBytes, Rebuilt, Represents;
    var offset := start;
    var todo := inputs.Keys;
    while todo != {}
      invariant todo <= inputs.Keys && start <= offset <= |b|
      invariant todo == inputs.Keys ==> offset == start && forall id :: id in inputs ==> unchanged(inputs[id])
      invariant start == |b| ==> offset == |b|
      invariant start == |b| ==>
        forall e: Envelope, w: AncestryJSON :: old(allocated(e)) && old(Represents(e, w)) ==> Represents(e, w)
      invariant forall id ::
        OneChainAhead(sha, dec, callback, b, start, inputs, v, id) && old(inputs[id].IsEmpty()) && todo == {} ==>
          offset == |b| && IsChainShape(v.parents[id]) && Represents(inputs[id], Rebuilt(v.parents[id], []))
      decreases todo
    {
      var id :| id in todo;
      ChainIsNotOver(sha, dec, callback, b, start, inputs, v, id);
      if offset < |b| {
        ghost var w := if id in v.parents then v.parents[id] else v;
        r := ParseFlakes(sha, dec, callback, b, offset, inputs[id], w, 0);
        if r.Err? {
          return;
        }
        offset := r.value;
      }
      todo := todo - {id};
    }
    return Ok(offset);
  }

  /** The case of a transaction: it fills the envelope, lets the flakes up to the next transaction fill
      it too, and goes on with the inputs. */
  method ParseTxFlake(
    sha: Sha256d, dec: Decoders, callback: CallbackParser, b: seq<byte>, start: nat,
    data: seq<byte>, eCurrent: Envelope, ghost v: AncestryJSON)
    returns (r: Result<nat>)
    requires start <= |b|
    modifies eCurrent
    ensures r.Ok? ==> start <= r.value <= |b|
    ensures old(eCurrent.IsOpen()) && data == Unhex(v.rawTx) && TailAhead(sha, dec, callback, b, start, v, 0) ==>
      r == Ok(|b|) && Represents(eCurrent, Rebuilt(v, old(eCurrent.mapiResponses)))
    decreases |b| - start, 2
  {
    hide Unhex, Hex, Show, TxId, TailAhead, ChainAhead, Rebuilt, IsChainShape, IsChain, AfterTail, SpendsOnly;
    ghost var chain := eCurrent.IsOpen() && data == Unhex(v.rawTx) && TailAhead(sha, dec, callback, b, start, v, 0);
    ghost var earlier := eCurrent.mapiResponses;
    if chain {
      TailIsChain(sha, dec, callback, b, start, v, 0);
      TailStarts(sha, dec, callback, b, start, v, 0);
    }
    var offset := start;
    var tx := dec.tx(data);
    if tx.None? {
      return Err(Panic);
    }
    var inputs := NewInputs(tx.value);
    IdIsDisplayed(sha, tx.value, TxId(sha, tx.value));
    eCurrent.txid := Hex(TxId(sha, tx.value));
    eCurrent.rawTx := Hex(tx.value.raw);
    if offset < |b| && b[offset] != FLAG_TX {
      r := ParseFlakes(sha, dec, callback, b, offset, eCurrent, v, 0);
      if r.Err? {
        return;
      }
      offset := r.value;
      if chain {
        RebuiltByTail(v, earlier);
      }
    } else {
      eCurrent.parents := inputs;
      if chain {
        ParentFirst(sha, dec, callback, b, start, v, 0);
        SpentKeys(tx.value, OnlyParent(v));
        assert OneChainAhead(sha, dec, callback, b, offset, inputs, v, OnlyParent(v));
        RebuiltPlain(v, earlier);
      }
    }
    r := ParseInputs(sha, dec, callback, b, offset, inputs, v);
  }

  lemma RebuiltPlain(v: AncestryJSON, earlier: seq<seq<byte>>)
    requires IsChainShape(v) && !StaysInEnvelope(v, 0)
    ensures var id := OnlyParent(v);
      && IsChainShape(v.parents[id])
      && Rebuilt(v, earlier) == AncestryJSON(v.txid, v.rawTx, None, earlier, map[id := Rebuilt(v.parents[id], [])])
  {
  }

  lemma TailIsChain(
    sha: Sha256d, dec: Decoders, callback: CallbackParser, b: seq<byte>, start: nat, v: AncestryJSON, k: nat)
    requires start <= |b| && TailAhead(sha, dec, callback, b, start, v, k)
    ensures IsChain(sha, dec, callback, v) && IsChainShape(v) && k <= |v.mapiResponses|
    ensures IsLink(sha, dec, callback, v)
  {
    hide IsLink, LastingProof, SpendsOnly;
  }

  /** The first byte of a tail tells whether it stays in the envelope. */
  lemma TailStarts(
    sha: Sha256d, dec: Decoders, callback: CallbackParser, b: seq<byte>, start: nat, v: AncestryJSON, k: nat)
    requires start <= |b| && TailAhead(sha, dec, callback, b, start, v, k)
    ensures start < |b| && (b[start] == FLAG_TX <==> !StaysInEnvelope(v, k))
  {
    hide TailAhead, Encoding, ParseChunk, ChainAhead, Unhex, SpendsOnly, LastingProof;
    TailIsChain(sha, dec, callback, b, start, v, k);
    if k < |v.mapiResponses| {
      ResponseFirst(sha, dec, callback, b, start, v, k);
    } else if v.proof.Some? {
      ProofFirst(sha, dec, callback, b, start, v, k);
    } else {
      ParentFirst(sha, dec, callback, b, start, v, k);
    }
  }

  /** What the next flake of a tail is, and what the parser has ahead of it afterwards: the rest of this tail,
      or, after the last response of a link without a proof, the chain of its parent. */
  lemma NextOfTail(
    sha: Sha256d, dec: Decoders, callback: CallbackParser, b: seq<byte>, start: nat, v: AncestryJSON, k: nat)
    requires start <= |b| && TailAhead(sha, dec, callback, b, start, v, k) && StaysInEnvelope(v, k)
    ensures IsChainShape(v) && k <= |v.mapiResponses| && ParseChunk(b[start..]).Ok?
    ensures var (chunk, rest) := ParseChunk(b[start..]).value;
      if k < |v.mapiResponses| then
        && chunk == Chunk(FLAG_MAPI, v.mapiResponses[k]) && callback(chunk.data) == Some(chunk.data) && rest != []
        && if StaysInEnvelope(v, k + 1) then TailAhead(sha, dec, callback, b, |b| - |rest|, v, k + 1)
           else ChainAhead(sha, dec, callback, b, |b| - |rest|, v.parents[OnlyParent(v)])
      else chunk == Chunk(FLAG_PROOF, Encoding(v.proof.value)) && rest == [] && LastingProof(v.proof.value)
  {
    hide TailAhead, Encoding, ParseChunk, ChainAhead, Unhex, SpendsOnly, LastingProof;
    TailIsChain(sha, dec, callback, b, start, v, k);
    if k < |v.mapiResponses| {
      ResponseFirst(sha, dec, callback, b, start, v, k);
      var after := |b| - |ParseChunk(b[start..]).value.1|;
      TailStarts(sha, dec, callback, b, after, v, k + 1);
      if !StaysInEnvelope(v, k + 1) {
        ParentFirst(sha, dec, callback, b, after, v, k + 1);
      }
    } else {
      ProofFirst(sha, dec, callback, b, start, v, k);
    }
  }

  /** parseCrunchyNutFlakesRecursively: reads one flake into the envelope and goes on; `v` is the envelope
      that was written, if a chain was, and `k` the number of its responses that have been read. */
  method ParseFlakes(
    sha: Sha256d, dec: Decoders, callback: CallbackParser, b: seq<byte>, start: nat,
    eCurrent: Envelope, ghost v: AncestryJSON, ghost k: nat)
    returns (r: Result<nat>)
    requires start <= |b|
    modifies eCurrent
    ensures r.Ok? ==> start < r.value <= |b|
    ensures old(eCurrent.IsOpen()) && ChainAhead(sha, dec, callback, b, start, v) ==>
      r == Ok(|b|) && Represents(eCurrent, Rebuilt(v, old(eCurrent.mapiResponses)))
    ensures old(eCurrent.IsOpen()) && TailAhead(sha, dec, callback, b, start, v, k) && StaysInEnvelope(v, k) ==>
      && r == Ok(|b|)
      && Represents(eCurrent, AfterTail(v, k, old(eCurrent.txid), old(eCurrent.rawTx), old(eCurrent.mapiResponses)))
    decreases |b| - start, 0
  {
    hide ParseChunk, ChunkBytes, Encoding, Unhex, LastingProof, Parse, ChainAhead, TailAhead, Rebuilt, IsChainShape,
      IsChain, AfterTail, ProofOf;
    ghost var chain := eCurrent.IsOpen() && ChainAhead(sha, dec, callback, b, start, v);
    ghost var tail := eCurrent.IsOpen() && TailAhead(sha, dec, callback, b, start, v, k) && StaysInEnvelope(v, k);
    ghost var w, n := v, k;
    if chain {
      FirstOfChain(sha, dec, callback, b, start, v);
      ChainIsShaped(sha, dec, callback, b, start, v);
    }
    if tail {
      NextOfTail(sha, dec, callback, b, start, v, k);
      if k < |v.mapiResponses| {
        TailGoesOn(v, k, eCurrent.txid, eCurrent.rawTx, eCurrent.mapiResponses);
        w, n := if StaysInEnvelope(v, k + 1) then v else v.parents[OnlyParent(v)], k + 1;
      } else {
        LastingProofReturns(v.proof.value);
        TailIsOver(v, eCurrent.txid, eCurrent.rawTx, eCurrent.mapiResponses);
      }
    }
    var read := ParseChunkAt(b, start);
    if read.Err? {
      return Err(read.error);
    }
    var flake, offset := read.value.0, read.value.1;
    if flake.contentType == FLAG_TX {
      r := ParseTxFlake(sha, dec, callback, b, offset, flake.data, eCurrent, v);
      if r.Err? {
        return;
      }
      offset := r.value;
    } else if flake.contentType == FLAG_PROOF {
      var binaryProof := ParseBinaryMerkleProof(flake.data);
      if binaryProof.Err? {
        return Err(Panic);
      }
      eCurrent.proof := Some(ProofOf(binaryProof.value));
    } else if flake.contentType == FLAG_MAPI {
      var mapiResponse := callback(flake.data);
      if mapiResponse.None? {
        return Err(Panic);
      }
      eCurrent.mapiResponses := eCurrent.mapiResponses + [mapiResponse.value];
    }
    if offset < |b| {
      r := ParseFlakes(sha, dec, callback, b, offset, eCurrent, w, n);
      return;
    }
    return Ok(offset);
  }

  lemma ChainIsShaped(
    sha: Sha256d, dec: Decoders, callback: CallbackParser, b: seq<byte>, start: nat, v: AncestryJSON)
    requires start <= |b| && ChainAhead(sha, dec, callback, b, start, v)
    ensures IsChainShape(v)
  {
  }

  lemma TailIsOver(v: AncestryJSON, txid: string, rawTx: string, earlier: seq<seq<byte>>)
    requires IsChainShape(v) && v.proof.Some?
    ensures AfterTail(v, |v.mapiResponses|, txid, rawTx, earlier) == AncestryJSON(txid, rawTx, v.proof, earlier, map[])
  {
    assert earlier + v.mapiResponses[|v.mapiResponses|..] == earlier;
  }

  /** NewCrunchyNutEnvelopeFromBytes. */
  method NewCrunchyNutEnvelopeFromBytes(
    sha: Sha256d, dec: Decoders, callback: CallbackParser, b: seq<byte>, ghost v: AncestryJSON)
    returns (r: Result<Envelope>)
    ensures r.Ok? ==> fresh(r.value)
    ensures b == [] ==> r == Err(Panic)
    ensures b != [] && b[0] != 1 ==> r == Err(UnsupportedVersion)
    ensures b != [] && b[0] == 1 && ChainAhead(sha, dec, callback, b, 1, v) ==>
      r.Ok? && Represents(r.value, Rebuilt(v, []))
  {
    hide ChainAhead, Represents, Rebuilt;
    if b == [] {
      return Err(Panic);
    }
    if b[0] != 1 {
      return Err(UnsupportedVersion);
    }
    var envelope := new Envelope();
    var end := ParseFlakes(sha, dec, callback, b, 1, envelope, v, 0);
    if end.Err? {
      return Err(end.error);
    }
    return Ok(envelope);
  }

  /** The chain round trip: for a chain of any length, each transaction spending only its parent, down to one
      with a proof whose target type lasts, the parser rebuilds the envelope that was written, field by field and
      object by object, exactly when only the link with the proof has mAPI responses. */
  method CrunchyNutRoundTrip(sha: Sha256d, dec: Decoders, callback: CallbackParser, e: AncestryJSON)
    returns (r: Result<Envelope>)
    requires IsChain(sha, dec, callback, e)
    ensures IsChainShape(e) && r.Ok? && fresh(r.value) && Represents(r.value, Rebuilt(e, []))
    ensures ResponsesAtEnd(e) ==> Represents(r.value, e)
    ensures NoCycle(e) && Represents(r.value, e) ==> ResponsesAtEnd(e)
  {
    hide IsChain, IsChainShape, ChainBytes, Represents, Rebuilt, ResponsesAtEnd, NoCycle;
    ChainHasShape(sha, dec, callback, e);
    var b := CrunchyNutBytes(e);
    assert b[1..] == ChainBytes(e);
    r := NewCrunchyNutEnvelopeFromBytes(sha, dec, callback, b, e);
    RebuiltIsSame(sha, dec, callback, e);
    if Represents(r.value, e) {
      RepresentsOne(r.value, e, Rebuilt(e, []));
    }
  }
}

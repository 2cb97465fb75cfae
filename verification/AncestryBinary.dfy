/** spv/ancestry_binary.go: chunks, and the map of ancestors that they fill. */
module AncestryBinary {
  import opened Outcomes
  import opened ByteStrings
  import opened VarInts
  import opened Codecs
  import opened MerkleProofs
  import opened ProofBinaries

  // ---------- transactions ----------

  /** An input names a transaction by the bytes of its id in display order. */
  datatype Outpoint = Outpoint(txid: Digest, vout: nat)

  /** A transaction: its serialised bytes, its inputs, and the satoshis of its outputs. */
  datatype Tx = Tx(raw: seq<byte>, inputs: seq<Outpoint>, outputs: seq<nat>)

  /** The id of serialised bytes, in display order. */
  function IdOfBytes(sha: Sha256d, data: seq<byte>): Digest {
    Reverse(sha(data))
  }

  function TxId(sha: Sha256d, tx: Tx): Digest {
    IdOfBytes(sha, tx.raw)
  }

  /** The text of an id is the display form of the hash of the serialised bytes, as it is for the leaves of
      the trees; an id is the one of some bytes exactly when it reads back as their hash. */
  lemma IdIsDisplayed(sha: Sha256d, tx: Tx, id: Digest)
    ensures Hex(TxId(sha, tx)) == Show(sha(tx.raw))
    ensures id == TxId(sha, tx) <==> Read(Hex(id)) == sha(tx.raw)
  {
    KeyReads(sha, tx.raw, id);
  }

  lemma KeyReads(sha: Sha256d, data: seq<byte>, id: Digest)
    ensures id == IdOfBytes(sha, data) <==> Read(Hex(id)) == sha(data)
  {
    UnhexHex(id);
    ReverseReverse(id);
    ReverseReverse(sha(data));
  }

  /** Decoders of the transaction library: None is an error. */
  datatype Decoders = Decoders(tx: seq<byte> -> Option<Tx>, mapi: seq<byte> -> Option<seq<seq<byte>>>)

  // ---------- chunks ----------

  const FLAG_TX: byte := 1
  const FLAG_PROOF: byte := 2
  const FLAG_MAPI: byte := 3

  datatype Chunk = Chunk(contentType: byte, data: seq<byte>)

  function ChunkBytes(c: Chunk): seq<byte> {
    [c.contentType] + (VarInt(|c.data| % 0x1_0000_0000_0000_0000) + c.data)
  }

  /** One chunk from the front of the bytes. */
  function ParseChunk(b: seq<byte>): (r: Result<(Chunk, seq<byte>)>)
    ensures r.Ok? ==> |r.value.1| < |b|
  {
    if b == [] then Err(Panic)
    else
      var l :- ReadVarInt(b[1..]);
      var data :- Split(b[1..][l.1..], l.0);
      Ok((Chunk(b[0], data.0), data.1))
  }

  lemma ParseChunkBytes(c: Chunk, rest: seq<byte>)
    requires |c.data| < 0x1_0000_0000_0000_0000
    ensures ParseChunk(ChunkBytes(c) + rest) == Ok((c, rest))
  {
    hide VarInt, ReadVarInt, Split;
    var body := VarInt(|c.data|) + (c.data + rest);
    Append(VarInt(|c.data|), c.data, rest);
    Append([c.contentType], VarInt(|c.data|) + c.data, rest);
    assert ([c.contentType] + body)[1..] == body;
    VarIntRoundTrip(|c.data|, c.data + rest);
    SplitParts(c.data, rest);
  }

  /** parseChunk, with its cursor. */
  method ParseChunkAt(b: seq<byte>, start: nat) returns (r: Result<(Chunk, nat)>)
    requires start <= |b|
    ensures r.Ok? ==> start < r.value.1 <= |b|
    ensures Left(b, r) == ParseChunk(b[start..])
  {
    hide ReadVarInt;
    var offset := start;
    if |b| <= offset {
      return Err(Panic);
    }
    var typeOfNextData := b[offset];
    offset := offset + 1;
    assert b[start..][1..] == b[offset..];
    var l := ReadVarInt(b[offset..]);
    if l.Err? {
      return Err(l.error);
    }
    ghost var before := offset;
    offset := offset + l.value.1;
    assert b[before..][l.value.1..] == b[offset..];
    if |b| < offset + l.value.0 {
      return Err(Panic);
    }
    SplitAt(b, offset, l.value.0);
    var chunk := Chunk(typeOfNextData, b[offset..offset + l.value.0]);
    offset := offset + l.value.0;
    return Ok((chunk, offset));
  }

  // ---------- the map of ancestors ----------

  datatype Entry = Entry(tx: Tx, proof: Option<seq<byte>>, mapiResponses: seq<seq<byte>>)

  type Ancestors = map<Digest, Entry>

  /** The map under construction and the id of the transaction that the next chunks describe. */
  datatype Cursor = Cursor(aa: Ancestors, txid: Digest)

  /** What one chunk does. A chunk that describes a missing transaction follows a nil pointer. */
  function TakeChunk(sha: Sha256d, dec: Decoders, at: Cursor, c: Chunk): Result<Cursor> {
    if c.contentType == FLAG_TX then
      var tx := dec.tx(c.data);
      if tx.None? then Err(BadTx)
      else if tx.value.inputs == [] then Err(NoTxInputs)
      else
        var id := IdOfBytes(sha, c.data);
        Ok(Cursor(at.aa[id := Entry(tx.value, None, [])], id))
    else if c.contentType == FLAG_PROOF then
      if at.txid !in at.aa then Err(Panic)
      else Ok(at.(aa := at.aa[at.txid := at.aa[at.txid].(proof := Some(c.data))]))
    else if c.contentType == FLAG_MAPI then
      var callBacks := dec.mapi(c.data);
      if callBacks.None? then Err(BadMapi)
      else if at.txid !in at.aa then Err(Panic)
      else Ok(at.(aa := at.aa[at.txid := at.aa[at.txid].(mapiResponses := callBacks.value)]))
    else Ok(at)
  }

  function TakeChunks(sha: Sha256d, dec: Decoders, at: Cursor, b: seq<byte>): Result<Cursor>
    decreases |b|
  {
    if b == [] then Ok(at)
    else
      var chunk :- ParseChunk(b);
      var next :- TakeChunk(sha, dec, at, chunk.0);
      TakeChunks(sha, dec, next, chunk.1)
  }

  /** The id that an array of 32 zeros holds. */
  function ZeroId(): Digest {
    seq(32, _ => 0)
  }

  function Start(): Cursor {
    Cursor(map[], ZeroId())
  }

  /** The parser as a function. */
  function ParsedAncestry(sha: Sha256d, dec: Decoders, b: seq<byte>): Result<Ancestors> {
    if b == [] then Err(Panic)
    else if b[0] != 1 then Err(UnsupportedVersion)
    else if |b| == 1 then Err(CannotCalculateFeePaid)
    else if b[1] != 1 then Err(TipTxConfirmed)
    else
      var end :- TakeChunks(sha, dec, Start(), b[1..]);
      Ok(end.aa)
  }

  method ParseAncestry(sha: Sha256d, dec: Decoders, b: seq<byte>) returns (r: Result<Ancestors>)
    ensures r == ParsedAncestry(sha, dec, b)
  {
    hide ParseChunk;
    if b == [] {
      return Err(Panic);
    }
    if b[0] != 1 {
      return Err(UnsupportedVersion);
    }
    var offset: nat := 1;
    var total := |b|;
    var aa: Ancestors := map[];
    var txid := ZeroId();
    if total == offset {
      return Err(CannotCalculateFeePaid);
    }
    if b[offset] != 1 {
      return Err(TipTxConfirmed);
    }
    ghost var whole := TakeChunks(sha, dec, Start(), b[offset..]);
    while total > offset
      invariant offset <= total
      invariant whole == TakeChunks(sha, dec, Cursor(aa, txid), b[offset..])
    {
      var chunk := ParseChunkAt(b, offset);
      if chunk.Err? {
        return Err(chunk.error);
      }
      offset := chunk.value.1;
      var data := chunk.value.0.data;
      if chunk.value.0.contentType == FLAG_TX {
        txid := IdOfBytes(sha, data);
        var tx := dec.tx(data);
        if tx.None? {
          return Err(BadTx);
        }
        if tx.value.inputs == [] {
          return Err(NoTxInputs);
        }
        aa := aa[txid := Entry(tx.value, None, [])];
      } else if chunk.value.0.contentType == FLAG_PROOF {
        if txid !in aa {
          return Err(Panic);
        }
        aa := aa[txid := aa[txid].(proof := Some(data))];
      } else if chunk.value.0.contentType == FLAG_MAPI {
        var callBacks := dec.mapi(data);
        if callBacks.None? {
          return Err(BadMapi);
        }
        if txid !in aa {
          return Err(Panic);
        }
        aa := aa[txid := aa[txid].(mapiResponses := callBacks.value)];
      }
    }
    return Ok(aa);
  }

  // ---------- what the parser guarantees ----------

  lemma TakeOneChunk(sha: Sha256d, dec: Decoders, at: Cursor, c: Chunk, rest: seq<byte>)
    requires |c.data| < 0x1_0000_0000_0000_0000
    ensures TakeChunks(sha, dec, at, ChunkBytes(c) + rest) ==
      var next := TakeChunk(sha, dec, at, c);
      if next.Err? then next else TakeChunks(sha, dec, next.value, rest)
  {
    hide ParseChunk, ChunkBytes, TakeChunk;
    ParseChunkBytes(c, rest);
    ChunkIsNotEmpty(c);
  }

  lemma ChunkIsNotEmpty(c: Chunk)
    ensures |ChunkBytes(c)| > 0
  {
  }

  /** The bytes are chunks to the end. */
  ghost predicate Complete(b: seq<byte>)
    decreases |b|
  {
    b == [] || (ParseChunk(b).Ok? && Complete(ParseChunk(b).value.1))
  }

  /** The parser never follows a nil pointer: on bytes that are chunks to the end it does not panic. */
  lemma NoNilPointer(sha: Sha256d, dec: Decoders, b: seq<byte>)
    requires b != [] && Complete(b[1..])
    ensures ParsedAncestry(sha, dec, b) != Err(Panic)
  {
    hide ReadVarInt, Split;
    if |b| > 1 && b[1] == FLAG_TX {
      assert b[1..][0] == b[1];
      NoPanicFrom(sha, dec, Start(), b[1..]);
    }
  }

  lemma {:induction false} NoPanicFrom(sha: Sha256d, dec: Decoders, at: Cursor, b: seq<byte>)
    requires Complete(b) && (at.txid in at.aa || (b != [] && b[0] == FLAG_TX))
    ensures TakeChunks(sha, dec, at, b) != Err(Panic)
    decreases |b|
  {
    hide ReadVarInt, Split;
    if b != [] {
      var chunk := ParseChunk(b).value;
      var next := TakeChunk(sha, dec, at, chunk.0);
      if next.Ok? {
        NoPanicFrom(sha, dec, next.value, chunk.1);
      }
    }
  }

  /** Every entry was decoded from bytes whose hash is displayed by its key, and has inputs. */
  ghost predicate Decoded(sha: Sha256d, dec: Decoders, aa: Ancestors) {
    forall id :: id in aa ==>
      aa[id].tx.inputs != [] && exists data :: dec.tx(data) == Some(aa[id].tx) && Read(Hex(id)) == sha(data)
  }

  lemma ParsedIsDecoded(sha: Sha256d, dec: Decoders, b: seq<byte>)
    requires ParsedAncestry(sha, dec, b).Ok?
    ensures Decoded(sha, dec, ParsedAncestry(sha, dec, b).value)
  {
    hide TakeChunks, Read, Hex;
    TakenIsDecoded(sha, dec, Start(), b[1..]);
  }

  lemma {:induction false} TakenIsDecoded(sha: Sha256d, dec: Decoders, at: Cursor, b: seq<byte>)
    requires Decoded(sha, dec, at.aa) && TakeChunks(sha, dec, at, b).Ok?
    ensures Decoded(sha, dec, TakeChunks(sha, dec, at, b).value.aa)
    decreases |b|
  {
    if b != [] {
      hide ParseChunk, IdOfBytes, Read, Hex;
      var chunk := ParseChunk(b).value;
      TakeOneDecodes(sha, dec, at, chunk.0);
      TakenIsDecoded(sha, dec, TakeChunk(sha, dec, at, chunk.0).value, chunk.1);
    }
  }

  lemma TakeOneDecodes(sha: Sha256d, dec: Decoders, at: Cursor, c: Chunk)
    requires Decoded(sha, dec, at.aa) && TakeChunk(sha, dec, at, c).Ok?
    ensures Decoded(sha, dec, TakeChunk(sha, dec, at, c).value.aa)
  {
    hide IdOfBytes, Read, Hex;
    var next := TakeChunk(sha, dec, at, c).value;
    forall id | id in next.aa
      ensures next.aa[id].tx.inputs != []
      ensures exists data :: dec.tx(data) == Some(next.aa[id].tx) && Read(Hex(id)) == sha(data)
    {
      if c.contentType == FLAG_TX && id == IdOfBytes(sha, c.data) {
        KeyReads(sha, c.data, id);
        assert dec.tx(c.data) == Some(next.aa[id].tx) && Read(Hex(id)) == sha(c.data);
      } else {
        assert id in at.aa && next.aa[id].tx == at.aa[id].tx;
      }
    }
  }
}

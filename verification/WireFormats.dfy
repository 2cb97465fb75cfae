/** The binary formats, byte by byte. Elsewhere writers and parsers are compared with each other; here both are
    compared with the literal bytes of the formats. */
module WireFormats {
  import opened Outcomes
  import opened ByteStrings
  import opened MerkleTree
  import opened VarInts
  import opened Codecs
  import opened VerifyProofs
  import opened MerkleProofs
  import opened ProofBinaries
  import opened Verifiers
  import opened MerkleRoot
  import opened Bumps
  import opened BumpRoots
  import opened AncestryBinary
  import opened AncestryJsons
  import opened TscAncestries
  import opened CrunchyNuts
  import opened Payments

  // ---------- integers ----------

  /** One byte below 0xfd; otherwise a marker and 2, 4 or 8 bytes, the lowest first. */
  lemma VarIntBytes(v: uint64)
    ensures v < 0xfd ==> VarInt(v) == [v]
    ensures 0xfd <= v < 0x1_0000 ==> VarInt(v) == [0xfd, v % 256, v / 256]
    ensures 0x1_0000 <= v < 0x1_0000_0000 ==> VarInt(v) == [0xfe] + FourBytes(v)
    ensures 0x1_0000_0000 <= v ==> VarInt(v) == [0xff] + FourBytes(v) + FourBytes(v / 0x1_0000_0000)
  {
    hide LittleEndian;
    LittleTwo(v, 0);
    LittleNone(v / 0x1_0000);
    LittleFour(v, 0);
    LittleNone(v / 0x1_0000_0000);
    LittleFour(v, 4);
    LittleFour(v / 0x1_0000_0000, 0);
    LittleNone(v / 0x1_0000_0000 / 0x1_0000_0000);
    hide FourBytes;
    assert FourBytes(v) + [] == FourBytes(v);
    assert FourBytes(v / 0x1_0000_0000) + [] == FourBytes(v / 0x1_0000_0000);
    if 0x1_0000_0000 <= v {
      Append([0xff], FourBytes(v), FourBytes(v / 0x1_0000_0000));
    }
  }

  function FourBytes(v: nat): seq<byte> {
    [v % 256, v / 0x100 % 256, v / 0x1_0000 % 256, v / 0x100_0000 % 256]
  }

  lemma LittleTwo(v: nat, n: nat)
    ensures LittleEndian(v, n + 2) == [v % 256, v / 256 % 256] + LittleEndian(v / 0x1_0000, n)
  {
    assert v / 256 / 256 == v / 0x1_0000;
    assert LittleEndian(v / 256, n + 1) == [v / 256 % 256] + LittleEndian(v / 256 / 256, n);
  }

  lemma LittleFour(v: nat, n: nat)
    ensures LittleEndian(v, n + 4) == FourBytes(v) + LittleEndian(v / 0x1_0000_0000, n)
  {
    hide LittleEndian;
    LittleTwo(v, n + 2);
    LittleTwo(v / 0x1_0000, n);
    assert v / 0x1_0000 / 0x1_0000 == v / 0x1_0000_0000;
    assert v / 0x1_0000 / 256 == v / 0x100_0000;
    var low, high: seq<byte> := [v % 256, v / 256 % 256], [v / 0x1_0000 % 256, v / 0x100_0000 % 256];
    assert low + high == FourBytes(v);
    Append(low, high, LittleEndian(v / 0x1_0000_0000, n));
  }

  lemma LittleNone(v: nat)
    ensures LittleEndian(v, 0) == []
  {
  }

  // ---------- chunks ----------

  /** A chunk: its type, the length of its data, and the data. */
  function Typed(contentType: byte, data: seq<byte>): seq<byte>
    requires |data| < 0x1_0000_0000_0000_0000
  {
    [contentType] + VarInt(|data|) + data
  }

  lemma TypedIsChunk(contentType: byte, data: seq<byte>)
    requires |data| < 0x1_0000_0000_0000_0000
    ensures ChunkBytes(Chunk(contentType, data)) == Typed(contentType, data)
  {
    hide VarInt;
    Append([contentType], VarInt(|data|), data);
  }

  /** Type 1 is a transaction, filed under the reversed hash of its bytes; type 2 is the proof and type 3 are
      the callbacks of the current transaction; every other type is skipped. */
  lemma ChunkOfType(sha: Sha256d, dec: Decoders, aa: Ancestors, txid: Digest, t: byte, data: seq<byte>, rest: seq<byte>)
    requires |data| < 0x1_0000_0000_0000_0000
    ensures TakeChunks(sha, dec, Cursor(aa, txid), Typed(t, data) + rest) ==
      if t == 1 then
        if dec.tx(data).None? then Err(BadTx)
        else if dec.tx(data).value.inputs == [] then Err(NoTxInputs)
        else
          var id := Reverse(sha(data));
          TakeChunks(sha, dec, Cursor(aa[id := Entry(dec.tx(data).value, None, [])], id), rest)
      else if t == 2 then
        if txid !in aa then Err(Panic)
        else
          var own := Entry(aa[txid].tx, Some(data), aa[txid].mapiResponses);
          TakeChunks(sha, dec, Cursor(aa[txid := own], txid), rest)
      else if t == 3 then
        if dec.mapi(data).None? then Err(BadMapi)
        else if txid !in aa then Err(Panic)
        else
          var own := Entry(aa[txid].tx, aa[txid].proof, dec.mapi(data).value);
          TakeChunks(sha, dec, Cursor(aa[txid := own], txid), rest)
      else TakeChunks(sha, dec, Cursor(aa, txid), rest)
  {
    hide TakeChunks, Typed, ChunkBytes;
    TypedIsChunk(t, data);
    TakeOneChunk(sha, dec, Cursor(aa, txid), Chunk(t, data), rest);
  }

  lemma NoChunksLeft(sha: Sha256d, dec: Decoders, at: Cursor)
    ensures TakeChunks(sha, dec, at, []) == Ok(at)
  {
  }

  /** An ancestry is the version 1 and then chunks, the first of which is a transaction. */
  lemma StartsWithType1(sha: Sha256d, dec: Decoders, raw: seq<byte>, rest: seq<byte>)
    requires |raw| < 0x1_0000_0000_0000_0000
    ensures ParsedAncestry(sha, dec, [1] + Typed(1, raw) + rest) ==
      var end := TakeChunks(sha, dec, Cursor(map[], ZeroId()), Typed(1, raw) + rest);
      if end.Ok? then Ok(end.value.aa) else Err(end.error)
  {
    hide TakeChunks;
    var b := [1] + Typed(1, raw) + rest;
    assert b[1..] == Typed(1, raw) + rest;
    assert b[1] == 1;
  }

  /** What is refused before any chunk is read. */
  lemma AncestryRefused(sha: Sha256d, dec: Decoders, b: seq<byte>)
    ensures ParsedAncestry(sha, dec, []) == Err(Panic)
    ensures b != [] && b[0] != 1 ==> ParsedAncestry(sha, dec, b) == Err(UnsupportedVersion)
    ensures ParsedAncestry(sha, dec, [1]) == Err(CannotCalculateFeePaid)
    ensures |b| >= 2 && b[0] == 1 && b[1] != 1 ==> ParsedAncestry(sha, dec, b) == Err(TipTxConfirmed)
  {
    hide TakeChunks;
  }

  /** One transaction and its proof, or its callbacks, give exactly one entry under the reversed hash. */
  lemma OneParentParsed(sha: Sha256d, dec: Decoders, raw: seq<byte>, p: seq<byte>)
    requires |raw| < 0x1_0000_0000_0000_0000 && |p| < 0x1_0000_0000_0000_0000
    requires dec.tx(raw).Some? && dec.tx(raw).value.inputs != []
    ensures var tx, id := dec.tx(raw).value, Reverse(sha(raw));
      && ParsedAncestry(sha, dec, [1] + Typed(1, raw)) == Ok(map[id := Entry(tx, None, [])])
      && ParsedAncestry(sha, dec, [1] + Typed(1, raw) + Typed(2, p)) == Ok(map[id := Entry(tx, Some(p), [])])
      && ParsedAncestry(sha, dec, [1] + Typed(1, raw) + Typed(3, p))
         == (if dec.mapi(p).Some? then Ok(map[id := Entry(tx, None, dec.mapi(p).value)]) else Err(BadMapi))
  {
    OneParentThen(sha, dec, raw, 0, p);
    OneParentThen(sha, dec, raw, 2, p);
    OneParentThen(sha, dec, raw, 3, p);
    hide ParsedAncestry, Typed;
    assert [1] + Typed(1, raw) + [] == [1] + Typed(1, raw);
  }

  lemma OneParentThen(sha: Sha256d, dec: Decoders, raw: seq<byte>, t: byte, p: seq<byte>)
    requires |raw| < 0x1_0000_0000_0000_0000 && |p| < 0x1_0000_0000_0000_0000
    requires dec.tx(raw).Some? && dec.tx(raw).value.inputs != []
    requires t == 0 || t == 2 || t == 3
    ensures var tx, id := dec.tx(raw).value, Reverse(sha(raw));
      ParsedAncestry(sha, dec, [1] + Typed(1, raw) + if t == 0 then [] else Typed(t, p)) ==
        if t == 0 then Ok(map[id := Entry(tx, None, [])])
        else if t == 2 then Ok(map[id := Entry(tx, Some(p), [])])
        else if dec.mapi(p).Some? then Ok(map[id := Entry(tx, None, dec.mapi(p).value)]) else Err(BadMapi)
  {
    hide ParsedAncestry, Typed, TakeChunks;
    var tx, id := dec.tx(raw).value, Reverse(sha(raw));
    var rest := if t == 0 then [] else Typed(t, p);
    var aa := map[id := Entry(tx, None, [])];
    StartsWithType1(sha, dec, raw, rest);
    ChunkOfType(sha, dec, map[], ZeroId(), 1, raw, rest);
    assert map[][id := Entry(tx, None, [])] == aa;
    if t == 0 {
      NoChunksLeft(sha, dec, Cursor(aa, id));
    } else {
      ChunkOfType(sha, dec, aa, id, t, p, []);
      assert Typed(t, p) + [] == Typed(t, p);
      assert aa[id := Entry(tx, Some(p), [])] == map[id := Entry(tx, Some(p), [])];
      if t == 2 {
        NoChunksLeft(sha, dec, Cursor(map[id := Entry(tx, Some(p), [])], id));
      } else if dec.mapi(p).Some? {
        assert aa[id := Entry(tx, None, dec.mapi(p).value)] == map[id := Entry(tx, None, dec.mapi(p).value)];
        NoChunksLeft(sha, dec, Cursor(map[id := Entry(tx, None, dec.mapi(p).value)], id));
      }
    }
  }

  /** An ancestry with one parent is written as the version, the transaction, the callbacks behind their
      count, and the proof. */
  lemma OneParentWritten(e: AncestryJSON, k: string, b: seq<byte>)
    requires e.parents.Keys == {k} && e.parents[k].proof.Some? && IsBytesOf(e, b)
    requires |Unhex(e.parents[k].rawTx)| < 0x1_0000_0000_0000_0000
    requires |Encoding(e.parents[k].proof.value)| < 0x1_0000_0000_0000_0000
    ensures var n := e.parents[k];
      var raw, p := Unhex(n.rawTx), Encoding(n.proof.value);
      && (n.mapiResponses == [] ==> b == [1] + Typed(1, raw) + Typed(2, p))
      && (forall m :: n.mapiResponses == [m] && |m| < 0x1_0000_0000_0000_0000 ==>
            b == [1] + Typed(1, raw) + ([3, 1] + VarInt(|m|) + m) + Typed(2, p))
  {
    hide VarInt, Unhex, Encoding, OwnBytes, Typed;
    var n := e.parents[k];
    OneWalk(e, k, b[1..]);
    assert b == [1] + b[1..];
    OwnBytesOfProven(n);
    Append([1], Typed(1, Unhex(n.rawTx)), Typed(2, Encoding(n.proof.value)));
    forall m | n.mapiResponses == [m] && |m| < 0x1_0000_0000_0000_0000
      ensures b == [1] + Typed(1, Unhex(n.rawTx)) + ([3, 1] + VarInt(|m|) + m) + Typed(2, Encoding(n.proof.value))
    {
      var callbacks := [3, 1] + VarInt(|m|) + m;
      Append([1], Typed(1, Unhex(n.rawTx)), callbacks + Typed(2, Encoding(n.proof.value)));
      Append([1] + Typed(1, Unhex(n.rawTx)), callbacks, Typed(2, Encoding(n.proof.value)));
    }
  }

  lemma OneWalk(e: AncestryJSON, k: string, b: seq<byte>)
    requires e.parents.Keys == {k} && e.parents[k].proof.Some? && Serialises(e, {k}, b)
    ensures b == OwnBytes(e.parents[k])
  {
    hide OwnBytes;
    var k', before, below :| IsLast(e, {k}, b, k', before, below) && Serialises(e, {k} - {k'}, before)
      && (if Descends(e.parents[k']) then Serialises(e.parents[k'], e.parents[k'].parents.Keys, below)
          else below == []);
    assert {k} - {k'} == {} && before == [] && below == [];
    assert [] + (OwnBytes(e.parents[k]) + []) == OwnBytes(e.parents[k]);
  }

  /** A parent without a proof is written before its own parents, and these follow it at once. */
  lemma GrandparentWritten(e: AncestryJSON, k: string, g: string, b: seq<byte>)
    requires e.parents.Keys == {k} && e.parents[k].proof.None? && e.parents[k].mapiResponses == []
    requires e.parents[k].parents.Keys == {g} && IsBytesOf(e, b)
    requires e.parents[k].parents[g].proof.Some? && e.parents[k].parents[g].mapiResponses == []
    requires |Unhex(e.parents[k].rawTx)| < 0x1_0000_0000_0000_0000
    requires |Unhex(e.parents[k].parents[g].rawTx)| < 0x1_0000_0000_0000_0000
    requires |Encoding(e.parents[k].parents[g].proof.value)| < 0x1_0000_0000_0000_0000
    ensures var n, m := e.parents[k], e.parents[k].parents[g];
      b == [1] + (Typed(1, Unhex(n.rawTx)) + (Typed(1, Unhex(m.rawTx)) + Typed(2, Encoding(m.proof.value))))
  {
    var n := e.parents[k];
    assert b == [1] + b[1..];
    assert e.parents.Keys == {k} && g in n.parents;
    hide *;
    var below := UnprovenWalk(e, k, b[1..]);
    OneWalk(n, g, below);
    OwnBytesOfProven(n.parents[g]);
    UnprovenBytes(n);
    TypedIsChunk(1, Unhex(n.rawTx));
  }

  lemma UnprovenWalk(e: AncestryJSON, k: string, b: seq<byte>) returns (below: seq<byte>)
    requires e.parents.Keys == {k} && Descends(e.parents[k]) && Serialises(e, {k}, b)
    ensures Serialises(e.parents[k], e.parents[k].parents.Keys, below) && b == OwnBytes(e.parents[k]) + below
  {
    hide OwnBytes;
    var k', before;
    k', before, below :| IsLast(e, {k}, b, k', before, below) && Serialises(e, {k} - {k'}, before)
      && (if Descends(e.parents[k']) then Serialises(e.parents[k'], e.parents[k'].parents.Keys, below)
          else below == []);
    assert {k} - {k'} == {} && before == [];
    assert [] + (OwnBytes(e.parents[k]) + below) == OwnBytes(e.parents[k]) + below;
  }

  lemma UnprovenBytes(n: AncestryJSON)
    requires n.proof.None? && n.mapiResponses == []
    ensures OwnBytes(n) == ChunkBytes(Chunk(1, Unhex(n.rawTx)))
  {
    hide ChunkBytes, Unhex;
    var own := ChunkBytes(Chunk(1, Unhex(n.rawTx)));
    assert own + ([] + []) == own;
  }

  lemma OwnBytesOfProven(n: AncestryJSON)
    requires n.proof.Some?
    requires |Unhex(n.rawTx)| < 0x1_0000_0000_0000_0000 && |Encoding(n.proof.value)| < 0x1_0000_0000_0000_0000
    ensures var raw, p := Unhex(n.rawTx), Encoding(n.proof.value);
      && (n.mapiResponses == [] ==> OwnBytes(n) == Typed(1, raw) + Typed(2, p))
      && (forall m :: n.mapiResponses == [m] && |m| < 0x1_0000_0000_0000_0000 ==>
            OwnBytes(n) == Typed(1, raw) + (([3, 1] + VarInt(|m|) + m) + Typed(2, p)))
  {
    hide VarInt, Unhex, Encoding, Typed, ChunkBytes;
    TypedIsChunk(1, Unhex(n.rawTx));
    TypedIsChunk(2, Encoding(n.proof.value));
    CallbackBytes(n.mapiResponses);
    assert n.mapiResponses == [] ==> [] + ProofBytes(n.proof) == ProofBytes(n.proof);
  }

  /** The callbacks of a transaction are written behind the type 3 and their count, which the parser takes
      for the length of what follows. */
  lemma CallbackBytes(responses: seq<seq<byte>>)
    ensures responses == [] ==> MapiBytes(responses) == []
    ensures forall m :: responses == [m] && |m| < 0x1_0000_0000_0000_0000 ==>
      MapiBytes(responses) == [3, 1] + VarInt(|m|) + m
  {
    forall m | responses == [m] && |m| < 0x1_0000_0000_0000_0000
      ensures MapiBytes(responses) == [3, 1] + VarInt(|m|) + m
    {
      OneCallback(m);
    }
  }

  lemma OneCallback(m: seq<byte>)
    requires |m| < 0x1_0000_0000_0000_0000
    ensures MapiBytes([m]) == [3, 1] + VarInt(|m|) + m
  {
    VarIntBytes(1);
    hide VarInt;
    ConcatOne(ResponseBytes, m);
    hide Concat;
    TwoBytes(3, 1, VarInt(|m|), m);
  }

  lemma TwoBytes(x: byte, y: byte, b: seq<byte>, c: seq<byte>)
    ensures [x] + ([y] + (b + c)) == [x, y] + b + c
  {
    assert [x] + ([y] + (b + c)) == [x, y] + (b + c);
    Append([x, y], b, c);
  }

  /** In the flat list the proof comes before the callbacks. */
  lemma AncestorWritten(a: TSCAncestryJSON)
    requires |Unhex(a.rawTx)| < 0x1_0000_0000_0000_0000
    requires a.proof.Some? ==> |Encoding(a.proof.value)| < 0x1_0000_0000_0000_0000
    ensures a.mapiResponses == [] ==>
      AncestorBytes(a) == Typed(1, Unhex(a.rawTx)) + if a.proof.Some? then Typed(2, Encoding(a.proof.value)) else []
    ensures forall m :: a.mapiResponses == [m] && |m| < 0x1_0000_0000_0000_0000 ==>
      AncestorBytes(a) == Typed(1, Unhex(a.rawTx))
        + ((if a.proof.Some? then Typed(2, Encoding(a.proof.value)) else []) + ([3, 1] + VarInt(|m|) + m))
  {
    hide VarInt, Unhex, Encoding, Typed, ChunkBytes;
    TypedIsChunk(1, Unhex(a.rawTx));
    if a.proof.Some? {
      TypedIsChunk(2, Encoding(a.proof.value));
    }
    CallbackBytes(a.mapiResponses);
    assert a.mapiResponses == [] ==> ProofBytes(a.proof) + [] == ProofBytes(a.proof);
  }

  /** A chain of envelopes: each link is its transaction and its responses, one flake each, and the last one has
      its proof behind them. */
  lemma ChainWritten(e: AncestryJSON, rest: seq<byte>)
    requires IsChainShape(e) && |Unhex(e.rawTx)| < 0x1_0000_0000_0000_0000
    requires rest == if e.proof.Some? then ChunkBytes(Chunk(2, Encoding(e.proof.value)))
                     else ChainBytes(e.parents[OnlyParent(e)])
    ensures e.mapiResponses == [] ==> ChainBytes(e) == Typed(1, Unhex(e.rawTx)) + rest
    ensures forall m :: e.mapiResponses == [m] && |m| < 0x1_0000_0000_0000_0000 ==>
      ChainBytes(e) == Typed(1, Unhex(e.rawTx)) + (Typed(3, m) + rest)
  {
    ChainSplits(e);
    hide ChainBytes, ChunkBytes, Typed, Unhex, Encoding, MapiFlakes, IsChainShape;
    TypedIsChunk(1, Unhex(e.rawTx));
    NoResponses();
    assert [] + rest == rest;
    forall m | e.mapiResponses == [m] && |m| < 0x1_0000_0000_0000_0000 ensures MapiFlakes([m]) == Typed(3, m) {
      OneFlake(m);
    }
  }

  lemma OneFlake(m: seq<byte>)
    requires |m| < 0x1_0000_0000_0000_0000
    ensures MapiFlakes([m]) == Typed(3, m)
  {
    hide ChunkBytes, Typed;
    ConcatOne(MapiFlake, m);
    TypedIsChunk(3, m);
  }

  // ---------- TSC proofs ----------

  /** The flags byte: bit 0 for a full transaction, bit 1 for a block header, bit 2 for a Merkle root. */
  lemma FlagsWritten(mp: MerkleProof)
    ensures var tx := if |mp.txOrId| > 64 then 1 else 0;
      && (mp.targetType != "header" && mp.targetType != "merkleRoot" ==> Encoding(mp)[0] == tx)
      && (mp.targetType == "header" ==> Encoding(mp)[0] == 2 + tx)
      && (mp.targetType == "merkleRoot" ==> Encoding(mp)[0] == 4 + tx)
  {
    hide VarInt, TxPart;
  }

  /** The bytes of a proof with one node, which is a hash behind a 0 or a copy mark, the single byte 1. */
  function OneNodeProof(flags: byte, index: uint64, tx: seq<byte>, target: seq<byte>, node: Option<Digest>): seq<byte>
    requires |tx| < 0x1_0000_0000_0000_0000
  {
    [flags] + (VarInt(index) + ((if flags % 2 == 1 then VarInt(|tx|) else []) + (tx + (target
      + if node.Some? then [1, 0] + node.value else [1, 1]))))
  }

  /** What the parser reads from these bytes: flags 0 to 5 say what the transaction and the target are, the
      higher bits are kept but mean nothing, and with both target bits the proof is refused. */
  lemma OneNodeParsed(flags: byte, index: uint64, tx: seq<byte>, target: seq<byte>, node: Option<Digest>)
    requires |tx| < 0x1_0000_0000_0000_0000 && (if flags % 2 == 1 then |tx| > 32 else |tx| == 32)
    requires |target| == if flags % 8 == 2 || flags % 8 == 3 then 80 else 32
    ensures Parse(OneNodeProof(flags, index, tx, target, node)) ==
      if flags % 8 >= 6 then Err(InvalidMerkleFlags)
      else if index >= 2 then Err(InvalidProof)
      else Ok(MerkleProofBinary(flags, index, Show(tx), Show(target), [if node.Some? then Show(node.value) else "*"]))
  {
    hide VarInt, ReadVarInt, Show, ParseNodeList, Split;
    var nodePart := if node.Some? then [1, 0] + node.value else [1, 1];
    var targetPart := target + nodePart;
    var length := if flags % 2 == 1 then VarInt(|tx|) else [];
    var txPart := length + (tx + targetPart);
    VarIntRoundTrip(index, txPart);
    VarIntRoundTrip(|tx|, tx + targetPart);
    assert flags % 2 == 0 ==> txPart == tx + targetPart;
    SplitParts(tx, targetPart);
    SplitParts(target, nodePart);
    OneNodeList(index, node);
    assert OneNodeProof(flags, index, tx, target, node)[1..] == VarInt(index) + txPart;
    assert TargetBits(flags) == flags % 8 / 2;
  }

  lemma OneNodeList(index: nat, node: Option<Digest>)
    ensures ParseNodeList(index, if node.Some? then [1, 0] + node.value else [1, 1]) ==
      if index >= 2 then Err(InvalidProof) else Ok([if node.Some? then Show(node.value) else "*"])
  {
    hide ParseNodes, Show;
    assert Pow2(1) == 2;
    OneNode(node);
    if node.Some? {
      var b: seq<byte> := [1, 0] + node.value;
      assert ReadVarInt(b) == Ok((1, 1)) && b[1..] == [0] + node.value;
    } else {
      var b: seq<byte> := [1, 1];
      assert ReadVarInt(b) == Ok((1, 1)) && b[1..] == [1];
    }
  }

  lemma OneNode(node: Option<Digest>)
    ensures ParseNodes(if node.Some? then [0] + node.value else [1], 1)
      == Ok([if node.Some? then Show(node.value) else "*"])
  {
    hide Show;
    var b: seq<byte> := if node.Some? then [0] + node.value else [1];
    var others: seq<string> := [];
    if node.Some? {
      assert b[1..] == node.value && node.value[..32] == node.value;
      assert ParseNodes(node.value[32..], 0) == Ok(others);
      assert [Show(node.value)] + others == [Show(node.value)];
    } else {
      assert b[1..] == [];
      assert ParseNodes(b[1..], 0) == Ok(others);
      assert ["*"] + others == ["*"];
    }
  }

  /** What is refused: no bytes, a transaction of at most 32 bytes, and a node behind anything but 0 or 1. */
  lemma ProofRefused(flags: byte, index: uint64, length: uint64, t: byte, rest: seq<byte>, count: nat)
    ensures Parse([]) == Err(Panic)
    ensures flags % 2 == 1 && length <= 32 ==>
      Parse([flags] + (VarInt(index) + (VarInt(length) + rest))) == Err(InvalidTxLength)
    ensures t >= 2 ==> ParseNodes([t] + rest, count + 1) == Err(InvalidNodeType)
    ensures ParseNodes([], count + 1) == Err(Panic)
  {
    hide VarInt, ReadVarInt, Split, ParseTarget, ParseNodeList;
    VarIntRoundTrip(index, VarInt(length) + rest);
    VarIntRoundTrip(length, rest);
    var tail := VarInt(index) + (VarInt(length) + rest);
    assert ([flags] + tail)[1..] == tail;
  }

  /** What the verifier takes for the root: with flags 0 and 1 that of the named block, with 2 and 3 the one in
      the header, with 4 and 5 the target itself. */
  lemma RootByFlags(env: Lookups, flags: byte, target: string)
    ensures flags % 8 == 0 || flags % 8 == 1 ==> BinaryRoot(env, flags, target) == env.rootOfBlock(target)
    ensures flags % 8 == 2 || flags % 8 == 3 ==>
      BinaryRoot(env, flags, target) == ExtractMerkleRootFromBlockHeader(target)
    ensures flags % 8 == 4 || flags % 8 == 5 ==> BinaryRoot(env, flags, target) == Some(target)
    ensures flags % 8 >= 6 ==> BinaryRoot(env, flags, target) == None
  {
    hide ExtractMerkleRootFromBlockHeader;
    assert TargetBits(flags) == flags % 8 / 2;
  }

  // ---------- BUMPs ----------

  /** A leaf is its offset, then 0 and the hash, 2 and the hash of a txid, 1 for a duplicate, or 3 for a
      duplicate txid; higher bits of the flags mean nothing. */
  lemma LeafWritten(offset: uint64, hash: string)
    ensures LeafBytes(Leaf(offset, Some(hash), None, None)) == VarInt(offset) + [0] + Read(hash)
    ensures LeafBytes(Leaf(offset, Some(hash), Some(true), None)) == VarInt(offset) + [2] + Read(hash)
    ensures LeafBytes(Leaf(offset, None, None, Some(true))) == VarInt(offset) + [1]
    ensures LeafBytes(Leaf(offset, None, Some(true), Some(true))) == VarInt(offset) + [3]
  {
    hide VarInt, Read;
    Append(VarInt(offset), [0], Read(hash));
    Append(VarInt(offset), [2], Read(hash));
  }

  lemma LeafParsed(offset: uint64, flags: byte, hash: Digest, rest: seq<byte>)
    ensures var f := flags % 4;
      && (f == 0 ==> ParseLeaf(VarInt(offset) + [flags] + hash + rest)
                     == Ok((Leaf(offset, Some(Show(hash)), None, None), rest)))
      && (f == 2 ==> ParseLeaf(VarInt(offset) + [flags] + hash + rest)
                     == Ok((Leaf(offset, Some(Show(hash)), Some(true), None), rest)))
      && (f == 1 ==> ParseLeaf(VarInt(offset) + [flags] + rest) == Ok((Leaf(offset, None, None, Some(true)), rest)))
      && (f == 3 ==> ParseLeaf(VarInt(offset) + [flags] + rest)
                     == Ok((Leaf(offset, None, Some(true), Some(true)), rest)))
  {
    hide VarInt, ReadVarInt, Show;
    var body := if flags % 2 == 0 then hash + rest else rest;
    VarIntRoundTrip(offset, [flags] + body);
    Append(VarInt(offset), [flags], hash);
    Append(VarInt(offset), [flags] + hash, rest);
    Append([flags], hash, rest);
    Append(VarInt(offset), [flags], rest);
    assert ([flags] + body)[1..] == body;
    SplitParts(hash, rest);
  }

  /** A hash of fewer than 32 bytes is reported, and so are a level without leaves and a stream of fewer than 37
      bytes. */
  lemma BumpRefused(offset: uint64, flags: byte, short: seq<byte>, rest: seq<byte>)
    ensures flags % 2 == 0 && |short| < 32 ==> ParseLeaf(VarInt(offset) + ([flags] + short)) == Err(NotEnoughData)
    ensures ParseLevel([0] + rest) == Err(EmptyLevel)
    ensures |short| < 37 ==> ParseBump(short) == Err(NotEnoughData)
  {
    hide VarInt, ParseMany;
    VarIntRoundTrip(offset, [flags] + short);
    assert ([flags] + short)[1..] == short;
    assert ReadVarInt([0] + rest) == Ok((0, 1));
  }

  /** What the constructor of a BUMP does with arrays that are no trees, and with places that are no leaves: it
      refuses an empty array, and panics where there is no node, no level or no sibling. */
  lemma BuiltRefused(height: uint64, cells: seq<Option<Digest>>, i: uint64)
    ensures BuiltBump(height, [], i) == Err(EmptyTree)
    ensures cells != [] && (i >= |cells| || cells[i] == None) ==> BuiltBump(height, cells, i) == Err(Panic)
    ensures |cells| == 1 && i == 0 && cells[0].Some? ==>
      BuiltBump(height, cells, i) == Ok(BUMP(height, [[Leaf(0, Some(Show(cells[0].value)), Some(true), None)]]))
    ensures |cells| == 2 && i < 2 && cells[i].Some? ==> BuiltBump(height, cells, i) == Err(Panic)
    ensures |cells| == 3 && i == 2 && cells[2].Some? ==> BuiltBump(height, cells, i) == Err(Panic)
  {
    hide Show;
    assert FloorLog2(1) == 0 && FloorLog2(2) == 1;
    assert SiblingLevels(cells, 0, 1, i, 0) == Ok([]);
    assert |cells| == 3 && i == 2 ==> SiblingLevels(cells, 0, 2, i, 1) == Err(Panic);
  }

  /** A BUMP of one level with one leaf. */
  lemma BumpWritten(height: uint64, offset: uint64, hash: string)
    ensures BumpBytes(BUMP(height, [[Leaf(offset, Some(hash), Some(true), None)]]))
      == VarInt(height) + [1, 1] + VarInt(offset) + [2] + Read(hash)
  {
    var l := Leaf(offset, Some(hash), Some(true), None);
    VarIntBytes(1);
    LeafWritten(offset, hash);
    hide VarInt, Read, LeafBytes;
    ConcatOne(LevelBytes, [l]);
    ConcatOne(LeafBytes, l);
    assert LevelBytes([l]) == [1] + LeafBytes(l);
    FiveParts(VarInt(height), VarInt(offset), Read(hash));
  }

  lemma FiveParts(a: seq<byte>, b: seq<byte>, c: seq<byte>)
    ensures a + ([1] + ([1] + (b + [2] + c))) == a + [1, 1] + b + [2] + c
  {
    Append([1, 1], b + [2], c);
    Append(a, [1, 1] + (b + [2]), c);
    Append(a, [1, 1], b + [2]);
    Append(a + [1, 1], b, [2]);
    assert [1] + ([1] + (b + [2] + c)) == [1, 1] + (b + [2] + c);
  }

  // ---------- a whole payment ----------

  /** A payment that spends one output of one proven parent, whose id it names in display order, is accepted
      with proofs and scripts on exactly when the proof is valid for the parent's txid and the output exists. */
  lemma OneParentPayment(
    sha: Sha256d, env: Lookups, dec: Decoders, raw: seq<byte>, p: seq<byte>, tx: Tx, vout: nat, q: Option<FeeQuote>)
    requires |raw| < 0x1_0000_0000_0000_0000 && |p| < 0x1_0000_0000_0000_0000
    requires dec.tx(raw).Some? && dec.tx(raw).value.raw == raw && dec.tx(raw).value.inputs != []
    requires forall n :: 0 <= n < |dec.tx(raw).value.inputs| ==>
      dec.tx(raw).value.inputs[n].txid != Reverse(sha(raw)) && dec.tx(raw).value.inputs[n].txid != Reverse(sha(tx.raw))
    requires tx.inputs == [Outpoint(Reverse(sha(raw)), vout)] && sha(tx.raw) != sha(raw)
    ensures var outcome := BinaryOutcome(sha, env, p);
      Accepts(sha, env, dec, Payment(tx, [1] + Typed(1, raw) + Typed(2, p)), Options(true, true, false, q))
      <==> outcome.Some? && outcome.value.valid && outcome.value.txid == Show(sha(raw))
           && vout < |dec.tx(raw).value.outputs|
  {
    hide BinaryOutcome, Typed, ParsedAncestry, FeesPass, EntryPasses, InputIds;
    OneParentParsed(sha, dec, raw, p);
    var parent, id, own := dec.tx(raw).value, Reverse(sha(raw)), Reverse(sha(tx.raw));
    ReverseReverse(sha(raw));
    ReverseReverse(sha(tx.raw));
    var a, o := Entry(parent, Some(p), []), Options(true, true, false, q);
    var aa := WithPayment(sha, map[id := a], tx);
    assert aa.Keys == {id, own} && aa[id] == a && aa[own] == Entry(tx, None, []);
    SpendingPasses(sha, env, aa, tx, id, vout, o);
    ParentPasses(sha, env, aa, a, o);
  }

  lemma SpendingPasses(sha: Sha256d, env: Lookups, aa: Ancestors, tx: Tx, id: Digest, vout: nat, o: Options)
    requires tx.inputs == [Outpoint(id, vout)] && id in aa && o.proofs && o.script
    ensures EntryPasses(sha, env, aa, Entry(tx, None, []), o) <==> vout < |aa[id].tx.outputs|
  {
    LastInputsOf(tx);
    LastInputsAreLast(tx.inputs, 0);
    assert InputIds(tx) == {id};
  }

  lemma ParentPasses(sha: Sha256d, env: Lookups, aa: Ancestors, a: Entry, o: Options)
    requires a.tx.inputs != [] && a.proof.Some? && o.proofs && o.script
    requires forall n :: 0 <= n < |a.tx.inputs| ==> a.tx.inputs[n].txid !in aa
    ensures EntryPasses(sha, env, aa, a, o) <==> ProofHolds(sha, env, a)
  {
    hide ProofHolds;
    forall input | input in InputIds(a.tx) ensures input !in aa {
      var n :| 0 <= n < |a.tx.inputs| && a.tx.inputs[n].txid == input;
    }
  }
}

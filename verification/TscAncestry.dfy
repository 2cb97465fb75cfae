/** spv/ancestry_tsc_json.go: the flat list of ancestors and its encoding. */
module TscAncestries {
  import opened Outcomes
  import opened ByteStrings
  import opened Codecs
  import opened MerkleProofs
  import opened AncestryBinary
  import opened AncestryJsons
  import opened AncestryRoundTrips

  datatype TSCAncestryJSON = TSCAncestryJSON(
    rawTx: string,
    proof: Option<MerkleProof>,
    mapiResponses: seq<seq<byte>>)

  /** An ancestor writes its transaction, then its proof, then its mAPI responses. */
  function AncestorBytes(a: TSCAncestryJSON): seq<byte> {
    Field(FLAG_TX, Unhex(a.rawTx)) + (ProofBytes(a.proof) + MapiBytes(a.mapiResponses))
  }

  /** The same ancestor as a node without parents. */
  function AsNode(a: TSCAncestryJSON): AncestryJSON {
    AncestryJSON("", a.rawTx, a.proof, a.mapiResponses, map[])
  }

  ghost predicate ListEncodable(list: seq<TSCAncestryJSON>) {
    forall n :: 0 <= n < |list| ==> NodeEncodable(AsNode(list[n]))
  }

  method ListBytes(list: seq<TSCAncestryJSON>) returns (r: Result<seq<byte>>)
    ensures r == if ListEncodable(list) then Ok([1] + Concat(AncestorBytes, list)) else Err(BadHex)
  {
    hide AncestorBytes, NodeEncodable;
    var binaryTxContext: seq<byte> := [1];
    ghost var version := binaryTxContext;
    for n := 0 to |list|
      invariant ListEncodable(list[..n])
      invariant binaryTxContext == version + Concat(AncestorBytes, list[..n])
    {
      var own := EncodeAncestor(list[n]);
      if own.Err? {
        return own;
      }
      assert list[..n + 1] == list[..n] + [list[n]];
      ConcatAppend(AncestorBytes, list[..n], [list[n]]);
      ConcatOne(AncestorBytes, list[n]);
      Append(version, Concat(AncestorBytes, list[..n]), AncestorBytes(list[n]));
      binaryTxContext := binaryTxContext + own.value;
    }
    assert list[..|list|] == list;
    return Ok(binaryTxContext);
  }

  /** The body of the loop over the list. */
  method EncodeAncestor(ancestor: TSCAncestryJSON) returns (r: Result<seq<byte>>)
    ensures r == if NodeEncodable(AsNode(ancestor)) then Ok(AncestorBytes(ancestor)) else Err(BadHex)
  {
    hide IsHex, Unhex, Encoding, Encodable, MapiBytes, ChunkBytes;
    if !IsHex(ancestor.rawTx) {
      return Err(BadHex);
    }
    var bytes := Field(FLAG_TX, Unhex(ancestor.rawTx));
    var proofBytes: seq<byte> := [];
    if ancestor.proof.Some? {
      var rawProof := Bytes(ancestor.proof.value);
      if rawProof.Err? {
        return rawProof;
      }
      proofBytes := Field(FLAG_PROOF, rawProof.value);
    }
    return Ok(bytes + (proofBytes + MapiBytes(ancestor.mapiResponses)));
  }

  // ---------- reading the list back ----------

  ghost predicate ListParsable(dec: Decoders, list: seq<TSCAncestryJSON>) {
    forall n :: 0 <= n < |list| ==> Parsable(dec, AsNode(list[n]))
  }

  function AncestorId(sha: Sha256d, a: TSCAncestryJSON): Digest {
    NodeId(sha, AsNode(a))
  }

  /** The map of a list: every ancestor under its id, a later one replacing an earlier one. */
  ghost function ListMap(sha: Sha256d, dec: Decoders, list: seq<TSCAncestryJSON>): Ancestors
    requires ListParsable(dec, list)
  {
    map id | id in ListIds(sha, list) :: NodeEntry(dec, AsNode(list[LastIndex(sha, list, id)]))
  }

  ghost function ListIds(sha: Sha256d, list: seq<TSCAncestryJSON>): set<Digest> {
    set n | 0 <= n < |list| :: AncestorId(sha, list[n])
  }

  /** The last place of an id in a list. */
  ghost function LastIndex(sha: Sha256d, list: seq<TSCAncestryJSON>, id: Digest): (n: nat)
    requires id in ListIds(sha, list)
    ensures n < |list| && AncestorId(sha, list[n]) == id
    ensures forall m :: n < m < |list| ==> AncestorId(sha, list[m]) != id
  {
    var last := |list| - 1;
    if AncestorId(sha, list[last]) == id then last
    else
      LaterIdElsewhere(sha, list, id);
      LastIndex(sha, list[..last], id)
  }

  lemma LaterIdElsewhere(sha: Sha256d, list: seq<TSCAncestryJSON>, id: Digest)
    requires id in ListIds(sha, list) && AncestorId(sha, list[|list| - 1]) != id
    ensures id in ListIds(sha, list[..|list| - 1])
  {
    hide AncestorId;
    var n :| 0 <= n < |list| && AncestorId(sha, list[n]) == id;
    assert list[..|list| - 1][n] == list[n];
  }

  lemma ListMapGrows(sha: Sha256d, dec: Decoders, list: seq<TSCAncestryJSON>, a: TSCAncestryJSON)
    requires ListParsable(dec, list) && Parsable(dec, AsNode(a))
    ensures ListParsable(dec, list + [a])
    ensures ListMap(sha, dec, list + [a]) == ListMap(sha, dec, list)[AncestorId(sha, a) := NodeEntry(dec, AsNode(a))]
  {
    hide AncestorId, Parsable, NodeEntry;
    var longer := list + [a];
    assert longer[|list|] == a && longer[..|list|] == list;
    assert ListIds(sha, longer) == ListIds(sha, list) + {AncestorId(sha, a)} by {
      forall id | id in ListIds(sha, list) ensures id in ListIds(sha, longer) {
        var n :| 0 <= n < |list| && AncestorId(sha, list[n]) == id;
        assert longer[n] == list[n];
      }
    }
    forall id | id in ListIds(sha, longer)
      ensures longer[LastIndex(sha, longer, id)]
        == if id == AncestorId(sha, a) then a else list[LastIndex(sha, list, id)]
    {
      if id != AncestorId(sha, a) {
        var n, m := LastIndex(sha, longer, id), LastIndex(sha, list, id);
        assert longer[n] == list[n] && longer[m] == list[m];
      }
    }
  }

  /** Reading one ancestor of the list after those before it. */
  lemma {:induction false} ReadList(sha: Sha256d, dec: Decoders, list: seq<TSCAncestryJSON>, rest: seq<byte>)
    returns (end: Cursor)
    requires ListParsable(dec, list)
    ensures TakeChunks(sha, dec, Start(), Concat(AncestorBytes, list) + rest) == TakeChunks(sha, dec, end, rest)
    ensures end.aa == ListMap(sha, dec, list)
    decreases |list|
  {
    hide TakeChunks, AncestorBytes, Parsable, NodeEntry, NodeId, OwnBytes;
    if list == [] {
      end := Start();
      assert Concat(AncestorBytes, list) + rest == rest;
    } else {
      var last := |list| - 1;
      var before, a := list[..last], list[last];
      assert list == before + [a];
      ConcatAppend(AncestorBytes, before, [a]);
      ConcatOne(AncestorBytes, a);
      Append(Concat(AncestorBytes, before), AncestorBytes(a), rest);
      var at := ReadList(sha, dec, before, AncestorBytes(a) + rest);
      SameOwnBytes(dec, a);
      TakeOwn(sha, dec, at, AsNode(a), rest);
      ListMapGrows(sha, dec, before, a);
      end := Cursor(at.aa[AncestorId(sha, a) := NodeEntry(dec, AsNode(a))], AncestorId(sha, a));
    }
  }

  lemma SameOwnBytes(dec: Decoders, a: TSCAncestryJSON)
    requires Parsable(dec, AsNode(a))
    ensures AncestorBytes(a) == OwnBytes(AsNode(a))
  {
    hide ProofBytes, Field;
    assert MapiBytes(a.mapiResponses) + ProofBytes(a.proof) == ProofBytes(a.proof) + MapiBytes(a.mapiResponses);
  }

  /** The flat list parses to its id-indexed map, in which the last entry of an id wins; an empty list is
      refused. */
  lemma ListRoundTrip(sha: Sha256d, dec: Decoders, list: seq<TSCAncestryJSON>)
    requires ListParsable(dec, list)
    ensures ParsedAncestry(sha, dec, [1] + Concat(AncestorBytes, list)) ==
      if list == [] then Err(CannotCalculateFeePaid) else Ok(ListMap(sha, dec, list))
  {
    hide TakeChunks, AncestorBytes, Parsable, NodeEntry, NodeId, ListMap;
    var b := Concat(AncestorBytes, list);
    assert ([1] + b)[1..] == b;
    if list != [] {
      var end := ReadList(sha, dec, list, []);
      assert b + [] == b;
      NothingLeft(sha, dec, end);
      SameOwnBytes(dec, list[0]);
      OwnStartsWithTx(AsNode(list[0]));
      assert b[0] == FLAG_TX;
    }
  }
}

/** Flattening a nested ancestry and parsing the bytes again. */
module AncestryRoundTrips {
  import opened Outcomes
  import opened ByteStrings
  import opened VerifyProofs
  import opened MerkleProofs
  import opened AncestryBinary
  import opened AncestryJsons

  /** The ancestors that the writer reaches: it does not descend below a proof. */
  ghost function Visited(e: AncestryJSON): set<AncestryJSON>
    decreases e, 0
  {
    set k, n | k in e.parents && n in VisitedFrom(e.parents[k]) :: n
  }

  ghost function VisitedFrom(n: AncestryJSON): set<AncestryJSON>
    decreases n, 1
  {
    {n} + if Descends(n) then Visited(n) else {}
  }

  ghost function VisitedAt(e: AncestryJSON, keys: set<string>): set<AncestryJSON>
    requires keys <= e.parents.Keys
  {
    set k, n | k in keys && n in VisitedFrom(e.parents[k]) :: n
  }

  function NodeId(sha: Sha256d, n: AncestryJSON): Digest {
    IdOfBytes(sha, Unhex(n.rawTx))
  }

  ghost function Ids(sha: Sha256d, nodes: set<AncestryJSON>): set<Digest> {
    set n | n in nodes :: NodeId(sha, n)
  }

  /** What the parser can read back: no mAPI responses, and a transaction with inputs. */
  ghost predicate Parsable(dec: Decoders, n: AncestryJSON) {
    && n.mapiResponses == []
    && dec.tx(Unhex(n.rawTx)).Some? && dec.tx(Unhex(n.rawTx)).value.inputs != []
    && |Unhex(n.rawTx)| < 0x1_0000_0000_0000_0000
    && (n.proof.Some? ==> |Encoding(n.proof.value)| < 0x1_0000_0000_0000_0000)
  }

  /** The entry that the parser should make of an ancestor. */
  ghost function NodeEntry(dec: Decoders, n: AncestryJSON): Entry
    requires Parsable(dec, n)
  {
    Entry(dec.tx(Unhex(n.rawTx)).value, if n.proof.Some? then Some(Encoding(n.proof.value)) else None, [])
  }

  ghost predicate AllParsable(dec: Decoders, nodes: set<AncestryJSON>) {
    forall n :: n in nodes ==> Parsable(dec, n)
  }

  /** Equal transactions carry equal proofs. */
  ghost predicate SameIdSameEntry(sha: Sha256d, dec: Decoders, nodes: set<AncestryJSON>)
    requires AllParsable(dec, nodes)
  {
    forall m, n :: m in nodes && n in nodes && NodeId(sha, m) == NodeId(sha, n) ==>
      NodeEntry(dec, m) == NodeEntry(dec, n)
  }

  /** The nodes are recorded in the book as they should be. */
  ghost predicate InBook(sha: Sha256d, dec: Decoders, nodes: set<AncestryJSON>, book: Ancestors)
    requires AllParsable(dec, nodes)
  {
    forall n :: n in nodes ==> NodeId(sha, n) in book && book[NodeId(sha, n)] == NodeEntry(dec, n)
  }

  ghost predicate PartOf(aa: Ancestors, book: Ancestors) {
    forall id :: id in aa ==> id in book && book[id] == aa[id]
  }

  /** The chunks of one ancestor set its entry, whatever was there before. */
  lemma TakeOwn(sha: Sha256d, dec: Decoders, at: Cursor, n: AncestryJSON, rest: seq<byte>)
    requires Parsable(dec, n)
    ensures TakeChunks(sha, dec, at, OwnBytes(n) + rest)
      == TakeChunks(sha, dec, Cursor(at.aa[NodeId(sha, n) := NodeEntry(dec, n)], NodeId(sha, n)), rest)
  {
    hide TakeChunks, ChunkBytes, Unhex, Encoding, IdOfBytes;
    var id := NodeId(sha, n);
    var tx := dec.tx(Unhex(n.rawTx)).value;
    var txChunk := Chunk(FLAG_TX, Unhex(n.rawTx));
    var tail := ProofBytes(n.proof) + rest;
    assert MapiBytes(n.mapiResponses) + ProofBytes(n.proof) == ProofBytes(n.proof);
    Append(ChunkBytes(txChunk), ProofBytes(n.proof), rest);
    TakeOneChunk(sha, dec, at, txChunk, tail);
    var next := Cursor(at.aa[id := Entry(tx, None, [])], id);
    assert TakeChunk(sha, dec, at, txChunk) == Ok(next);
    if n.proof.Some? {
      var proofChunk := Chunk(FLAG_PROOF, Encoding(n.proof.value));
      TakeOneChunk(sha, dec, next, proofChunk, rest);
      assert at.aa[id := Entry(tx, None, [])][id := NodeEntry(dec, n)] == at.aa[id := NodeEntry(dec, n)];
    } else {
      assert tail == rest;
    }
  }

  lemma VisitedSplits(sha: Sha256d, e: AncestryJSON, keys: set<string>, k: string)
    requires keys <= e.parents.Keys && k in keys
    ensures VisitedAt(e, keys) == VisitedAt(e, keys - {k}) + VisitedFrom(e.parents[k])
    ensures Ids(sha, VisitedAt(e, keys)) == Ids(sha, VisitedAt(e, keys - {k})) + Ids(sha, VisitedFrom(e.parents[k]))
  {
    hide NodeId, VisitedFrom;
    assert VisitedAt(e, keys) == VisitedAt(e, keys - {k}) + VisitedFrom(e.parents[k]);
  }

  lemma VisitedIsAll(sha: Sha256d, n: AncestryJSON)
    ensures Visited(n) == VisitedAt(n, n.parents.Keys)
    ensures Descends(n) ==> Ids(sha, VisitedFrom(n)) == {NodeId(sha, n)} + Ids(sha, VisitedAt(n, n.parents.Keys))
    ensures !Descends(n) ==> Ids(sha, VisitedFrom(n)) == {NodeId(sha, n)}
    ensures n in VisitedFrom(n) && (Descends(n) ==> Visited(n) <= VisitedFrom(n))
  {
    hide NodeId;
    assert Visited(n) == VisitedAt(n, n.parents.Keys);
  }

  /** The core of the round trip: reading what a walk wrote adds exactly the ids of what it visited, with
      the entries of the book. */
  lemma {:induction false} ReadSerialised(
    sha: Sha256d, dec: Decoders, e: AncestryJSON, keys: set<string>, b: seq<byte>, rest: seq<byte>,
    at: Cursor, book: Ancestors)
    returns (end: Cursor)
    requires keys <= e.parents.Keys && Serialises(e, keys, b)
    requires AllParsable(dec, VisitedAt(e, keys)) && InBook(sha, dec, VisitedAt(e, keys), book)
    requires PartOf(at.aa, book)
    ensures TakeChunks(sha, dec, at, b + rest) == TakeChunks(sha, dec, end, rest)
    ensures PartOf(end.aa, book)
    ensures end.aa.Keys == at.aa.Keys + Ids(sha, VisitedAt(e, keys))
    decreases e, keys
  {
    hide TakeChunks, OwnBytes, Parsable, NodeEntry, NodeId, VisitedAt, VisitedFrom, Ids;
    if keys == {} {
      end := at;
      NothingVisited(sha, e);
      assert b + rest == rest;
    } else {
      var k, before, below :| IsLast(e, keys, b, k, before, below)
        && Serialises(e, keys - {k}, before)
        && (if Descends(e.parents[k]) then Serialises(e.parents[k], e.parents[k].parents.Keys, below) else below == []);
      var n := e.parents[k];
      VisitedSplits(sha, e, keys, k);
      VisitedIsAll(sha, n);
      Append(before, OwnBytes(n) + below, rest);
      Append(OwnBytes(n), below, rest);
      var at1 := ReadSerialised(sha, dec, e, keys - {k}, before, OwnBytes(n) + (below + rest), at, book);
      TakeOwn(sha, dec, at1, n, below + rest);
      var at2 := Cursor(at1.aa[NodeId(sha, n) := NodeEntry(dec, n)], NodeId(sha, n));
      if Descends(n) {
        end := ReadSerialised(sha, dec, n, n.parents.Keys, below, rest, at2, book);
      } else {
        end := at2;
        assert below + rest == rest;
      }
    }
  }

  lemma NothingVisited(sha: Sha256d, e: AncestryJSON)
    ensures Ids(sha, VisitedAt(e, {})) == {}
  {
  }

  /** A walk over at least one parent starts with a transaction. */
  lemma {:induction false} StartsWithTx(e: AncestryJSON, keys: set<string>, b: seq<byte>)
    requires keys <= e.parents.Keys && keys != {} && Serialises(e, keys, b)
    ensures b != [] && b[0] == FLAG_TX
    decreases keys
  {
    hide Encoding, Unhex;
    var k, before, below :| IsLast(e, keys, b, k, before, below) && Serialises(e, keys - {k}, before);
    OwnStartsWithTx(e.parents[k]);
    if keys - {k} != {} {
      StartsWithTx(e, keys - {k}, before);
    } else {
      assert before == [];
    }
  }

  lemma OwnStartsWithTx(n: AncestryJSON)
    ensures |OwnBytes(n)| > 0 && OwnBytes(n)[0] == FLAG_TX
  {
    hide Unhex, Encoding;
  }

  ghost function PickNode(sha: Sha256d, nodes: set<AncestryJSON>, id: Digest): AncestryJSON
    requires id in Ids(sha, nodes)
    ensures PickNode(sha, nodes, id) in nodes && NodeId(sha, PickNode(sha, nodes, id)) == id
  {
    var n :| n in nodes && NodeId(sha, n) == id;
    n
  }

  ghost function BookOf(sha: Sha256d, dec: Decoders, nodes: set<AncestryJSON>): (book: Ancestors)
    requires AllParsable(dec, nodes)
    ensures book.Keys == Ids(sha, nodes)
  {
    map id | id in Ids(sha, nodes) :: NodeEntry(dec, PickNode(sha, nodes, id))
  }

  lemma BookHoldsAll(sha: Sha256d, dec: Decoders, nodes: set<AncestryJSON>)
    requires AllParsable(dec, nodes) && SameIdSameEntry(sha, dec, nodes)
    ensures InBook(sha, dec, nodes, BookOf(sha, dec, nodes))
  {
    hide NodeId, NodeEntry, Parsable;
    forall n | n in nodes
      ensures NodeId(sha, n) in BookOf(sha, dec, nodes)
      ensures BookOf(sha, dec, nodes)[NodeId(sha, n)] == NodeEntry(dec, n)
    {
      assert NodeId(sha, n) in Ids(sha, nodes);
    }
  }

  /** Flatten and parse: whatever order the maps are walked in, the parsed map has as keys exactly the ids
      of the transactions reached without descending below a proof, each with its own proof bytes. */
  lemma FlattenParse(sha: Sha256d, dec: Decoders, e: AncestryJSON, b: seq<byte>)
    requires e.parents != map[] && IsBytesOf(e, b)
    requires AllParsable(dec, Visited(e)) && SameIdSameEntry(sha, dec, Visited(e))
    ensures ParsedAncestry(sha, dec, b) == Ok(BookOf(sha, dec, Visited(e)))
    ensures InBook(sha, dec, Visited(e), BookOf(sha, dec, Visited(e)))
  {
    hide TakeChunks, Serialises, Parsable, NodeEntry, NodeId, VisitedAt, VisitedFrom, Ids, Visited, InBook;
    var book := BookOf(sha, dec, Visited(e));
    BookHoldsAll(sha, dec, Visited(e));
    VisitedIsAll(sha, e);
    StartsWithTx(e, e.parents.Keys, b[1..]);
    var end := ReadSerialised(sha, dec, e, e.parents.Keys, b[1..], [], Start(), book);
    assert b[1..] + [] == b[1..];
    NothingLeft(sha, dec, end);
    assert end.aa == book;
  }

  lemma NothingLeft(sha: Sha256d, dec: Decoders, at: Cursor)
    ensures TakeChunks(sha, dec, at, []) == Ok(at)
  {
  }

  // ---------- what is reached, by paths ----------

  /** Following these keys from parents to parents leads to this ancestor, and no ancestor before it on the way
      has a proof. */
  ghost predicate Reaches(e: AncestryJSON, keys: seq<string>, n: AncestryJSON)
    decreases |keys|
  {
    && keys != [] && keys[0] in e.parents
    && if |keys| == 1 then n == e.parents[keys[0]]
       else e.parents[keys[0]].proof.None? && Reaches(e.parents[keys[0]], keys[1..], n)
  }

  lemma {:induction false} VisitedByPath(e: AncestryJSON, n: AncestryJSON) returns (keys: seq<string>)
    requires n in Visited(e)
    ensures Reaches(e, keys, n)
    decreases e
  {
    var k :| k in e.parents && n in VisitedFrom(e.parents[k]);
    if n == e.parents[k] {
      keys := [k];
    } else {
      var others := VisitedByPath(e.parents[k], n);
      keys := [k] + others;
      assert keys[1..] == others;
    }
  }

  lemma {:induction false} PathIsVisited(e: AncestryJSON, keys: seq<string>, n: AncestryJSON)
    requires Reaches(e, keys, n)
    ensures n in Visited(e)
    decreases |keys|
  {
    var parent := e.parents[keys[0]];
    if |keys| > 1 {
      PathIsVisited(parent, keys[1..], n);
      assert parent.parents != map[];
    }
    assert n in VisitedFrom(parent);
  }

  /** The ids in the parsed map are exactly those whose display reads back as the hash of a transaction that is
      reached by some path without a proof on the way. */
  lemma ParsedIsReached(sha: Sha256d, dec: Decoders, e: AncestryJSON, b: seq<byte>, id: Digest)
    requires e.parents != map[] && IsBytesOf(e, b)
    requires AllParsable(dec, Visited(e)) && SameIdSameEntry(sha, dec, Visited(e))
    ensures ParsedAncestry(sha, dec, b).Ok?
    ensures id in ParsedAncestry(sha, dec, b).value
      <==> exists keys, n :: Reaches(e, keys, n) && Read(Hex(id)) == sha(Unhex(n.rawTx))
  {
    hide *;
    FlattenParse(sha, dec, e, b);
    assert id in ParsedAncestry(sha, dec, b).value <==> id in Ids(sha, Visited(e));
    if id in Ids(sha, Visited(e)) {
      var n := PickNode(sha, Visited(e), id);
      IdReads(sha, n, id);
      var keys := VisitedByPath(e, n);
      assert Reaches(e, keys, n) && Read(Hex(id)) == sha(Unhex(n.rawTx));
    }
    if exists keys, n :: Reaches(e, keys, n) && Read(Hex(id)) == sha(Unhex(n.rawTx)) {
      var keys, n :| Reaches(e, keys, n) && Read(Hex(id)) == sha(Unhex(n.rawTx));
      PathIsVisited(e, keys, n);
      IdReads(sha, n, id);
      IdIsIn(sha, Visited(e), n);
    }
  }

  lemma IdReads(sha: Sha256d, n: AncestryJSON, id: Digest)
    ensures NodeId(sha, n) == id <==> Read(Hex(id)) == sha(Unhex(n.rawTx))
  {
    KeyReads(sha, Unhex(n.rawTx), id);
  }

  lemma IdIsIn(sha: Sha256d, nodes: set<AncestryJSON>, n: AncestryJSON)
    requires n in nodes
    ensures NodeId(sha, n) in Ids(sha, nodes)
  {
    hide NodeId;
  }

  /** And whatever is reached is filed with its own transaction and its own proof bytes. */
  lemma ReachedIsFiled(sha: Sha256d, dec: Decoders, e: AncestryJSON, b: seq<byte>, keys: seq<string>, n: AncestryJSON)
    requires e.parents != map[] && IsBytesOf(e, b)
    requires AllParsable(dec, Visited(e)) && SameIdSameEntry(sha, dec, Visited(e))
    requires Reaches(e, keys, n)
    ensures var id, parsed := Reverse(sha(Unhex(n.rawTx))), ParsedAncestry(sha, dec, b);
      && parsed.Ok? && id in parsed.value
      && dec.tx(Unhex(n.rawTx)) == Some(parsed.value[id].tx)
      && parsed.value[id].proof == (if n.proof.Some? then Some(Encoding(n.proof.value)) else None)
      && parsed.value[id].mapiResponses == []
  {
    hide ParsedAncestry, IsBytesOf, Parsable, Unhex, Encoding, Visited, BookOf;
    FlattenParse(sha, dec, e, b);
    PathIsVisited(e, keys, n);
    ParsableHasTx(dec, n);
  }

  lemma ParsableHasTx(dec: Decoders, n: AncestryJSON)
    requires Parsable(dec, n)
    ensures dec.tx(Unhex(n.rawTx)).Some?
  {
  }

  // ---------- what can be written ----------

  lemma {:induction false} PathIsEncodable(e: AncestryJSON, keys: seq<string>, n: AncestryJSON)
    requires AllNodesEncodable(e) && Reaches(e, keys, n)
    ensures NodeEncodable(n)
    decreases |keys|
  {
    hide NodeEncodable;
    if |keys| > 1 {
      var parent := e.parents[keys[0]];
      assert keys[1] in parent.parents;
      PathIsEncodable(parent, keys[1..], n);
    }
  }

  lemma {:induction false} UnencodablePath(e: AncestryJSON) returns (keys: seq<string>, n: AncestryJSON)
    requires !AllNodesEncodable(e)
    ensures Reaches(e, keys, n) && !NodeEncodable(n)
    decreases e
  {
    hide NodeEncodable;
    var k :| k in e.parents
      && !(NodeEncodable(e.parents[k]) && (Descends(e.parents[k]) ==> AllNodesEncodable(e.parents[k])));
    if !NodeEncodable(e.parents[k]) {
      keys, n := [k], e.parents[k];
    } else {
      var others;
      others, n := UnencodablePath(e.parents[k]);
      keys := [k] + others;
      assert keys[1..] == others;
    }
  }

  /** The writer succeeds exactly when every transaction that some path reaches without passing through a proof is
      hexadecimal, and so are the transaction, the target and the nodes of its proof. */
  lemma WritableMeans(e: AncestryJSON)
    ensures AllNodesEncodable(e) <==>
      forall keys, n :: Reaches(e, keys, n) ==>
        && IsHex(n.rawTx)
        && (n.proof.Some? ==>
              var p := n.proof.value;
              && IsHex(p.txOrId) && IsHex(p.target)
              && forall m :: 0 <= m < |p.nodes| ==> p.nodes[m] == "*" || IsHex(p.nodes[m]))
  {
    hide IsHex, Reaches, AllNodesEncodable;
    forall keys, n | AllNodesEncodable(e) && Reaches(e, keys, n) ensures NodeEncodable(n) {
      PathIsEncodable(e, keys, n);
    }
    if !AllNodesEncodable(e) {
      var keys, n := UnencodablePath(e);
      EncodableNode(n);
      assert Reaches(e, keys, n);
    }
  }

  lemma EncodableNode(n: AncestryJSON)
    ensures NodeEncodable(n) <==>
      && IsHex(n.rawTx)
      && (n.proof.Some? ==>
            var p := n.proof.value;
            && IsHex(p.txOrId) && IsHex(p.target)
            && forall m :: 0 <= m < |p.nodes| ==> p.nodes[m] == "*" || IsHex(p.nodes[m]))
  {
    hide IsHex;
  }
}

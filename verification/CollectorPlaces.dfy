/** What the collector of spv/envelope.go leaves in its three maps, stated by the places of the flakes: flake 3k is
    a transaction, flake 3k + 1 a proof, and flake 3k + 2 holds callbacks. */
module CollectorPlaces {
  import opened Outcomes
  import opened ByteStrings
  import opened MerkleProofs
  import opened AncestryBinary
  import opened Collectors

  /** Flake i is there and is not a null value. */
  predicate Full(flakes: seq<seq<byte>>, i: int) {
    0 <= i < |flakes| && |flakes[i]| >= 2
  }

  /** The k-th triple brings this transaction under this txid. */
  ghost predicate BringsTx(sha: Sha256d, ps: Parsers, flakes: seq<seq<byte>>, k: int, txid: string, tx: Tx) {
    Full(flakes, 3 * k) && ps.tx(flakes[3 * k]) == Some(tx) && txid == Show(sha(tx.raw))
  }

  /** The k-th triple brings this proof; its txid is its own or that of its full transaction. */
  ghost predicate BringsProof(ps: Parsers, flakes: seq<seq<byte>>, k: int, txid: string, proof: MerkleProof) {
    && Full(flakes, 3 * k + 1) && ps.proof(flakes[3 * k + 1]) == Some(proof)
    && proof.txOrId != ""
    && (if |proof.txOrId| > 64 then ps.txidOf(proof.txOrId) == Some(txid) else txid == proof.txOrId)
  }

  /** The k-th triple brings these callbacks; their txid is that of the first one. */
  ghost predicate BringsCallbacks(ps: Parsers, flakes: seq<seq<byte>>, k: int, txid: string, callbacks: seq<Callback>) {
    && Full(flakes, 3 * k + 2) && ps.mapi(flakes[3 * k + 2]) == Some(callbacks)
    && |callbacks| > 0 && callbacks[0].callbackTxid == txid
  }

  /** Every flake that is not a null value parses, and so does the transaction inside a proof. */
  ghost predicate PlacesParse(ps: Parsers, flakes: seq<seq<byte>>) {
    && (forall k :: Full(flakes, 3 * k) ==> ps.tx(flakes[3 * k]).Some?)
    && (forall k :: Full(flakes, 3 * k + 1) ==>
          && ps.proof(flakes[3 * k + 1]).Some?
          && (|ps.proof(flakes[3 * k + 1]).value.txOrId| > 64 ==>
                ps.txidOf(ps.proof(flakes[3 * k + 1]).value.txOrId).Some?))
    && (forall k :: Full(flakes, 3 * k + 2) ==> ps.mapi(flakes[3 * k + 2]).Some?)
  }

  /** No two triples bring the same kind of thing under one txid. */
  ghost predicate PlacesDiffer(sha: Sha256d, ps: Parsers, flakes: seq<seq<byte>>) {
    && (forall j, k, txid, t, u ::
          BringsTx(sha, ps, flakes, j, txid, t) && BringsTx(sha, ps, flakes, k, txid, u) ==> j == k)
    && (forall j, k, txid, p, q ::
          BringsProof(ps, flakes, j, txid, p) && BringsProof(ps, flakes, k, txid, q) ==> j == k)
    && (forall j, k, txid, c, d ::
          BringsCallbacks(ps, flakes, j, txid, c) && BringsCallbacks(ps, flakes, k, txid, d) ==> j == k)
  }

  /** The maps hold exactly what the triples bring. */
  ghost predicate HoldsAll(sha: Sha256d, ps: Parsers, flakes: seq<seq<byte>>, maps: Maps) {
    && (forall k, txid, tx :: BringsTx(sha, ps, flakes, k, txid, tx) ==> txid in maps.txs && maps.txs[txid] == tx)
    && (forall txid :: txid in maps.txs ==> exists k :: BringsTx(sha, ps, flakes, k, txid, maps.txs[txid]))
    && (forall k, txid, proof :: BringsProof(ps, flakes, k, txid, proof) ==>
          txid in maps.proofs && maps.proofs[txid] == proof)
    && (forall txid :: txid in maps.proofs ==> exists k :: BringsProof(ps, flakes, k, txid, maps.proofs[txid]))
    && (forall k, txid, callbacks :: BringsCallbacks(ps, flakes, k, txid, callbacks) ==>
          txid in maps.mapiCallbacks && maps.mapiCallbacks[txid] == callbacks)
    && (forall txid :: txid in maps.mapiCallbacks ==>
          exists k :: BringsCallbacks(ps, flakes, k, txid, maps.mapiCallbacks[txid]))
  }

  /** What a delivery is, kind by kind. */
  ghost predicate Brings(sha: Sha256d, ps: Parsers, flakes: seq<seq<byte>>, k: int, key: Key, m: Message) {
    match m
    case TxMessage(tx) => key.kind.TxKind? && BringsTx(sha, ps, flakes, k, key.txid, tx)
    case ProofMessage(proof) => key.kind.ProofKind? && BringsProof(ps, flakes, k, key.txid, proof)
    case MapiMessage(callbacks) => key.kind.MapiKind? && BringsCallbacks(ps, flakes, k, key.txid, callbacks)
  }

  function PlaceOf(k: int, m: Message): int {
    match m
    case TxMessage(_) => 3 * k
    case ProofMessage(_) => 3 * k + 1
    case MapiMessage(_) => 3 * k + 2
  }

  lemma DeliveryBrings(sha: Sha256d, ps: Parsers, flakes: seq<seq<byte>>, i: nat, key: Key)
    requires Full(flakes, i) && Delivers(sha, ps, flakes, i, key)
    ensures Brings(sha, ps, flakes, i / 3, key, MessageOf(ps, flakes, i).value)
    ensures PlaceOf(i / 3, MessageOf(ps, flakes, i).value) == i
  {
    hide Hex, Show, TxId;
    var m := MessageOf(ps, flakes, i).value;
    assert i == 3 * (i / 3) + i % 3;
    if m.TxMessage? {
      IdIsDisplayed(sha, m.tx, TxId(sha, m.tx));
    }
  }

  lemma BringingDelivers(sha: Sha256d, ps: Parsers, flakes: seq<seq<byte>>, k: int, key: Key, m: Message)
    requires Brings(sha, ps, flakes, k, key, m)
    ensures Full(flakes, PlaceOf(k, m))
    ensures Delivers(sha, ps, flakes, PlaceOf(k, m), key) && MessageOf(ps, flakes, PlaceOf(k, m)) == Some(m)
  {
    hide Hex, Show, TxId;
    if m.TxMessage? {
      IdIsDisplayed(sha, m.tx, TxId(sha, m.tx));
    }
  }

  lemma PlacesGiveKeys(sha: Sha256d, ps: Parsers, flakes: seq<seq<byte>>)
    requires PlacesParse(ps, flakes) && PlacesDiffer(sha, ps, flakes)
    ensures AllParse(ps, flakes) && DistinctKeys(sha, ps, flakes)
  {
    forall i | 0 <= i < |flakes| && Active(flakes, i)
      ensures MessageOf(ps, flakes, i).Some?
      ensures var m := MessageOf(ps, flakes, i).value;
        m.ProofMessage? && |m.proof.txOrId| > 64 ==> ps.txidOf(m.proof.txOrId).Some?
    {
      PlaceParses(ps, flakes, i);
    }
    hide Brings, MessageOf, KeyOf, PlacesParse;
    forall i, j | 0 <= i < j < |flakes| && Active(flakes, i) && Active(flakes, j)
      && MessageOf(ps, flakes, i).Some? && MessageOf(ps, flakes, j).Some?
      && KeyOf(sha, ps, MessageOf(ps, flakes, i).value).Some?
      ensures KeyOf(sha, ps, MessageOf(ps, flakes, i).value) != KeyOf(sha, ps, MessageOf(ps, flakes, j).value)
    {
      if KeyOf(sha, ps, MessageOf(ps, flakes, i).value) == KeyOf(sha, ps, MessageOf(ps, flakes, j).value) {
        var key := KeyOf(sha, ps, MessageOf(ps, flakes, i).value).value;
        DeliveryBrings(sha, ps, flakes, i, key);
        DeliveryBrings(sha, ps, flakes, j, key);
        OnlyOneBrings(
          sha, ps, flakes, i / 3, j / 3, key, MessageOf(ps, flakes, i).value, MessageOf(ps, flakes, j).value);
      }
    }
  }

  lemma PlaceParses(ps: Parsers, flakes: seq<seq<byte>>, i: nat)
    requires PlacesParse(ps, flakes) && Full(flakes, i)
    ensures MessageOf(ps, flakes, i).Some?
    ensures var m := MessageOf(ps, flakes, i).value;
      m.ProofMessage? && |m.proof.txOrId| > 64 ==> ps.txidOf(m.proof.txOrId).Some?
  {
    var k := i / 3;
    assert i == 3 * k + i % 3;
    assert Full(flakes, 3 * k) || Full(flakes, 3 * k + 1) || Full(flakes, 3 * k + 2);
  }

  lemma OnlyOneBrings(
    sha: Sha256d, ps: Parsers, flakes: seq<seq<byte>>, j: int, k: int, key: Key, m: Message, n: Message)
    requires PlacesDiffer(sha, ps, flakes)
    requires Brings(sha, ps, flakes, j, key, m) && Brings(sha, ps, flakes, k, key, n)
    ensures PlaceOf(j, m) == PlaceOf(k, n)
  {
    hide BringsTx, BringsProof, BringsCallbacks;
  }

  lemma HoldsByPlaces(sha: Sha256d, ps: Parsers, flakes: seq<seq<byte>>, maps: Maps)
    requires Holds(sha, ps, flakes, maps, ActiveBelow(flakes, |flakes|))
    ensures HoldsAll(sha, ps, flakes, maps)
  {
    hide BringsTx, BringsProof, BringsCallbacks, MessageOf, KeyOf, Holds, Delivers;
    forall k, key, m | Brings(sha, ps, flakes, k, key, m) ensures Lookup(maps, key) == Some(m) {
      BringsIsHeld(sha, ps, flakes, maps, k, key, m);
    }
    forall key | Lookup(maps, key).Some?
      ensures exists k :: Brings(sha, ps, flakes, k, key, Lookup(maps, key).value)
    {
      HeldIsBrought(sha, ps, flakes, maps, key);
    }
    forall k, txid, tx | BringsTx(sha, ps, flakes, k, txid, tx) ensures txid in maps.txs && maps.txs[txid] == tx {
      assert Brings(sha, ps, flakes, k, Key(TxKind, txid), TxMessage(tx));
    }
    forall k, txid, proof | BringsProof(ps, flakes, k, txid, proof)
      ensures txid in maps.proofs && maps.proofs[txid] == proof
    {
      assert Brings(sha, ps, flakes, k, Key(ProofKind, txid), ProofMessage(proof));
    }
    forall k, txid, callbacks | BringsCallbacks(ps, flakes, k, txid, callbacks)
      ensures txid in maps.mapiCallbacks && maps.mapiCallbacks[txid] == callbacks
    {
      assert Brings(sha, ps, flakes, k, Key(MapiKind, txid), MapiMessage(callbacks));
    }
    forall txid | txid in maps.txs ensures exists k :: BringsTx(sha, ps, flakes, k, txid, maps.txs[txid]) {
      assert Lookup(maps, Key(TxKind, txid)).Some?;
      var k :| Brings(sha, ps, flakes, k, Key(TxKind, txid), TxMessage(maps.txs[txid]));
    }
    forall txid | txid in maps.proofs ensures exists k :: BringsProof(ps, flakes, k, txid, maps.proofs[txid]) {
      assert Lookup(maps, Key(ProofKind, txid)).Some?;
      var k :| Brings(sha, ps, flakes, k, Key(ProofKind, txid), ProofMessage(maps.proofs[txid]));
    }
    forall txid | txid in maps.mapiCallbacks
      ensures exists k :: BringsCallbacks(ps, flakes, k, txid, maps.mapiCallbacks[txid])
    {
      assert Lookup(maps, Key(MapiKind, txid)).Some?;
      var k :| Brings(sha, ps, flakes, k, Key(MapiKind, txid), MapiMessage(maps.mapiCallbacks[txid]));
    }
  }

  lemma BringsIsHeld(sha: Sha256d, ps: Parsers, flakes: seq<seq<byte>>, maps: Maps, k: int, key: Key, m: Message)
    requires Holds(sha, ps, flakes, maps, ActiveBelow(flakes, |flakes|)) && Brings(sha, ps, flakes, k, key, m)
    ensures Lookup(maps, key) == Some(m)
  {
    hide Lookup, MessageOf, Brings, Delivers;
    BringingDelivers(sha, ps, flakes, k, key, m);
    assert PlaceOf(k, m) in ActiveBelow(flakes, |flakes|);
  }

  lemma HeldIsBrought(sha: Sha256d, ps: Parsers, flakes: seq<seq<byte>>, maps: Maps, key: Key)
    requires Holds(sha, ps, flakes, maps, ActiveBelow(flakes, |flakes|)) && Lookup(maps, key).Some?
    ensures exists k :: Brings(sha, ps, flakes, k, key, Lookup(maps, key).value)
  {
    hide Lookup, MessageOf, Brings, Delivers;
    var i :| i in ActiveBelow(flakes, |flakes|) && Delivers(sha, ps, flakes, i, key);
    DeliveryBrings(sha, ps, flakes, i, key);
  }

  /** The collector by places: when every flake parses and no txid is brought twice, then after any
      interleaving, once `done` has been received, the three maps hold exactly the transactions at 3k under
      their txids, the proofs at 3k + 1 under the txid that they prove, and the callbacks at 3k + 2 under the
      txid of the first; and the envelope is the transaction of flake 0. */
  lemma CollectorDelivers(sha: Sha256d, ps: Parsers, flakes: seq<seq<byte>>, run: seq<State>)
    requires PlacesParse(ps, flakes) && PlacesDiffer(sha, ps, flakes)
    requires IsRun(sha, ps, flakes, run) && run[|run| - 1].main.Done?
    ensures HoldsAll(sha, ps, flakes, run[|run| - 1].maps)
    ensures Full(flakes, 0) ==> run[|run| - 1].envelope == ps.tx(flakes[0])
  {
    assert run != [];
    hide *;
    PlacesGiveKeys(sha, ps, flakes);
    RunEnds(sha, ps, flakes, run);
    HoldsByPlaces(sha, ps, flakes, run[|run| - 1].maps);
  }

  lemma RunEnds(sha: Sha256d, ps: Parsers, flakes: seq<seq<byte>>, run: seq<State>)
    requires PlacesParse(ps, flakes) && AllParse(ps, flakes) && DistinctKeys(sha, ps, flakes)
    requires IsRun(sha, ps, flakes, run) && run[|run| - 1].main.Done?
    ensures Holds(sha, ps, flakes, run[|run| - 1].maps, ActiveBelow(flakes, |flakes|))
    ensures Full(flakes, 0) ==> run[|run| - 1].envelope == ps.tx(flakes[0])
  {
    hide Holds, Sequential, AllParse, DistinctKeys, Inv;
    RunInv(sha, ps, flakes, run);
    SequentialHolds(sha, ps, flakes, |flakes|);
    DoneMeansComplete(sha, ps, flakes, run[|run| - 1]);
    if Full(flakes, 0) {
      assert Full(flakes, 3 * 0);
    }
  }
}

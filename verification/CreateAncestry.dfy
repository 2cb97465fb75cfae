/** spv/create_ancestry.go: the ancestry of a transaction, built from stores. */
module CreateAncestries {
  import opened Outcomes
  import opened ByteStrings
  import opened MerkleProofs
  import opened AncestryBinary
  import opened AncestryJsons

  /** The stores: a lookup may fail, find nothing, or find something. */
  datatype Store = Store(tx: string -> Result<Option<Tx>>, proof: string -> Result<Option<MerkleProof>>)

  /** The id of a parent as text. */
  function ParentId(input: Outpoint): string {
    Hex(input.txid)
  }

  ghost function ParentIds(tx: Tx): set<string> {
    set n | 0 <= n < |tx.inputs| :: ParentId(tx.inputs[n])
  }

  /** The rank decreases from this transaction to the stored transactions that it spends. */
  ghost predicate RanksAbove(store: Store, rank: Tx -> nat, tx: Tx) {
    forall id :: id in ParentIds(tx) && store.tx(id).Ok? && store.tx(id).value.Some? ==>
      rank(store.tx(id).value.value) < rank(tx)
  }

  /** And so it does from every stored transaction. */
  ghost predicate Descending(store: Store, rank: Tx -> nat) {
    forall id :: store.tx(id).Ok? && store.tx(id).value.Some? ==> RanksAbove(store, rank, store.tx(id).value.value)
  }

  /** What an ancestry has to be: all parents, each from the stores, down to the proofs. */
  ghost predicate IsAncestry(sha: Sha256d, store: Store, tx: Tx, e: AncestryJSON)
    decreases e
  {
    && e.txid == Show(sha(tx.raw)) && e.rawTx == Hex(tx.raw) && e.proof == None && e.mapiResponses == []
    && e.parents.Keys == ParentIds(tx)
    && forall id :: id in e.parents ==>
         && store.tx(id).Ok? && store.tx(id).value.Some?
         && var parent := store.tx(id).value.value;
            if store.proof(id).Ok? && store.proof(id).value.Some?
            then e.parents[id] == AncestryJSON(id, Hex(parent.raw), store.proof(id).value, [], map[])
            else store.proof(id) == Ok(None) && IsAncestry(sha, store, parent, e.parents[id])
  }

  /** The stores have all that is needed: no lookup fails, no parent is missing, and every transaction
      without a proof has inputs. */
  ghost predicate Available(store: Store, rank: Tx -> nat, tx: Tx)
    requires Descending(store, rank) && RanksAbove(store, rank, tx)
    decreases rank(tx)
  {
    && tx.inputs != []
    && forall id :: id in ParentIds(tx) ==>
         && store.tx(id).Ok? && store.tx(id).value.Some?
         && store.proof(id).Ok?
         && (store.proof(id).value.None? ==> Available(store, rank, store.tx(id).value.value))
  }

  /** What Available asks of one parent. */
  ghost predicate ParentAvailable(store: Store, rank: Tx -> nat, id: string)
    requires Descending(store, rank)
  {
    && store.tx(id).Ok? && store.tx(id).value.Some?
    && store.proof(id).Ok?
    && (store.proof(id).value.None? ==> Available(store, rank, store.tx(id).value.value))
  }

  lemma AvailableMeans(store: Store, rank: Tx -> nat, tx: Tx)
    requires Descending(store, rank) && RanksAbove(store, rank, tx)
    ensures Available(store, rank, tx)
      <==> tx.inputs != [] && forall id :: id in ParentIds(tx) ==> ParentAvailable(store, rank, id)
  {
    hide ParentIds, RanksAbove, Descending;
  }

  /** A finished parent is what IsAncestry asks for. */
  ghost predicate FromStore(sha: Sha256d, store: Store, id: string, n: AncestryJSON) {
    && store.tx(id).Ok? && store.tx(id).value.Some?
    && var parent := store.tx(id).value.value;
       if store.proof(id).Ok? && store.proof(id).value.Some?
       then n == AncestryJSON(id, Hex(parent.raw), store.proof(id).value, [], map[])
       else store.proof(id) == Ok(None) && IsAncestry(sha, store, parent, n)
  }

  lemma IsAncestryMeans(sha: Sha256d, store: Store, tx: Tx, e: AncestryJSON)
    ensures IsAncestry(sha, store, tx, e) <==>
      && e.txid == Show(sha(tx.raw)) && e.rawTx == Hex(tx.raw) && e.proof == None && e.mapiResponses == []
      && e.parents.Keys == ParentIds(tx)
      && forall id :: id in e.parents ==> FromStore(sha, store, id, e.parents[id])
  {
    hide ParentIds, TxId, Hex;
  }

  method CreateTxAncestry(sha: Sha256d, store: Store, tx: Tx, ghost rank: Tx -> nat) returns (r: Result<AncestryJSON>)
    requires Descending(store, rank) && RanksAbove(store, rank, tx)
    ensures r.Ok? <==> Available(store, rank, tx)
    ensures r.Ok? ==> IsAncestry(sha, store, tx, r.value)
    decreases rank(tx), 1
  {
    hide TxId, Hex, IsAncestry, Available, FromStore, ParentAvailable;
    AvailableMeans(store, rank, tx);
    if |tx.inputs| == 0 {
      return Err(NoTxInputs);
    }
    var parents: map<string, AncestryJSON> := map[];
    for n := 0 to |tx.inputs|
      invariant parents.Keys == set m | 0 <= m < n :: ParentId(tx.inputs[m])
      invariant forall id :: id in parents ==>
        FromStore(sha, store, id, parents[id]) && ParentAvailable(store, rank, id)
    {
      var pTxID := ParentId(tx.inputs[n]);
      assert pTxID in ParentIds(tx);
      if pTxID !in parents {
        var parent := CreateParent(sha, store, tx, pTxID, rank);
        if parent.Err? {
          return parent;
        }
        parents := parents[pTxID := parent.value];
      }
    }
    assert parents.Keys == ParentIds(tx);
    var e := AncestryJSON(Hex(TxId(sha, tx)), Hex(tx.raw), None, [], parents);
    IdIsDisplayed(sha, tx, TxId(sha, tx));
    IsAncestryMeans(sha, store, tx, e);
    return Ok(e);
  }

  /** One turn of the loop: look the parent up, and stop at a proof or recurse. */
  method CreateParent(sha: Sha256d, store: Store, ghost tx: Tx, pTxID: string, ghost rank: Tx -> nat)
    returns (r: Result<AncestryJSON>)
    requires Descending(store, rank) && RanksAbove(store, rank, tx) && pTxID in ParentIds(tx)
    ensures r.Ok? <==> ParentAvailable(store, rank, pTxID)
    ensures r.Ok? ==> FromStore(sha, store, pTxID, r.value)
    decreases rank(tx), 0
  {
    hide TxId, Hex, IsAncestry, Available, ParentIds;
    var pTx := store.tx(pTxID);
    if pTx.Err? {
      return Err(pTx.error);
    }
    if pTx.value.None? {
      return Err(TxNotFound);
    }
    var mp := store.proof(pTxID);
    if mp.Err? {
      return Err(mp.error);
    }
    if mp.value.Some? {
      return Ok(AncestryJSON(pTxID, Hex(pTx.value.value.raw), mp.value, [], map[]));
    }
    r := CreateTxAncestry(sha, store, pTx.value.value, rank);
  }

  // ---------- creation succeeds whenever it can ----------

  /** Every ancestor without a proof spends something, as the transaction itself does. */
  ghost predicate AllSpend(e: AncestryJSON)
    decreases e
  {
    e.parents != map[] && forall id :: id in e.parents && e.parents[id].proof.None? ==> AllSpend(e.parents[id])
  }

  /** There is at most one ancestry of a transaction. */
  lemma {:induction false} AncestryIsUnique(sha: Sha256d, store: Store, tx: Tx, e: AncestryJSON, d: AncestryJSON)
    requires IsAncestry(sha, store, tx, e) && IsAncestry(sha, store, tx, d)
    ensures e == d
    decreases e
  {
    hide ParentIds, Hex, Show;
    forall id | id in e.parents ensures e.parents[id] == d.parents[id] {
      if !(store.proof(id).Ok? && store.proof(id).value.Some?) {
        AncestryIsUnique(sha, store, store.tx(id).value.value, e.parents[id], d.parents[id]);
      }
    }
    assert e.parents == d.parents;
  }

  /** Where there is an ancestry in which everything spends, the stores have all that creation needs; so creation
      fails only where there is none to create. */
  lemma {:induction false} AncestryIsAvailable(sha: Sha256d, store: Store, rank: Tx -> nat, tx: Tx, e: AncestryJSON)
    requires Descending(store, rank) && RanksAbove(store, rank, tx)
    requires IsAncestry(sha, store, tx, e) && AllSpend(e)
    ensures Available(store, rank, tx)
    decreases e
  {
    hide Hex, Show, RanksAbove, ParentIds;
    HasParentIds(tx);
    forall id | id in ParentIds(tx)
      ensures store.tx(id).Ok? && store.tx(id).value.Some? && store.proof(id).Ok?
      ensures store.proof(id).value.None? ==> Available(store, rank, store.tx(id).value.value)
    {
      assert id in e.parents;
      if store.proof(id).value.None? {
        AncestryIsAvailable(sha, store, rank, store.tx(id).value.value, e.parents[id]);
      }
    }
  }

  lemma HasParentIds(tx: Tx)
    ensures tx.inputs == [] ==> ParentIds(tx) == {}
  {
  }

  /** And what creation makes is such an ancestry. */
  lemma {:induction false} AvailableSpends(sha: Sha256d, store: Store, rank: Tx -> nat, tx: Tx, e: AncestryJSON)
    requires Descending(store, rank) && RanksAbove(store, rank, tx)
    requires IsAncestry(sha, store, tx, e) && Available(store, rank, tx)
    ensures AllSpend(e)
    decreases e
  {
    hide Hex, Show, RanksAbove;
    assert Hex(tx.inputs[0].txid) in ParentIds(tx);
    forall id | id in e.parents && e.parents[id].proof.None? ensures AllSpend(e.parents[id]) {
      AvailableSpends(sha, store, rank, store.tx(id).value.value, e.parents[id]);
    }
  }
}

/** From the stores to an accepted payment: create, flatten, parse and verify. */
module EndToEnd {
  import opened Outcomes
  import opened ByteStrings
  import opened MerkleProofs
  import opened Verifiers
  import opened AncestryBinary
  import opened AncestryJsons
  import opened AncestryRoundTrips
  import opened Payments
  import opened CreateAncestries

  /** A transaction that survives its encoding and has inputs. */
  ghost predicate GoodTx(dec: Decoders, t: Tx) {
    dec.tx(t.raw) == Some(t) && t.inputs != [] && |t.raw| < 0x1_0000_0000_0000_0000
  }

  /** A proof that verifies for this txid. */
  ghost predicate GoodProof(sha: Sha256d, env: Lookups, id: string, mp: MerkleProof) {
    && Encodable(mp) && |Encoding(mp)| < 0x1_0000_0000_0000_0000
    && var outcome := BinaryOutcome(sha, env, Encoding(mp));
       outcome.Some? && outcome.value.valid && outcome.value.txid == id
  }

  ghost predicate Stored(store: Store, id: string, t: Tx) {
    store.tx(id) == Ok(Some(t))
  }

  /** Every input of the transaction refers to an output of its stored parent, and ranks below it. */
  ghost predicate InputsFit(sha: Sha256d, store: Store, rank: Digest -> nat, t: Tx) {
    forall n :: 0 <= n < |t.inputs| ==>
      && rank(t.inputs[n].txid) < rank(TxId(sha, t))
      && forall p :: Stored(store, ParentId(t.inputs[n]), p) ==> t.inputs[n].vout < |p.outputs|
  }

  /** The stores return transactions by their own ids, ranked and with inputs in range, and proofs that
      verify for the id they were asked for. */
  ghost predicate HonestStore(sha: Sha256d, env: Lookups, dec: Decoders, store: Store, rank: Digest -> nat) {
    && (forall id, t :: Stored(store, id, t) ==>
          id == Show(sha(t.raw)) && GoodTx(dec, t) && InputsFit(sha, store, rank, t))
    && (forall id, mp :: store.proof(id) == Ok(Some(mp)) ==> GoodProof(sha, env, id, mp))
  }

  /** An ancestor stands for a stored transaction: with its stored proof, or with its own ancestry. */
  ghost predicate StandsFor(sha: Sha256d, store: Store, n: AncestryJSON, t: Tx) {
    && Stored(store, Hex(TxId(sha, t)), t) && n.rawTx == Hex(t.raw) && n.mapiResponses == []
    && if n.proof.Some? then store.proof(Hex(TxId(sha, t))) == Ok(n.proof)
       else store.proof(Hex(TxId(sha, t))) == Ok(None) && IsAncestry(sha, store, t, n)
  }

  lemma HexInjective(x: seq<byte>, y: seq<byte>)
    requires Hex(x) == Hex(y)
    ensures x == y
  {
    UnhexHex(x);
    UnhexHex(y);
  }

  /** A parent in an ancestry stands for the transaction that was spent. */
  lemma ParentStandsFor(
    sha: Sha256d, env: Lookups, dec: Decoders, store: Store, rank: Digest -> nat, tx: Tx, e: AncestryJSON, id: string)
    returns (t: Tx)
    requires HonestStore(sha, env, dec, store, rank) && IsAncestry(sha, store, tx, e) && id in e.parents
    ensures StandsFor(sha, store, e.parents[id], t) && id == Hex(TxId(sha, t))
    ensures GoodTx(dec, t) && InputsFit(sha, store, rank, t)
    ensures InputsFit(sha, store, rank, tx) ==> rank(TxId(sha, t)) < rank(TxId(sha, tx))
  {
    hide TxId, GoodProof, GoodTx, Hex, Show, Read;
    t := store.tx(id).value.value;
    assert Stored(store, id, t);
    IdIsDisplayed(sha, t, TxId(sha, t));
    if InputsFit(sha, store, rank, tx) {
      assert id in ParentIds(tx);
      var n :| 0 <= n < |tx.inputs| && ParentId(tx.inputs[n]) == id;
      HexInjective(tx.inputs[n].txid, TxId(sha, t));
    }
  }

  /** Everything visited stands for a stored transaction of lower rank. */
  lemma {:induction false} VisitedStandsFor(
    sha: Sha256d, env: Lookups, dec: Decoders, store: Store, rank: Digest -> nat, tx: Tx, e: AncestryJSON,
    n: AncestryJSON)
    returns (t: Tx)
    requires HonestStore(sha, env, dec, store, rank) && IsAncestry(sha, store, tx, e) && InputsFit(sha, store, rank, tx)
    requires n in Visited(e)
    ensures StandsFor(sha, store, n, t) && GoodTx(dec, t) && InputsFit(sha, store, rank, t)
    ensures rank(TxId(sha, t)) < rank(TxId(sha, tx))
    decreases e
  {
    hide TxId, GoodProof, GoodTx, InputsFit, HonestStore, IsAncestry;
    var id :| id in e.parents && n in VisitedFrom(e.parents[id]);
    var t1 := ParentStandsFor(sha, env, dec, store, rank, tx, e, id);
    if n == e.parents[id] {
      t := t1;
    } else {
      t := VisitedStandsFor(sha, env, dec, store, rank, t1, e.parents[id], n);
    }
  }

  /** Below a visited ancestor, too, everything is visited. */
  lemma {:induction false} VisitedIsClosed(e: AncestryJSON, n: AncestryJSON)
    requires n in Visited(e) && Descends(n)
    ensures Visited(n) <= Visited(e)
    decreases e
  {
    var id :| id in e.parents && n in VisitedFrom(e.parents[id]);
    var p := e.parents[id];
    if n != p {
      VisitedIsClosed(p, n);
    }
    forall m | m in Visited(n) ensures m in Visited(e) {
      assert m in VisitedFrom(p);
    }
  }

  lemma StandsForFacts(
    sha: Sha256d, env: Lookups, dec: Decoders, store: Store, rank: Digest -> nat, n: AncestryJSON, t: Tx)
    requires HonestStore(sha, env, dec, store, rank) && StandsFor(sha, store, n, t) && GoodTx(dec, t)
    ensures Parsable(dec, n) && NodeEncodable(n)
    ensures NodeId(sha, n) == TxId(sha, t)
    ensures NodeEntry(dec, n) == Entry(t, if n.proof.Some? then Some(Encoding(n.proof.value)) else None, [])
    ensures n.proof.Some? ==> GoodProof(sha, env, Hex(TxId(sha, t)), n.proof.value)
  {
    hide Encoding, IdOfBytes, IsHex, BinaryOutcome, Encodable, Hex, InputsFit, IsAncestry;
    UnhexHex(t.raw);
    LowerIsHex(Hex(t.raw));
  }

  /** What is visited can be parsed, and equal ids carry equal entries: both come from the stores. */
  lemma VisitedIsConsistent(
    sha: Sha256d, env: Lookups, dec: Decoders, store: Store, rank: Digest -> nat, tx: Tx, e: AncestryJSON)
    requires HonestStore(sha, env, dec, store, rank) && IsAncestry(sha, store, tx, e) && InputsFit(sha, store, rank, tx)
    ensures AllParsable(dec, Visited(e)) && SameIdSameEntry(sha, dec, Visited(e))
  {
    hide TxId, GoodTx, InputsFit, HonestStore, IsAncestry, Parsable, NodeEntry, NodeId, Visited, GoodProof;
    forall n | n in Visited(e) ensures Parsable(dec, n) {
      var t := VisitedStandsFor(sha, env, dec, store, rank, tx, e, n);
      StandsForFacts(sha, env, dec, store, rank, n, t);
    }
    forall m, n | m in Visited(e) && n in Visited(e) && NodeId(sha, m) == NodeId(sha, n)
      ensures NodeEntry(dec, m) == NodeEntry(dec, n)
    {
      var t := VisitedStandsFor(sha, env, dec, store, rank, tx, e, m);
      var u := VisitedStandsFor(sha, env, dec, store, rank, tx, e, n);
      StandsForFacts(sha, env, dec, store, rank, m, t);
      StandsForFacts(sha, env, dec, store, rank, n, u);
    }
  }

  /** The writer can encode the whole ancestry. */
  lemma {:induction false} AncestryIsEncodable(
    sha: Sha256d, env: Lookups, dec: Decoders, store: Store, rank: Digest -> nat, tx: Tx, e: AncestryJSON)
    requires HonestStore(sha, env, dec, store, rank) && IsAncestry(sha, store, tx, e)
    ensures AllNodesEncodable(e)
    decreases e
  {
    hide TxId, GoodTx, InputsFit, HonestStore, IsAncestry, NodeEncodable, GoodProof, Parsable;
    forall id | id in e.parents
      ensures NodeEncodable(e.parents[id]) && (Descends(e.parents[id]) ==> AllNodesEncodable(e.parents[id]))
    {
      var t := ParentStandsFor(sha, env, dec, store, rank, tx, e, id);
      StandsForFacts(sha, env, dec, store, rank, e.parents[id], t);
      if Descends(e.parents[id]) {
        AncestryIsEncodable(sha, env, dec, store, rank, t, e.parents[id]);
      }
    }
  }

  /** All parents of a transaction are among the visited ids, if its ancestry is visited. */
  lemma ParentsAreVisited(
    sha: Sha256d, env: Lookups, dec: Decoders, store: Store, rank: Digest -> nat, t: Tx, n: AncestryJSON, id: Digest)
    requires HonestStore(sha, env, dec, store, rank) && IsAncestry(sha, store, t, n) && id in InputIds(t)
    ensures n.parents != map[] && id in Ids(sha, Visited(n))
  {
    hide TxId, GoodTx, InputsFit, HonestStore, NodeId, GoodProof, Hex, Parsable;
    var k :| 0 <= k < |t.inputs| && t.inputs[k].txid == id;
    var key := ParentId(t.inputs[k]);
    assert key in ParentIds(t);
    var p := ParentStandsFor(sha, env, dec, store, rank, t, n, key);
    StandsForFacts(sha, env, dec, store, rank, n.parents[key], p);
    HexInjective(TxId(sha, p), id);
    assert n.parents[key] in VisitedFrom(n.parents[key]);
  }

  /** The outputs that a transaction spends exist in every map of stored transactions. */
  lemma SpentOutputsExist(
    sha: Sha256d, env: Lookups, dec: Decoders, store: Store, rank: Digest -> nat, aa: Ancestors, a: Entry)
    requires HonestStore(sha, env, dec, store, rank) && InputsFit(sha, store, rank, a.tx)
    requires forall id :: id in InputIds(a.tx) && id in aa ==> Stored(store, Hex(id), aa[id].tx)
    ensures OutputsExist(aa, a)
  {
    hide TxId, GoodTx, HonestStore, Hex;
    LastInputsKeys(a.tx.inputs);
    forall id | id in InputIds(a.tx) && id in aa
      ensures id in LastInputs(a.tx.inputs) && LastInputs(a.tx.inputs)[id].vout < |aa[id].tx.outputs|
    {
      var input := LastInputs(a.tx.inputs)[id];
      var n :| 0 <= n < |a.tx.inputs| && a.tx.inputs[n] == input;
      assert Stored(store, ParentId(a.tx.inputs[n]), aa[id].tx);
    }
  }

  /** An entry of the parsed map comes from a stored transaction below the payment. */
  lemma EntryFromStore(
    sha: Sha256d, env: Lookups, dec: Decoders, store: Store, rank: Digest -> nat, tx: Tx, e: AncestryJSON, id: Digest)
    returns (n: AncestryJSON, t: Tx)
    requires HonestStore(sha, env, dec, store, rank) && IsAncestry(sha, store, tx, e) && InputsFit(sha, store, rank, tx)
    requires AllParsable(dec, Visited(e)) && id in Ids(sha, Visited(e))
    ensures n in Visited(e) && StandsFor(sha, store, n, t) && TxId(sha, t) == id == NodeId(sha, n)
    ensures GoodTx(dec, t) && InputsFit(sha, store, rank, t) && rank(id) < rank(TxId(sha, tx))
    ensures Parsable(dec, n) && BookOf(sha, dec, Visited(e))[id].tx == t
  {
    hide TxId, GoodTx, InputsFit, HonestStore, IsAncestry, Parsable, NodeEntry, NodeId, Visited, GoodProof, StandsFor;
    n := PickNode(sha, Visited(e), id);
    t := VisitedStandsFor(sha, env, dec, store, rank, tx, e, n);
    StandsForFacts(sha, env, dec, store, rank, n, t);
    assert BookOf(sha, dec, Visited(e))[id] == NodeEntry(dec, n);
  }

  /** Every entry of the parsed map passes all checks. */
  lemma AncestorPasses(
    sha: Sha256d, env: Lookups, dec: Decoders, store: Store, rank: Digest -> nat, tx: Tx, e: AncestryJSON,
    id: Digest, o: Options)
    requires HonestStore(sha, env, dec, store, rank) && IsAncestry(sha, store, tx, e) && InputsFit(sha, store, rank, tx)
    requires AllParsable(dec, Visited(e)) && SameIdSameEntry(sha, dec, Visited(e))
    requires id in Ids(sha, Visited(e)) && id != TxId(sha, tx)
    ensures var aa := WithPayment(sha, BookOf(sha, dec, Visited(e)), tx); EntryPasses(sha, env, aa, aa[id], o)
  {
    hide TxId, GoodTx, HonestStore, IsAncestry, Parsable, NodeEntry, NodeId, Visited, BinaryOutcome,
      Encoding, Hex, Show, Read, OutputsExist, BookOf,
      Ids;
    var book := BookOf(sha, dec, Visited(e));
    var aa := WithPayment(sha, book, tx);
    var n, t := EntryFromStore(sha, env, dec, store, rank, tx, e, id);
    StandsForFacts(sha, env, dec, store, rank, n, t);
    IdIsDisplayed(sha, t, id);
    BookHoldsAll(sha, dec, Visited(e));
    assert aa[id] == NodeEntry(dec, n);
    assert t.inputs != [] by { GoodTxHasInputs(dec, t); }
    forall input | input in InputIds(t) && input in aa ensures Stored(store, Hex(input), aa[input].tx) {
      assert rank(input) < rank(TxId(sha, t));
      var m, u := EntryFromStore(sha, env, dec, store, rank, tx, e, input);
    }
    SpentOutputsExist(sha, env, dec, store, rank, aa, aa[id]);
    if n.proof.None? {
      forall input | input in InputIds(t) ensures input in aa {
        ParentsAreVisited(sha, env, dec, store, rank, t, n, input);
        VisitedIsClosed(e, n);
        IdsGrow(sha, Visited(n), Visited(e));
      }
    }
  }

  lemma GoodTxHasInputs(dec: Decoders, t: Tx)
    requires GoodTx(dec, t)
    ensures t.inputs != []
  {
  }

  lemma IdsGrow(sha: Sha256d, some: set<AncestryJSON>, all: set<AncestryJSON>)
    requires some <= all
    ensures Ids(sha, some) <= Ids(sha, all)
  {
  }

  /** And so does the payment itself. */
  lemma PaymentPasses(
    sha: Sha256d, env: Lookups, dec: Decoders, store: Store, rank: Digest -> nat, tx: Tx, e: AncestryJSON, o: Options)
    requires HonestStore(sha, env, dec, store, rank) && IsAncestry(sha, store, tx, e) && InputsFit(sha, store, rank, tx)
    requires AllParsable(dec, Visited(e)) && SameIdSameEntry(sha, dec, Visited(e)) && tx.inputs != []
    ensures var aa := WithPayment(sha, BookOf(sha, dec, Visited(e)), tx);
      EntryPasses(sha, env, aa, Entry(tx, None, []), o)
  {
    hide TxId, GoodTx, HonestStore, IsAncestry, Parsable, NodeEntry, NodeId, Visited, Hex, OutputsExist,
      BookOf, Ids, StandsFor;
    var aa := WithPayment(sha, BookOf(sha, dec, Visited(e)), tx);
    forall input | input in InputIds(tx)
      ensures input in aa && Stored(store, Hex(input), aa[input].tx)
    {
      ParentsAreVisited(sha, env, dec, store, rank, tx, e, input);
      assert rank(input) < rank(TxId(sha, tx));
      var m, u := EntryFromStore(sha, env, dec, store, rank, tx, e, input);
      StandsForStored(sha, store, m, u);
    }
    SpentOutputsExist(sha, env, dec, store, rank, aa, Entry(tx, None, []));
  }

  lemma StandsForStored(sha: Sha256d, store: Store, n: AncestryJSON, t: Tx)
    requires StandsFor(sha, store, n, t)
    ensures Stored(store, Hex(TxId(sha, t)), t)
  {
  }

  /** End-to-end completeness: with honest stores, the ancestry created for a payment, flattened in any
      order, makes the verifier accept the payment with proofs and scripts on and fees off. */
  lemma CreatedAncestryIsAccepted(
    sha: Sha256d, env: Lookups, dec: Decoders, store: Store, rank: Digest -> nat, tx: Tx, e: AncestryJSON,
    b: seq<byte>, o: Options)
    requires HonestStore(sha, env, dec, store, rank)
    requires tx.inputs != [] && InputsFit(sha, store, rank, tx)
    requires IsAncestry(sha, store, tx, e) && IsBytesOf(e, b) && !o.fees
    ensures Accepts(sha, env, dec, Payment(tx, b), o)
  {
    hide TxId, HonestStore, IsAncestry, Parsable, NodeId, Visited, BookOf, Ids, InputsFit, IsBytesOf,
      EntryPasses, FeesPass, ParsedAncestry, SameIdSameEntry;
    VisitedIsConsistent(sha, env, dec, store, rank, tx, e);
    assert tx.inputs[0].txid in InputIds(tx);
    ParentsAreVisited(sha, env, dec, store, rank, tx, e, tx.inputs[0].txid);
    FlattenParse(sha, dec, e, b);
    PaymentPasses(sha, env, dec, store, rank, tx, e, o);
    var aa := WithPayment(sha, BookOf(sha, dec, Visited(e)), tx);
    forall id | id in aa ensures EntryPasses(sha, env, aa, aa[id], o) {
      if id != TxId(sha, tx) {
        AncestorPasses(sha, env, dec, store, rank, tx, e, id, o);
      }
    }
  }

  /** The rank of the ids, as a rank of transactions. */
  ghost function TxRank(sha: Sha256d, rank: Digest -> nat): Tx -> nat {
    (t: Tx) => rank(TxId(sha, t))
  }

  lemma RankOfInputs(
    sha: Sha256d, env: Lookups, dec: Decoders, store: Store, rank: Digest -> nat, tx: Tx)
    requires HonestStore(sha, env, dec, store, rank) && InputsFit(sha, store, rank, tx)
    ensures RanksAbove(store, TxRank(sha, rank), tx)
  {
    hide TxId, GoodTx, GoodProof, Hex, Show, Read;
    forall id | id in ParentIds(tx) && store.tx(id).Ok? && store.tx(id).value.Some?
      ensures rank(TxId(sha, store.tx(id).value.value)) < rank(TxId(sha, tx))
    {
      var n :| 0 <= n < |tx.inputs| && ParentId(tx.inputs[n]) == id;
      assert Stored(store, id, store.tx(id).value.value);
      IdIsDisplayed(sha, store.tx(id).value.value, TxId(sha, store.tx(id).value.value));
      HexInjective(tx.inputs[n].txid, TxId(sha, store.tx(id).value.value));
    }
  }

  lemma RankIsDescending(sha: Sha256d, env: Lookups, dec: Decoders, store: Store, rank: Digest -> nat)
    requires HonestStore(sha, env, dec, store, rank)
    ensures Descending(store, TxRank(sha, rank))
  {
    hide TxId, GoodTx, GoodProof, InputsFit, RanksAbove, TxRank;
    forall id | store.tx(id).Ok? && store.tx(id).value.Some?
      ensures RanksAbove(store, TxRank(sha, rank), store.tx(id).value.value)
    {
      assert Stored(store, id, store.tx(id).value.value);
      RankOfInputs(sha, env, dec, store, rank, store.tx(id).value.value);
    }
  }

  /** The same by running the operations one after the other: when the stores have all that is needed, the
      payment is accepted. */
  method CreateFlattenAndVerify(
    sha: Sha256d, env: Lookups, dec: Decoders, store: Store, ghost rank: Digest -> nat, tx: Tx, o: Options)
    returns (created: Result<AncestryJSON>, err: Option<Error>)
    requires HonestStore(sha, env, dec, store, rank) && InputsFit(sha, store, rank, tx) && !o.fees
    ensures Descending(store, TxRank(sha, rank)) && RanksAbove(store, TxRank(sha, rank), tx)
    ensures created.Ok? <==> Available(store, TxRank(sha, rank), tx)
    ensures created.Ok? ==> err.None?
  {
    hide TxId, HonestStore, IsAncestry, InputsFit, IsBytesOf, Accepts, AllNodesEncodable, TxRank, Descending,
      RanksAbove;
    RankIsDescending(sha, env, dec, store, rank);
    RankOfInputs(sha, env, dec, store, rank, tx);
    err := None;
    created := CreateTxAncestry(sha, store, tx, TxRank(sha, rank));
    if created.Ok? {
      AvailableHasInputs(store, TxRank(sha, rank), tx);
      AncestryIsEncodable(sha, env, dec, store, rank, tx, created.value);
      var b := AncestryBytes(created.value);
      CreatedAncestryIsAccepted(sha, env, dec, store, rank, tx, created.value, b.value, o);
      err := VerifyPayment(sha, env, dec, Payment(tx, b.value), o);
    }
  }

  lemma AvailableHasInputs(store: Store, rank: Tx -> nat, tx: Tx)
    requires Descending(store, rank) && RanksAbove(store, rank, tx) && Available(store, rank, tx)
    ensures tx.inputs != []
  {
  }
}

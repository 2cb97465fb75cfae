/** spv/verifypayment.go: a payment is checked against the map of its ancestors. */
module Payments {
  import opened Outcomes
  import opened ByteStrings
  import opened MerkleTree
  import opened MerkleTreeParents
  import opened MerkleProofs
  import opened ProofBinaries
  import opened VerifyProofs
  import opened Verifiers
  import opened AncestryBinary

  datatype Payment = Payment(tx: Tx, ancestry: seq<byte>)

  /** A fee quote decides, from the satoshis that a transaction spends, whether its fee is enough. */
  type FeeQuote = (Tx, seq<nat>) -> Option<bool>

  datatype Options = Options(proofs: bool, script: bool, fees: bool, feeQuote: Option<FeeQuote>)

  // ---------- what has to hold ----------

  ghost function InputIds(tx: Tx): set<Digest> {
    set n | 0 <= n < |tx.inputs| :: tx.inputs[n].txid
  }

  /** The input that is checked for each parent: the last one that spends from it. */
  function LastInputs(inputs: seq<Outpoint>): map<Digest, Outpoint> {
    if inputs == [] then map[]
    else LastInputs(inputs[..|inputs| - 1])[inputs[|inputs| - 1].txid := inputs[|inputs| - 1]]
  }

  /** The proof of this entry verifies, for the id of this very transaction. */
  ghost predicate ProofHolds(sha: Sha256d, env: Lookups, a: Entry)
    requires a.proof.Some?
  {
    var outcome := BinaryOutcome(sha, env, a.proof.value);
    outcome.Some? && outcome.value.valid && outcome.value.txid == Show(sha(a.tx.raw))
  }

  /** A transaction without a proof has all its parents in the map. */
  ghost predicate Anchored(sha: Sha256d, env: Lookups, aa: Ancestors, a: Entry) {
    if a.proof.Some? then ProofHolds(sha, env, a) else forall id :: id in InputIds(a.tx) ==> id in aa
  }

  /** The checked input of every known parent refers to one of its outputs. */
  ghost predicate OutputsExist(aa: Ancestors, a: Entry) {
    forall id :: id in InputIds(a.tx) && id in aa ==>
      id in LastInputs(a.tx.inputs) && LastInputs(a.tx.inputs)[id].vout < |aa[id].tx.outputs|
  }

  ghost predicate EntryPasses(sha: Sha256d, env: Lookups, aa: Ancestors, a: Entry, o: Options) {
    && a.tx.inputs != []
    && (o.proofs ==> Anchored(sha, env, aa, a))
    && (o.script ==> OutputsExist(aa, a))
  }

  /** The satoshis of the spent outputs, when all of them are known. */
  ghost predicate SpentOutputs(aa: Ancestors, inputs: seq<Outpoint>, satoshis: seq<nat>) {
    && |satoshis| == |inputs|
    && forall n :: 0 <= n < |inputs| ==>
         && inputs[n].txid in aa
         && inputs[n].vout < |aa[inputs[n].txid].tx.outputs|
         && satoshis[n] == aa[inputs[n].txid].tx.outputs[inputs[n].vout]
  }

  ghost predicate FeesPass(aa: Ancestors, tx: Tx, feeQuote: Option<FeeQuote>) {
    && feeQuote.Some?
    && exists satoshis :: SpentOutputs(aa, tx.inputs, satoshis) && feeQuote.value(tx, satoshis) == Some(true)
  }

  /** The map that is checked: the ancestors and, without a proof, the payment itself. */
  function WithPayment(sha: Sha256d, aa: Ancestors, tx: Tx): Ancestors {
    aa[TxId(sha, tx) := Entry(tx, None, [])]
  }

  /** The payment is accepted: nothing in this depends on the order in which the map is walked. */
  ghost predicate Accepts(sha: Sha256d, env: Lookups, dec: Decoders, p: Payment, o: Options) {
    var parsed := ParsedAncestry(sha, dec, p.ancestry);
    && parsed.Ok?
    && var aa := WithPayment(sha, parsed.value, p.tx);
    && (o.fees ==> FeesPass(aa, p.tx, o.feeQuote))
    && forall id :: id in aa ==> EntryPasses(sha, env, aa, aa[id], o)
  }

  // ---------- the verifier ----------

  method VerifyPayment(sha: Sha256d, env: Lookups, dec: Decoders, p: Payment, o: Options)
    returns (err: Option<Error>)
    ensures err.None? <==> Accepts(sha, env, dec, p, o)
    ensures ParsedAncestry(sha, dec, p.ancestry).Err? ==> err == Some(ParsedAncestry(sha, dec, p.ancestry).error)
  {
    hide FeesPass, EntryPasses;
    var parsed := ParseAncestry(sha, dec, p.ancestry);
    if parsed.Err? {
      return Some(parsed.error);
    }
    var aa := parsed.value;
    aa := aa[TxId(sha, p.tx) := Entry(p.tx, None, [])];
    if o.fees {
      err := CheckFees(aa, p.tx, o.feeQuote);
      if err.Some? {
        return;
      }
    }
    ghost var whole := WithPayment(sha, parsed.value, p.tx);
    assert aa == whole;
    var todo := aa.Keys;
    while todo != {}
      invariant todo <= aa.Keys
      invariant forall id :: id in aa && id !in todo ==> EntryPasses(sha, env, aa, aa[id], o)
      decreases todo
    {
      var id :| id in todo;
      err := CheckEntry(sha, env, aa, aa[id], o);
      if err.Some? {
        assert id in whole && !EntryPasses(sha, env, whole, whole[id], o);
        return;
      }
      todo := todo - {id};
    }
    return None;
  }

  method CheckFees(aa: Ancestors, tx: Tx, feeQuote: Option<FeeQuote>) returns (err: Option<Error>)
    ensures err.None? <==> FeesPass(aa, tx, feeQuote)
    ensures feeQuote.None? ==> err == Some(NoFeeQuoteSupplied)
    ensures err == Some(FeePaidNotEnough) ==> exists satoshis ::
      SpentOutputs(aa, tx.inputs, satoshis) && feeQuote.value(tx, satoshis) != Some(true)
  {
    if feeQuote.None? {
      return Some(NoFeeQuoteSupplied);
    }
    var satoshis: seq<nat> := [];
    for n := 0 to |tx.inputs|
      invariant SpentOutputs(aa, tx.inputs[..n], satoshis)
    {
      var input := tx.inputs[n];
      if input.txid !in aa {
        return Some(NoFeeQuoteSupplied);
      }
      if |aa[input.txid].tx.outputs| <= input.vout {
        return Some(MissingOutput);
      }
      satoshis := satoshis + [aa[input.txid].tx.outputs[input.vout]];
    }
    assert tx.inputs[..|tx.inputs|] == tx.inputs;
    forall other | SpentOutputs(aa, tx.inputs, other) ensures other == satoshis {
      SpentOnce(aa, tx.inputs, other, satoshis);
    }
    var ok := feeQuote.value(tx, satoshis);
    if ok != Some(true) {
      return Some(FeePaidNotEnough);
    }
    return None;
  }

  lemma SpentOnce(aa: Ancestors, inputs: seq<Outpoint>, s: seq<nat>, t: seq<nat>)
    requires SpentOutputs(aa, inputs, s) && SpentOutputs(aa, inputs, t)
    ensures s == t
  {
  }

  /** The body of the loop over the map. */
  method CheckEntry(sha: Sha256d, env: Lookups, aa: Ancestors, a: Entry, o: Options) returns (err: Option<Error>)
    ensures err.None? <==> EntryPasses(sha, env, aa, a, o)
    ensures a.tx.inputs == [] ==> err == Some(NoTxInputs)
    ensures a.tx.inputs != [] && o.proofs && a.proof.None? && !Anchored(sha, env, aa, a) ==>
      err == Some(ProofOrInputMissing)
    ensures a.tx.inputs != [] && o.proofs && a.proof.Some? && !Anchored(sha, env, aa, a) ==>
      err == Some(TxIDMismatch) || err == Some(InvalidProof)
    ensures a.tx.inputs != [] && (o.proofs ==> Anchored(sha, env, aa, a)) && err.Some? ==>
      err == Some(InputRefsOutOfBoundsOutput)
  {
    hide BinaryOutcome, TxId;
    if |a.tx.inputs| == 0 {
      return Some(NoTxInputs);
    }
    var inputsToCheck: map<Digest, Outpoint> := map[];
    for n := 0 to |a.tx.inputs|
      invariant inputsToCheck == LastInputs(a.tx.inputs[..n])
    {
      var input := a.tx.inputs[n];
      assert a.tx.inputs[..n + 1][..n] == a.tx.inputs[..n];
      inputsToCheck := inputsToCheck[input.txid := input];
    }
    assert a.tx.inputs[..|a.tx.inputs|] == a.tx.inputs;
    LastInputsOf(a.tx);
    if o.proofs {
      if a.proof.None? {
        if !(inputsToCheck.Keys <= aa.Keys) {
          var id :| id in inputsToCheck && id !in aa;
          assert id in InputIds(a.tx);
          return Some(ProofOrInputMissing);
        }
      } else {
        err := CheckProof(sha, env, a);
        if err.Some? {
          return;
        }
      }
    }
    if o.script {
      var todo := inputsToCheck.Keys;
      while todo != {}
        invariant todo <= inputsToCheck.Keys
        invariant forall id :: id in inputsToCheck && id !in todo && id in aa ==>
          inputsToCheck[id].vout < |aa[id].tx.outputs|
        decreases todo
      {
        var id :| id in todo;
        if id !in aa {
          if a.proof.None? && o.proofs {
            return Some(ProofOrInputMissing);
          }
        } else if |aa[id].tx.outputs| <= inputsToCheck[id].vout {
          return Some(InputRefsOutOfBoundsOutput);
        }
        todo := todo - {id};
      }
    }
    return None;
  }

  method CheckProof(sha: Sha256d, env: Lookups, a: Entry) returns (err: Option<Error>)
    requires a.proof.Some?
    ensures err.None? <==> ProofHolds(sha, env, a)
    ensures err.Some? ==>
      var txid := ReportedTxid(env, a.proof.value);
      err == Some(if txid.Some? && txid.value != "" && txid.value != Show(sha(a.tx.raw)) then TxIDMismatch
                  else InvalidProof)
  {
    hide BinaryOutcome, TxId, ReportedTxid;
    var response, e := VerifyMerkleProof(sha, env, a.proof.value);
    OutcomeHasTxid(sha, env, a.proof.value);
    IdIsDisplayed(sha, a.tx, TxId(sha, a.tx));
    if response.None? {
      return Some(InvalidProof);
    }
    if response.value.txid != "" && response.value.txid != Hex(TxId(sha, a.tx)) {
      return Some(TxIDMismatch);
    }
    if e.Some? || !response.value.valid {
      return Some(InvalidProof);
    }
    return None;
  }

  lemma OutcomeHasTxid(sha: Sha256d, env: Lookups, proof: seq<byte>)
    ensures BinaryOutcome(sha, env, proof).Some? ==> BinaryOutcome(sha, env, proof).value.txid != ""
  {
    hide ExtractMerkleRootFromBlockHeader;
  }

  /** The map of checked inputs has every parent, each with the last input that spends from it. */
  lemma {:induction false} LastInputsAreLast(inputs: seq<Outpoint>, n: nat)
    requires n < |inputs|
    ensures inputs[n].txid in LastInputs(inputs)
    ensures (forall m :: n < m < |inputs| ==> inputs[m].txid != inputs[n].txid) ==>
      LastInputs(inputs)[inputs[n].txid] == inputs[n]
    decreases |inputs|
  {
    var last := |inputs| - 1;
    if n < last {
      LastInputsAreLast(inputs[..last], n);
    }
  }

  lemma LastInputsOf(tx: Tx)
    ensures LastInputs(tx.inputs).Keys == InputIds(tx)
  {
    LastInputsKeys(tx.inputs);
  }

  lemma {:induction false} LastInputsKeys(inputs: seq<Outpoint>)
    ensures LastInputs(inputs).Keys == set n | 0 <= n < |inputs| :: inputs[n].txid
    ensures forall id :: id in LastInputs(inputs) ==>
      LastInputs(inputs)[id] in inputs && LastInputs(inputs)[id].txid == id
  {
    if inputs != [] {
      var last := |inputs| - 1;
      LastInputsKeys(inputs[..last]);
    }
  }

  // ---------- the checks, input by input ----------

  /** No later input spends from the same parent. */
  ghost predicate IsLastSpend(inputs: seq<Outpoint>, n: int) {
    0 <= n < |inputs| && forall m :: n < m < |inputs| ==> inputs[m].txid != inputs[n].txid
  }

  lemma {:induction false} LastSpend(inputs: seq<Outpoint>, n: nat) returns (last: nat)
    requires n < |inputs|
    ensures last < |inputs| && IsLastSpend(inputs, last) && inputs[last].txid == inputs[n].txid
    decreases |inputs| - n
  {
    if IsLastSpend(inputs, n) {
      last := n;
    } else {
      var m :| n < m < |inputs| && inputs[m].txid == inputs[n].txid;
      last := LastSpend(inputs, m);
    }
  }

  lemma OutputsExistMeans(aa: Ancestors, a: Entry)
    ensures OutputsExist(aa, a) <==>
      forall n :: IsLastSpend(a.tx.inputs, n) && a.tx.inputs[n].txid in aa ==>
        a.tx.inputs[n].vout < |aa[a.tx.inputs[n].txid].tx.outputs|
  {
    hide LastInputs;
    var inputs := a.tx.inputs;
    forall n | IsLastSpend(inputs, n) ensures inputs[n].txid in InputIds(a.tx)
      ensures inputs[n].txid in LastInputs(inputs) && LastInputs(inputs)[inputs[n].txid] == inputs[n]
    {
      LastInputsAreLast(inputs, n);
    }
    forall id | id in InputIds(a.tx)
      ensures exists n :: IsLastSpend(inputs, n) && inputs[n].txid == id
    {
      var k :| 0 <= k < |inputs| && inputs[k].txid == id;
      var n := LastSpend(inputs, k);
    }
  }

  /** An entry passes exactly when it has inputs; with proofs on, its proof is valid for the displayed hash of
      its bytes or every input spends from a known transaction; and with scripts on, the last input for each
      known parent refers to an output that the parent has. */
  lemma EntryPassesMeans(sha: Sha256d, env: Lookups, aa: Ancestors, a: Entry, o: Options)
    ensures EntryPasses(sha, env, aa, a, o) <==>
      && |a.tx.inputs| > 0
      && (o.proofs && a.proof.None? ==> forall n :: 0 <= n < |a.tx.inputs| ==> a.tx.inputs[n].txid in aa)
      && (o.proofs && a.proof.Some? ==>
            var outcome := BinaryOutcome(sha, env, a.proof.value);
            outcome.Some? && outcome.value.valid && outcome.value.txid == Show(sha(a.tx.raw)))
      && (o.script ==>
            forall n :: IsLastSpend(a.tx.inputs, n) && a.tx.inputs[n].txid in aa ==>
              a.tx.inputs[n].vout < |aa[a.tx.inputs[n].txid].tx.outputs|)
  {
    hide BinaryOutcome, OutputsExist, Show, IsLastSpend;
    OutputsExistMeans(aa, a);
    if a.proof.None? && (forall n :: 0 <= n < |a.tx.inputs| ==> a.tx.inputs[n].txid in aa) {
      forall id | id in InputIds(a.tx) ensures id in aa {
        var n :| 0 <= n < |a.tx.inputs| && a.tx.inputs[n].txid == id;
      }
    }
    forall n | 0 <= n < |a.tx.inputs| ensures a.tx.inputs[n].txid in InputIds(a.tx) {
    }
  }

  /** The satoshis that a transaction spends. */
  function Spent(aa: Ancestors, inputs: seq<Outpoint>): (satoshis: seq<nat>)
    requires forall n :: 0 <= n < |inputs| ==>
      inputs[n].txid in aa && inputs[n].vout < |aa[inputs[n].txid].tx.outputs|
    ensures |satoshis| == |inputs|
  {
    seq(|inputs|, n requires 0 <= n < |inputs| => aa[inputs[n].txid].tx.outputs[inputs[n].vout])
  }

  /** An accepted payment: every entry passes, the payment's own among them, which is filed without a proof under
      the reversed hash of its bytes; and with fees on there is a quote, every spent output is known, and the
      quote said yes to exactly the spent satoshis. */
  lemma AcceptedMeans(sha: Sha256d, env: Lookups, dec: Decoders, p: Payment, o: Options)
    requires ParsedAncestry(sha, dec, p.ancestry).Ok?
    ensures var aa := ParsedAncestry(sha, dec, p.ancestry).value[Reverse(sha(p.tx.raw)) := Entry(p.tx, None, [])];
      Accepts(sha, env, dec, p, o) <==>
        && (forall id :: id in aa ==> EntryPasses(sha, env, aa, aa[id], o))
        && (o.fees ==>
              && o.feeQuote.Some?
              && (forall n :: 0 <= n < |p.tx.inputs| ==>
                    && p.tx.inputs[n].txid in aa
                    && p.tx.inputs[n].vout < |aa[p.tx.inputs[n].txid].tx.outputs|)
              && o.feeQuote.value(p.tx, Spent(aa, p.tx.inputs)) == Some(true))
  {
    hide EntryPasses, ParsedAncestry;
    var aa := WithPayment(sha, ParsedAncestry(sha, dec, p.ancestry).value, p.tx);
    if FeesPass(aa, p.tx, o.feeQuote) {
      var satoshis :| SpentOutputs(aa, p.tx.inputs, satoshis) && o.feeQuote.value(p.tx, satoshis) == Some(true);
      assert Spent(aa, p.tx.inputs) == satoshis;
    }
    if forall n :: 0 <= n < |p.tx.inputs| ==>
      p.tx.inputs[n].txid in aa && p.tx.inputs[n].vout < |aa[p.tx.inputs[n].txid].tx.outputs|
    {
      assert SpentOutputs(aa, p.tx.inputs, Spent(aa, p.tx.inputs));
    }
  }

  // ---------- anchoring ----------

  /** A walk backwards through transactions without proofs, from a payment to its ancestors. */
  ghost predicate IsWalk(aa: Ancestors, w: seq<Digest>) {
    && w != []
    && forall n :: 0 <= n < |w| - 1 ==>
         w[n] in aa && aa[w[n]].proof.None? && w[n + 1] in InputIds(aa[w[n]].tx)
  }

  /** The walk cannot go on: its end is unknown, or proven, or has no inputs. */
  ghost predicate IsMaximal(aa: Ancestors, w: seq<Digest>)
    requires w != []
  {
    var last := w[|w| - 1];
    last !in aa || aa[last].proof.Some? || InputIds(aa[last].tx) == {}
  }

  /** A rank that decreases from every known transaction to its inputs. */
  ghost predicate Ranked(aa: Ancestors, rank: Digest -> nat) {
    forall id, input :: id in aa && input in InputIds(aa[id].tx) ==> rank(input) < rank(id)
  }

  /** Anchoring soundness: if a payment is accepted with proofs on, then every walk backwards from it stays
      in the map, and a walk that cannot go on ends at a transaction whose proof verified for exactly the
      id of that transaction. */
  lemma WalksAreAnchored(
    sha: Sha256d, env: Lookups, dec: Decoders, p: Payment, o: Options, w: seq<Digest>)
    requires Accepts(sha, env, dec, p, o) && o.proofs
    requires var aa := WithPayment(sha, ParsedAncestry(sha, dec, p.ancestry).value, p.tx);
      IsWalk(aa, w) && w[0] == TxId(sha, p.tx)
    ensures var aa := WithPayment(sha, ParsedAncestry(sha, dec, p.ancestry).value, p.tx);
      && (forall n :: 0 <= n < |w| ==> w[n] in aa)
      && (IsMaximal(aa, w) ==> var last := aa[w[|w| - 1]]; last.proof.Some? && ProofHolds(sha, env, last))
  {
    hide BinaryOutcome, ParsedAncestry, TxId, OutputsExist, FeesPass;
    var aa := WithPayment(sha, ParsedAncestry(sha, dec, p.ancestry).value, p.tx);
    WalkStaysInside(sha, env, aa, o, w);
    var last := aa[w[|w| - 1]];
    assert last.tx.inputs[0].txid in InputIds(last.tx);
  }

  lemma {:induction false} WalkStaysInside(sha: Sha256d, env: Lookups, aa: Ancestors, o: Options, w: seq<Digest>)
    requires o.proofs && forall id :: id in aa ==> EntryPasses(sha, env, aa, aa[id], o)
    requires IsWalk(aa, w) && w[0] in aa
    ensures forall n :: 0 <= n < |w| ==> w[n] in aa
  {
    hide ProofHolds, OutputsExist;
    if |w| > 1 {
      WalkStaysInside(sha, env, aa, o, w[..|w| - 1]);
      var n := |w| - 2;
      assert w[..|w| - 1][n] == w[n];
      assert EntryPasses(sha, env, aa, aa[w[n]], o);
    }
  }

  /** Under a rank no walk is longer than the rank of its start, so every walk comes to an end. */
  lemma {:induction false} WalksEnd(aa: Ancestors, rank: Digest -> nat, w: seq<Digest>)
    requires Ranked(aa, rank) && IsWalk(aa, w)
    ensures |w| <= rank(w[0]) + 1
    decreases |w|
  {
    if |w| > 1 {
      var tail := w[1..];
      forall n | 0 <= n < |tail| - 1
        ensures tail[n] in aa && aa[tail[n]].proof.None? && tail[n + 1] in InputIds(aa[tail[n]].tx)
      {
        assert tail[n] == w[n + 1] && tail[n + 1] == w[n + 2];
      }
      WalksEnd(aa, rank, tail);
      assert rank(w[1]) < rank(w[0]);
    }
  }

  /** If decoding is faithful, the keys of the map are the ids of its transactions, so each proof on a walk
      verified for the very id by which its transaction was spent. */
  lemma KeysAreIds(sha: Sha256d, dec: Decoders, p: Payment, id: Digest)
    requires forall data :: dec.tx(data).Some? ==> dec.tx(data).value.raw == data
    requires ParsedAncestry(sha, dec, p.ancestry).Ok?
    requires id in WithPayment(sha, ParsedAncestry(sha, dec, p.ancestry).value, p.tx)
    ensures TxId(sha, WithPayment(sha, ParsedAncestry(sha, dec, p.ancestry).value, p.tx)[id].tx) == id
    ensures Read(Hex(id)) == sha(WithPayment(sha, ParsedAncestry(sha, dec, p.ancestry).value, p.tx)[id].tx.raw)
  {
    hide ParsedAncestry, IdOfBytes, Read, Hex;
    ParsedIsDecoded(sha, dec, p.ancestry);
    IdIsDisplayed(sha, WithPayment(sha, ParsedAncestry(sha, dec, p.ancestry).value, p.tx)[id].tx, id);
  }

  /** What anchoring gives: a proof that holds, checked against the root of a block by as many nodes as its
      tree has levels, shows that this very transaction is in the block, or breaks the hash function. */
  lemma ProvenIsInBlock(sha: Sha256d, env: Lookups, a: Entry, txids: seq<string>)
    requires a.proof.Some? && ProofHolds(sha, env, a)
    requires |txids| >= 1 && AllHashes(txids)
    requires CheckedRoot(env, a.proof.value) == Some(Root(TextNodes(sha), txids))
    requires |Parse(a.proof.value).value.nodes| == Height(|txids|)
    ensures var m, txid := Parse(a.proof.value).value, Show(sha(a.tx.raw));
      txid in txids || BreaksHash(sha, txids, txid, m.index, m.nodes)
  {
    hide Parse, Root, Height, AllHashes, BreaksHash, BinaryOutcome;
    assert IsHash(Show(sha(a.tx.raw)));
    VerifierSoundness(sha, env, txids, a.proof.value);
  }
}

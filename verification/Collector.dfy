/** The goroutines of NewSpecialKEnvelopeFromBytes in spv/envelope.go: one goroutine for every flake, a
    collector in a select loop, and the main goroutine that waits for all of them. Channels are
    unbuffered, so a send and its receive are one step. */
module Collectors {
  import opened Outcomes
  import opened ByteStrings
  import opened MerkleProofs
  import opened AncestryBinary

  datatype Callback = Callback(callbackTxid: string, payload: string)

  /** The parsers of the three kinds of flake, and the txid of a full transaction in a proof. None is an
      error of the parser. */
  datatype Parsers = Parsers(
    tx: seq<byte> -> Option<Tx>,
    proof: seq<byte> -> Option<MerkleProof>,
    mapi: seq<byte> -> Option<seq<Callback>>,
    txidOf: string -> Option<string>)

  datatype Message = TxMessage(tx: Tx) | ProofMessage(proof: MerkleProof) | MapiMessage(callbacks: seq<Callback>)

  datatype Maps = Maps(
    txs: map<string, Tx>,
    proofs: map<string, MerkleProof>,
    mapiCallbacks: map<string, seq<Callback>>)

  datatype Kind = TxKind | ProofKind | MapiKind

  datatype Key = Key(kind: Kind, txid: string)

  /** What a flake parses to depends on its place modulo three. */
  function MessageOf(ps: Parsers, flakes: seq<seq<byte>>, i: nat): Option<Message>
    requires i < |flakes|
  {
    if i % 3 == 0 then
      var tx := ps.tx(flakes[i]);
      if tx.Some? then Some(TxMessage(tx.value)) else None
    else if i % 3 == 1 then
      var proof := ps.proof(flakes[i]);
      if proof.Some? then Some(ProofMessage(proof.value)) else None
    else
      var callbacks := ps.mapi(flakes[i]);
      if callbacks.Some? then Some(MapiMessage(callbacks.value)) else None
  }

  /** Where the collector puts a message; None if it drops the message. */
  function KeyOf(sha: Sha256d, ps: Parsers, m: Message): Option<Key> {
    match m
    case TxMessage(tx) => Some(Key(TxKind, Hex(TxId(sha, tx))))
    case ProofMessage(proof) =>
      if proof.txOrId == "" then None
      else if |proof.txOrId| > 64 then
        var txid := ps.txidOf(proof.txOrId);
        if txid.Some? then Some(Key(ProofKind, txid.value)) else None
      else Some(Key(ProofKind, proof.txOrId))
    case MapiMessage(callbacks) =>
      if callbacks == [] then None else Some(Key(MapiKind, callbacks[0].callbackTxid))
  }

  /** What the collector does with a message. */
  function StoreMessage(sha: Sha256d, ps: Parsers, maps: Maps, m: Message): Maps {
    match m
    case TxMessage(tx) => maps.(txs := maps.txs[Hex(TxId(sha, tx)) := tx])
    case ProofMessage(proof) =>
      var key := KeyOf(sha, ps, m);
      if key.None? then maps else maps.(proofs := maps.proofs[key.value.txid := proof])
    case MapiMessage(callbacks) =>
      if |callbacks| == 0 then maps
      else maps.(mapiCallbacks := maps.mapiCallbacks[callbacks[0].callbackTxid := callbacks])
  }

  /** Flakes of less than two bytes are null values and get no goroutine. */
  predicate Active(flakes: seq<seq<byte>>, i: nat)
    requires i < |flakes|
  {
    |flakes[i]| >= 2
  }

  /** The sequential pass over the first n flakes. */
  function Sequential(sha: Sha256d, ps: Parsers, flakes: seq<seq<byte>>, n: nat): Maps
    requires n <= |flakes|
  {
    if n == 0 then Maps(map[], map[], map[])
    else
      var before := Sequential(sha, ps, flakes, n - 1);
      var m := MessageOf(ps, flakes, n - 1);
      if Active(flakes, n - 1) && m.Some? then StoreMessage(sha, ps, before, m.value) else before
  }

  // ---------- the state machine ----------

  datatype FlakePc = NotStarted | Parsing | Sending | Sent | Finished

  datatype CollectorPc = Starting | Selecting | Storing(i: nat) | Stopped

  /** The main goroutine starts flakes one by one, waits for the group, sends `done`, and goes on. */
  datatype MainPc = Spawning(next: nat) | Waiting | SendingDone | Done

  datatype State = State(
    main: MainPc,
    collector: CollectorPc,
    pcs: seq<FlakePc>,
    waitGroup: int,
    maps: Maps,
    envelope: Option<Tx>)

  datatype Step =
    | StartCollector
    | Spawn
    | StopSpawning
    | Parse(i: nat)
    | Send(i: nat)
    | Store
    | Finish(i: nat)
    | WaitOver
    | SendDone

  function Init(flakes: seq<seq<byte>>): State {
    State(Spawning(0), Starting, seq(|flakes|, _ => NotStarted), 0, Maps(map[], map[], map[]), None)
  }

  predicate Enabled(flakes: seq<seq<byte>>, s: State, step: Step) {
    |s.pcs| == |flakes| && match step
    case StartCollector => s.collector.Starting?
    case Spawn => s.main.Spawning? && s.main.next < |s.pcs|
    case StopSpawning => s.main.Spawning? && s.main.next >= |s.pcs|
    case Parse(i) => i < |s.pcs| && s.pcs[i].Parsing?
    case Send(i) => i < |s.pcs| && s.pcs[i].Sending? && s.collector.Selecting?
    case Store => s.collector.Storing? && s.collector.i < |flakes|
    case Finish(i) => i < |s.pcs| && s.pcs[i].Sent?
    case WaitOver => s.main.Waiting? && s.waitGroup == 0
    case SendDone => s.main.SendingDone? && s.collector.Selecting?
  }

  function Next(sha: Sha256d, ps: Parsers, flakes: seq<seq<byte>>, s: State, step: Step): State
    requires Enabled(flakes, s, step)
  {
    match step
    case StartCollector => s.(collector := Selecting)
    case Spawn =>
      var i := s.main.next;
      if Active(flakes, i)
      then s.(main := Spawning(i + 1), pcs := s.pcs[i := Parsing], waitGroup := s.waitGroup + 1)
      else s.(main := Spawning(i + 1))
    case StopSpawning => s.(main := Waiting)
    case Parse(i) =>
      var m := MessageOf(ps, flakes, i);
      s.(pcs := s.pcs[i := Sending],
         envelope := if i == 0 && m.Some? && m.value.TxMessage? then Some(m.value.tx) else s.envelope)
    case Send(i) => s.(pcs := s.pcs[i := Sent], collector := Storing(i))
    case Store =>
      var m := MessageOf(ps, flakes, s.collector.i);
      s.(collector := Selecting,
         maps := if m.Some? then StoreMessage(sha, ps, s.maps, m.value) else s.maps)
    case Finish(i) => s.(pcs := s.pcs[i := Finished], waitGroup := s.waitGroup - 1)
    case WaitOver => s.(main := SendingDone)
    case SendDone => s.(main := Done, collector := Stopped)
  }

  /** All flakes that get a goroutine parse, and so do the transactions inside proofs. */
  ghost predicate AllParse(ps: Parsers, flakes: seq<seq<byte>>) {
    forall i :: 0 <= i < |flakes| && Active(flakes, i) ==>
      && MessageOf(ps, flakes, i).Some?
      && var m := MessageOf(ps, flakes, i).value;
         m.ProofMessage? && |m.proof.txOrId| > 64 ==> ps.txidOf(m.proof.txOrId).Some?
  }

  /** No two of them go to the same key of the same map. */
  ghost predicate DistinctKeys(sha: Sha256d, ps: Parsers, flakes: seq<seq<byte>>) {
    forall i, j :: 0 <= i < j < |flakes| && Active(flakes, i) && Active(flakes, j)
      && MessageOf(ps, flakes, i).Some? && MessageOf(ps, flakes, j).Some?
      && KeyOf(sha, ps, MessageOf(ps, flakes, i).value).Some?
      ==> KeyOf(sha, ps, MessageOf(ps, flakes, i).value) != KeyOf(sha, ps, MessageOf(ps, flakes, j).value)
  }

  // ---------- what the maps contain ----------

  function Lookup(maps: Maps, key: Key): Option<Message> {
    match key.kind
    case TxKind => if key.txid in maps.txs then Some(TxMessage(maps.txs[key.txid])) else None
    case ProofKind => if key.txid in maps.proofs then Some(ProofMessage(maps.proofs[key.txid])) else None
    case MapiKind => if key.txid in maps.mapiCallbacks then Some(MapiMessage(maps.mapiCallbacks[key.txid])) else None
  }

  lemma LookupStored(sha: Sha256d, ps: Parsers, maps: Maps, m: Message, key: Key)
    ensures Lookup(StoreMessage(sha, ps, maps, m), key)
      == if KeyOf(sha, ps, m) == Some(key) then Some(m) else Lookup(maps, key)
  {
    hide Hex, TxId;
  }

  lemma SameLookups(x: Maps, y: Maps)
    requires forall key :: Lookup(x, key) == Lookup(y, key)
    ensures x == y
  {
    forall txid ensures txid in x.txs <==> txid in y.txs
      ensures txid in x.txs ==> x.txs[txid] == y.txs[txid]
    {
      assert Lookup(x, Key(TxKind, txid)) == Lookup(y, Key(TxKind, txid));
    }
    forall txid ensures txid in x.proofs <==> txid in y.proofs
      ensures txid in x.proofs ==> x.proofs[txid] == y.proofs[txid]
    {
      assert Lookup(x, Key(ProofKind, txid)) == Lookup(y, Key(ProofKind, txid));
    }
    forall txid ensures txid in x.mapiCallbacks <==> txid in y.mapiCallbacks
      ensures txid in x.mapiCallbacks ==> x.mapiCallbacks[txid] == y.mapiCallbacks[txid]
    {
      assert Lookup(x, Key(MapiKind, txid)) == Lookup(y, Key(MapiKind, txid));
    }
    assert x.txs == y.txs && x.proofs == y.proofs && x.mapiCallbacks == y.mapiCallbacks;
  }

  /** Flake i parses to a message for this key. */
  ghost predicate Delivers(sha: Sha256d, ps: Parsers, flakes: seq<seq<byte>>, i: nat, key: Key) {
    i < |flakes| && MessageOf(ps, flakes, i).Some? && KeyOf(sha, ps, MessageOf(ps, flakes, i).value) == Some(key)
  }

  /** The maps hold exactly the messages of these flakes. */
  ghost predicate Holds(sha: Sha256d, ps: Parsers, flakes: seq<seq<byte>>, maps: Maps, stored: set<nat>) {
    && (forall i, key :: i in stored && Delivers(sha, ps, flakes, i, key) ==>
          Lookup(maps, key) == MessageOf(ps, flakes, i))
    && (forall key :: Lookup(maps, key).Some? ==> exists i :: i in stored && Delivers(sha, ps, flakes, i, key))
  }

  /** All stored flakes have a goroutine. */
  ghost predicate AllActive(flakes: seq<seq<byte>>, stored: set<nat>) {
    forall i :: i in stored ==> i < |flakes| && Active(flakes, i)
  }

  lemma HoldsGrows(sha: Sha256d, ps: Parsers, flakes: seq<seq<byte>>, maps: Maps, stored: set<nat>, i: nat)
    requires AllParse(ps, flakes) && DistinctKeys(sha, ps, flakes)
    requires Holds(sha, ps, flakes, maps, stored) && AllActive(flakes, stored + {i})
    ensures MessageOf(ps, flakes, i).Some?
    ensures Holds(sha, ps, flakes, StoreMessage(sha, ps, maps, MessageOf(ps, flakes, i).value), stored + {i})
  {
    hide KeyOf, StoreMessage, Lookup, MessageOf, Active;
    var m := MessageOf(ps, flakes, i).value;
    var after := StoreMessage(sha, ps, maps, m);
    forall j, key | j in stored + {i} && Delivers(sha, ps, flakes, j, key)
      ensures Lookup(after, key) == MessageOf(ps, flakes, j)
    {
      LookupStored(sha, ps, maps, m, key);
      assert j != i ==> KeyOf(sha, ps, m) != Some(key);
    }
    forall key | Lookup(after, key).Some?
      ensures exists j :: j in stored + {i} && Delivers(sha, ps, flakes, j, key)
    {
      LookupStored(sha, ps, maps, m, key);
      if KeyOf(sha, ps, m) == Some(key) {
        assert Delivers(sha, ps, flakes, i, key);
      } else {
        var j :| j in stored && Delivers(sha, ps, flakes, j, key);
        assert j in stored + {i};
      }
    }
  }

  lemma LookupInBoth(
    sha: Sha256d, ps: Parsers, flakes: seq<seq<byte>>, x: Maps, y: Maps, stored: set<nat>, key: Key)
    requires Holds(sha, ps, flakes, x, stored) && Holds(sha, ps, flakes, y, stored)
    ensures Lookup(x, key).Some? ==> Lookup(y, key) == Lookup(x, key)
  {
    hide Lookup, MessageOf, KeyOf;
    if Lookup(x, key).Some? {
      var i :| i in stored && Delivers(sha, ps, flakes, i, key);
    }
  }

  /** Maps that hold the messages of the same flakes are the same. */
  lemma HoldsIsUnique(sha: Sha256d, ps: Parsers, flakes: seq<seq<byte>>, x: Maps, y: Maps, stored: set<nat>)
    requires Holds(sha, ps, flakes, x, stored) && Holds(sha, ps, flakes, y, stored)
    ensures x == y
  {
    hide Lookup, Holds;
    forall key ensures Lookup(x, key) == Lookup(y, key) {
      LookupInBoth(sha, ps, flakes, x, y, stored, key);
      LookupInBoth(sha, ps, flakes, y, x, stored, key);
    }
    SameLookups(x, y);
  }

  ghost function ActiveBelow(flakes: seq<seq<byte>>, n: nat): set<nat>
    requires n <= |flakes|
  {
    set i: nat | i < n && Active(flakes, i)
  }

  lemma {:induction false} SequentialHolds(sha: Sha256d, ps: Parsers, flakes: seq<seq<byte>>, n: nat)
    requires AllParse(ps, flakes) && DistinctKeys(sha, ps, flakes) && n <= |flakes|
    ensures Holds(sha, ps, flakes, Sequential(sha, ps, flakes, n), ActiveBelow(flakes, n))
  {
    hide KeyOf, StoreMessage, MessageOf, Active;
    if n > 0 {
      SequentialHolds(sha, ps, flakes, n - 1);
      if Active(flakes, n - 1) {
        assert ActiveBelow(flakes, n) == ActiveBelow(flakes, n - 1) + {n - 1};
        HoldsGrows(sha, ps, flakes, Sequential(sha, ps, flakes, n - 1), ActiveBelow(flakes, n - 1), n - 1);
      } else {
        assert ActiveBelow(flakes, n) == ActiveBelow(flakes, n - 1);
      }
    }
  }

  // ---------- the invariant ----------

  /** The goroutines that the wait group still counts. */
  function Pending(pcs: seq<FlakePc>): nat {
    if pcs == [] then 0
    else (if pcs[0].NotStarted? || pcs[0].Finished? then 0 else 1) + Pending(pcs[1..])
  }

  lemma {:induction false} PendingUpdate(pcs: seq<FlakePc>, i: nat, pc: FlakePc)
    requires i < |pcs|
    ensures var one := (p: FlakePc) => if p.NotStarted? || p.Finished? then 0 else 1;
      Pending(pcs[i := pc]) == Pending(pcs) - one(pcs[i]) + one(pc)
  {
    if i > 0 {
      assert pcs[i := pc][1..] == pcs[1..][i - 1 := pc];
      PendingUpdate(pcs[1..], i - 1, pc);
    } else {
      assert pcs[i := pc][1..] == pcs[1..];
    }
  }

  lemma {:induction false} NonePending(pcs: seq<FlakePc>, i: nat)
    requires i < |pcs| && Pending(pcs) == 0
    ensures pcs[i].NotStarted? || pcs[i].Finished?
  {
    if i > 0 {
      NonePending(pcs[1..], i - 1);
    }
  }

  function Started(s: State): nat {
    if s.main.Spawning? then s.main.next else |s.pcs|
  }

  /** The flakes whose message has been put into the maps. */
  ghost function StoredSet(s: State): set<nat> {
    set i: nat | i < |s.pcs| && (s.pcs[i].Sent? || s.pcs[i].Finished?) && s.collector != Storing(i)
  }

  ghost predicate Control(flakes: seq<seq<byte>>, s: State) {
    && |s.pcs| == |flakes| && Started(s) <= |flakes|
    && (forall i :: 0 <= i < |flakes| ==> (s.pcs[i].NotStarted? <==> i >= Started(s) || !Active(flakes, i)))
    && s.waitGroup == Pending(s.pcs)
    && (s.collector.Storing? ==>
          s.collector.i < |flakes| && (s.pcs[s.collector.i].Sent? || s.pcs[s.collector.i].Finished?))
    && (s.main.SendingDone? || s.main.Done? ==> s.waitGroup == 0)
    && (s.collector.Stopped? <==> s.main.Done?)
  }

  /** The goroutine of the first flake sets the envelope before it sends. */
  ghost predicate EnvelopeSet(ps: Parsers, flakes: seq<seq<byte>>, s: State)
    requires |s.pcs| == |flakes|
  {
    s.envelope ==
      if |flakes| > 0 && (s.pcs[0].Sending? || s.pcs[0].Sent? || s.pcs[0].Finished?)
         && MessageOf(ps, flakes, 0).Some? && MessageOf(ps, flakes, 0).value.TxMessage?
      then Some(MessageOf(ps, flakes, 0).value.tx) else None
  }

  ghost predicate Inv(sha: Sha256d, ps: Parsers, flakes: seq<seq<byte>>, s: State) {
    && Control(flakes, s)
    && EnvelopeSet(ps, flakes, s)
    && Holds(sha, ps, flakes, s.maps, StoredSet(s))
  }

  lemma {:induction false} NothingStarted(n: nat)
    ensures Pending(seq(n, _ => NotStarted)) == 0
  {
    if n > 0 {
      assert seq(n, _ => NotStarted)[1..] == seq(n - 1, _ => NotStarted);
      NothingStarted(n - 1);
    }
  }

  lemma InitInv(sha: Sha256d, ps: Parsers, flakes: seq<seq<byte>>)
    ensures Inv(sha, ps, flakes, Init(flakes))
  {
    NothingStarted(|flakes|);
    assert StoredSet(Init(flakes)) == {};
  }

  lemma ControlStep(sha: Sha256d, ps: Parsers, flakes: seq<seq<byte>>, s: State, step: Step)
    requires Control(flakes, s) && Enabled(flakes, s, step)
    ensures Control(flakes, Next(sha, ps, flakes, s, step))
  {
    hide Pending, MessageOf, StoreMessage, Active;
    var s' := Next(sha, ps, flakes, s, step);
    match step
    case Spawn => PendingUpdate(s.pcs, s.main.next, Parsing);
    case Parse(i) => PendingUpdate(s.pcs, i, Sending);
    case Send(i) => PendingUpdate(s.pcs, i, Sent);
    case Finish(i) => PendingUpdate(s.pcs, i, Finished);
    case _ =>
  }

  lemma EnvelopeStep(sha: Sha256d, ps: Parsers, flakes: seq<seq<byte>>, s: State, step: Step)
    requires Control(flakes, s) && EnvelopeSet(ps, flakes, s) && Enabled(flakes, s, step)
    ensures EnvelopeSet(ps, flakes, Next(sha, ps, flakes, s, step))
  {
    hide Pending, MessageOf, StoreMessage, Active;
  }

  lemma MapsStep(sha: Sha256d, ps: Parsers, flakes: seq<seq<byte>>, s: State, step: Step)
    requires AllParse(ps, flakes) && DistinctKeys(sha, ps, flakes)
    requires Inv(sha, ps, flakes, s) && Enabled(flakes, s, step)
    ensures var s' := Next(sha, ps, flakes, s, step); Holds(sha, ps, flakes, s'.maps, StoredSet(s'))
  {
    hide Pending, MessageOf, StoreMessage, Active, Holds, AllParse, DistinctKeys, EnvelopeSet;
    var s' := Next(sha, ps, flakes, s, step);
    if step.Store? {
      var i := s.collector.i;
      assert StoredSet(s') == StoredSet(s) + {i};
      HoldsGrows(sha, ps, flakes, s.maps, StoredSet(s), i);
    } else {
      assert StoredSet(s') == StoredSet(s);
    }
  }

  /** Every step of every goroutine keeps the invariant. */
  lemma StepInv(sha: Sha256d, ps: Parsers, flakes: seq<seq<byte>>, s: State, step: Step)
    requires AllParse(ps, flakes) && DistinctKeys(sha, ps, flakes)
    requires Inv(sha, ps, flakes, s) && Enabled(flakes, s, step)
    ensures Inv(sha, ps, flakes, Next(sha, ps, flakes, s, step))
  {
    hide Control, EnvelopeSet, Holds, StoredSet, Next;
    ControlStep(sha, ps, flakes, s, step);
    EnvelopeStep(sha, ps, flakes, s, step);
    MapsStep(sha, ps, flakes, s, step);
  }

  /** No deadlock: unless main has gone on, some goroutine can take a step. */
  lemma Progress(flakes: seq<seq<byte>>, s: State)
    requires Control(flakes, s) && !s.main.Done?
    ensures exists step :: Enabled(flakes, s, step)
  {
    if s.collector.Starting? {
      assert Enabled(flakes, s, StartCollector);
    } else if s.collector.Storing? {
      assert Enabled(flakes, s, Store);
    } else if s.main.Spawning? {
      assert Enabled(flakes, s, Spawn) || Enabled(flakes, s, StopSpawning);
    } else if s.main.SendingDone? {
      assert Enabled(flakes, s, SendDone);
    } else if s.waitGroup == 0 {
      assert Enabled(flakes, s, WaitOver);
    } else {
      var i := SomePending(s.pcs);
      assert Enabled(flakes, s, Parse(i)) || Enabled(flakes, s, Send(i)) || Enabled(flakes, s, Finish(i));
    }
  }

  lemma {:induction false} SomePending(pcs: seq<FlakePc>) returns (i: nat)
    requires Pending(pcs) > 0
    ensures i < |pcs| && !pcs[i].NotStarted? && !pcs[i].Finished?
  {
    if pcs[0].NotStarted? || pcs[0].Finished? {
      i := SomePending(pcs[1..]);
      i := i + 1;
    } else {
      i := 0;
    }
  }

  /** Once `done` has been received, the maps are those of the sequential pass. */
  lemma DoneMeansComplete(sha: Sha256d, ps: Parsers, flakes: seq<seq<byte>>, s: State)
    requires AllParse(ps, flakes) && DistinctKeys(sha, ps, flakes)
    requires Inv(sha, ps, flakes, s) && s.main.Done?
    ensures s.maps == Sequential(sha, ps, flakes, |flakes|)
    ensures |flakes| > 0 && Active(flakes, 0) && MessageOf(ps, flakes, 0).Some? ==>
      s.envelope == Some(MessageOf(ps, flakes, 0).value.tx)
  {
    hide Holds, Sequential, AllParse, DistinctKeys, Active;
    forall i | 0 <= i < |flakes| ensures s.pcs[i].NotStarted? || s.pcs[i].Finished? {
      NonePending(s.pcs, i);
    }
    assert StoredSet(s) == ActiveBelow(flakes, |flakes|);
    SequentialHolds(sha, ps, flakes, |flakes|);
    HoldsIsUnique(sha, ps, flakes, s.maps, Sequential(sha, ps, flakes, |flakes|), StoredSet(s));
  }

  // ---------- termination and runs ----------

  function Weight(pc: FlakePc): nat {
    match pc
    case NotStarted => 0
    case Parsing => 4
    case Sending => 3
    case Sent => 1
    case Finished => 0
  }

  function Weights(pcs: seq<FlakePc>): nat {
    if pcs == [] then 0 else Weight(pcs[0]) + Weights(pcs[1..])
  }

  lemma {:induction false} WeightsUpdate(pcs: seq<FlakePc>, i: nat, pc: FlakePc)
    requires i < |pcs|
    ensures Weights(pcs[i := pc]) == Weights(pcs) - Weight(pcs[i]) + Weight(pc)
  {
    hide Weight;
    if i > 0 {
      assert pcs[i := pc][1..] == pcs[1..][i - 1 := pc];
      WeightsUpdate(pcs[1..], i - 1, pc);
    } else {
      assert pcs[i := pc][1..] == pcs[1..];
    }
  }

  /** The steps that are left at most. */
  function Measure(s: State): int {
    (match s.main
     case Spawning(next) => 5 * (|s.pcs| - next) + 3
     case Waiting => 2
     case SendingDone => 1
     case Done => 0)
    + (match s.collector
       case Starting => 1
       case Selecting => 0
       case Storing(_) => 1
       case Stopped => 0)
    + Weights(s.pcs)
  }

  lemma StepDecreases(sha: Sha256d, ps: Parsers, flakes: seq<seq<byte>>, s: State, step: Step)
    requires Control(flakes, s) && Enabled(flakes, s, step)
    ensures 0 <= Measure(Next(sha, ps, flakes, s, step)) < Measure(s)
  {
    hide Weights, MessageOf, StoreMessage, Active, Pending;
    match step
    case Spawn => WeightsUpdate(s.pcs, s.main.next, Parsing);
    case Parse(i) => WeightsUpdate(s.pcs, i, Sending);
    case Send(i) => WeightsUpdate(s.pcs, i, Sent);
    case Finish(i) => WeightsUpdate(s.pcs, i, Finished);
    case _ =>
  }

  /** A run: any interleaving of steps from the start. */
  ghost predicate IsRun(sha: Sha256d, ps: Parsers, flakes: seq<seq<byte>>, run: seq<State>) {
    && run != [] && run[0] == Init(flakes)
    && forall n :: 0 <= n < |run| - 1 ==> IsStep(sha, ps, flakes, run[n], run[n + 1])
  }

  ghost predicate IsStep(sha: Sha256d, ps: Parsers, flakes: seq<seq<byte>>, s: State, s': State) {
    exists step :: Enabled(flakes, s, step) && s' == Next(sha, ps, flakes, s, step)
  }

  lemma {:induction false} RunInv(sha: Sha256d, ps: Parsers, flakes: seq<seq<byte>>, run: seq<State>)
    requires AllParse(ps, flakes) && DistinctKeys(sha, ps, flakes)
    requires IsRun(sha, ps, flakes, run)
    ensures Inv(sha, ps, flakes, run[|run| - 1])
    ensures |run| - 1 <= Measure(Init(flakes)) - Measure(run[|run| - 1])
    decreases |run|
  {
    hide EnvelopeSet, Holds, StoredSet, AllParse, DistinctKeys, Control, Next, Measure, Enabled;
    var last := |run| - 1;
    if last == 0 {
      InitInv(sha, ps, flakes);
    } else {
      var shorter := run[..last];
      assert IsRun(sha, ps, flakes, shorter);
      RunInv(sha, ps, flakes, shorter);
      assert shorter[last - 1] == run[last - 1];
      assert IsStep(sha, ps, flakes, run[last - 1], run[last - 1 + 1]);
      var step :| Enabled(flakes, run[last - 1], step)
        && run[last] == Next(sha, ps, flakes, run[last - 1], step);
      StepInv(sha, ps, flakes, run[last - 1], step);
      StepDecreases(sha, ps, flakes, run[last - 1], step);
    }
  }

  /** Collector correctness: when all flakes parse to distinct keys, every interleaving ends after at most
      5n + 4 steps; it never deadlocks, so its last state, when nothing can go on, is one in which main has
      sent `done`; and then the three maps are those of a sequential pass. */
  lemma CollectorIsCorrect(sha: Sha256d, ps: Parsers, flakes: seq<seq<byte>>, run: seq<State>)
    requires AllParse(ps, flakes) && DistinctKeys(sha, ps, flakes)
    requires IsRun(sha, ps, flakes, run)
    ensures |run| - 1 <= 5 * |flakes| + 4
    ensures var last := run[|run| - 1];
      && (last.main.Done? || exists step :: Enabled(flakes, last, step))
      && (last.main.Done? ==> last.maps == Sequential(sha, ps, flakes, |flakes|))
  {
    hide Control, EnvelopeSet, Holds, StoredSet, Sequential, Enabled, AllParse, DistinctKeys, IsStep, Weights;
    RunInv(sha, ps, flakes, run);
    var last := run[|run| - 1];
    MeasureOfInit(flakes);
    MeasureNotNegative(flakes, last);
    if last.main.Done? {
      DoneMeansComplete(sha, ps, flakes, last);
    } else {
      Progress(flakes, last);
    }
  }

  lemma {:induction false} NoWeights(n: nat)
    ensures Weights(seq(n, _ => NotStarted)) == 0
  {
    if n > 0 {
      assert seq(n, _ => NotStarted)[1..] == seq(n - 1, _ => NotStarted);
      NoWeights(n - 1);
    }
  }

  lemma MeasureOfInit(flakes: seq<seq<byte>>)
    ensures Measure(Init(flakes)) == 5 * |flakes| + 4
  {
    NoWeights(|flakes|);
  }

  lemma MeasureNotNegative(flakes: seq<seq<byte>>, s: State)
    requires Control(flakes, s)
    ensures Measure(s) >= 0
  {
    hide Weights, Pending;
  }
}

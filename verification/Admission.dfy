/** Exactly which transactions are admitted, with which error the others are refused, and what the pool is afterwards. */
module Admission {
  import opened Bytes
  import opened TxEncoding
  import opened Merkle
  import opened Validation
  import opened Mempool

  /** Some unmarked input of one spends the outpoint of some unmarked input of the other. */
  ghost predicate SharesInput(a: Transaction, b: Transaction) {
    exists i, j :: 0 <= i < |a.inputs| && 0 <= j < |b.inputs| && !IsMarker(a.inputs[i]) && !IsMarker(b.inputs[j])
                   && a.inputs[i].prevTxid == b.inputs[j].prevTxid && a.inputs[i].prevIndex == b.inputs[j].prevIndex
  }

  /** A waiting transaction with this identifier, and one that shares an input. */
  ghost predicate WaitsAs(r: Rules, p: Pool, id: Hash32) {
    exists k :: 0 <= k < |p.txs| && TxId(r.sha, p.txs[k]) == id
  }

  ghost predicate InputWaits(p: Pool, tx: Transaction) {
    exists k :: 0 <= k < |p.txs| && SharesInput(tx, p.txs[k])
  }

  lemma {:induction false} UsedBySome(txs: seq<Transaction>, q: OutPoint)
    ensures q in UsedPoints(txs) <==> exists k :: 0 <= k < |txs| && q in SpentPoints(txs[k].inputs)
  {
    hide SpentPoints;
    if txs != [] {
      var n := |txs| - 1;
      UsedBySome(txs[..n], q);
      assert forall k :: 0 <= k < n ==> txs[..n][k] == txs[k];
    }
  }

  lemma SharedPoint(a: Transaction, b: Transaction)
    ensures SharesInput(a, b) <==> exists q :: q in SpentPoints(a.inputs) && q in SpentPoints(b.inputs)
  {
    if SharesInput(a, b) {
      var i, j :| 0 <= i < |a.inputs| && 0 <= j < |b.inputs| && !IsMarker(a.inputs[i]) && !IsMarker(b.inputs[j])
                  && a.inputs[i].prevTxid == b.inputs[j].prevTxid && a.inputs[i].prevIndex == b.inputs[j].prevIndex;
      assert PointOf(a.inputs[i]) in SpentPoints(a.inputs) && PointOf(b.inputs[j]) in SpentPoints(b.inputs);
    }
    if q :| q in SpentPoints(a.inputs) && q in SpentPoints(b.inputs) {
      var i :| 0 <= i < |a.inputs| && !IsMarker(a.inputs[i]) && PointOf(a.inputs[i]) == q;
      var j :| 0 <= j < |b.inputs| && !IsMarker(b.inputs[j]) && PointOf(b.inputs[j]) == q;
      assert a.inputs[i].prevTxid == b.inputs[j].prevTxid && a.inputs[i].prevIndex == b.inputs[j].prevIndex;
    }
  }

  lemma UsedMeansShared(p: Pool, tx: Transaction)
    ensures SpentPoints(tx.inputs) * UsedPoints(p.txs) != {} <==> InputWaits(p, tx)
  {
    hide SpentPoints, UsedPoints, SharesInput;
    forall k | 0 <= k < |p.txs| ensures
      SharesInput(tx, p.txs[k]) <==> exists q :: q in SpentPoints(tx.inputs) && q in SpentPoints(p.txs[k].inputs)
    {
      SharedPoint(tx, p.txs[k]);
    }
    if InputWaits(p, tx) {
      var k :| 0 <= k < |p.txs| && SharesInput(tx, p.txs[k]);
      var q :| q in SpentPoints(tx.inputs) && q in SpentPoints(p.txs[k].inputs);
      UsedBySome(p.txs, q);
      assert q in SpentPoints(tx.inputs) * UsedPoints(p.txs);
    }
    if q :| q in SpentPoints(tx.inputs) * UsedPoints(p.txs) {
      UsedBySome(p.txs, q);
    }
  }

  /** The outcome of every submission: admitted, or the first of the four reasons that applies. */
  lemma OutcomeIff(r: Rules, u: Utxos, p: Pool, tx: Transaction)
    ensures var v, id := Validate(r.verify, u, tx), TxId(r.sha, tx);
      var e := AdmitErrorOf(r, u, p, tx);
      && (e == None <==> v.Valid? && id !in p.processed && !WaitsAs(r, p, id) && !InputWaits(p, tx))
      && (forall why :: e == Some(NotValid(why)) <==> v == Invalid(why))
      && (e == Some(AlreadyProcessed) <==> v.Valid? && id in p.processed)
      && (e == Some(AlreadyInMempool) <==> v.Valid? && id !in p.processed && WaitsAs(r, p, id))
      && (e == Some(InputUsed) <==> v.Valid? && id !in p.processed && !WaitsAs(r, p, id) && InputWaits(p, tx))
  {
    UsedMeansShared(p, tx);
    hide TxId, Validate, SpentPoints, UsedPoints, InputWaits;
  }

  /** A sound pool refuses as waiting nothing that it does not refuse as processed already. */
  lemma NeverInMempool(r: Rules, u: Utxos, p: Pool, tx: Transaction)
    requires PoolOk(r, u, p)
    ensures AdmitErrorOf(r, u, p, tx) != Some(AlreadyInMempool)
  {
    hide TxId, Validate, SpentPoints, UsedPoints, AllValid, AllCompatible, Descending;
    if HasId(r.sha, p.txs, TxId(r.sha, tx)) {
      var i :| 0 <= i < |p.txs| && TxId(r.sha, p.txs[i]) == TxId(r.sha, tx);
      assert TxId(r.sha, p.txs[i]) in Ids(r.sha, p.txs);
    }
  }

  // ---------- the pool afterwards ----------

  /** After an admission below the limit everything waits that waited before, and the new transaction; at the limit
      one transaction is gone, whose fee is the lowest of all. Only its identifier goes off the record. */
  lemma PoolAfterwards(r: Rules, u: Utxos, p: Pool, tx: Transaction)
    requires PoolOk(r, u, p) && AdmitErrorOf(r, u, p, tx) == None
    ensures var next := Admit(r, u, p, tx);
      && (|p.txs| < r.maxMempool ==>
            multiset(next.txs) == multiset(p.txs) + multiset{tx} && next.processed == p.processed + {TxId(r.sha, tx)})
      && (|p.txs| == r.maxMempool ==> exists out ::
            && multiset(next.txs) + multiset{out} == multiset(p.txs) + multiset{tx}
            && (forall t :: t in next.txs ==> FeeIn(u, out) <= FeeIn(u, t))
            && next.processed == p.processed + {TxId(r.sha, tx)} - {TxId(r.sha, out)})
  {
    hide PoolOk, AdmitErrorOf, FeeIn, FeeBy, Full, TxId, Descending;
    FactsOf(r, u, p);
    var k := FullShape(u, p, tx);
    var full := Full(u, p, tx);
    Recombined(p.txs, tx, k);
    if |p.txs| < r.maxMempool {
      assert full[|full|..] == [];
      NoIds(r.sha);
    } else {
      var out := OneTooMany(r.sha, u, full, r.maxMempool);
    }
  }

  lemma OneTooMany(sha: Sha, u: Utxos, full: seq<Transaction>, max: nat) returns (out: Transaction)
    requires |full| == max + 1 && Descending(FeeBy(u), full)
    ensures multiset(Cut(full, max)) + multiset{out} == multiset(full)
    ensures forall t :: t in Cut(full, max) ==> FeeIn(u, out) <= FeeIn(u, t)
    ensures Ids(sha, full[|Cut(full, max)|..]) == {TxId(sha, out)}
  {
    hide FeeIn, TxId;
    out := full[max];
    assert full == full[..max] + [out] && full[max..] == [out];
    OneId(sha, out);
    LastIsLowest(u, full);
  }

  lemma FactsOf(r: Rules, u: Utxos, p: Pool)
    requires PoolOk(r, u, p)
    ensures Descending(FeeBy(u), p.txs) && |p.txs| <= r.maxMempool
  {
  }

  lemma Recombined<T>(s: seq<T>, x: T, k: nat)
    requires k <= |s|
    ensures multiset(s[..k] + [x] + s[k..]) == multiset(s) + multiset{x}
  {
    assert s == s[..k] + s[k..];
  }

  lemma NoIds(sha: Sha)
    ensures Ids(sha, []) == {}
  {
  }

  lemma OneId(sha: Sha, tx: Transaction)
    ensures Ids(sha, [tx]) == {TxId(sha, tx)}
  {
    hide TxId;
    assert [tx][0] == tx;
  }

  lemma LastIsLowest(u: Utxos, full: seq<Transaction>)
    requires Descending(FeeBy(u), full) && full != []
    ensures forall t :: t in full[..|full| - 1] ==> FeeIn(u, full[|full| - 1]) <= FeeIn(u, t)
  {
    hide FeeIn;
    forall i | 0 <= i < |full| - 1 ensures FeeIn(u, full[|full| - 1]) <= FeeIn(u, full[i]) {
      assert FeeBy(u)(full[i]) >= FeeBy(u)(full[|full| - 1]);
    }
  }

  /** Two valid ordinary transactions that share no input, and whose identifiers are new and differ, wait together
      after both were submitted. */
  lemma DisjointBothWait(r: Rules, u: Utxos, p: Pool, a: Transaction, b: Transaction)
    requires PoolOk(r, u, p) && |p.txs| + 2 <= r.maxMempool
    requires AdmitErrorOf(r, u, p, a) == None && AdmitErrorOf(r, u, p, b) == None
    requires TxId(r.sha, a) != TxId(r.sha, b) && !SharesInput(b, a)
    ensures var next := Admit(r, u, Admit(r, u, p, a), b); a in next.txs && b in next.txs
  {
    hide PoolOk, AdmitErrorOf, Admit, TxId, Validate, SharesInput;
    var mid := Admit(r, u, p, a);
    AdmitKeepsPool(r, u, p, a);
    JoinsPool(r, u, p, a);
    StillAdmitted(r, u, p, mid, a, b);
    JoinsPool(r, u, mid, b);
  }

  /** Below the limit the members are those before and the new one. */
  lemma JoinsPool(r: Rules, u: Utxos, p: Pool, tx: Transaction)
    requires PoolOk(r, u, p) && AdmitErrorOf(r, u, p, tx) == None && |p.txs| < r.maxMempool
    ensures var next := Admit(r, u, p, tx);
      && |next.txs| == |p.txs| + 1 && next.processed == p.processed + {TxId(r.sha, tx)}
      && forall t :: t in next.txs <==> t in p.txs || t == tx
  {
    hide PoolOk, AdmitErrorOf, Admit, TxId, FeeIn;
    PoolAfterwards(r, u, p, tx);
    var next := Admit(r, u, p, tx);
    assert |next.txs| == |multiset(next.txs)| == |multiset(p.txs) + multiset{tx}|;
    assert forall t :: t in next.txs <==> t in multiset(next.txs);
    assert forall t :: t in p.txs <==> t in multiset(p.txs);
  }

  lemma StillAdmitted(r: Rules, u: Utxos, p: Pool, mid: Pool, a: Transaction, b: Transaction)
    requires AdmitErrorOf(r, u, p, b) == None && TxId(r.sha, a) != TxId(r.sha, b) && !SharesInput(b, a)
    requires mid.processed == p.processed + {TxId(r.sha, a)} && forall t :: t in mid.txs <==> t in p.txs || t == a
    ensures AdmitErrorOf(r, u, mid, b) == None
  {
    OutcomeIff(r, u, p, b);
    OutcomeIff(r, u, mid, b);
    hide AdmitErrorOf, TxId, Validate, SharesInput;
    forall k | 0 <= k < |mid.txs| ensures TxId(r.sha, mid.txs[k]) != TxId(r.sha, b) && !SharesInput(b, mid.txs[k]) {
      assert mid.txs[k] in mid.txs;
      if mid.txs[k] != a {
        var j :| 0 <= j < |p.txs| && p.txs[j] == mid.txs[k];
      }
    }
  }
}

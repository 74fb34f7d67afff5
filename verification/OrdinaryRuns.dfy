/** Runs in which nobody submits a transaction marked as a coinbase: no output is ever written twice. */
module OrdinaryRuns {
  import opened Bytes
  import opened TxEncoding
  import opened Merkle
  import opened Accounting
  import opened Validation
  import opened Mempool
  import opened Blocks
  import opened Payouts
  import opened Ledger
  import opened LedgerSafety
  import opened LedgerExactness
  import opened Resubmission
  import Rewards
  import Loyalty

  // ---------- new identifiers write only new outputs ----------

  lemma {:induction false} CreatedBySome(sha: Sha, txs: seq<Transaction>, p: OutPoint)
    requires p in AllCreated(Effects(sha, txs))
    ensures exists i :: 0 <= i < |txs| && p.txid == TxId(sha, txs[i])
    decreases |txs|
  {
    hide TxId, SpentPoints;
    CreatedPoints(TxId(sha, txs[0]), txs[0].outputs);
    assert Effects(sha, txs)[1..] == Effects(sha, txs[1..]);
    if p in CreatedOuts(TxId(sha, txs[0]), txs[0].outputs) {
      assert p.txid == TxId(sha, txs[0]);
    } else {
      CreatedBySome(sha, txs[1..], p);
      var i :| 0 <= i < |txs| - 1 && p.txid == TxId(sha, txs[1..][i]);
      assert txs[1..][i] == txs[i + 1];
    }
  }

  ghost predicate IdsNew(sha: Sha, u: Utxos, txs: seq<Transaction>) {
    && (forall i, p :: 0 <= i < |txs| && p in u ==> p.txid != TxId(sha, txs[i]))
    && (forall i, j :: 0 <= i < j < |txs| ==> TxId(sha, txs[i]) != TxId(sha, txs[j]))
  }

  lemma {:induction false} NewIdsAreFresh(sha: Sha, u: Utxos, txs: seq<Transaction>)
    requires IdsNew(sha, u, txs)
    ensures Fresh(Values(u), Effects(sha, txs))
    decreases |txs|
  {
    hide TxId, SpentPoints;
    if txs != [] {
      var rest := txs[1..];
      assert forall i :: 0 <= i < |rest| ==> rest[i] == txs[i + 1];
      NewIdsAreFresh(sha, u, rest);
      assert Effects(sha, txs)[1..] == Effects(sha, rest);
      CreatedPoints(TxId(sha, txs[0]), txs[0].outputs);
      forall p | p in CreatedOuts(TxId(sha, txs[0]), txs[0].outputs)
        ensures p !in u && p !in AllCreated(Effects(sha, rest))
      {
        if p in AllCreated(Effects(sha, rest)) { CreatedBySome(sha, rest, p); }
      }
    }
  }

  lemma NewIdsOverwriteNothing(sha: Sha, u: Utxos, txs: seq<Transaction>)
    requires IdsNew(sha, u, txs)
    ensures Overwritten(sha, u, txs) == 0 && KeepsValues(sha, u, txs)
  {
    hide Fresh, TotalOverwritten, KeepsPrices;
    NewIdsAreFresh(sha, u, txs);
    FreshOverwritesNothing(Values(u), Effects(sha, txs));
  }

  // ---------- the block's transactions ----------

  lemma BlockMembers(c: Config, s: State, script: seq<byte>, i: nat)
    requires i < |BlockOf(s, script)|
    ensures var t := BlockOf(s, script)[i];
      if i == 0 then t == Coinbase(script, s.height + 1) && IsCoinbase(t) else i <= |s.pool.txs| && t == s.pool.txs[i - 1]
  {
  }

  /** An output of an applied transaction or a reward has not the identifier of another transaction. */
  lemma OtherId(sha: Sha, applied: set<Transaction>, rewarded: set<seq<byte>>, all: set<Transaction>, t: Transaction,
                p: OutPoint, o: TxOut)
    requires Separate(sha, all, rewarded) && applied <= all && t in all && t !in applied
    requires FromTx(sha, applied, p, o) || FromReward(sha, rewarded, p.txid)
    ensures p.txid != TxId(sha, t)
  {
    hide TxId;
  }

  /** A waiting ordinary transaction was not applied before. */
  lemma WaitingIsNew(c: Config, l: Ledger, t: Transaction)
    requires Past(c, l, l.s.height) && t in l.s.pool.txs && !IsCoinbase(t)
    ensures t !in l.applied
  {
    hide TxId, IsCoinbase, Sourced;
    var i :| 0 <= i < |l.s.pool.txs| && l.s.pool.txs[i] == t;
    assert TxId(c.rules.sha, t) in Ids(c.rules.sha, l.s.pool.txs);
  }

  ghost predicate CoinbaseUpTo(t: Transaction, height: nat)
    requires IsCoinbase(t)
  {
    t.inputs[0].scriptSig == [] || exists h: nat :: h <= height && t.inputs[0].scriptSig == LE(h, 8)
  }

  /** Neither was the coinbase of the next height. */
  lemma NextCoinbaseIsNew(t: Transaction, script: seq<byte>, height: nat)
    requires IsCoinbase(t) ==> CoinbaseUpTo(t, height)
    requires height + 1 < WORD
    ensures t != Coinbase(script, height + 1)
  {
    if t == Coinbase(script, height + 1) {
      Pow256Values();
      assert t.inputs[0].scriptSig == LE(height + 1, 8);
      forall h: nat | h <= height ensures LE(h, 8) != LE(height + 1, 8) {
        if LE(h, 8) == LE(height + 1, 8) { LEInjective(h, height + 1, 8); }
      }
    }
  }

  /** Only the node's own coinbases were applied, nothing marked waits, and nothing was overwritten. */
  ghost predicate Ordinarily(l: Ledger) {
    && (forall t :: t in l.applied && IsCoinbase(t) ==> CoinbaseUpTo(t, l.s.height))
    && NoneMarked(l.s.pool.txs) && l.overwritten == 0
  }

  lemma BlockTxIsNew(c: Config, l: Ledger, script: seq<byte>, i: nat)
    requires Past(c, l, l.s.height) && Ordinarily(l) && l.s.height + 1 < WORD && i < |BlockOf(l.s, script)|
    ensures BlockOf(l.s, script)[i] !in l.applied
  {
    hide IsCoinbase, Coinbase, Past, BlockOf, CoinbaseUpTo;
    BlockMembers(c, l.s, script, i);
    var t := BlockOf(l.s, script)[i];
    if i == 0 {
      forall a | a in l.applied ensures a != t { NextCoinbaseIsNew(a, script, l.s.height); }
    } else {
      WaitingIsNew(c, l, t);
    }
  }

  lemma BlockIdsDiffer(c: Config, l: Ledger, script: seq<byte>, all: set<Transaction>, i: nat, j: nat)
    requires StateOk(c, l.s) && NoneMarked(l.s.pool.txs)
    requires Members(BlockOf(l.s, script)) <= all && Separate(c.rules.sha, all, l.rewarded)
    requires i < j < |BlockOf(l.s, script)|
    ensures TxId(c.rules.sha, BlockOf(l.s, script)[i]) != TxId(c.rules.sha, BlockOf(l.s, script)[j])
  {
    hide IsCoinbase, Coinbase, TxId, BlockOf, Fits, SpentPoints, AllValid, Descending, AllFit, ScoresOk, Ids, MarkerFree;
    BlockMembers(c, l.s, script, i);
    BlockMembers(c, l.s, script, j);
    if i > 0 {
      assert Compatible(c.rules.sha, l.s.pool.txs[i - 1], l.s.pool.txs[j - 1]);
    } else {
      assert BlockOf(l.s, script)[i] in all && BlockOf(l.s, script)[j] in all;
    }
  }

  lemma BlockIdsNew(c: Config, l: Ledger, script: seq<byte>, all: set<Transaction>)
    requires StateOk(c, l.s) && Past(c, l, l.s.height) && Ordinarily(l) && l.s.height + 1 < WORD
    requires all == l.applied + Members(BlockOf(l.s, script)) && Separate(c.rules.sha, all, l.rewarded)
    ensures IdsNew(c.rules.sha, l.s.utxos, BlockOf(l.s, script))
  {
    hide StateOk, IsCoinbase, TxId, BlockOf, Separate, FromTx, FromReward, Settled, RewardUpTo, CoinbaseUpTo;
    var sha, u, block := c.rules.sha, l.s.utxos, BlockOf(l.s, script);
    forall i, p | 0 <= i < |block| && p in u ensures p.txid != TxId(sha, block[i]) {
      BlockTxIsNew(c, l, script, i);
      OtherId(sha, l.applied, l.rewarded, all, block[i], p, u[p]);
    }
    forall i, j | 0 <= i < j < |block| ensures TxId(sha, block[i]) != TxId(sha, block[j]) {
      BlockIdsDiffer(c, l, script, all, i, j);
    }
  }

  lemma BlockStaysOrdinary(c: Config, l: Ledger, script: seq<byte>, shareAccepted: bool)
    requires StateOk(c, l.s) && Past(c, l, l.s.height) && Ordinarily(l) && l.s.height + 1 < WORD
    requires Separate(c.rules.sha, AfterBlock(c, l, script, shareAccepted).applied, l.rewarded)
    ensures Ordinarily(AfterBlock(c, l, script, shareAccepted))
  {
    hide StateOk, Past, TxId, BlockOf, Separate, IdsNew, Overwritten, KeepsValues, Fees, Shaped, ApplyTxs, OrdinaryIds,
      ShareOffered, IsCoinbase;
    var next, block := AfterBlock(c, l, script, shareAccepted), BlockOf(l.s, script);
    BlockIdsNew(c, l, script, next.applied);
    NewIdsOverwriteNothing(c.rules.sha, l.s.utxos, block);
    forall t | t in next.applied && IsCoinbase(t) ensures CoinbaseUpTo(t, l.s.height + 1) {
      if t !in l.applied {
        var i :| 0 <= i < |block| && block[i] == t;
        BlockMembers(c, l.s, script, i);
      }
    }
  }

  lemma MineStaysOrdinary(c: Config, l: Ledger, script: seq<byte>, shareAccepted: bool, results: seq<MinerResult>)
    requires StateOk(c, l.s) && Past(c, l, l.s.height) && Ordinarily(l) && l.s.height + 1 < WORD
    requires var next := AfterMine(c, l, script, shareAccepted, results); Separate(c.rules.sha, next.applied, next.rewarded)
    ensures Ordinarily(AfterMine(c, l, script, shareAccepted, results))
  {
    hide StateOk, Past, Separate, AfterBlock, HasDuplicates, BlockOf, EndsEpoch, IsCoinbase, PayAll, Paid, PurseOf;
    NoDuplicatesIn(c, l.s, script);
    var next, stored := AfterMine(c, l, script, shareAccepted, results), AfterBlock(c, l, script, shareAccepted);
    StoredRecord(c, l, script, shareAccepted);
    SeparatePart(c.rules.sha, stored.applied, l.rewarded, next.applied, next.rewarded);
    BlockStaysOrdinary(c, l, script, shareAccepted);
  }

  lemma StoredRecord(c: Config, l: Ledger, script: seq<byte>, shareAccepted: bool)
    ensures AfterBlock(c, l, script, shareAccepted).rewarded == l.rewarded
  {
  }

  lemma StepStaysOrdinary(c: Config, l: Ledger, step: Step)
    requires StateOk(c, l.s) && Past(c, l, l.s.height) && Ordinarily(l) && l.s.height + 1 < WORD && Ordinary(step)
    requires Separate(c.rules.sha, Next(c, l, step).applied, Next(c, l, step).rewarded)
    ensures Ordinarily(Next(c, l, step))
  {
    hide StateOk, Past, Separate, AfterMine, IsCoinbase, Admit, Loyalty.Update;
    match step
    case Submit(tx) => SubmitStaysUnmarked(c, l.s, tx);
    case Mine(script, shareAccepted, results) => MineStaysOrdinary(c, l, script, shareAccepted, results);
    case PutBond(id, amount) =>
    case OfferShare(id, accepted) =>
  }

  lemma {:induction false} OrdinaryRunIs(c: Config, steps: seq<Step>)
    requires Rewards.RootLike(c.sqrt) && Lawful(c, steps) && AllOrdinary(steps) && |steps| < WORD
    requires Separate(c.rules.sha, Run(c, steps).applied, Run(c, steps).rewarded)
    ensures Ordinarily(Run(c, steps))
    decreases |steps|
  {
    if steps == [] {
    } else {
      hide Rewards.RootLike, StateOk, Past, Allowed, Next, Ordinarily, Separate, Ordinary, Supply, Exact;
      var before, step := steps[..|steps| - 1], steps[|steps| - 1];
      var l := Run(c, before);
      Grows(c, l, step);
      SeparatePart(c.rules.sha, l.applied, l.rewarded, Run(c, steps).applied, Run(c, steps).rewarded);
      OrdinaryRunIs(c, before);
      ExactRun(c, before);
      EveryRunIsOk(c, before);
      StepStaysOrdinary(c, l, step);
    }
  }

  /** Unless hashes collide, the supply is the genesis output and the block rewards and what the epochs paid, less
      all fees, on every run in which nobody submits a transaction marked as a coinbase. */
  lemma SupplyExact(c: Config, steps: seq<Step>)
    requires Rewards.RootLike(c.sqrt) && Lawful(c, steps) && AllOrdinary(steps) && |steps| < WORD
    requires RunCollisionFree(c, steps)
    ensures var l := Run(c, steps);
      Supply(l.s) == 500_000_000 + 500_000 * l.s.height + l.paid - l.fees
  {
    hide Rewards.RootLike, Lawful, Run, Past, Supply, Separate, NoneMarked, RunCollisionFree;
    RunIsSeparate(c, steps);
    SupplyOfEveryRun(c, steps);
    OrdinaryRunIs(c, steps);
    OrdinaryRun(c, steps);
  }

  /** On such a run the outpoints that the next block writes are not unspent, and are distinct. */
  lemma NextBlockWritesNewOutputs(c: Config, steps: seq<Step>, script: seq<byte>)
    requires Rewards.RootLike(c.sqrt) && Lawful(c, steps) && AllOrdinary(steps) && |steps| + 1 < WORD
    requires var l := Run(c, steps);
      CollisionFree(c.rules.sha, Hashed(c.rules.sha, l.applied + Members(BlockOf(l.s, script)), l.rewarded))
    requires |script| < 0x1_0000_0000
    ensures IdsNew(c.rules.sha, Run(c, steps).s.utxos, BlockOf(Run(c, steps).s, script))
  {
    hide Rewards.RootLike, Lawful, Run, Past, Supply, Separate, IdsNew, StateOk, Hashed, Fits, BlockOf, Ordinarily;
    var l := Run(c, steps);
    var all := l.applied + Members(BlockOf(l.s, script));
    EveryRunIsOk(c, steps);
    WellFormedRun(c, steps);
    FitsOfBlock(c, l.s, script);
    SeparateFromCollisionFree(c.rules.sha, all, l.rewarded);
    SeparatePart(c.rules.sha, l.applied, l.rewarded, all, l.rewarded);
    OrdinaryRunIs(c, steps);
    ExactRun(c, steps);
    BlockIdsNew(c, l, script, all);
  }
}

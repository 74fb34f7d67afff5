/** The exact total over every run, when no two different byte strings hashed in it collide: what was created, less
    the fees, less what transactions marked as a coinbase wrote over. Without such submissions no output is ever
    written twice. */
module LedgerExactness {
  import opened Bytes
  import opened TxEncoding
  import opened Merkle
  import opened Validation
  import opened Mempool
  import opened Blocks
  import opened Payouts
  import opened Ledger
  import opened LedgerSafety
  import opened Resubmission
  import Rewards
  import Loyalty

  // ---------- identifiers that differ ----------

  /** The byte strings hashed for the identifiers of the transactions applied and the rewards paid. */
  ghost function Hashed(sha: Sha, applied: set<Transaction>, rewarded: set<seq<byte>>): set<seq<byte>> {
    (set t | t in applied :: TxidPreimage(t, 4)) + (set t | t in applied :: sha(TxidPreimage(t, 4))) + rewarded
  }

  /** Different transactions and rewards have different identifiers. */
  ghost predicate Separate(sha: Sha, applied: set<Transaction>, rewarded: set<seq<byte>>) {
    && (forall s, t :: s in applied && t in applied && TxId(sha, s) == TxId(sha, t) ==> s == t)
    && (forall t, b :: t in applied && b in rewarded ==> TxId(sha, t) != sha(b))
    && (forall a, b :: a in rewarded && b in rewarded && sha(a) == sha(b) ==> a == b)
  }

  lemma SeparateFromCollisionFree(sha: Sha, applied: set<Transaction>, rewarded: set<seq<byte>>)
    requires CollisionFree(sha, Hashed(sha, applied, rewarded))
    requires forall t :: t in applied ==> Fits(t, 4)
    requires forall b :: b in rewarded ==> |b| == 50
    ensures Separate(sha, applied, rewarded)
  {
    hide Fits, TxidPreimage;
    var all := Hashed(sha, applied, rewarded);
    forall s, t | s in applied && t in applied && TxId(sha, s) == TxId(sha, t) ensures s == t {
      assert sha(TxidPreimage(s, 4)) in all && sha(TxidPreimage(t, 4)) in all;
      assert TxidPreimage(s, 4) in all && TxidPreimage(t, 4) in all;
      TxidPreimageInjective(s, t, 4);
    }
    forall t, b | t in applied && b in rewarded ensures TxId(sha, t) != sha(b) {
      assert sha(TxidPreimage(t, 4)) in all && b in all;
    }
  }

  lemma SeparatePart(sha: Sha, a: set<Transaction>, r: set<seq<byte>>, all: set<Transaction>, rewards: set<seq<byte>>)
    requires Separate(sha, all, rewards) && a <= all && r <= rewards
    ensures Separate(sha, a, r)
  {
    hide TxId;
  }

  // ---------- where unspent outputs come from ----------

  ghost predicate FromTx(sha: Sha, applied: set<Transaction>, p: OutPoint, o: TxOut) {
    exists t :: t in applied && IsOutputOf(sha, t, p, o)
  }

  ghost predicate IsOutputOf(sha: Sha, t: Transaction, p: OutPoint, o: TxOut) {
    TxId(sha, t) == p.txid && p.index < |t.outputs| && t.outputs[p.index] == o
  }

  ghost predicate FromReward(sha: Sha, rewarded: set<seq<byte>>, id: Hash32) {
    exists b :: b in rewarded && sha(b) == id
  }

  /** Every unspent output is an output of an applied transaction, with that output's value, or a reward. */
  ghost predicate Sourced(sha: Sha, u: Utxos, applied: set<Transaction>, rewarded: set<seq<byte>>) {
    forall p :: p in u ==> FromTx(sha, applied, p, u[p]) || FromReward(sha, rewarded, p.txid)
  }

  lemma SourcedByMore(sha: Sha, u: Utxos, a: set<Transaction>, r: set<seq<byte>>, all: set<Transaction>, rewards: set<seq<byte>>)
    requires Sourced(sha, u, a, r) && a <= all && r <= rewards
    ensures Sourced(sha, u, all, rewards)
  {
    hide IsOutputOf;
  }

  lemma {:induction false} CreatedIsOutput(txid: Hash32, outs: seq<TxOut>, p: OutPoint)
    requires p in CreatedOuts(txid, outs)
    ensures p.txid == txid && p.index < |outs| && CreatedOuts(txid, outs)[p] == outs[p.index]
  {
    var n := |outs| - 1;
    if p != OutPoint(txid, n) { CreatedIsOutput(txid, outs[..n], p); }
  }

  lemma TxSourced(sha: Sha, u: Utxos, t: Transaction, all: set<Transaction>, rewarded: set<seq<byte>>)
    requires Sourced(sha, u, all, rewarded) && t in all
    ensures Sourced(sha, ApplyTx(u, TxId(sha, t), t), all, rewarded)
  {
    hide TxId, SpentPoints, CreatedOuts, FromReward;
    var next := ApplyTx(u, TxId(sha, t), t);
    forall p | p in next ensures FromTx(sha, all, p, next[p]) || FromReward(sha, rewarded, p.txid) {
      if p in CreatedOuts(TxId(sha, t), t.outputs) {
        CreatedIsOutput(TxId(sha, t), t.outputs, p);
        assert IsOutputOf(sha, t, p, next[p]);
      } else {
        assert next[p] == u[p];
      }
    }
  }

  lemma {:induction false} BlockSourced(sha: Sha, u: Utxos, txs: seq<Transaction>, all: set<Transaction>, rewarded: set<seq<byte>>)
    requires Sourced(sha, u, all, rewarded) && Members(txs) <= all
    ensures Sourced(sha, ApplyTxs(sha, u, txs), all, rewarded)
    decreases |txs|
  {
    hide Sourced, TxId, ApplyTx;
    if txs != [] {
      assert txs[0] in all;
      assert forall t :: t in txs[1..] ==> t in txs;
      TxSourced(sha, u, txs[0], all, rewarded);
      BlockSourced(sha, ApplyTx(u, TxId(sha, txs[0]), txs[0]), txs[1..], all, rewarded);
    }
  }

  /** A transaction that writes over an unspent output writes the value that is there. */
  lemma RewriteKeepsValue(sha: Sha, u: Utxos, t: Transaction, all: set<Transaction>, rewarded: set<seq<byte>>, p: OutPoint)
    requires Sourced(sha, u, all, rewarded) && Separate(sha, all, rewarded) && t in all
    requires p in u && p in CreatedOuts(TxId(sha, t), t.outputs)
    ensures CreatedOuts(TxId(sha, t), t.outputs)[p] == u[p]
  {
    hide TxId, CreatedOuts;
    CreatedIsOutput(TxId(sha, t), t.outputs, p);
  }

  lemma {:induction false} BlockKeepsValues(sha: Sha, u: Utxos, txs: seq<Transaction>, all: set<Transaction>, rewarded: set<seq<byte>>)
    requires Sourced(sha, u, all, rewarded) && Separate(sha, all, rewarded) && Members(txs) <= all
    ensures KeepsValues(sha, u, txs)
    decreases |txs|
  {
    hide Sourced, Separate, TxId, CreatedOuts, SpentPoints;
    if txs != [] {
      assert txs[0] in all;
      assert forall t :: t in txs[1..] ==> t in txs;
      BlockKeepsValues(sha, u, txs[1..], all, rewarded);
      forall p | p in u && p in CreatedOuts(TxId(sha, txs[0]), txs[0].outputs)
        ensures CreatedOuts(TxId(sha, txs[0]), txs[0].outputs)[p] == u[p]
      {
        RewriteKeepsValue(sha, u, txs[0], all, rewarded, p);
      }
      var es, rest := Effects(sha, txs), Effects(sha, txs[1..]);
      assert forall i :: 1 <= i < |es| ==> es[i] == rest[i - 1];
    }
  }

  // ---------- the past of a run ----------

  ghost predicate RewardUpTo(b: seq<byte>, height: nat) {
    exists h: nat, e: nat, id: MinerId :: h <= height && b == RewardBytes(h, e, id)
  }

  /** The unspent outputs are sourced, the identifiers of applied ordinary transactions are settled, and the rewards
      belong to past epoch ends. */
  ghost predicate Past(c: Config, l: Ledger, ends: nat) {
    && Sourced(c.rules.sha, l.s.utxos, l.applied, l.rewarded)
    && (forall t :: t in l.applied && !IsCoinbase(t) ==> TxId(c.rules.sha, t) in Settled(c.rules.sha, l.s.pool))
    && (forall b :: b in l.rewarded ==> RewardUpTo(b, ends))
  }

  lemma BlockPast(c: Config, l: Ledger, script: seq<byte>, shareAccepted: bool)
    requires Past(c, l, l.s.height)
    ensures Past(c, AfterBlock(c, l, script, shareAccepted), l.s.height)
  {
    hide TxId, IsCoinbase, RewardUpTo, Sourced, ApplyTxs, ShareOffered, BlockOf, Fees, Shaped, Overwritten;
    var sha, block, next := c.rules.sha, BlockOf(l.s, script), AfterBlock(c, l, script, shareAccepted);
    SourcedByMore(sha, l.s.utxos, l.applied, l.rewarded, next.applied, l.rewarded);
    BlockSourced(sha, l.s.utxos, block, next.applied, l.rewarded);
    assert Ids(sha, []) == {};
    forall t | t in next.applied && !IsCoinbase(t) ensures TxId(sha, t) in Settled(sha, next.s.pool) {
      assert t !in l.applied ==> exists i :: 0 <= i < |block| && block[i] == t;
    }
  }

  lemma EpochPast(c: Config, l: Ledger, script: seq<byte>, results: seq<MinerResult>, ends: nat)
    requires Past(c, l, ends) && ends <= l.s.height
    ensures Past(c, AfterEpoch(c, l, script, results), l.s.height)
  {
    hide TxId, IsCoinbase, PayAll, RewardBytes, FromTx, TookPart, Paid, Settled;
    var sha, next := c.rules.sha, AfterEpoch(c, l, script, results);
    forall p | p in next.s.utxos
      ensures FromTx(sha, next.applied, p, next.s.utxos[p]) || FromReward(sha, next.rewarded, p.txid)
    {
      PaidValues(sha, PurseOf(c, script), l.s.height, l.s.epoch, l.s.utxos, results, p);
      if i :| 0 <= i < |results| && p == RewardPoint(sha, l.s.height, l.s.epoch, results[i].minerId) {
        var b := RewardBytes(l.s.height, l.s.epoch, results[i].minerId);
        assert RewardPoint(sha, l.s.height, l.s.epoch, results[i].minerId).txid == sha(b);
        assert b in next.rewarded;
      }
    }
  }

  // ---------- the exact total ----------

  lemma BlockIsExact(c: Config, l: Ledger, script: seq<byte>, shareAccepted: bool)
    requires StateOk(c, l.s) && Past(c, l, l.s.height)
    requires Separate(c.rules.sha, AfterBlock(c, l, script, shareAccepted).applied, l.rewarded)
    ensures var next := AfterBlock(c, l, script, shareAccepted);
      Supply(next.s) - Exact(next) == Supply(l.s) - Exact(l)
  {
    hide StateOk, Sourced, Separate, Supply, Exact, BlockOf, BlockStored, Fees, Shaped, Overwritten, KeepsValues, IsCoinbase, Settled,
      RewardUpTo, TxId;
    var all := AfterBlock(c, l, script, shareAccepted).applied;
    SourcedByMore(c.rules.sha, l.s.utxos, l.applied, l.rewarded, all, l.rewarded);
    BlockKeepsValues(c.rules.sha, l.s.utxos, BlockOf(l.s, script), all, l.rewarded);
    BlockMoves(c, l, script, shareAccepted);
  }

  lemma RewardIsFree(c: Config, l: Ledger, id: MinerId, all: set<seq<byte>>)
    requires 0 < l.s.height < WORD && Past(c, l, l.s.height - 1)
    requires l.rewarded <= all && RewardBytes(l.s.height, l.s.epoch, id) in all && Separate(c.rules.sha, l.applied, all)
    ensures RewardPoint(c.rules.sha, l.s.height, l.s.epoch, id) !in l.s.utxos
  {
    hide TxId, IsCoinbase, RewardBytes, Settled;
    var b := RewardBytes(l.s.height, l.s.epoch, id);
    forall a | a in l.rewarded ensures c.rules.sha(a) != c.rules.sha(b) {
      RewardDiffers(a, l.s.height - 1, l.s.height, l.s.epoch, id);
    }
    assert RewardPoint(c.rules.sha, l.s.height, l.s.epoch, id).txid == c.rules.sha(b);
  }

  lemma RewardDiffers(a: seq<byte>, ends: nat, height: nat, epoch: nat, id: MinerId)
    requires RewardUpTo(a, ends) && ends < height < WORD
    ensures a != RewardBytes(height, epoch, id)
  {
    var h: nat, e: nat, other: MinerId :| h <= ends && a == RewardBytes(h, e, other);
    hide RewardBytes;
    if a == RewardBytes(height, epoch, id) {
      RewardBytesDiffer(h, e, other, height, epoch, id);
    }
  }

  /** The outpoints an epoch end pays to were never written, and are distinct. */
  lemma EpochIsFree(c: Config, l: Ledger, script: seq<byte>, results: seq<MinerResult>)
    requires 0 < l.s.height < WORD && Past(c, l, l.s.height - 1)
    requires forall i, j :: 0 <= i < j < |results| ==> results[i].minerId != results[j].minerId
    requires Separate(c.rules.sha, l.applied, AfterEpoch(c, l, script, results).rewarded)
    ensures PointsFree(c.rules.sha, l.s.height, l.s.epoch, l.s.utxos, results)
  {
    hide TxId, IsCoinbase, RewardBytes, Settled, Paid, EpochEnded, Past;
    var sha, h, e, all := c.rules.sha, l.s.height, l.s.epoch, AfterEpoch(c, l, script, results).rewarded;
    forall i | 0 <= i < |results| ensures RewardPoint(sha, h, e, results[i].minerId) !in l.s.utxos {
      assert RewardBytes(h, e, results[i].minerId) in all;
      RewardIsFree(c, l, results[i].minerId, all);
    }
    forall i, j | 0 <= i < j < |results|
      ensures RewardPoint(sha, h, e, results[i].minerId) != RewardPoint(sha, h, e, results[j].minerId)
    {
      if RewardBytes(h, e, results[i].minerId) == RewardBytes(h, e, results[j].minerId) {
        RewardBytesDiffer(h, e, results[i].minerId, h, e, results[j].minerId);
      }
      assert RewardBytes(h, e, results[i].minerId) in all && RewardBytes(h, e, results[j].minerId) in all;
    }
  }

  lemma EpochIsExact(c: Config, l: Ledger, script: seq<byte>, results: seq<MinerResult>)
    requires 0 < l.s.height < WORD && Past(c, l, l.s.height - 1)
    requires Rewards.ResultsFor(EpochInput(l.s), c.sqrt, results)
    requires Separate(c.rules.sha, l.applied, AfterEpoch(c, l, script, results).rewarded)
    ensures var next := AfterEpoch(c, l, script, results);
      Supply(next.s) - Exact(next) == Supply(l.s) - Exact(l)
  {
    Listed(EpochInput(l.s), c.sqrt, results);
    hide Separate, Past, Paid, Supply, Exact, EpochInput, PointsFree, PayAll, TookPart, Rewards.ResultsFor;
    EpochIsFree(c, l, script, results);
    EpochMoves(c, l, script, results);
  }

  ghost predicate IsExact(c: Config, l: Ledger) { Past(c, l, l.s.height) && Supply(l.s) == Exact(l) }

  lemma PastLater(c: Config, l: Ledger, ends: nat)
    requires Past(c, l, ends) && ends <= l.s.height
    ensures Past(c, l, l.s.height)
  {
    hide TxId, IsCoinbase, RewardBytes, Sourced, Settled;
  }

  lemma MineIsExact(c: Config, l: Ledger, script: seq<byte>, shareAccepted: bool, results: seq<MinerResult>)
    requires StateOk(c, l.s) && IsExact(c, l) && l.s.height + 1 < WORD
    requires Allowed(c, l, Mine(script, shareAccepted, results))
    requires var next := AfterMine(c, l, script, shareAccepted, results); Separate(c.rules.sha, next.applied, next.rewarded)
    ensures IsExact(c, AfterMine(c, l, script, shareAccepted, results))
  {
    hide StateOk, Separate, Past, BlockOf, HasDuplicates, BlockStored, EpochEnded, Fees, Shaped, Overwritten, Supply, Exact,
      Rewards.ResultsFor, EpochInput, EndsEpoch, Paid;
    NoDuplicatesIn(c, l.s, script);
    var next, stored := AfterMine(c, l, script, shareAccepted, results), AfterBlock(c, l, script, shareAccepted);
    SeparatePart(c.rules.sha, stored.applied, l.rewarded, next.applied, next.rewarded);
    BlockIsExact(c, l, script, shareAccepted);
    BlockPast(c, l, script, shareAccepted);
    StoredHeight(c, l.s, script, shareAccepted);
    if EndsEpoch(stored.s.height) {
      EpochIsExact(c, stored, script, results);
      EpochPast(c, stored, script, results, l.s.height);
      EndedHeight(c, stored.s, script, results);
    } else {
      PastLater(c, stored, l.s.height);
    }
  }

  lemma EndedHeight(c: Config, s: State, script: seq<byte>, results: seq<MinerResult>)
    ensures EpochEnded(c, s, script, results).height == s.height
  {
  }

  lemma SubmitIsExact(c: Config, l: Ledger, tx: Transaction)
    requires StateOk(c, l.s) && IsExact(c, l)
    ensures IsExact(c, Next(c, l, Submit(tx)))
  {
    assert Descending(FeeBy(l.s.utxos), l.s.pool.txs);
    hide StateOk, Admit, Settled, Sourced, Descending, FeeBy, TxId, IsCoinbase, RewardUpTo;
    SubmitSettles(c.rules, l.s.utxos, l.s.pool, tx);
  }

  lemma StepIsExact(c: Config, l: Ledger, step: Step)
    requires StateOk(c, l.s) && IsExact(c, l) && l.s.height + 1 < WORD
    requires Allowed(c, l, step) && Separate(c.rules.sha, Next(c, l, step).applied, Next(c, l, step).rewarded)
    ensures IsExact(c, Next(c, l, step))
  {
    hide StateOk, Separate, Settled, Sourced, AfterMine, Rewards.ResultsFor, Admit, RewardUpTo, IsCoinbase, TxId, Loyalty.Update;
    match step
    case Submit(tx) => SubmitIsExact(c, l, tx);
    case Mine(script, shareAccepted, results) => MineIsExact(c, l, script, shareAccepted, results);
    case PutBond(id, amount) =>
    case OfferShare(id, accepted) =>
  }

  lemma GenesisIsExact(c: Config)
    ensures IsExact(c, Genesis(c))
  {
    GenesisOk(c);
    hide TxId, Supply, Settled;
    var t, p := GenesisTx(), OutPoint(TxId(c.rules.sha, GenesisTx()), 0);
    assert IsCoinbase(t) && IsOutputOf(c.rules.sha, t, p, t.outputs[0]);
  }

  // ---------- whole runs ----------

  /** What is hashed for an identifier: short enough lists, and rewards of one length. */
  ghost predicate WellFormed(applied: set<Transaction>, rewarded: set<seq<byte>>) {
    (forall t :: t in applied ==> Fits(t, 4)) && (forall b :: b in rewarded ==> |b| == 50)
  }

  lemma WellFormedStep(c: Config, l: Ledger, step: Step)
    requires StateOk(c, l.s) && Allowed(c, l, step) && WellFormed(l.applied, l.rewarded)
    ensures WellFormed(Next(c, l, step).applied, Next(c, l, step).rewarded)
  {
    hide StateOk, Fits, Admit, HasDuplicates, BlockStored, EpochEnded, BlockOf, Fees, Shaped, Overwritten, Paid, Rewards.ResultsFor,
      RewardBytes, ShareOffered, EpochInput, AllFit, BondPut;
    if step.Mine? {
      FitsOfBlock(c, l.s, step.script);
    }
  }

  lemma FitsOfBlock(c: Config, s: State, script: seq<byte>)
    requires StateOk(c, s) && |script| < 0x1_0000_0000
    ensures forall t :: t in Members(BlockOf(s, script)) ==> Fits(t, 4)
  {
    hide Fits, BlockOf;
    BlockFits(s, script);
  }

  lemma {:induction false} WellFormedRun(c: Config, steps: seq<Step>)
    requires Rewards.RootLike(c.sqrt) && Lawful(c, steps)
    ensures WellFormed(Run(c, steps).applied, Run(c, steps).rewarded)
    decreases |steps|
  {
    if steps == [] {
      Pow256Values();
    } else {
      hide Rewards.RootLike, StateOk, Allowed, Next, WellFormed;
      WellFormedRun(c, steps[..|steps| - 1]);
      EveryRunIsOk(c, steps[..|steps| - 1]);
      WellFormedStep(c, Run(c, steps[..|steps| - 1]), steps[|steps| - 1]);
    }
  }

  lemma Grows(c: Config, l: Ledger, step: Step)
    ensures l.applied <= Next(c, l, step).applied && l.rewarded <= Next(c, l, step).rewarded
    ensures Next(c, l, step).s.height <= l.s.height + 1
  {
    hide Admit, HasDuplicates, BlockOf, Fees, Shaped, Overwritten, Paid, PayAll, ApplyTxs, OrdinaryIds, RewardBytes, Loyalty.Update;
  }

  lemma {:induction false} ExactRun(c: Config, steps: seq<Step>)
    requires Rewards.RootLike(c.sqrt) && Lawful(c, steps) && |steps| < WORD
    requires Separate(c.rules.sha, Run(c, steps).applied, Run(c, steps).rewarded)
    ensures IsExact(c, Run(c, steps)) && Run(c, steps).s.height <= |steps|
    decreases |steps|
  {
    hide Rewards.RootLike, StateOk, Allowed, Next, IsExact, Separate, Genesis;
    if steps == [] {
      GenesisIsExact(c);
      GenesisHeight(c);
    } else {
      var before, step := steps[..|steps| - 1], steps[|steps| - 1];
      var l := Run(c, before);
      Grows(c, l, step);
      SeparatePart(c.rules.sha, l.applied, l.rewarded, Run(c, steps).applied, Run(c, steps).rewarded);
      ExactRun(c, before);
      EveryRunIsOk(c, before);
      StepIsExact(c, l, step);
    }
  }

  lemma GenesisHeight(c: Config)
    ensures Genesis(c).s.height == 0
  {
  }

  ghost predicate RunCollisionFree(c: Config, steps: seq<Step>) {
    CollisionFree(c.rules.sha, Hashed(c.rules.sha, Run(c, steps).applied, Run(c, steps).rewarded))
  }

  lemma RunIsSeparate(c: Config, steps: seq<Step>)
    requires Rewards.RootLike(c.sqrt) && Lawful(c, steps) && RunCollisionFree(c, steps)
    ensures Separate(c.rules.sha, Run(c, steps).applied, Run(c, steps).rewarded)
  {
    hide Rewards.RootLike, Lawful, Run, Separate, Hashed;
    WellFormedRun(c, steps);
    SeparateFromCollisionFree(c.rules.sha, Run(c, steps).applied, Run(c, steps).rewarded);
  }

  /** Unless hashes collide, and whatever is submitted: the supply is the genesis output, the block rewards, what the
      epochs paid and what marked transactions created, less all fees and less what was overwritten. */
  lemma SupplyOfEveryRun(c: Config, steps: seq<Step>)
    requires Rewards.RootLike(c.sqrt) && Lawful(c, steps) && |steps| < WORD && RunCollisionFree(c, steps)
    ensures var l := Run(c, steps);
      Supply(l.s) == 500_000_000 + 500_000 * l.s.height + l.paid + l.shaped - l.fees - l.overwritten
  {
    hide Rewards.RootLike, Lawful, Run, Past, Supply, Separate, RunCollisionFree;
    RunIsSeparate(c, steps);
    ExactRun(c, steps);
  }
}

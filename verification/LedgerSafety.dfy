/** What every run of the node keeps: the waiting pool stays sound, epochs follow the height, loyalty stays in
    bounds, and the total of the unspent outputs stays within what genesis, blocks and epochs may create. */
module LedgerSafety {
  import opened Bytes
  import opened TxEncoding
  import opened Merkle
  import opened Sums
  import opened Accounting
  import opened Validation
  import opened Mempool
  import opened Blocks
  import opened Payouts
  import opened Ledger
  import opened Protocol
  import Loyalty
  import Rewards

  ghost predicate AllFit(txs: seq<Transaction>) { forall i :: 0 <= i < |txs| ==> Fits(txs[i], 4) }

  ghost predicate ScoresOk(scores: map<MinerId,
                           Loyalty.Score>) { forall id :: id in scores ==> Loyalty.Bounded(scores[id]) }

  ghost predicate StateOk(c: Config, s: State) {
    && PoolOk(c.rules, s.utxos, s.pool)
    && MarkerFree(s.utxos)
    && AllFit(s.pool.txs)
    && s.epoch == 1 + s.height / EPOCH_BLOCKS
    && ScoresOk(s.scores)
  }

  // ---------- the block ----------

  lemma {:induction false} AppliedPoints(sha: Sha, u: Utxos, txs: seq<Transaction>, p: OutPoint)
    requires p in ApplyTxs(sha, u, txs)
    ensures (p in u && forall i :: 0 <= i < |txs| ==> p !in SpentPoints(txs[i].inputs))
         || exists i :: 0 <= i < |txs| && p.txid == TxId(sha, txs[i]) && p.index < |txs[i].outputs|
    decreases |txs|
  {
    hide TxId, SpentPoints;
    if txs != [] {
      var u1 := ApplyTx(u, TxId(sha, txs[0]), txs[0]);
      AppliedPoints(sha, u1, txs[1..], p);
      CreatedPoints(TxId(sha, txs[0]), txs[0].outputs);
      assert forall i :: 0 <= i < |txs| - 1 ==> txs[1..][i] == txs[i + 1];
      assert forall i :: 1 <= i < |txs| ==> txs[i] == txs[1..][i - 1];
    }
  }

  lemma CoinbaseFits(script: seq<byte>, height: nat)
    requires |script| < 0x1_0000_0000
    ensures Fits(Coinbase(script, height), 4)
  {
    Pow256Values();
  }

  lemma BlockFits(s: State, script: seq<byte>)
    requires AllFit(s.pool.txs) && |script| < 0x1_0000_0000
    ensures AllFit(BlockOf(s, script))
  {
    hide Fits, Coinbase;
    CoinbaseFits(script, s.height + 1);
  }

  lemma MarkerStaysFree(sha: Sha, u: Utxos, txs: seq<Transaction>)
    requires MarkerFree(u) && AllFit(txs)
    ensures MarkerFree(ApplyTxs(sha, u, txs))
  {
    hide TxId, SpentPoints;
    Pow256Values();
    var p := OutPoint(ZeroHash(), MARKER_INDEX);
    assert forall i :: 0 <= i < |txs| ==> Fits(txs[i], 4) && |txs[i].outputs| <= p.index;
    if p in ApplyTxs(sha, u, txs) {
      AppliedPoints(sha, u, txs, p);
    }
  }

  /** The check for duplicates before a block is stored never finds any. */
  lemma BlockHasNoDuplicates(c: Config, s: State, script: seq<byte>)
    requires PoolOk(c.rules, s.utxos, s.pool)
    ensures !HasDuplicates(c.rules.sha, BlockOf(s, script))
  {
    hide TxId, SpentPoints, AllValid, Descending;
    var block := BlockOf(s, script);
    assert IsCoinbase(block[0]);
    forall i, j | 0 <= i < j < |block| && !IsCoinbase(block[i]) && !IsCoinbase(block[j])
      ensures TxId(c.rules.sha, block[i]) != TxId(c.rules.sha, block[j])
    {
      assert Compatible(c.rules.sha, s.pool.txs[i - 1], s.pool.txs[j - 1]);
    }
  }

  // ---------- each step keeps the invariant ----------

  lemma SubmitKeeps(c: Config, s: State, tx: Transaction)
    requires StateOk(c, s) && Fits(tx, 4)
    ensures StateOk(c, s.(pool := Admit(c.rules, s.utxos, s.pool, tx)))
  {
    AdmitKeepsPool(c.rules, s.utxos, s.pool, tx);
    assert Descending(FeeBy(s.utxos), s.pool.txs);
    hide PoolOk, Fits, MarkerFree, ScoresOk, AllFit, Admit, Descending, FeeBy;
    AdmittedFit(c, s, tx);
  }

  lemma AdmittedFit(c: Config, s: State, tx: Transaction)
    requires Descending(FeeBy(s.utxos), s.pool.txs)
    requires AllFit(s.pool.txs) && Fits(tx, 4)
    ensures AllFit(Admit(c.rules, s.utxos, s.pool, tx).txs)
  {
    hide Descending, FeeBy, Admit, Fits;
    AdmittedMembers(c.rules, s.utxos, s.pool, tx);
    var after := Admit(c.rules, s.utxos, s.pool, tx).txs;
    forall i | 0 <= i < |after| ensures Fits(after[i], 4) {
      assert after[i] in s.pool.txs || after[i] == tx;
    }
  }

  lemma AdmittedMembers(r: Rules, u: Utxos, p: Pool, tx: Transaction)
    requires Descending(FeeBy(u), p.txs)
    ensures forall t :: t in Admit(r, u, p, tx).txs ==> t in p.txs || t == tx
  {
    var k := FullShape(u, p, tx);
    hide AdmitErrorOf, Full, FeeBy, TxId, Ids, Descending;
    CutInserted(p.txs, tx, k, r.maxMempool);
  }

  lemma CutInserted<T>(s: seq<T>, x: T, k: nat, max: nat)
    requires k <= |s|
    ensures forall t :: t in Cut(s[..k] + [x] + s[k..], max) ==> t in s || t == x
  {
  }

  lemma ShareKeeps(c: Config, s: State, id: MinerId, accepted: bool)
    requires ScoresOk(s.scores)
    ensures ScoresOk(ShareOffered(s, id, accepted).scores)
  {
    Loyalty.UpdateKeepsBounds(ScoreOf(s.scores, id), s.epoch, true);
    hide Loyalty.Update;
  }

  lemma BlockKeeps(c: Config, s: State, script: seq<byte>, shareAccepted: bool)
    requires StateOk(c, s) && |script| < 0x1_0000_0000
    ensures var next := BlockStored(c, s, script, shareAccepted);
      && PoolOk(c.rules, next.utxos, next.pool) && MarkerFree(next.utxos) && AllFit(next.pool.txs) && ScoresOk(next.scores)
      && next.height == s.height + 1 && next.epoch == s.epoch
  {
    hide PoolOk, MarkerFree, ScoresOk, ShareOffered, ApplyTxs, OrdinaryIds, BlockOf;
    ShareKeeps(c, s, c.self, shareAccepted);
    BlockFits(s, script);
    MarkerStaysFree(c.rules.sha, s.utxos, BlockOf(s, script));
    EmptyPoolOk(c.rules, BlockStored(c, s, script, shareAccepted).utxos, BlockStored(c, s, script, shareAccepted).pool.processed);
    SharePart(s, c.self, shareAccepted);
  }

  lemma SharePart(s: State, id: MinerId, accepted: bool)
    ensures var next := ShareOffered(s, id, accepted);
      next.utxos == s.utxos && next.pool == s.pool && next.height == s.height && next.epoch == s.epoch && next.bonds == s.bonds
  {
  }

  lemma EmptyPoolOk(r: Rules, u: Utxos, processed: set<Hash32>)
    ensures PoolOk(r, u, Pool([], processed))
  {
    hide TxId, SpentPoints, Validate;
    assert Ids(r.sha, []) == {};
  }

  lemma EpochKeeps(c: Config, s: State, script: seq<byte>, results: seq<MinerResult>)
    requires MarkerFree(s.utxos) && ScoresOk(s.scores)
    ensures MarkerFree(EpochEnded(c, s, script, results).utxos) && ScoresOk(EpochEnded(c, s, script, results).scores)
  {
    var next := EpochEnded(c, s, script, results);
    PaidPoints(c.rules.sha, PurseOf(c, script), s.height, s.epoch, s.utxos, results, OutPoint(ZeroHash(), MARKER_INDEX));
    hide PayAll, Loyalty.Update, TookPart;
    forall id | id in s.miners ensures Loyalty.Bounded(Loyalty.Update(ScoreOf(s.scores, id), s.epoch, TookPart(results, id))) {
      Loyalty.UpdateKeepsBounds(ScoreOf(s.scores, id), s.epoch, TookPart(results, id));
    }
  }

  lemma EpochOfHeight(h: nat)
    ensures (h + 1) / EPOCH_BLOCKS == h / EPOCH_BLOCKS + if EndsEpoch(h + 1) then 1 else 0
  {
  }

  lemma StoredHeight(c: Config, s: State, script: seq<byte>, shareAccepted: bool)
    ensures BlockStored(c, s, script, shareAccepted).height == s.height + 1
  {
  }

  lemma StoredIsOk(c: Config, s: State, script: seq<byte>, shareAccepted: bool)
    requires StateOk(c, s) && |script| < 0x1_0000_0000
    ensures var next := BlockStored(c, s, script, shareAccepted);
      next.height == s.height + 1 && (!EndsEpoch(next.height) ==> StateOk(c, next))
  {
    hide PoolOk, MarkerFree, ScoresOk, EndsEpoch, BlockStored, AllFit;
    BlockKeeps(c, s, script, shareAccepted);
    EpochOfHeight(s.height);
  }

  lemma EndedIsOk(c: Config, s: State, script: seq<byte>, shareAccepted: bool, results: seq<MinerResult>)
    requires StateOk(c, s) && |script| < 0x1_0000_0000
    ensures var next := EpochEnded(c, BlockStored(c, s, script, shareAccepted), script, results);
      next.height == s.height + 1 && (EndsEpoch(s.height + 1) ==> StateOk(c, next))
  {
    hide PoolOk, MarkerFree, ScoresOk, PayAll, EndsEpoch, BlockStored, AllFit, LoyaltyAfter, WithoutShares;
    BlockKeeps(c, s, script, shareAccepted);
    var stored := BlockStored(c, s, script, shareAccepted);
    EpochKeeps(c, stored, script, results);
    EpochOfHeight(s.height);
    StoredPool(c, s, script, shareAccepted);
    EmptyPoolOk(c.rules, EpochEnded(c, stored, script, results).utxos, stored.pool.processed);
  }

  lemma MineKeeps(c: Config, l: Ledger, script: seq<byte>, shareAccepted: bool, results: seq<MinerResult>)
    requires StateOk(c, l.s) && |script| < 0x1_0000_0000
    ensures StateOk(c, AfterMine(c, l, script, shareAccepted, results).s)
    ensures AfterMine(c, l, script, shareAccepted, results).s.height == l.s.height + 1
  {
    hide StateOk, BlockOf, HasDuplicates, EndsEpoch, BlockStored, EpochEnded, Fees, Shaped, Overwritten, Paid, Members;
    NoDuplicatesIn(c, l.s, script);
    StoredIsOk(c, l.s, script, shareAccepted);
    EndedIsOk(c, l.s, script, shareAccepted, results);
  }

  lemma StoredPool(c: Config, s: State, script: seq<byte>, shareAccepted: bool)
    ensures var pool := BlockStored(c, s, script, shareAccepted).pool; pool == Pool([], pool.processed) && AllFit(pool.txs)
  {
  }

  // ---------- the total ----------

  /** What the unspent outputs would total if nothing were overwritten. */
  ghost function Balanced(l: Ledger): int {
    GENESIS_VALUE + BLOCK_REWARD * l.s.height + l.paid + l.shaped - l.fees
  }

  /** What they total when what was overwritten is taken off. */
  ghost function Exact(l: Ledger): int { Balanced(l) - l.overwritten }

  lemma BlockMoves(c: Config, l: Ledger, script: seq<byte>, shareAccepted: bool)
    requires StateOk(c, l.s)
    ensures var next := AfterBlock(c, l, script, shareAccepted);
      && Supply(next.s) - Balanced(next) <= Supply(l.s) - Balanced(l)
      && (KeepsValues(c.rules.sha, l.s.utxos, BlockOf(l.s, script)) ==>
            Supply(next.s) - Exact(next) == Supply(l.s) - Exact(l))
  {
    var u, txs := l.s.utxos, Chosen(l.s, script);
    PrefixOk(c.rules, u, l.s.pool.txs, |txs|);
    hide AllValid, AllCompatible, Descending, AllFit, MarkerFree, ScoresOk, Selected, OrdinaryIds, ApplyTxs, ShareOffered,
      Coinbase, KeepsValues, Overwritten, Fees, Shaped, Sum, Size, Ids, FeeBy;
    assert BlockOf(l.s, script) == [Coinbase(script, l.s.height + 1)] + txs;
    MinedBlockBalance(c.rules, u, script, l.s.height + 1, txs);
  }

  lemma EpochMoves(c: Config, l: Ledger, script: seq<byte>, results: seq<MinerResult>)
    ensures var next := AfterEpoch(c, l, script, results);
      && Supply(next.s) - Balanced(next) <= Supply(l.s) - Balanced(l)
      && (PointsFree(c.rules.sha, l.s.height, l.s.epoch, l.s.utxos, results) ==>
            Supply(next.s) - Exact(next) == Supply(l.s) - Exact(l))
  {
    PayBalance(c.rules.sha, PurseOf(c, script), l.s.height, l.s.epoch, l.s.utxos, results);
    hide PayAll, Paid, Sum, PointsFree, TookPart;
  }

  ghost predicate LedgerOk(c: Config, l: Ledger) {
    && StateOk(c, l.s)
    && Supply(l.s) <= Balanced(l)
    && l.paid <= EPOCH_REWARD * (l.s.height / EPOCH_BLOCKS)
  }

  lemma EpochPays(c: Config, s: State, script: seq<byte>, results: seq<MinerResult>)
    requires Rewards.RootLike(c.sqrt) && ScoresOk(s.scores) && Rewards.ResultsFor(EpochInput(s), c.sqrt, results)
    ensures Paid(PurseOf(c, script), results) <= EPOCH_REWARD
  {
    hide Rewards.RootLike, Rewards.ResultsFor;
    PaidBound(PurseOf(c, script), EpochInput(s), c.sqrt, results);
  }

  lemma BlockPhase(c: Config, l: Ledger, script: seq<byte>, shareAccepted: bool)
    requires StateOk(c, l.s) && Supply(l.s) <= Balanced(l) && |script| < 0x1_0000_0000
    ensures var next := AfterBlock(c, l, script, shareAccepted);
      && Supply(next.s) <= Balanced(next) && next.paid == l.paid && next.s.height == l.s.height + 1
      && ScoresOk(next.s.scores)
  {
    BlockMoves(c, l, script, shareAccepted);
    BlockKeeps(c, l.s, script, shareAccepted);
    hide BlockStored, Supply, PoolOk, MarkerFree, ScoresOk, AllFit, Fees, Shaped, KeepsValues, Overwritten;
  }

  lemma EpochPhase(c: Config, l: Ledger, script: seq<byte>, results: seq<MinerResult>)
    requires Rewards.RootLike(c.sqrt) && ScoresOk(l.s.scores) && Supply(l.s) <= Balanced(l)
    requires Rewards.ResultsFor(EpochInput(l.s), c.sqrt, results)
    ensures var next := AfterEpoch(c, l, script, results);
      Supply(next.s) <= Balanced(next) && next.paid <= l.paid + EPOCH_REWARD && next.s.height == l.s.height
  {
    EpochMoves(c, l, script, results);
    EpochPays(c, l.s, script, results);
    hide Supply, Balanced, PayAll, Paid, ScoresOk, Rewards.ResultsFor, Rewards.RootLike, PointsFree, TookPart;
  }

  lemma NoDuplicatesIn(c: Config, s: State, script: seq<byte>)
    requires StateOk(c, s)
    ensures !HasDuplicates(c.rules.sha, BlockOf(s, script))
  {
    BlockHasNoDuplicates(c, s, script);
  }

  lemma MinePays(c: Config, l: Ledger, script: seq<byte>, shareAccepted: bool, results: seq<MinerResult>)
    requires Rewards.RootLike(c.sqrt) && LedgerOk(c, l) && Allowed(c, l, Mine(script, shareAccepted, results))
    ensures LedgerOk(c, AfterMine(c, l, script, shareAccepted, results))
  {
    hide StateOk, PoolOk, MarkerFree, ScoresOk, AllFit, HasDuplicates, AfterBlock, AfterEpoch, Supply, Balanced,
      EpochInput, Rewards.RootLike, Rewards.ResultsFor, EndsEpoch, BlockOf;
    MineKeeps(c, l, script, shareAccepted, results);
    NoDuplicatesIn(c, l.s, script);
    BlockPhase(c, l, script, shareAccepted);
    EpochOfHeight(l.s.height);
    var stored := AfterBlock(c, l, script, shareAccepted);
    if EndsEpoch(stored.s.height) {
      EpochPhase(c, stored, script, results);
    }
  }

  // ---------- whole runs ----------

  lemma GenesisOk(c: Config)
    ensures LedgerOk(c, Genesis(c)) && Supply(GenesisState(c)) == GENESIS_VALUE
  {
    var s := GenesisState(c);
    var p, o := OutPoint(TxId(c.rules.sha, GenesisTx()), 0), GenesisTx().outputs[0];
    hide TxId;
    assert Values(s.utxos) == map[p := GENESIS_VALUE];
    SumAt(Values(s.utxos), p);
    assert Values(s.utxos) - {p} == map[];
    EmptyPoolOk(c.rules, s.utxos, {});
  }

  /** Every run of the node, by any steps in any order, keeps the whole invariant. */
  lemma {:induction false} EveryRunIsOk(c: Config, steps: seq<Step>)
    requires Rewards.RootLike(c.sqrt) && Lawful(c, steps)
    ensures LedgerOk(c, Run(c, steps))
    decreases |steps|
  {
    if steps == [] {
      GenesisOk(c);
    } else {
      var l, step := Run(c, steps[..|steps| - 1]), steps[|steps| - 1];
      EveryRunIsOk(c, steps[..|steps| - 1]);
      StepIsOk(c, l, step);
    }
  }

  lemma StepIsOk(c: Config, l: Ledger, step: Step)
    requires Rewards.RootLike(c.sqrt) && LedgerOk(c, l) && Allowed(c, l, step)
    ensures LedgerOk(c, Next(c, l, step))
  {
    hide PoolOk, MarkerFree, ScoresOk, AllFit, Admit, AfterMine, Fits, Rewards.RootLike, Loyalty.Update, Sum;
    match step
    case Submit(tx) => SubmitKeeps(c, l.s, tx);
    case OfferShare(id, accepted) => ShareKeeps(c, l.s, id, accepted);
    case PutBond(id, amount) =>
    case Mine(script, shareAccepted, results) => MinePays(c, l, script, shareAccepted, results);
  }

  // ---------- without coinbase-marked submissions ----------

  ghost predicate Ordinary(step: Step) { step.Submit? ==> !IsCoinbase(step.tx) }

  ghost predicate NoneMarked(txs: seq<Transaction>) { forall i :: 0 <= i < |txs| ==> !IsCoinbase(txs[i]) }

  lemma {:induction false} NothingShaped(txs: seq<Transaction>)
    requires NoneMarked(txs)
    ensures Shaped(txs) == 0
    decreases |txs|
  {
    if txs != [] {
      assert forall i :: 0 <= i < |txs| - 1 ==> txs[1..][i] == txs[i + 1];
      NothingShaped(txs[1..]);
    }
  }

  lemma OrdinaryStep(c: Config, l: Ledger, step: Step)
    requires StateOk(c, l.s) && NoneMarked(l.s.pool.txs) && l.shaped == 0 && Ordinary(step)
    ensures NoneMarked(Next(c, l, step).s.pool.txs) && Next(c, l, step).shaped == 0
  {
    if step.Submit? {
      SubmitStaysUnmarked(c, l.s, step.tx);
    } else if step.Mine? {
      NothingShaped(Chosen(l.s, step.script));
    }
    hide StateOk, IsCoinbase, Admit, PayAll, Fees, Shaped, HasDuplicates, ApplyTxs, OrdinaryIds, Chosen, Loyalty.Update;
  }

  lemma SubmitStaysUnmarked(c: Config, s: State, tx: Transaction)
    requires StateOk(c, s) && NoneMarked(s.pool.txs) && !IsCoinbase(tx)
    ensures NoneMarked(Admit(c.rules, s.utxos, s.pool, tx).txs)
  {
    assert Descending(FeeBy(s.utxos), s.pool.txs);
    hide StateOk, IsCoinbase, Admit, Descending, FeeBy;
    AdmittedMembers(c.rules, s.utxos, s.pool, tx);
    var after := Admit(c.rules, s.utxos, s.pool, tx).txs;
    forall i | 0 <= i < |after| ensures !IsCoinbase(after[i]) {
      assert after[i] in s.pool.txs || after[i] == tx;
    }
  }

  ghost predicate AllOrdinary(steps: seq<Step>) { forall i :: 0 <= i < |steps| ==> Ordinary(steps[i]) }

  lemma {:induction false} OrdinaryRun(c: Config, steps: seq<Step>)
    requires Rewards.RootLike(c.sqrt) && Lawful(c, steps) && AllOrdinary(steps)
    ensures NoneMarked(Run(c, steps).s.pool.txs) && Run(c, steps).shaped == 0
    decreases |steps|
  {
    hide Rewards.RootLike, Next, Ordinary, StateOk;
    if steps != [] {
      OrdinaryRun(c, steps[..|steps| - 1]);
      EveryRunIsOk(c, steps[..|steps| - 1]);
      OrdinaryStep(c, Run(c, steps[..|steps| - 1]), steps[|steps| - 1]);
    }
  }

  /** The supply never exceeds the genesis output, one block reward for each block and one epoch reward for each
      full epoch, on every run in which nobody submits a transaction marked as a coinbase. */
  lemma SupplyBound(c: Config, steps: seq<Step>)
    requires Rewards.RootLike(c.sqrt) && Lawful(c, steps) && AllOrdinary(steps)
    ensures var s := Run(c, steps).s;
      Supply(s) <= 500_000_000 + 500_000 * s.height + 720_000_000 * (s.height / 1440)
  {
    hide Rewards.RootLike, StateOk, Supply, Run;
    EveryRunIsOk(c, steps);
    OrdinaryRun(c, steps);
  }

  // ---------- no block spends twice ----------

  /** After every run, the block that would be mined next contains no identifier twice among its ordinary
      transactions, spends no output twice, across its transactions or within one, and spends only outputs that
      are there. */
  lemma EveryBlockSpendsOnce(c: Config, steps: seq<Step>, script: seq<byte>, i: nat, j: nat)
    requires Rewards.RootLike(c.sqrt) && Lawful(c, steps)
    requires i < j < |BlockOf(Run(c, steps).s, script)|
    ensures var s := Run(c, steps).s;
      var a, b := BlockOf(s, script)[i], BlockOf(s, script)[j];
      && SpentPoints(a.inputs) !! SpentPoints(b.inputs)
      && (!IsCoinbase(a) && !IsCoinbase(b) ==> TxId(c.rules.sha, a) != TxId(c.rules.sha, b))
      && !SpendsTwice(b.inputs) && SpentPoints(b.inputs) <= s.utxos.Keys
  {
    hide Rewards.RootLike, Lawful, Run, BlockOf;
    EveryRunIsOk(c, steps);
    BlockSpendsOnce(c, Run(c, steps).s, script, i, j);
  }

  lemma BlockSpendsOnce(c: Config, s: State, script: seq<byte>, i: nat, j: nat)
    requires StateOk(c, s) && i < j < |BlockOf(s, script)|
    ensures var a, b := BlockOf(s, script)[i], BlockOf(s, script)[j];
      && SpentPoints(a.inputs) !! SpentPoints(b.inputs)
      && (!IsCoinbase(a) && !IsCoinbase(b) ==> TxId(c.rules.sha, a) != TxId(c.rules.sha, b))
      && !SpendsTwice(b.inputs) && SpentPoints(b.inputs) <= s.utxos.Keys
  {
    hide TxId, Validate, Descending, AllFit, ScoresOk, Ids, MarkerFree, FeeBy, SpentValue;
    var block, txs := BlockOf(s, script), s.pool.txs;
    assert block[j] == txs[j - 1];
    SpentOfValid(c.rules.verify, s.utxos, txs[j - 1]);
    hide SpendsTwice;
    if i == 0 {
      assert IsCoinbase(block[0]) && SpentPoints(block[0].inputs) == {};
    } else {
      assert Compatible(c.rules.sha, txs[i - 1], txs[j - 1]);
    }
  }

  lemma SpentOfValid(verify: Verifier, u: Utxos, tx: Transaction)
    requires Validate(verify, u, tx).Valid? && MarkerFree(u)
    ensures !SpendsTwice(tx.inputs) && SpentPoints(tx.inputs) <= u.Keys
  {
    ValidIff(verify, u, tx, Validate(verify, u, tx).fee);
    ValidIsSpendable(verify, u, tx);
    SpentOfSpendable(u, tx);
  }
}

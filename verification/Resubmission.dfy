/** What the record of processed identifiers refuses: once a block is mined, everything that waited for it, taken or
    left out, is refused in every later state. */
module Resubmission {
  import opened Bytes
  import opened TxEncoding
  import opened Merkle
  import opened Validation
  import opened Mempool
  import opened Blocks
  import opened Payouts
  import opened Ledger
  import opened LedgerSafety
  import Rewards

  /** The identifiers on record that are not waiting; no eviction takes them off. */
  ghost function Settled(sha: Sha, p: Pool): set<Hash32> { p.processed - Ids(sha, p.txs) }

  lemma SettledIsRefused(r: Rules, u: Utxos, p: Pool, tx: Transaction)
    requires TxId(r.sha, tx) in Settled(r.sha, p)
    ensures AdmitErrorOf(r, u, p, tx) != None
  {
    hide TxId, Ids, HasId, Validate, SpentPoints, UsedPoints;
  }

  lemma CutIds(sha: Sha, txs: seq<Transaction>, tx: Transaction, k: nat, max: nat)
    requires k <= |txs|
    ensures var full := txs[..k] + [tx] + txs[k..];
      && Ids(sha, Cut(full, max)) <= Ids(sha, txs) + {TxId(sha, tx)}
      && Ids(sha, full[|Cut(full, max)|..]) <= Ids(sha, txs) + {TxId(sha, tx)}
  {
    hide TxId;
    var full := txs[..k] + [tx] + txs[k..];
    assert forall i :: 0 <= i < |full| ==> full[i] == if i < k then txs[i] else if i == k then tx else txs[i - 1];
  }

  lemma SubmitSettles(r: Rules, u: Utxos, p: Pool, tx: Transaction)
    requires Descending(FeeBy(u), p.txs)
    ensures Settled(r.sha, p) <= Settled(r.sha, Admit(r, u, p, tx))
  {
    hide TxId, Ids, HasId, Validate, SpentPoints, UsedPoints, Full, Cut, Descending, FeeBy;
    if AdmitErrorOf(r, u, p, tx) == None {
      var k := FullShape(u, p, tx);
      CutIds(r.sha, p.txs, tx, k, r.maxMempool);
    }
  }

  lemma MineSettles(c: Config, l: Ledger, script: seq<byte>, shareAccepted: bool, results: seq<MinerResult>)
    requires StateOk(c, l.s)
    ensures l.s.pool.processed <= Settled(c.rules.sha, AfterMine(c, l, script, shareAccepted, results).s.pool)
  {
    hide StateOk, HasDuplicates, BlockOf, ApplyTxs, OrdinaryIds, PayAll, ShareOffered, EndsEpoch, TxId;
    NoDuplicatesIn(c, l.s, script);
    assert Ids(c.rules.sha, []) == {};
  }

  lemma StepSettles(c: Config, l: Ledger, step: Step)
    requires StateOk(c, l.s)
    ensures Settled(c.rules.sha, l.s.pool) <= Settled(c.rules.sha, Next(c, l, step).s.pool)
  {
    match step
    case Submit(tx) => SubmitSettles(c.rules, l.s.utxos, l.s.pool, tx);
    case Mine(script, shareAccepted, results) => MineSettles(c, l, script, shareAccepted, results);
    case PutBond(id, amount) =>
    case OfferShare(id, accepted) =>
  }

  lemma {:induction false} SettledStays(c: Config, steps: seq<Step>, n: nat)
    requires Rewards.RootLike(c.sqrt) && Lawful(c, steps) && n <= |steps|
    ensures Settled(c.rules.sha, Run(c, steps[..n]).s.pool) <= Settled(c.rules.sha, Run(c, steps).s.pool)
    decreases |steps|
  {
    hide Rewards.RootLike, Next, Settled, StateOk, Allowed;
    if n == |steps| {
      assert steps[..n] == steps;
    } else {
      var before := steps[..|steps| - 1];
      assert before[..n] == steps[..n];
      SettledStays(c, before, n);
      EveryRunIsOk(c, before);
      StepSettles(c, Run(c, before), steps[|steps| - 1]);
    }
  }

  /** A transaction that waits when a block is mined is never admitted again, whether or not the block took it. */
  lemma WaitingOnceIsRefusedAfterwards(c: Config, steps: seq<Step>, n: nat, tx: Transaction)
    requires Rewards.RootLike(c.sqrt) && Lawful(c, steps) && n < |steps| && steps[n].Mine?
    requires tx in Run(c, steps[..n]).s.pool.txs
    ensures var s := Run(c, steps).s; AdmitErrorOf(c.rules, s.utxos, s.pool, tx) != None
  {
    hide Rewards.RootLike, Settled, StateOk, Allowed, Next, AfterMine, TxId, AdmitErrorOf, Run, Lawful;
    LawfulPrefix(c, steps, n);
    EveryRunIsOk(c, steps[..n]);
    var l, step := Run(c, steps[..n]), steps[n];
    WaitingIsProcessed(c, l.s, tx);
    MineSettles(c, l, step.script, step.shareAccepted, step.results);
    OneStep(c, steps, n);
    SettledStays(c, steps, n + 1);
    SettledIsRefused(c.rules, Run(c, steps).s.utxos, Run(c, steps).s.pool, tx);
  }

  lemma WaitingIsProcessed(c: Config, s: State, tx: Transaction)
    requires StateOk(c, s) && tx in s.pool.txs
    ensures TxId(c.rules.sha, tx) in s.pool.processed
  {
    hide TxId, AllValid, AllCompatible, Descending, AllFit;
    var i :| 0 <= i < |s.pool.txs| && s.pool.txs[i] == tx;
    assert TxId(c.rules.sha, s.pool.txs[i]) in Ids(c.rules.sha, s.pool.txs);
  }

  lemma BlockIdsAreKnown(c: Config, s: State, script: seq<byte>)
    requires StateOk(c, s)
    ensures OrdinaryIds(c.rules.sha, BlockOf(s, script)) <= s.pool.processed
  {
    hide TxId, AllValid, AllCompatible, Descending, AllFit, Selected, Size;
    var block := BlockOf(s, script);
    forall i | 0 <= i < |block| && !IsCoinbase(block[i]) ensures TxId(c.rules.sha, block[i]) in s.pool.processed {
      assert i > 0 && block[i] == s.pool.txs[i - 1];
      assert TxId(c.rules.sha, s.pool.txs[i - 1]) in Ids(c.rules.sha, s.pool.txs);
    }
  }

  /** After every run, a block empties the pool, and the record of identifiers is what it was: those of the block's
      transactions were on it already. */
  lemma MiningEmptiesPool(c: Config, steps: seq<Step>, n: nat)
    requires Rewards.RootLike(c.sqrt) && Lawful(c, steps) && n < |steps| && steps[n].Mine?
    ensures Run(c, steps[..n + 1]).s.pool == Pool([], Run(c, steps[..n]).s.pool.processed)
    ensures Run(c, steps[..n + 1]).s.height == Run(c, steps[..n]).s.height + 1
  {
    hide Rewards.RootLike, StateOk, Allowed, Next, TxId, Run, Lawful, HasDuplicates, BlockOf, ApplyTxs, OrdinaryIds, PayAll,
      ShareOffered, EndsEpoch;
    LawfulPrefix(c, steps, n);
    EveryRunIsOk(c, steps[..n]);
    var l, step := Run(c, steps[..n]), steps[n];
    NoDuplicatesIn(c, l.s, step.script);
    BlockIdsAreKnown(c, l.s, step.script);
    OneStep(c, steps, n);
  }

  lemma OneStep(c: Config, steps: seq<Step>, n: nat)
    requires n < |steps| && steps[n].Mine?
    ensures var step := steps[n];
      Run(c, steps[..n + 1]) == AfterMine(c, Run(c, steps[..n]), step.script, step.shareAccepted, step.results)
  {
    hide AfterMine;
    assert steps[..n + 1][..n] == steps[..n];
  }

  lemma {:induction false} LawfulPrefix(c: Config, steps: seq<Step>, n: nat)
    requires Lawful(c, steps) && n <= |steps|
    ensures Lawful(c, steps[..n])
    decreases |steps|
  {
    hide Run, Allowed;
    if n == |steps| {
      assert steps[..n] == steps;
    } else {
      assert steps[..|steps| - 1][..n] == steps[..n];
      LawfulPrefix(c, steps[..|steps| - 1], n);
    }
  }
}

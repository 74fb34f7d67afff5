/** Two short runs with marked transactions: one creates value beyond the supply bound, and one resubmits the node's
    own coinbase and creates nothing. */
module MarkedRuns {
  import opened Bytes
  import opened TxEncoding
  import opened Merkle
  import opened Validation
  import opened Mempool
  import opened Blocks
  import opened Ledger
  import opened LedgerSafety
  import opened LedgerExactness
  import opened OrdinaryRuns
  import opened MarkedTransactions
  import opened Resubmission
  import Rewards

  // ---------- a run that passes the bound ----------

  function Marked(value: u64): Transaction {
    Transaction(1, [TxIn(ZeroHash(), MARKER_INDEX, [], 0)], [TxOut(value, [])], 0)
  }

  function MarkedSteps(value: u64, script: seq<byte>): seq<Step> { [Submit(Marked(value)), Mine(script, false, [])] }

  lemma MarkedIsWaiting(c: Config, value: u64)
    requires c.rules.maxMempool >= 1 && DUST_LIMIT <= value <= MAX_SUPPLY
    ensures Admit(c.rules, GenesisState(c).utxos, Pool([], {}), Marked(value)).txs == [Marked(value)]
  {
    hide TxId, GenesisState;
    var tx, u := Marked(value), GenesisState(c).utxos;
    assert tx.outputs[..0] == [];
    assert SumOut(tx.outputs) == value;
    MarkedAdmittedIff(c.rules, u, Pool([], {}), tx);
    var k := FullShape(u, Pool([], {}), tx);
  }

  lemma MarkedIsChosen(value: u64, script: seq<byte>, s: State)
    requires s.pool.txs == [Marked(value)] && |script| <= 1000
    ensures Chosen(s, script) == [Marked(value)]
    ensures BlockOf(s, script) == [Coinbase(script, s.height + 1), Marked(value)]
  {
    var coinbase, tx := Coinbase(script, s.height + 1), Marked(value);
    OneInOneOut(coinbase);
    OneInOneOut(tx);
    assert s.pool.txs[1..] == [];
    assert Selected(Size(coinbase), s.pool.txs) == 1;
  }

  lemma OneInOneOut(tx: Transaction)
    requires |tx.inputs| == 1 && |tx.outputs| == 1
    ensures Size(tx) == 88 + |tx.inputs[0].scriptSig| + |tx.outputs[0].scriptPubkey|
  {
    assert InsSize(tx.inputs[1..]) == 0 && OutsSize(tx.outputs[1..]) == 0;
  }

  ghost function MarkedHashed(c: Config, value: u64, script: seq<byte>): set<seq<byte>> {
    Hashed(c.rules.sha, {GenesisTx(), Coinbase(script, 1), Marked(value)}, {})
  }

  lemma MarkedIdsDiffer(c: Config, value: u64, script: seq<byte>)
    requires CollisionFree(c.rules.sha, MarkedHashed(c, value, script)) && |script| <= 1000
    ensures IdsNew(c.rules.sha, GenesisState(c).utxos, [Coinbase(script, 1), Marked(value)])
  {
    hide CollisionFree, Hashed, GenesisTx, Coinbase, Marked, Fits, Separate, IdsNew, GenesisState;
    ThreeTransactions(value, script);
    SeparateFromCollisionFree(c.rules.sha, {GenesisTx(), Coinbase(script, 1), Marked(value)}, {});
    ThreeIds(c, GenesisTx(), Coinbase(script, 1), Marked(value));
  }

  lemma ThreeTransactions(value: u64, script: seq<byte>)
    requires |script| <= 1000
    ensures GenesisTx() != Coinbase(script, 1) && Coinbase(script, 1) != Marked(value) && Marked(value) != GenesisTx()
    ensures forall t :: t in {GenesisTx(), Coinbase(script, 1), Marked(value)} ==> Fits(t, 4)
  {
    Pow256Values();
    assert GenesisTx().inputs[0].scriptSig != Coinbase(script, 1).inputs[0].scriptSig;
    assert GenesisTx().inputs[0].sequence != 0 && Coinbase(script, 1).inputs[0].sequence != 0;
    assert Marked(value).inputs[0].sequence == 0;
    assert Fits(Coinbase(script, 1), 4) && Fits(Marked(value), 4) && Fits(GenesisTx(), 4);
  }

  lemma ThreeIds(c: Config, g: Transaction, a: Transaction, b: Transaction)
    requires g == GenesisTx() && g != a && a != b && b != g && Separate(c.rules.sha, {g, a, b}, {})
    ensures IdsNew(c.rules.sha, GenesisState(c).utxos, [a, b])
  {
    hide TxId, GenesisTx;
    assert forall p :: p in GenesisState(c).utxos ==> p.txid == TxId(c.rules.sha, g);
  }

  lemma MarkedShares(c: Config, value: u64, u: Utxos)
    ensures Shaped([Marked(value)]) == value && Fees(u, [Marked(value)]) == 0
  {
    var tx := Marked(value);
    assert tx.outputs[..0] == [];
    assert SumOut(tx.outputs) == value;
    assert [tx][1..] == [];
    assert IsCoinbase(tx);
  }

  lemma MarkedBlock(c: Config, l: Ledger, value: u64, script: seq<byte>)
    requires StateOk(c, l.s) && l.s.pool.txs == [Marked(value)] && |script| <= 1000
    requires l.s.height == 0 && l.s.utxos == GenesisState(c).utxos
    requires CollisionFree(c.rules.sha, MarkedHashed(c, value, script))
    ensures Supply(AfterBlock(c, l, script, false).s) == Supply(l.s) + 500_000 + value
  {
    hide StateOk, GenesisState, CollisionFree, MarkedHashed, Coinbase, Marked, IdsNew, KeepsValues, Overwritten, Supply, Chosen,
      BlockOf, Shaped, Fees;
    MarkedIsChosen(value, script, l.s);
    MarkedIdsDiffer(c, value, script);
    NewIdsOverwriteNothing(c.rules.sha, l.s.utxos, BlockOf(l.s, script));
    MarkedShares(c, value, l.s.utxos);
    StoredHeight(c, l.s, script, false);
    hide BlockStored;
    BlockMoves(c, l, script, false);
  }

  /** Two steps from genesis, a marked submission and a block, pass the supply bound by any value chosen. */
  lemma MarkedRunPassesTheBound(c: Config, value: u64, script: seq<byte>)
    requires c.rules.maxMempool >= 1 && DUST_LIMIT <= value <= MAX_SUPPLY && |script| <= 1000
    requires CollisionFree(c.rules.sha, MarkedHashed(c, value, script))
    ensures Lawful(c, MarkedSteps(value, script))
    ensures Run(c, MarkedSteps(value, script)).s.height == 1
    ensures Supply(Run(c, MarkedSteps(value, script)).s) == 500_000_000 + 500_000 + value
  {
    hide TxId, StateOk, Admit, HasDuplicates, BlockStored, Chosen, BlockOf, AfterBlock, Next, Run, Lawful, Allowed, CollisionFree,
      MarkedHashed, Supply, Genesis, GenesisState;
    var l0 := Genesis(c);
    var l1 := Next(c, l0, Submit(Marked(value)));
    MarkedSubmitted(c, value);
    MarkedBlock(c, l1, value, script);
    MarkedRun(c, value, script);
  }

  lemma MarkedSubmitted(c: Config, value: u64)
    requires c.rules.maxMempool >= 1 && DUST_LIMIT <= value <= MAX_SUPPLY
    ensures Allowed(c, Genesis(c), Submit(Marked(value)))
    ensures var l := Next(c, Genesis(c), Submit(Marked(value)));
      && StateOk(c, l.s) && l.s.pool.txs == [Marked(value)] && l.s.height == 0 && l.s.utxos == GenesisState(c).utxos
      && Supply(l.s) == 500_000_000
  {
    hide TxId, StateOk, Admit;
    Pow256Values();
    GenesisOk(c);
    MarkedIsWaiting(c, value);
    SubmitKeeps(c, GenesisState(c), Marked(value));
  }

  lemma MarkedRun(c: Config, value: u64, script: seq<byte>)
    requires |script| <= 1000
    requires var l := Next(c, Genesis(c), Submit(Marked(value)));
      StateOk(c, l.s) && Allowed(c, Genesis(c), Submit(Marked(value))) && l.s.height == 0
    ensures Lawful(c, MarkedSteps(value, script))
    ensures Run(c, MarkedSteps(value, script)) == AfterBlock(c, Next(c, Genesis(c), Submit(Marked(value))), script, false)
    ensures Run(c, MarkedSteps(value, script)).s.height == 1
  {
    hide StateOk, Admit, HasDuplicates, BlockStored, BlockOf, Chosen, EpochEnded, Shaped, Fees, Overwritten, Genesis, Fits,
      Members, Rewards.ResultsFor, EpochInput;
    var steps, l := MarkedSteps(value, script), Next(c, Genesis(c), Submit(Marked(value)));
    assert steps[..1] == [Submit(Marked(value))] && steps[..1][..0] == [];
    NoDuplicatesIn(c, l.s, script);
    StoredHeight(c, l.s, script, false);
    assert Run(c, []) == Genesis(c) && Lawful(c, []);
    assert Run(c, steps[..1]) == l && Lawful(c, steps[..1]);
  }

  // ---------- a run that creates nothing ----------

  /** A block, its own coinbase submitted again, and another block. */
  function CopySteps(script: seq<byte>): seq<Step> {
    [Mine(script, false, []), Submit(Coinbase(script, 1)), Mine(script, false, [])]
  }

  ghost function First(c: Config, script: seq<byte>): Ledger { AfterBlock(c, Genesis(c), script, false) }

  lemma FirstBlock(c: Config, script: seq<byte>)
    requires |script| <= 1000
    ensures Next(c, Genesis(c), Mine(script, false, [])) == First(c, script)
    ensures var l := First(c, script);
      && l.s.pool == Pool([], {}) && l.s.height == 1
      && OutPoint(TxId(c.rules.sha, Coinbase(script, 1)), 0) in l.s.utxos
      && l.applied == {GenesisTx(), Coinbase(script, 1)} && l.rewarded == {}
  {
    hide TxId, HasDuplicates, GenesisTx, Fees, Shaped, Overwritten, Size;
    var s, coinbase := GenesisState(c), Coinbase(script, 1);
    GenesisOk(c);
    hide StateOk;
    NoDuplicatesIn(c, s, script);
    var block := BlockOf(s, script);
    assert block == [coinbase];
    assert OrdinaryIds(c.rules.sha, block) == {};
    OneApplied(c.rules.sha, s.utxos, coinbase);
    CreatedPoints(TxId(c.rules.sha, coinbase), coinbase.outputs);
    assert SpentPoints(coinbase.inputs) == {};
  }

  lemma CopyIsWaiting(c: Config, script: seq<byte>, s: State)
    requires c.rules.maxMempool >= 1 && s.pool == Pool([], {})
    ensures Admit(c.rules, s.utxos, s.pool, Coinbase(script, 1)).txs == [Coinbase(script, 1)]
  {
    hide TxId;
    var tx := Coinbase(script, 1);
    assert tx.outputs[..0] == [];
    assert SumOut(tx.outputs) == BLOCK_REWARD;
    MarkedAdmittedIff(c.rules, s.utxos, s.pool, tx);
    var k := FullShape(s.utxos, s.pool, tx);
  }

  lemma CopyIsChosen(script: seq<byte>, s: State)
    requires s.pool.txs == [Coinbase(script, 1)] && |script| <= 1000
    ensures Chosen(s, script) == [Coinbase(script, 1)]
    ensures BlockOf(s, script) == [Coinbase(script, s.height + 1), Coinbase(script, 1)]
  {
    var coinbase, tx := Coinbase(script, s.height + 1), Coinbase(script, 1);
    OneInOneOut(coinbase);
    OneInOneOut(tx);
    assert s.pool.txs[1..] == [];
    assert Selected(Size(coinbase), s.pool.txs) == 1;
  }

  lemma CopyOnlyRewrites(sha: Sha, u: Utxos, script: seq<byte>)
    requires OutPoint(TxId(sha, Coinbase(script, 1)), 0) in u
    ensures MarkedRewrite(sha, ApplyTxs(sha, u, [Coinbase(script, 2)]), [Coinbase(script, 1)])
  {
    hide TxId;
    var copy, other := Coinbase(script, 1), Coinbase(script, 2);
    OneApplied(sha, u, other);
    assert SpentPoints(other.inputs) == {};
    CreatedPoints(TxId(sha, copy), copy.outputs);
    assert [copy][..0] == [];
    assert ApplyTxs(sha, ApplyTxs(sha, u, [other]), [copy][..0]) == ApplyTxs(sha, u, [other]);
  }

  ghost predicate CopyCollisionFree(c: Config, script: seq<byte>) {
    CollisionFree(c.rules.sha, Hashed(c.rules.sha, {GenesisTx(), Coinbase(script, 1), Coinbase(script, 2)}, {}))
  }

  lemma FewerHashed(sha: Sha, a: set<Transaction>, all: set<Transaction>)
    requires CollisionFree(sha, Hashed(sha, all, {})) && a <= all
    ensures CollisionFree(sha, Hashed(sha, a, {}))
  {
    assert Hashed(sha, a, {}) <= Hashed(sha, all, {});
  }

  ghost function Second(c: Config, script: seq<byte>): Ledger { Next(c, First(c, script), Submit(Coinbase(script, 1))) }

  lemma FirstTwoSteps(c: Config, script: seq<byte>)
    requires |script| <= 1000
    ensures CopySteps(script)[..1] == [Mine(script, false, [])]
    ensures Run(c, CopySteps(script)[..1]) == First(c, script) && Lawful(c, CopySteps(script)[..1])
    ensures Run(c, CopySteps(script)[..2]) == Second(c, script) && Lawful(c, CopySteps(script)[..2])
  {
    hide Next, First, Coinbase, Fits, AfterBlock, Genesis, TxId;
    var steps := CopySteps(script);
    FirstBlock(c, script);
    CoinbaseFits(script, 1);
    assert steps[..1] == [steps[0]] && steps[..1][..0] == [] && steps[..2][..1] == steps[..1];
    assert Run(c, []) == Genesis(c) && Lawful(c, []);
    GenesisHeight(c);
    assert Run(c, steps[..1]) == First(c, script);
    assert Lawful(c, steps[..1]);
  }

  lemma FirstSupply(c: Config, script: seq<byte>)
    requires Rewards.RootLike(c.sqrt) && |script| <= 1000 && CopyCollisionFree(c, script)
    ensures Supply(First(c, script).s) == 500_500_000
  {
    hide Rewards.RootLike, Lawful, Run, Supply, Coinbase, GenesisTx, Hashed, CollisionFree, TxId;
    FirstTwoSteps(c, script);
    FirstBlock(c, script);
    FewerHashed(c.rules.sha, {GenesisTx(), Coinbase(script, 1)}, {GenesisTx(), Coinbase(script, 1), Coinbase(script, 2)});
    var steps := CopySteps(script)[..1];
    assert AllOrdinary(steps);
    SupplyExact(c, steps);
    FirstTally(c, script);
  }

  lemma FirstTally(c: Config, script: seq<byte>)
    ensures First(c, script).fees == 0 && First(c, script).paid == 0
  {
    hide BlockStored, Shaped, Overwritten, Coinbase;
  }

  /** The state after the copy was submitted is ready for a block that takes it and only rewrites. */
  lemma CopyReady(c: Config, script: seq<byte>)
    requires Rewards.RootLike(c.sqrt) && |script| <= 1000 && CopyCollisionFree(c, script) && c.rules.maxMempool >= 1
    ensures var l := Second(c, script);
      && StateOk(c, l.s) && Past(c, l, l.s.height) && NextIsSeparate(c, l, script)
      && l.s.height == 1 && l.s.utxos == First(c, script).s.utxos
      && Chosen(l.s, script) == [Coinbase(script, 1)]
      && OutPoint(TxId(c.rules.sha, Coinbase(script, 2)), 0) !in l.s.utxos
  {
    hide Rewards.RootLike, Lawful, Run, Supply, StateOk, Past, Coinbase, GenesisTx, Hashed, CollisionFree, TxId, First, Admit,
      NextIsSeparate, Chosen, BlockOf;
    var l := Second(c, script);
    FirstTwoSteps(c, script);
    FirstBlock(c, script);
    CopyIsWaiting(c, script, First(c, script).s);
    CopyIsChosen(script, l.s);
    var all := {GenesisTx(), Coinbase(script, 1), Coinbase(script, 2)};
    assert Members([Coinbase(script, 2), Coinbase(script, 1)]) == {Coinbase(script, 1), Coinbase(script, 2)};
    assert l.applied + Members(BlockOf(l.s, script)) == all;
    assert NextCollisionFree(c, CopySteps(script)[..2], script);
    RunIsReady(c, CopySteps(script)[..2], script);
    SecondCoinbaseIsNew(c, script, l, all);
  }

  lemma SecondCoinbaseIsNew(c: Config, script: seq<byte>, l: Ledger, all: set<Transaction>)
    requires Past(c, l, l.s.height) && l.applied == {GenesisTx(), Coinbase(script, 1)}
    requires NextIsSeparate(c, l, script)
    requires all == l.applied + Members(BlockOf(l.s, script)) && Coinbase(script, 2) in all
    ensures OutPoint(TxId(c.rules.sha, Coinbase(script, 2)), 0) !in l.s.utxos
  {
    hide TxId, Separate, Sourced, Settled, RewardUpTo, BlockOf, FromTx, FromReward, Coinbase, GenesisTx, LE;
    CoinbasesDiffer(script);
    var p := OutPoint(TxId(c.rules.sha, Coinbase(script, 2)), 0);
    if p in l.s.utxos {
      SourceOf(c, l, p);
      OtherId(c.rules.sha, l.applied, l.rewarded, all, Coinbase(script, 2), p, l.s.utxos[p]);
    }
  }

  lemma SourceOf(c: Config, l: Ledger, p: OutPoint)
    requires Past(c, l, l.s.height) && p in l.s.utxos
    ensures FromTx(c.rules.sha, l.applied, p, l.s.utxos[p]) || FromReward(c.rules.sha, l.rewarded, p.txid)
  {
    hide TxId, Settled, RewardUpTo, FromTx, FromReward;
  }

  lemma CoinbasesDiffer(script: seq<byte>)
    ensures Coinbase(script, 2) != GenesisTx() && Coinbase(script, 2) != Coinbase(script, 1)
  {
    Pow256Values();
    if LE(1, 8) == LE(2, 8) { LEInjective(1, 2, 8); }
    assert GenesisTx().inputs[0].scriptSig == [] && Coinbase(script, 1).inputs[0].scriptSig == LE(1, 8);
    assert Coinbase(script, 2).inputs[0].scriptSig == LE(2, 8);
  }

  /** The node's own coinbase, submitted again by anyone while its output is unspent, is admitted and mined, and the
      total moves as if it had not been: by two rewards for two blocks. */
  lemma CopyCreatesNothing(c: Config, script: seq<byte>)
    requires Rewards.RootLike(c.sqrt) && |script| <= 1000 && CopyCollisionFree(c, script) && c.rules.maxMempool >= 1
    ensures Lawful(c, CopySteps(script)) && Run(c, CopySteps(script)).s.height == 2
    ensures Chosen(Run(c, CopySteps(script)[..2]).s, script) == [Coinbase(script, 1)]
    ensures Supply(Run(c, CopySteps(script)).s) == 500_000_000 + 2 * 500_000
  {
    hide Rewards.RootLike, StateOk, Past, Coinbase, CopyCollisionFree, First, NextIsSeparate, Chosen, BlockOf, Lawful, Run, Supply,
      Second, BlockStored, MarkedRewrite, ApplyTxs, TxId;
    var l := Second(c, script);
    FirstTwoSteps(c, script);
    FirstBlock(c, script);
    FirstSupply(c, script);
    CopyReady(c, script);
    CopyOnlyRewrites(c.rules.sha, l.s.utxos, script);
    BlockAddsRewardIff(c, l, script, false);
    CopyFees(c, l.s.utxos, script);
    ThirdStep(c, script);
    SameSupply(l.s, First(c, script).s);
  }

  lemma SameSupply(s: State, t: State)
    requires s.utxos == t.utxos
    ensures Supply(s) == Supply(t)
  {
  }

  lemma CopyFees(c: Config, u: Utxos, script: seq<byte>)
    ensures Fees(u, [Coinbase(script, 1)]) == 0
  {
    var tx := Coinbase(script, 1);
    assert [tx][1..] == [] && IsCoinbase(tx);
  }

  lemma ThirdStep(c: Config, script: seq<byte>)
    requires |script| <= 1000 && StateOk(c, Second(c, script).s) && Second(c, script).s.height == 1
    requires Run(c, CopySteps(script)[..2]) == Second(c, script) && Lawful(c, CopySteps(script)[..2])
    ensures Lawful(c, CopySteps(script))
    ensures Run(c, CopySteps(script)).s == BlockStored(c, Second(c, script).s, script, false)
    ensures Run(c, CopySteps(script)).s.height == 2
  {
    hide StateOk, Second, BlockStored, HasDuplicates, BlockOf, Fees, Shaped, Overwritten, Coinbase, EpochEnded;
    NoDuplicatesIn(c, Second(c, script).s, script);
    StoredHeight(c, Second(c, script).s, script, false);
  }
}

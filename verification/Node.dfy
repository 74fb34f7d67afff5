/** The node: fields that the operations update in place, each operation proved against its step. */
module NodeState {
  import opened Bytes
  import opened TxEncoding
  import opened Merkle
  import opened Validation
  import opened Mempool
  import opened Blocks
  import opened Payouts
  import opened Ledger
  import opened Protocol
  import Loyalty
  import Rewards

  class Node {
    const config: Config
    var utxos: Utxos
    var mempool: seq<Transaction>
    var processedTxids: set<Hash32>
    var height: nat
    var epoch: nat
    var miners: map<MinerId, Rewards.Miner>
    var bonds: map<MinerId, Rewards.Bond>
    var loyalty: map<MinerId, Loyalty.Score>

    function Current(): State
      reads this
    {
      State(utxos, Pool(mempool, processedTxids), height, epoch, miners, bonds, loyalty)
    }

    constructor (config: Config)
      ensures this.config == config && Current() == GenesisState(config)
    {
      this.config := config;
      var coinbase := GenesisTx();
      utxos := map[OutPoint(TxId(config.rules.sha, coinbase), 0) := coinbase.outputs[0]];
      mempool, processedTxids, height, epoch, miners, bonds, loyalty := [], {}, 0, 1, map[], map[], map[];
    }

    /** The highest fees come first; transactions of one fee stay in the order they came in. */
    method SortMempoolByFee()
      modifies this`mempool
      ensures StableSortOf(FeeBy(utxos), mempool, old(mempool))
    {
      SortIsStable(FeeBy(utxos), mempool);
      mempool := SortDesc(FeeBy(utxos), mempool);
    }

    /** The outputs that the waiting transactions spend. */
    method UsedInputs() returns (used: set<OutPoint>)
      ensures used == UsedPoints(mempool)
    {
      used := {};
      for i := 0 to |mempool|
        invariant used == UsedPoints(mempool[..i])
      {
        ghost var before := used;
        for k := 0 to |mempool[i].inputs|
          invariant used == before + SpentPoints(mempool[i].inputs[..k])
        {
          var input := mempool[i].inputs[k];
          SpentStep(mempool[i].inputs, k);
          if !IsMarker(input) { used := used + {PointOf(input)}; }
        }
        assert mempool[i].inputs[..|mempool[i].inputs|] == mempool[i].inputs;
        assert mempool[..i + 1][..i] == mempool[..i];
      }
      assert mempool[..|mempool|] == mempool;
    }

    method AddTransactionToMempool(tx: Transaction) returns (error: Option<AdmitError>)
      modifies this`mempool, this`processedTxids
      ensures error == AdmitErrorOf(config.rules, utxos, old(Current().pool), tx)
      ensures Current() == old(Current()).(pool := Admit(config.rules, utxos, old(Current().pool), tx))
    {
      ghost var p := Pool(mempool, processedTxids);
      hide Validate, FeeBy, SortDesc, StableSortOf, SpentPoints, UsedPoints, TxId, Cut, Ids;
      var v := ValidateTx(config.rules.verify, utxos, tx);
      if v.Invalid? { return Some(NotValid(v.error)); }
      var txid := TxId(config.rules.sha, tx);
      if txid in processedTxids { return Some(AlreadyProcessed); }
      for i := 0 to |mempool|
        invariant forall k :: 0 <= k < i ==> TxId(config.rules.sha, mempool[k]) != txid
      {
        if TxId(config.rules.sha, mempool[i]) == txid { return Some(AlreadyInMempool); }
      }
      var used := UsedInputs();
      NothingSpentYet(tx.inputs);
      for i := 0 to |tx.inputs|
        invariant SpentPoints(tx.inputs[..i]) * used == {}
        invariant Pool(mempool, processedTxids) == p
      {
        SpentStep(tx.inputs, i);
        if !IsMarker(tx.inputs[i]) && PointOf(tx.inputs[i]) in used {
          SpentHas(tx.inputs, i);
          assert PointOf(tx.inputs[i]) in SpentPoints(tx.inputs) * used;
          return Some(InputUsed);
        }
      }
      assert tx.inputs[..|tx.inputs|] == tx.inputs;
      mempool := mempool + [tx];
      processedTxids := processedTxids + {txid};
      SortMempoolByFee();
      StableSortIsSort(FeeBy(utxos), mempool, p.txs + [tx]);
      assert mempool == Full(utxos, p, tx) && processedTxids == p.processed + {txid};
      EvictLowest();
      assert Pool(mempool, processedTxids) == Admitted(config.rules, utxos, p, tx);
      return None;
    }

    /** Transactions are taken off the end, and off the record, until the limit holds. */
    method EvictLowest()
      modifies this`mempool, this`processedTxids
      ensures mempool == Cut(old(mempool), config.rules.maxMempool)
      ensures processedTxids == old(processedTxids) - Ids(config.rules.sha, old(mempool)[|mempool|..])
    {
      hide TxId;
      ghost var full, ids := mempool, processedTxids;
      while |mempool| > config.rules.maxMempool
        invariant |mempool| <= |full| && mempool == full[..|mempool|]
        invariant |full| <= config.rules.maxMempool ==> mempool == full
        invariant |full| > config.rules.maxMempool ==> |mempool| >= config.rules.maxMempool
        invariant processedTxids == ids - Ids(config.rules.sha, full[|mempool|..])
      {
        var removed := mempool[|mempool| - 1];
        IdsTail(config.rules.sha, full, |mempool| - 1);
        mempool := mempool[..|mempool| - 1];
        processedTxids := processedTxids - {TxId(config.rules.sha, removed)};
      }
    }

    method AddBond(id: MinerId, amount: nat)
      modifies this`bonds, this`miners
      ensures Current() == BondPut(old(Current()), id, amount)
    {
      if amount < MINIMUM_BOND { return; }
      bonds := bonds[id := Rewards.Bond(amount, height, height + BOND_LOCKUP)];
      if id in miners { miners := miners[id := miners[id].(bond := amount)]; }
    }

    /** `accepted` is the outcome of the checks on the share itself and of the share pool. */
    method AddShare(id: MinerId, accepted: bool) returns (stored: bool)
      modifies this`miners, this`loyalty
      ensures Current() == ShareOffered(old(Current()), id, accepted)
      ensures stored <==> accepted && id in bonds && Rewards.IsActive(bonds[id], height)
    {
      hide Loyalty.Update, Rewards.IsActive;
      if id !in bonds || !Rewards.IsActive(bonds[id], height) || !accepted { return false; }
      var m := if id in miners then miners[id] else Rewards.Miner(0, bonds[id].amount);
      miners := miners[id := m.(shares := m.shares + 1)];
      loyalty := loyalty[id := Loyalty.Update(ScoreOf(loyalty, id), epoch, true)];
      return true;
    }

    method UpdateUtxoSet(block: seq<Transaction>)
      modifies this`utxos
      ensures utxos == ApplyTxs(config.rules.sha, old(utxos), block)
    {
      hide TxId, ApplyTx;
      for i := 0 to |block|
        invariant ApplyTxs(config.rules.sha, utxos, block[i..]) == ApplyTxs(config.rules.sha, old(utxos), block)
      {
        utxos := WriteTx(utxos, TxId(config.rules.sha, block[i]), block[i]);
        assert block[i..][1..] == block[i + 1..];
      }
    }

    /** Rewards are paid in the order of the results. */
    method PayRewards(script: seq<byte>, results: seq<MinerResult>)
      modifies this`utxos
      ensures utxos == PayAll(config.rules.sha, PurseOf(config, script), height, epoch, old(utxos), results)
    {
      var purse := PurseOf(config, script);
      hide RewardBytes;
      for i := 0 to |results|
        invariant utxos == PayAll(config.rules.sha, purse, height, epoch, old(utxos), results[..i])
      {
        assert results[..i + 1][..i] == results[..i];
        var r := results[i];
        if IsPaid(purse, r) {
          utxos := utxos[RewardPoint(config.rules.sha, height, epoch, r.minerId) := PaidOut(purse, r)];
        }
      }
      assert results[..|results|] == results;
    }

    method UpdateLoyalty(completed: nat, results: seq<MinerResult>)
      modifies this`loyalty
      ensures loyalty == LoyaltyAfter(old(loyalty), miners.Keys, completed, results)
    {
      hide LoyaltyAfter, Loyalty.Update, TookPart;
      var rest := miners.Keys;
      NobodyUpdated(loyalty, miners.Keys - rest, completed, results);
      while rest != {}
        invariant rest <= miners.Keys
        invariant loyalty == LoyaltyAfter(old(loyalty), miners.Keys - rest, completed, results)
        decreases |rest|
      {
        var id :| id in rest;
        OneMoreUpdated(old(loyalty), miners.Keys - rest, id, completed, results);
        if id !in loyalty { loyalty := loyalty[id := Loyalty.NEW_SCORE]; }
        loyalty := loyalty[id := Loyalty.Update(loyalty[id], completed, TookPart(results, id))];
        assert miners.Keys - rest + {id} == miners.Keys - (rest - {id});
        rest := rest - {id};
      }
      assert miners.Keys - rest == miners.Keys;
    }

    method ResetShares()
      modifies this`miners
      ensures miners == WithoutShares(old(miners))
    {
      var rest := miners.Keys;
      while rest != {}
        invariant rest <= miners.Keys == old(miners).Keys
        invariant forall id :: id in miners ==>
          miners[id] == if id in rest then old(miners)[id] else old(miners)[id].(shares := 0)
        decreases |rest|
      {
        var id :| id in rest;
        miners := miners[id := miners[id].(shares := 0)];
        rest := rest - {id};
      }
    }

    method ProcessEpochEnd(script: seq<byte>) returns (results: seq<MinerResult>)
      modifies this
      ensures Rewards.ResultsFor(EpochInput(old(Current())), config.sqrt, results)
      ensures Current() == EpochEnded(config, old(Current()), script, results)
    {
      hide Rewards.ResultsFor, EpochInput, PayAll, LoyaltyAfter, WithoutShares;
      var completedEpoch := epoch;
      results := Rewards.CalculatePoci(EpochInput(Current()), config.sqrt);
      PayRewards(script, results);
      epoch := epoch + 1;
      UpdateLoyalty(completedEpoch, results);
      ResetShares();
    }

    /** Two ordinary transactions with the same identifier in a block stop it from being stored. */
    method FindDuplicates(block: seq<Transaction>) returns (found: bool)
      ensures found <==> HasDuplicates(config.rules.sha, block)
    {
      hide TxId;
      var blockTxids: set<Hash32> := {};
      for i := 0 to |block|
        invariant !HasDuplicates(config.rules.sha, block[..i])
        invariant blockTxids == OrdinaryIds(config.rules.sha, block[..i])
      {
        var txid := TxId(config.rules.sha, block[i]);
        if !IsCoinbase(block[i]) {
          if txid in blockTxids { return true; }
          blockTxids := blockTxids + {txid};
        }
        OneMoreOrdinary(config.rules.sha, block, i);
      }
      assert block[..|block|] == block;
      return false;
    }

    /** `script` is the wallet's script, if there is a wallet with an address; `found` says whether the search
        found a nonce; `shareAccepted` whether the best nonce makes a share that the pool takes. */
    method MineBlock(script: Option<seq<byte>>, found: bool, shareAccepted: bool) returns (mined: bool,
                     results: seq<MinerResult>)
      modifies this
      ensures mined <==> script.Some? && found && !HasDuplicates(config.rules.sha, BlockOf(old(Current()), script.value))
      ensures mined && EndsEpoch(height) ==>
        Rewards.ResultsFor(EpochInput(BlockStored(config, old(Current()), script.value, shareAccepted)), config.sqrt, results)
      ensures script.None? ==> Current() == old(Current())
      ensures script.Some? && !found ==> Current() == ShareOffered(old(Current()), config.self, shareAccepted)
      ensures script.Some? && found ==> Current() == Mined(config, old(Current()), script.value, shareAccepted, results)
    {
      hide ShareOffered, HasDuplicates, Mined, BlockOf, BlockStored, Rewards.ResultsFor, EpochInput, EndsEpoch;
      if script.None? { return false, []; }
      if !found {
        var _ := AddShare(config.self, shareAccepted);
        return false, [];
      }
      mined, results := StoreFound(script.value, shareAccepted);
    }

    /** A nonce was found: the block is checked for duplicates and stored, and the epoch may end with it. */
    method StoreFound(script: seq<byte>, shareAccepted: bool) returns (mined: bool, results: seq<MinerResult>)
      modifies this
      ensures mined <==> !HasDuplicates(config.rules.sha, BlockOf(old(Current()), script))
      ensures mined && EndsEpoch(height) ==>
        Rewards.ResultsFor(EpochInput(BlockStored(config, old(Current()), script, shareAccepted)), config.sqrt, results)
      ensures Current() == Mined(config, old(Current()), script, shareAccepted, results)
    {
      hide HasDuplicates, BlockStored, Rewards.ResultsFor, EpochInput, EpochEnded, EndsEpoch, Fees, Shaped, Overwritten, Paid,
        Members;
      results := [];
      var block := AssembleBlock(script, height + 1, mempool);
      var duplicates := FindDuplicates(block);
      if duplicates { return false, []; }
      StoreBlock(script, block, shareAccepted);
      if EndsEpoch(height) {
        results := ProcessEpochEnd(script);
      }
      mined := true;
    }

    /** The share of the block first, then the height, the outputs and the record; the pool is emptied. */
    method StoreBlock(script: seq<byte>, block: seq<Transaction>, shareAccepted: bool)
      requires block == BlockOf(Current(), script)
      modifies this
      ensures Current() == BlockStored(config, old(Current()), script, shareAccepted)
    {
      hide ShareOffered, ApplyTxs, OrdinaryIds, BlockOf;
      ghost var before := Current();
      var _ := AddShare(config.self, shareAccepted);
      SharePartOf(before, config.self, shareAccepted);
      height := height + 1;
      UpdateUtxoSet(block);
      RecordProcessed(block);
      mempool := [];
    }

    method RecordProcessed(block: seq<Transaction>)
      modifies this`processedTxids
      ensures processedTxids == old(processedTxids) + OrdinaryIds(config.rules.sha, block)
    {
      hide TxId;
      for i := 0 to |block|
        invariant processedTxids == old(processedTxids) + OrdinaryIds(config.rules.sha, block[..i])
      {
        if !IsCoinbase(block[i]) {
          processedTxids := processedTxids + {TxId(config.rules.sha, block[i])};
        }
        OneMoreOrdinary(config.rules.sha, block, i);
      }
      assert block[..|block|] == block;
    }
  }

  // ---------- one step of each loop ----------

  lemma OneMoreOrdinary(sha: Sha, block: seq<Transaction>, k: nat)
    requires k < |block|
    ensures OrdinaryIds(sha, block[..k + 1])
         == OrdinaryIds(sha, block[..k]) + if IsCoinbase(block[k]) then {} else {TxId(sha, block[k])}
  {
    hide TxId, IsCoinbase;
    var next := block[..k + 1];
    assert forall i :: 0 <= i < k ==> next[i] == block[..k][i];
    assert next[k] == block[k];
  }

  lemma NobodyUpdated(scores: map<MinerId, Loyalty.Score>, ids: set<MinerId>, completed: nat, results: seq<MinerResult>)
    requires ids == {}
    ensures LoyaltyAfter(scores, ids, completed, results) == scores
  {
    hide Loyalty.Update, TookPart;
  }

  lemma OneMoreUpdated(scores: map<MinerId, Loyalty.Score>, ids: set<MinerId>, id: MinerId, completed: nat,
                       results: seq<MinerResult>)
    requires id !in ids
    ensures ScoreOf(LoyaltyAfter(scores, ids, completed, results), id) == ScoreOf(scores, id)
    ensures LoyaltyAfter(scores, ids + {id}, completed, results)
         == LoyaltyAfter(scores, ids, completed, results)[
              id := Loyalty.Update(ScoreOf(scores, id), completed, TookPart(results, id))]
  {
    hide Loyalty.Update, TookPart;
  }

  lemma SharePartOf(s: State, id: MinerId, accepted: bool)
    ensures var next := ShareOffered(s, id, accepted);
      next == s.(miners := next.miners, scores := next.scores)
  {
  }

  lemma IdsTail(sha: Sha, txs: seq<Transaction>, n: nat)
    requires n < |txs|
    ensures Ids(sha, txs[n..]) == Ids(sha, txs[n + 1..]) + {TxId(sha, txs[n])}
  {
    hide TxId;
    var tail, rest := txs[n..], txs[n + 1..];
    assert tail[0] == txs[n];
    assert forall i :: 0 <= i < |rest| ==> rest[i] == tail[i + 1];
    assert forall i :: 1 <= i < |tail| ==> tail[i] == rest[i - 1];
  }
}

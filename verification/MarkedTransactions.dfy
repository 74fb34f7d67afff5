/** A submitted transaction that is marked as a coinbase is admitted without inputs and without a fee, and creates
    its outputs from nothing. Here is when it is admitted, what it does to the supply, and a run in which the
    supply passes its bound. */
module MarkedTransactions {
  import opened Bytes
  import opened TxEncoding
  import opened Merkle
  import opened Sums
  import opened Accounting
  import opened Validation
  import opened Mempool
  import opened Blocks
  import opened Ledger
  import opened LedgerSafety
  import opened LedgerExactness
  import opened OrdinaryRuns
  import opened Resubmission
  import Rewards

  /** A marked transaction is refused only for its outputs, or because its identifier was seen before. */
  lemma MarkedAdmittedIff(r: Rules, u: Utxos, p: Pool, tx: Transaction)
    requires IsCoinbase(tx)
    ensures AdmitErrorOf(r, u, p, tx) == None
       <==> && tx.outputs != [] && !HasDust(tx.outputs) && SumOut(tx.outputs) % WORD <= MAX_SUPPLY
            && TxId(r.sha, tx) !in p.processed && !HasId(r.sha, p.txs, TxId(r.sha, tx))
  {
    hide TxId, HasId, UsedPoints;
    ValidIff(r.verify, u, tx, 0);
    assert !SpendsTwice(tx.inputs);
    assert SpentPoints(tx.inputs) == {};
    assert Validate(r.verify, u, tx).Valid? ==> Validate(r.verify, u, tx).fee == 0;
  }

  // ---------- what a marked transaction creates and writes over ----------

  /** Every output of the transaction is unspent already. */
  ghost predicate OnlyRewrites(sha: Sha, u: Utxos, t: Transaction) {
    forall p :: p in CreatedOuts(TxId(sha, t), t.outputs) ==> p in u
  }

  lemma PositiveParts<K>(m: map<K, int>, kept: set<K>)
    requires kept <= m.Keys && forall k :: k in m ==> m[k] > 0
    ensures Sum(map k | k in kept :: m[k]) <= Sum(m)
    ensures Sum(map k | k in kept :: m[k]) == Sum(m) <==> kept == m.Keys
  {
    SumWithout(m, kept);
    SumNonNegative(m - kept);
    if m - kept == map[] {
      assert forall k :: k in m ==> k in m - kept || k in kept;
    } else {
      var k :| k in m - kept;
    }
  }

  /** What a transaction writes over is at most what it creates, and all of it exactly if it only rewrites. */
  lemma OverwrittenByTx(sha: Sha, u: Utxos, t: Transaction, all: set<Transaction>, rewarded: set<seq<byte>>)
    requires Sourced(sha, u, all, rewarded) && Separate(sha, all, rewarded) && t in all && !HasDust(t.outputs)
    ensures OverwrittenBy(Values(u), EffectOf(TxId(sha, t), t)) <= SumOut(t.outputs)
    ensures OverwrittenBy(Values(u), EffectOf(TxId(sha, t), t)) == SumOut(t.outputs) <==> OnlyRewrites(sha, u, t)
  {
    hide TxId, Sourced, Separate, CreatedOuts, SpentPoints, HasDust, Values;
    var outs := CreatedOuts(TxId(sha, t), t.outputs);
    var kept := set p | p in outs && p in u;
    CreatedValue(TxId(sha, t), t.outputs);
    CreatedPositive(sha, t);
    KeptAreCreated(sha, u, t, all, rewarded, kept);
    ValuesKeys(outs);
    PositiveParts(Values(outs), kept);
  }

  lemma ValuesKeys(u: Utxos)
    ensures Values(u).Keys == u.Keys
  {
  }

  lemma CreatedPositive(sha: Sha, t: Transaction)
    requires !HasDust(t.outputs)
    ensures var m := Values(CreatedOuts(TxId(sha, t), t.outputs)); forall p :: p in m ==> m[p] > 0
  {
    hide TxId, CreatedOuts, HasDust;
    forall p | p in CreatedOuts(TxId(sha, t), t.outputs)
      ensures CreatedOuts(TxId(sha, t), t.outputs)[p].value > 0
    {
      CreatedIsOutput(TxId(sha, t), t.outputs, p);
      NoDustAt(t.outputs, p.index);
    }
  }

  /** What is written over has the values that are written. */
  lemma KeptAreCreated(sha: Sha, u: Utxos, t: Transaction, all: set<Transaction>, rewarded: set<seq<byte>>, kept: set<OutPoint>)
    requires Sourced(sha, u, all, rewarded) && Separate(sha, all, rewarded) && t in all
    requires kept == set p | p in CreatedOuts(TxId(sha, t), t.outputs) && p in u
    ensures var m := Values(CreatedOuts(TxId(sha, t), t.outputs));
      kept <= m.Keys && OverwrittenBy(Values(u), EffectOf(TxId(sha, t), t)) == Sum(map p | p in kept :: m[p])
  {
    hide TxId, Sourced, Separate, CreatedOuts, SpentPoints, Sum;
    var m := Values(CreatedOuts(TxId(sha, t), t.outputs));
    forall p | p in kept ensures m[p] == u[p].value { RewriteKeepsValue(sha, u, t, all, rewarded, p); }
    assert (map p | p in m && p in Values(u) :: Values(u)[p]) == (map p | p in kept :: m[p]);
  }

  lemma NoDustAt(outs: seq<TxOut>, i: nat)
    requires !HasDust(outs) && i < |outs|
    ensures outs[i].value >= DUST_LIMIT
  {
  }

  /** Rewriting changes nothing at all. */
  lemma RewritingChangesNothing(sha: Sha, u: Utxos, t: Transaction, all: set<Transaction>, rewarded: set<seq<byte>>)
    requires Sourced(sha, u, all, rewarded) && Separate(sha, all, rewarded) && t in all
    requires IsCoinbase(t) && OnlyRewrites(sha, u, t)
    ensures ApplyTx(u, TxId(sha, t), t) == u
  {
    assert SpentPoints(t.inputs) == {};
    hide TxId, Sourced, Separate, CreatedOuts, SpentPoints;
    var outs := CreatedOuts(TxId(sha, t), t.outputs);
    forall p | p in outs ensures outs[p] == u[p] { RewriteKeepsValue(sha, u, t, all, rewarded, p); }
  }

  /** Ordinary transactions have identifiers that no unspent output and no transaction before them has. */
  ghost predicate OrdinaryNew(sha: Sha, u: Utxos, txs: seq<Transaction>) {
    && (forall i, p :: 0 <= i < |txs| && !IsCoinbase(txs[i]) && p in u ==> p.txid != TxId(sha, txs[i]))
    && (forall i, j :: 0 <= j < i < |txs| && !IsCoinbase(txs[i]) ==> TxId(sha, txs[j]) != TxId(sha, txs[i]))
  }

  /** Every marked transaction only rewrites outputs that are unspent when its turn comes. */
  ghost predicate MarkedRewrite(sha: Sha, u: Utxos, txs: seq<Transaction>) {
    forall i :: 0 <= i < |txs| && IsCoinbase(txs[i]) ==> OnlyRewrites(sha, ApplyTxs(sha, u, txs[..i]), txs[i])
  }

  lemma RewriteFront(sha: Sha, u: Utxos, txs: seq<Transaction>)
    requires txs != []
    ensures MarkedRewrite(sha, u, txs)
       <==> (IsCoinbase(txs[0]) ==> OnlyRewrites(sha, u, txs[0]))
            && MarkedRewrite(sha, ApplyTx(u, TxId(sha, txs[0]), txs[0]), txs[1..])
  {
    hide TxId, OnlyRewrites, ApplyTx, IsCoinbase;
    var next, rest := ApplyTx(u, TxId(sha, txs[0]), txs[0]), txs[1..];
    assert ApplyTxs(sha, u, txs[..0]) == u;
    forall i | 0 < i < |txs| ensures ApplyTxs(sha, u, txs[..i]) == ApplyTxs(sha, next, rest[..i - 1]) {
      assert txs[..i][1..] == rest[..i - 1];
    }
    assert forall i :: 0 < i < |txs| ==> txs[i] == rest[i - 1];
    assert forall i :: 0 <= i < |rest| ==> rest[i] == txs[i + 1] && ApplyTxs(sha, next, rest[..i]) == ApplyTxs(sha, u, txs[..i + 1]);
  }

  lemma NewAfterOne(sha: Sha, u: Utxos, txs: seq<Transaction>)
    requires txs != [] && OrdinaryNew(sha, u, txs)
    ensures OrdinaryNew(sha, ApplyTx(u, TxId(sha, txs[0]), txs[0]), txs[1..])
  {
    hide TxId, IsCoinbase, SpentPoints;
    var next, rest := ApplyTx(u, TxId(sha, txs[0]), txs[0]), txs[1..];
    CreatedPoints(TxId(sha, txs[0]), txs[0].outputs);
    assert forall i :: 0 <= i < |rest| ==> rest[i] == txs[i + 1];
    forall i, p | 0 <= i < |rest| && !IsCoinbase(rest[i]) && p in next ensures p.txid != TxId(sha, rest[i]) {
      assert p in u || p.txid == TxId(sha, txs[0]);
    }
  }

  lemma OrdinaryOverwritesNothing(sha: Sha, u: Utxos, t: Transaction)
    requires forall p :: p in u ==> p.txid != TxId(sha, t)
    ensures OverwrittenBy(Values(u), EffectOf(TxId(sha, t), t)) == 0
  {
    hide TxId, SpentPoints;
    CreatedPoints(TxId(sha, t), t.outputs);
    var m := Values(CreatedOuts(TxId(sha, t), t.outputs));
    assert (map p | p in m && p in Values(u) :: Values(u)[p]) == map[];
  }

  /** Transactions overwrite at most what the marked ones among them create, and all of that exactly if the marked
      ones only rewrite. */
  lemma {:induction false} OverwrittenIff(sha: Sha, u: Utxos, txs: seq<Transaction>, all: set<Transaction>,
                                          rewarded: set<seq<byte>>)
    requires Sourced(sha, u, all, rewarded) && Separate(sha, all, rewarded) && Members(txs) <= all
    requires OrdinaryNew(sha, u, txs) && forall i :: 0 <= i < |txs| && IsCoinbase(txs[i]) ==> !HasDust(txs[i].outputs)
    ensures Overwritten(sha, u, txs) <= Shaped(txs)
    ensures Overwritten(sha, u, txs) == Shaped(txs) <==> MarkedRewrite(sha, u, txs)
    decreases |txs|
  {
    hide TxId, IsCoinbase, Sourced, Separate, HasDust, OrdinaryNew, OnlyRewrites, ApplyTx, OverwrittenBy, EffectOf, MarkedRewrite;
    if txs == [] {
      NoneRewrite(sha, u);
    } else {
      var t, rest := txs[0], txs[1..];
      var next := ApplyTx(u, TxId(sha, t), t);
      assert t in all;
      assert forall i :: 0 <= i < |rest| ==> rest[i] == txs[i + 1];
      ApplyIsEffect(u, TxId(sha, t), t);
      TxSourced(sha, u, t, all, rewarded);
      NewAfterOne(sha, u, txs);
      OverwrittenIff(sha, next, rest, all, rewarded);
      RewriteFront(sha, u, txs);
      OverwrittenFront(sha, u, txs);
      if IsCoinbase(t) {
        OverwrittenByTx(sha, u, t, all, rewarded);
      } else {
        FirstIsNew(sha, u, txs);
        OrdinaryOverwritesNothing(sha, u, t);
      }
    }
  }

  lemma NoneRewrite(sha: Sha, u: Utxos)
    ensures MarkedRewrite(sha, u, [])
  {
  }

  lemma FirstIsNew(sha: Sha, u: Utxos, txs: seq<Transaction>)
    requires txs != [] && OrdinaryNew(sha, u, txs) && !IsCoinbase(txs[0])
    ensures forall p :: p in u ==> p.txid != TxId(sha, txs[0])
  {
    hide TxId, IsCoinbase;
  }

  lemma OverwrittenFront(sha: Sha, u: Utxos, txs: seq<Transaction>)
    requires txs != []
    ensures Overwritten(sha, u, txs)
         == OverwrittenBy(Values(u), EffectOf(TxId(sha, txs[0]), txs[0]))
            + Overwritten(sha, ApplyTx(u, TxId(sha, txs[0]), txs[0]), txs[1..])
  {
    hide TxId, EffectOf, ApplyTx, OverwrittenBy;
    ApplyIsEffect(u, TxId(sha, txs[0]), txs[0]);
    assert Effects(sha, txs)[1..] == Effects(sha, txs[1..]);
  }

  // ---------- what a block adds ----------

  ghost predicate NextIsSeparate(c: Config, l: Ledger, script: seq<byte>) {
    Separate(c.rules.sha, l.applied + Members(BlockOf(l.s, script)), l.rewarded)
  }

  lemma ChosenAreNew(c: Config, l: Ledger, script: seq<byte>)
    requires StateOk(c, l.s) && Past(c, l, l.s.height) && NextIsSeparate(c, l, script)
    ensures OrdinaryNew(c.rules.sha, l.s.utxos, BlockOf(l.s, script))
  {
    hide StateOk, Separate, IsCoinbase, TxId, BlockOf, FromTx, FromReward, Settled, RewardUpTo, Coinbase;
    var sha, u, block, all := c.rules.sha, l.s.utxos, BlockOf(l.s, script), l.applied + Members(BlockOf(l.s, script));
    forall i | 0 <= i < |block| && !IsCoinbase(block[i])
      ensures forall p :: p in u ==> p.txid != TxId(sha, block[i])
      ensures forall j :: 0 <= j < i ==> TxId(sha, block[j]) != TxId(sha, block[i])
    {
      BlockMembers(c, l.s, script, i);
      WaitingIsNew(c, l, block[i]);
      forall p | p in u ensures p.txid != TxId(sha, block[i]) {
        OtherId(sha, l.applied, l.rewarded, all, block[i], p, u[p]);
      }
      forall j | 0 <= j < i ensures TxId(sha, block[j]) != TxId(sha, block[i]) {
        DifferBefore(c, l, script, j, i);
      }
    }
  }

  lemma DifferBefore(c: Config, l: Ledger, script: seq<byte>, j: nat, i: nat)
    requires StateOk(c, l.s) && NextIsSeparate(c, l, script)
    requires j < i < |BlockOf(l.s, script)| && !IsCoinbase(BlockOf(l.s, script)[i])
    ensures TxId(c.rules.sha, BlockOf(l.s, script)[j]) != TxId(c.rules.sha, BlockOf(l.s, script)[i])
  {
    hide IsCoinbase, Coinbase, TxId, BlockOf, SpentPoints, AllValid, Descending, AllFit, ScoresOk, Ids, MarkerFree;
    BlockMembers(c, l.s, script, i);
    BlockMembers(c, l.s, script, j);
    if j > 0 {
      assert Compatible(c.rules.sha, l.s.pool.txs[j - 1], l.s.pool.txs[i - 1]);
    } else {
      var all := l.applied + Members(BlockOf(l.s, script));
      assert BlockOf(l.s, script)[i] in all && BlockOf(l.s, script)[j] in all;
    }
  }

  lemma MarkedHaveNoDust(c: Config, s: State, script: seq<byte>)
    requires StateOk(c, s)
    ensures forall i :: 0 <= i < |BlockOf(s, script)| ==> !HasDust(BlockOf(s, script)[i].outputs)
    ensures Shaped(BlockOf(s, script)) == BLOCK_REWARD + Shaped(Chosen(s, script))
  {
    hide AllCompatible, Descending, AllFit, ScoresOk, Ids, MarkerFree, FeeBy, Validate, HasDust, Selected, Size;
    var block := BlockOf(s, script);
    forall i | 0 <= i < |block| ensures !HasDust(block[i].outputs) {
      if i == 0 {
        NoDustInCoinbase(script, s.height + 1);
      } else {
        assert block[i] == s.pool.txs[i - 1];
        ValidIsSpendable(c.rules.verify, s.utxos, s.pool.txs[i - 1]);
      }
    }
    assert block[1..] == Chosen(s, script) && IsCoinbase(block[0]);
    assert Coinbase(script, s.height + 1).outputs[..0] == [];
    assert SumOut(Coinbase(script, s.height + 1).outputs) == BLOCK_REWARD;
  }

  lemma NoDustInCoinbase(script: seq<byte>, height: nat)
    ensures !HasDust(Coinbase(script, height).outputs)
  {
  }

  /** A block stored on any reachable state moves the total by the reward less the fees, plus what its marked
      transactions create, less what it overwrites; it never overwrites more than its marked transactions and its
      coinbase create. */
  lemma BlockMovesBy(c: Config, l: Ledger, script: seq<byte>, shareAccepted: bool)
    requires StateOk(c, l.s) && Past(c, l, l.s.height) && NextIsSeparate(c, l, script)
    ensures var lost := Overwritten(c.rules.sha, l.s.utxos, BlockOf(l.s, script));
      && Supply(BlockStored(c, l.s, script, shareAccepted))
           == Supply(l.s) + BLOCK_REWARD - Fees(l.s.utxos, Chosen(l.s, script)) + Shaped(Chosen(l.s, script)) - lost
      && lost <= BLOCK_REWARD + Shaped(Chosen(l.s, script))
  {
    hide StateOk, Separate, Past, Overwritten, Shaped, Fees, Supply, BlockOf, Chosen, OrdinaryNew, MarkedRewrite, HasDust,
      IsCoinbase, KeepsValues;
    ChosenAreNew(c, l, script);
    MarkedHaveNoDust(c, l.s, script);
    BlockIsExact(c, l, script, shareAccepted);
    StoredHeight(c, l.s, script, shareAccepted);
    hide BlockStored;
    PastIsSourced(c, l, l.applied + Members(BlockOf(l.s, script)));
    OverwrittenIff(c.rules.sha, l.s.utxos, BlockOf(l.s, script), l.applied + Members(BlockOf(l.s, script)), l.rewarded);
  }

  lemma PastIsSourced(c: Config, l: Ledger, all: set<Transaction>)
    requires Past(c, l, l.s.height) && l.applied <= all
    ensures Sourced(c.rules.sha, l.s.utxos, all, l.rewarded)
  {
    hide Sourced, Settled, RewardUpTo;
    SourcedByMore(c.rules.sha, l.s.utxos, l.applied, l.rewarded, all, l.rewarded);
  }

  /** When the coinbase of the block is not itself a copy of an unspent one: the block adds exactly its reward less
      the fees if, and only if, every marked transaction taken from the waiting pool only rewrites outputs that are
      unspent when its turn comes. */
  lemma BlockAddsRewardIff(c: Config, l: Ledger, script: seq<byte>, shareAccepted: bool)
    requires StateOk(c, l.s) && Past(c, l, l.s.height) && NextIsSeparate(c, l, script)
    requires OutPoint(TxId(c.rules.sha, Coinbase(script, l.s.height + 1)), 0) !in l.s.utxos
    ensures var u := ApplyTxs(c.rules.sha, l.s.utxos, [Coinbase(script, l.s.height + 1)]);
      Supply(BlockStored(c, l.s, script, shareAccepted))
        == Supply(l.s) + BLOCK_REWARD - Fees(l.s.utxos, Chosen(l.s, script))
      <==> MarkedRewrite(c.rules.sha, u, Chosen(l.s, script))
  {
    hide StateOk, Separate, Past, Overwritten, Shaped, Fees, Supply, OrdinaryNew, MarkedRewrite, HasDust, IsCoinbase, Coinbase,
      BlockStored, ApplyTx, TxId, Members, Selected, Size;
    var sha, block, chosen, coinbase := c.rules.sha, BlockOf(l.s, script), Chosen(l.s, script), Coinbase(script, l.s.height + 1);
    var all, u := l.applied + Members(block), ApplyTxs(sha, l.s.utxos, [coinbase]);
    BlockMovesBy(c, l, script, shareAccepted);
    ChosenAreNew(c, l, script);
    MarkedHaveNoDust(c, l.s, script);
    PastIsSourced(c, l, all);
    assert block[0] == coinbase && block[1..] == chosen;
    OneApplied(sha, l.s.utxos, coinbase);
    InBlock(block, all);
    OverwrittenFront(sha, l.s.utxos, block);
    CoinbaseOverwritesNothing(sha, l.s.utxos, script, l.s.height + 1);
    TxSourced(sha, l.s.utxos, coinbase, all, l.rewarded);
    NewAfterOne(sha, l.s.utxos, block);
    assert forall i :: 0 <= i < |chosen| ==> chosen[i] == block[i + 1];
    OverwrittenIff(sha, u, chosen, all, l.rewarded);
  }

  lemma OneApplied(sha: Sha, u: Utxos, t: Transaction)
    ensures ApplyTxs(sha, u, [t]) == ApplyTx(u, TxId(sha, t), t)
  {
    hide TxId, ApplyTx;
    assert [t][1..] == [];
  }

  lemma InBlock(block: seq<Transaction>, all: set<Transaction>)
    requires block != [] && Members(block) <= all
    ensures block[0] in all && Members(block[1..]) <= all
  {
    assert forall t :: t in block[1..] ==> t in block;
  }

  lemma CoinbaseOverwritesNothing(sha: Sha, u: Utxos, script: seq<byte>, height: nat)
    requires OutPoint(TxId(sha, Coinbase(script, height)), 0) !in u
    ensures OverwrittenBy(Values(u), EffectOf(TxId(sha, Coinbase(script, height)), Coinbase(script, height))) == 0
  {
    hide TxId, SpentPoints;
    var t := Coinbase(script, height);
    CreatedPoints(TxId(sha, t), t.outputs);
    var m := Values(CreatedOuts(TxId(sha, t), t.outputs));
    assert (map p | p in m && p in Values(u) :: Values(u)[p]) == map[];
  }

  /** The strings hashed in a run and in the block that would be mined next do not collide. */
  ghost predicate NextCollisionFree(c: Config, steps: seq<Step>, script: seq<byte>) {
    var l := Run(c, steps);
    CollisionFree(c.rules.sha, Hashed(c.rules.sha, l.applied + Members(BlockOf(l.s, script)), l.rewarded))
  }

  lemma RunIsReady(c: Config, steps: seq<Step>, script: seq<byte>)
    requires Rewards.RootLike(c.sqrt) && Lawful(c, steps) && |steps| < WORD && |script| < 0x1_0000_0000
    requires NextCollisionFree(c, steps, script)
    ensures var l := Run(c, steps); StateOk(c, l.s) && Past(c, l, l.s.height) && NextIsSeparate(c, l, script)
  {
    hide Rewards.RootLike, Lawful, Run, Past, Supply, Exact, Separate, StateOk, Hashed, Fits, BlockOf;
    var l := Run(c, steps);
    EveryRunIsOk(c, steps);
    WellFormedRun(c, steps);
    FitsOfBlock(c, l.s, script);
    SeparateFromCollisionFree(c.rules.sha, l.applied + Members(BlockOf(l.s, script)), l.rewarded);
    SeparatePart(c.rules.sha, l.applied, l.rewarded, l.applied + Members(BlockOf(l.s, script)), l.rewarded);
    ExactRun(c, steps);
  }

  /** On every run, whatever was submitted, the next block moves the total as stated, and adds just its reward less
      the fees exactly under the condition stated. */
  lemma NextBlockMoves(c: Config, steps: seq<Step>, script: seq<byte>, shareAccepted: bool)
    requires Rewards.RootLike(c.sqrt) && Lawful(c, steps) && |steps| < WORD && |script| < 0x1_0000_0000
    requires NextCollisionFree(c, steps, script)
    ensures var s := Run(c, steps).s;
      var coinbase, next := Coinbase(script, s.height + 1), BlockStored(c, s, script, shareAccepted);
      && Supply(next) == Supply(s) + 500_000 - Fees(s.utxos, Chosen(s, script)) + Shaped(Chosen(s, script))
                         - Overwritten(c.rules.sha, s.utxos, BlockOf(s, script))
      && (OutPoint(TxId(c.rules.sha, coinbase), 0) !in s.utxos ==>
            (Supply(next) == Supply(s) + 500_000 - Fees(s.utxos, Chosen(s, script)) <==>
             MarkedRewrite(c.rules.sha, ApplyTxs(c.rules.sha, s.utxos, [coinbase]), Chosen(s, script))))
  {
    hide Rewards.RootLike, Lawful, Run, Past, Supply, StateOk, NextIsSeparate, NextCollisionFree, BlockOf, Chosen, BlockStored,
      Fees, Shaped, Overwritten, Coinbase, TxId, MarkedRewrite, ApplyTxs;
    RunIsReady(c, steps, script);
    BlockMovesBy(c, Run(c, steps), script, shareAccepted);
    if OutPoint(TxId(c.rules.sha, Coinbase(script, Run(c, steps).s.height + 1)), 0) !in Run(c, steps).s.utxos {
      BlockAddsRewardIff(c, Run(c, steps), script, shareAccepted);
    }
  }
}

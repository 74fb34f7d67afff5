/** Whose outputs they are: how a block moves the balance of every script, and the reward output it leaves behind. */
module Balances {
  import opened Bytes
  import opened TxEncoding
  import opened Merkle
  import opened Sums
  import opened Accounting
  import opened Validation
  import opened Mempool
  import opened Blocks
  import opened Ledger
  import opened LedgerSafety
  import opened LedgerExactness
  import opened OrdinaryRuns
  import opened EpochPayments
  import opened BlockContents
  import LibraryTransactions
  import Rewards

  /** The values of a script's outputs, with nothing for the outputs of others. */
  function OwnedBy(u: Utxos, a: seq<byte>): map<OutPoint, int> {
    map p | p in u :: if u[p].scriptPubkey == a then u[p].value else 0
  }

  function OwnedValue(o: TxOut, a: seq<byte>): nat { if o.scriptPubkey == a then o.value else 0 }

  /** What a transaction's outputs give a script, and what its inputs take from it. */
  function OutTo(outs: seq<TxOut>, a: seq<byte>): nat {
    if outs == [] then 0 else OutTo(outs[..|outs| - 1], a) + OwnedValue(outs[|outs| - 1], a)
  }

  function InFrom(u: Utxos, ins: seq<TxIn>, a: seq<byte>): nat {
    if ins == [] then 0
    else
      var p := PointOf(ins[|ins| - 1]);
      InFrom(u, ins[..|ins| - 1], a) + if p in u then OwnedValue(u[p], a) else 0
  }

  function NetTo(u: Utxos, tx: Transaction, a: seq<byte>): int {
    OutTo(tx.outputs, a) - if IsCoinbase(tx) then 0 else InFrom(u, tx.inputs, a)
  }

  function TotalNetTo(u: Utxos, txs: seq<Transaction>, a: seq<byte>): int {
    if txs == [] then 0 else NetTo(u, txs[0], a) + TotalNetTo(u, txs[1..], a)
  }

  lemma OwnedIsBalance(u: Utxos, a: seq<byte>)
    ensures Sum(OwnedBy(u, a)) == LibraryTransactions.Balance(u, a)
  {
    var m := OwnedBy(u, a);
    var others := set p | p in u && u[p].scriptPubkey != a;
    SumWithout(m, others);
    AllZero(map p | p in others :: m[p]);
    assert m - others == LibraryTransactions.Matching(u, a);
  }

  // ---------- the effects of a block on one script ----------

  ghost function EffectFor(txid: Hash32, tx: Transaction, a: seq<byte>): Effect<OutPoint> {
    Effect(OwnedBy(CreatedOuts(txid, tx.outputs), a), SpentPoints(tx.inputs))
  }

  ghost function EffectsFor(sha: Sha, txs: seq<Transaction>, a: seq<byte>): (es: seq<Effect<OutPoint>>)
    ensures |es| == |txs|
  {
    if txs == [] then [] else [EffectFor(TxId(sha, txs[0]), txs[0], a)] + EffectsFor(sha, txs[1..], a)
  }

  lemma {:induction false} ApplyOwned(sha: Sha, u: Utxos, txs: seq<Transaction>, a: seq<byte>)
    ensures OwnedBy(ApplyTxs(sha, u, txs), a) == ApplyAll(OwnedBy(u, a), EffectsFor(sha, txs, a))
    decreases |txs|
  {
    if txs != [] {
      hide TxId, ApplyTx, EffectFor, OwnedBy;
      var next := ApplyTx(u, TxId(sha, txs[0]), txs[0]);
      OneApplyOwned(u, TxId(sha, txs[0]), txs[0], a);
      ApplyOwned(sha, next, txs[1..], a);
    }
  }

  lemma OneApplyOwned(u: Utxos, txid: Hash32, tx: Transaction, a: seq<byte>)
    ensures OwnedBy(ApplyTx(u, txid, tx), a) == Apply(OwnedBy(u, a), EffectFor(txid, tx, a))
  {
    hide CreatedOuts, SpentPoints;
  }

  lemma {:induction false} CreatedOwned(txid: Hash32, outs: seq<TxOut>, a: seq<byte>)
    ensures Sum(OwnedBy(CreatedOuts(txid, outs), a)) == OutTo(outs, a)
  {
    if outs == [] {
      assert OwnedBy(map[], a) == map[];
    } else {
      var n := |outs| - 1;
      var before, p := CreatedOuts(txid, outs[..n]), OutPoint(txid, n);
      CreatedOwned(txid, outs[..n], a);
      CreatedPoints(txid, outs[..n]);
      assert OwnedBy(before[p := outs[n]], a) == OwnedBy(before, a)[p := OwnedValue(outs[n], a)];
      SumUpdate(OwnedBy(before, a), p, OwnedValue(outs[n], a));
    }
  }

  lemma {:induction false} SpentIsInFrom(u: Utxos, ins: seq<TxIn>, a: seq<byte>)
    requires !SpendsTwice(ins)
    requires forall i :: 0 <= i < |ins| ==> PointOf(ins[i]) in u && !IsMarker(ins[i])
    ensures SpentPoints(ins) <= OwnedBy(u, a).Keys
    ensures SpentValue(OwnedBy(u, a), SpentPoints(ins)) == InFrom(u, ins, a)
  {
    var m := OwnedBy(u, a);
    if ins == [] {
      assert SpentPoints(ins) == {};
      NothingSpent(m, SpentPoints(ins));
    } else {
      var n := |ins| - 1;
      var s, p := SpentPoints(ins[..n]), PointOf(ins[n]);
      NotTwicePrefix(ins);
      SpentIsInFrom(u, ins[..n], a);
      assert SpentPoints(ins) == s + {p};
      OneMoreSpent(m, s, p);
    }
  }

  lemma SpentBySpendable(u: Utxos, tx: Transaction, a: seq<byte>)
    requires Spendable(u, tx)
    ensures SpentPoints(tx.inputs) <= OwnedBy(u, a).Keys
    ensures SpentValue(OwnedBy(u, a), SpentPoints(tx.inputs)) == OutTo(tx.outputs, a) - NetTo(u, tx, a)
  {
    if IsCoinbase(tx) {
      assert SpentPoints(tx.inputs) == {};
      NothingSpent(OwnedBy(u, a), SpentPoints(tx.inputs));
    } else {
      SpentIsInFrom(u, tx.inputs, a);
    }
  }

  /** The effects write and delete the same outpoints whoever's values they carry. */
  ghost predicate SameShape<K>(a: seq<Effect<K>>, b: seq<Effect<K>>) {
    |a| == |b| && forall i :: 0 <= i < |a| ==> a[i].spent == b[i].spent && a[i].created.Keys == b[i].created.Keys
  }

  lemma {:induction false} ShapeOf(sha: Sha, txs: seq<Transaction>, a: seq<byte>)
    ensures SameShape(Effects(sha, txs), EffectsFor(sha, txs, a))
  {
    hide TxId, CreatedOuts, SpentPoints;
    if txs != [] {
      ShapeOf(sha, txs[1..], a);
      var es, fs := Effects(sha, txs), EffectsFor(sha, txs, a);
      assert es[1..] == Effects(sha, txs[1..]) && fs[1..] == EffectsFor(sha, txs[1..], a);
      assert forall i :: 1 <= i < |es| ==> es[i] == es[1..][i - 1] && fs[i] == fs[1..][i - 1];
    }
  }

  lemma {:induction false} SameShapeSets<K>(es: seq<Effect<K>>, fs: seq<Effect<K>>)
    requires SameShape(es, fs)
    ensures AllSpent(es) == AllSpent(fs) && AllCreated(es) == AllCreated(fs)
  {
    if es != [] {
      TailShape(es, fs);
      SameShapeSets(es[1..], fs[1..]);
    }
  }

  lemma TailShape<K>(es: seq<Effect<K>>, fs: seq<Effect<K>>)
    requires SameShape(es, fs) && es != []
    ensures SameShape(es[1..], fs[1..])
  {
    assert forall i :: 0 <= i < |es| - 1 ==> es[1..][i] == es[i + 1] && fs[1..][i] == fs[i + 1];
  }

  lemma {:induction false} FreshByShape<K>(m: map<K, int>, n: map<K, int>, es: seq<Effect<K>>, fs: seq<Effect<K>>)
    requires SameShape(es, fs) && m.Keys == n.Keys && Fresh(m, es)
    ensures Fresh(n, fs)
  {
    if es != [] {
      TailShape(es, fs);
      SameShapeSets(es[1..], fs[1..]);
      FreshByShape(m, n, es[1..], fs[1..]);
    }
  }

  lemma {:induction false} ApartByShape<K>(m: map<K, int>, n: map<K, int>, es: seq<Effect<K>>, fs: seq<Effect<K>>)
    requires SameShape(es, fs) && m.Keys == n.Keys && SpendsApart(m, es)
    ensures SpendsApart(n, fs)
  {
    if es != [] {
      TailShape(es, fs);
      SameShapeSets(es[1..], fs[1..]);
      ApartByShape(m, n, es[1..], fs[1..]);
    }
  }

  lemma {:induction false} NetOfEffects(sha: Sha, u: Utxos, txs: seq<Transaction>, a: seq<byte>)
    requires AllSpendable(u, txs) && SpendsApart(OwnedBy(u, a), EffectsFor(sha, txs, a))
    ensures TotalCreated(EffectsFor(sha, txs, a)) - TotalSpent(OwnedBy(u, a), EffectsFor(sha, txs, a)) == TotalNetTo(u, txs, a)
    decreases |txs|
  {
    hide TxId, CreatedOuts, SpentPoints, Spendable, NetTo, OutTo, SpentValue, OwnedBy;
    if txs != [] {
      assert forall i :: 0 <= i < |txs| - 1 ==> txs[1..][i] == txs[i + 1];
      assert EffectsFor(sha, txs, a)[1..] == EffectsFor(sha, txs[1..], a);
      NetOfEffects(sha, u, txs[1..], a);
      SpentBySpendable(u, txs[0], a);
      CreatedOwned(TxId(sha, txs[0]), txs[0].outputs, a);
    }
  }

  /** Transactions that write only new outputs move the balance of every script by what their outputs give it less
      what their inputs take from it. */
  lemma BlockMovesBalances(sha: Sha, u: Utxos, txs: seq<Transaction>, a: seq<byte>)
    requires AllSpendable(u, txs) && SpendApart(txs) && IdsNew(sha, u, txs)
    ensures LibraryTransactions.Balance(ApplyTxs(sha, u, txs), a)
         == LibraryTransactions.Balance(u, a) + TotalNetTo(u, txs, a)
  {
    BlockEffects(sha, u, txs);
    NewIdsAreFresh(sha, u, txs);
    ShapeOf(sha, txs, a);
    SameKeys(u, a);
    hide AllSpendable, SpendApart, IdsNew, ApplyTxs, Effects, EffectsFor, SpendsApart, Fresh, SameShape, Values, OwnedBy, Sum,
      KeepsPrices, TotalOverwritten;
    var m, es := OwnedBy(u, a), EffectsFor(sha, txs, a);
    ApartByShape(Values(u), m, Effects(sha, txs), es);
    FreshByShape(Values(u), m, Effects(sha, txs), es);
    FreshOverwritesNothing(m, es);
    BalanceExact(m, es);
    NetOfEffects(sha, u, txs, a);
    ApplyOwned(sha, u, txs, a);
    OwnedIsBalance(u, a);
    OwnedIsBalance(ApplyTxs(sha, u, txs), a);
  }

  lemma SameKeys(u: Utxos, a: seq<byte>)
    ensures Values(u).Keys == OwnedBy(u, a).Keys
  {
  }

  // ---------- the node's blocks ----------

  lemma BlockNetTo(u: Utxos, s: State, script: seq<byte>, a: seq<byte>)
    ensures TotalNetTo(u, BlockOf(s, script), a)
         == (if a == script then 500_000 else 0) + TotalNetTo(u, Chosen(s, script), a)
  {
    hide Selected, Size, InFrom;
    var block := BlockOf(s, script);
    assert block[1..] == Chosen(s, script);
    assert IsCoinbase(block[0]);
    assert block[0].outputs[..0] == [];
    assert OutTo(block[0].outputs, a) == OwnedValue(block[0].outputs[0], a);
  }

  lemma BlockSpends(c: Config, s: State, script: seq<byte>)
    requires StateOk(c, s)
    ensures AllSpendable(s.utxos, BlockOf(s, script)) && SpendApart(BlockOf(s, script))
  {
    var txs := Chosen(s, script);
    PrefixOk(c.rules, s.utxos, s.pool.txs, |txs|);
    hide AllValid, AllCompatible, Descending, AllFit, MarkerFree, ScoresOk, Selected, Coinbase, Size, Ids, FeeBy, AllSpendable,
      SpendApart, Shaped, Fees, TotalNet;
    assert BlockOf(s, script) == [Coinbase(script, s.height + 1)] + txs;
    PoolNet(c.rules.verify, s.utxos, txs);
    CompatibleIsApart(c.rules.sha, txs);
    CoinbaseInFront(s.utxos, script, s.height + 1, txs);
  }

  /** A block stored after any run without a marked submission moves the balance of every script by what its
      transactions give and take, and that of the wallet's script by 500,000 more. */
  lemma NextBlockBalances(c: Config, steps: seq<Step>, script: seq<byte>, shareAccepted: bool, a: seq<byte>)
    requires Rewards.RootLike(c.sqrt) && Lawful(c, steps) && AllOrdinary(steps) && |steps| + 1 < WORD
    requires var l := Run(c, steps);
      CollisionFree(c.rules.sha, Hashed(c.rules.sha, l.applied + Members(BlockOf(l.s, script)), l.rewarded))
    requires |script| < 0x1_0000_0000
    ensures var s := Run(c, steps).s;
      LibraryTransactions.Balance(BlockStored(c, s, script, shareAccepted).utxos, a)
        == LibraryTransactions.Balance(s.utxos, a) + (if a == script then 500_000 else 0)
           + TotalNetTo(s.utxos, Chosen(s, script), a)
  {
    hide Rewards.RootLike, Lawful, Run, StateOk, Hashed, CollisionFree, BlockOf, Chosen, AllSpendable, SpendApart, IdsNew,
      TotalNetTo, LibraryTransactions.Balance, ApplyTxs, ShareOffered, OrdinaryIds;
    var s := Run(c, steps).s;
    EveryRunIsOk(c, steps);
    NextBlockWritesNewOutputs(c, steps, script);
    BlockSpends(c, s, script);
    BlockMovesBalances(c.rules.sha, s.utxos, BlockOf(s, script), a);
    BlockNetTo(s.utxos, s, script, a);
  }

  /** With nothing waiting, that is all that happens: the script's balance rises by 500,000 and no other one moves. */
  lemma EmptyBlockBalances(c: Config, steps: seq<Step>, script: seq<byte>, shareAccepted: bool, a: seq<byte>)
    requires Rewards.RootLike(c.sqrt) && Lawful(c, steps) && AllOrdinary(steps) && |steps| + 1 < WORD
    requires var l := Run(c, steps);
      CollisionFree(c.rules.sha, Hashed(c.rules.sha, l.applied + Members(BlockOf(l.s, script)), l.rewarded))
    requires |script| < 0x1_0000_0000 && Run(c, steps).s.pool.txs == []
    ensures var s := Run(c, steps).s;
      LibraryTransactions.Balance(BlockStored(c, s, script, shareAccepted).utxos, a)
        == LibraryTransactions.Balance(s.utxos, a) + if a == script then 500_000 else 0
  {
    hide Rewards.RootLike, Lawful, Run, Hashed, CollisionFree, BlockOf, LibraryTransactions.Balance, BlockStored, Size, Coinbase;
    NextBlockBalances(c, steps, script, shareAccepted, a);
    assert Chosen(Run(c, steps).s, script) == [];
  }

  // ---------- the reward output ----------

  /** The first transaction's first output survives the rest of the block. */
  lemma FirstOutputStays(sha: Sha, u: Utxos, txs: seq<Transaction>)
    requires AllSpendable(u, txs) && IdsNew(sha, u, txs) && txs != [] && txs[0].outputs != [] && IsCoinbase(txs[0])
    ensures var p := OutPoint(TxId(sha, txs[0]), 0);
      p !in u && p in ApplyTxs(sha, u, txs) && ApplyTxs(sha, u, txs)[p] == txs[0].outputs[0]
  {
    hide TxId;
    var p := OutPoint(TxId(sha, txs[0]), 0);
    assert p !in u;
    assert SpentPoints(txs[0].inputs) == {};
    forall i | 0 < i < |txs| ensures !Touches(sha, txs[i], p) {
      assert Spendable(u, txs[i]);
      SpentInside(u, txs[i]);
    }
    assert Touches(sha, txs[0], p);
    LastTouchDecides(sha, u, txs, p, 0);
    CreatedPoints(TxId(sha, txs[0]), txs[0].outputs);
    CreatedIsOutput(TxId(sha, txs[0]), txs[0].outputs, p);
  }

  lemma SpentInside(u: Utxos, tx: Transaction)
    requires Spendable(u, tx)
    ensures SpentPoints(tx.inputs) <= u.Keys
  {
    SpentOfSpendable(u, tx);
  }

  /** The block leaves an unspent output of 500,000 to the wallet's script that was not there before. */
  lemma NextBlockLeavesReward(c: Config, steps: seq<Step>, script: seq<byte>, shareAccepted: bool)
    requires Rewards.RootLike(c.sqrt) && Lawful(c, steps) && AllOrdinary(steps) && |steps| + 1 < WORD
    requires var l := Run(c, steps);
      CollisionFree(c.rules.sha, Hashed(c.rules.sha, l.applied + Members(BlockOf(l.s, script)), l.rewarded))
    requires |script| < 0x1_0000_0000
    ensures var s := Run(c, steps).s; var next := BlockStored(c, s, script, shareAccepted);
      exists p :: p !in s.utxos && Holds(next.utxos, p, 500_000, script)
  {
    hide Rewards.RootLike, Lawful, Run, StateOk, Hashed, CollisionFree, AllSpendable, SpendApart, IdsNew, ApplyTxs, ShareOffered,
      OrdinaryIds, TxId, Selected, Size;
    var s := Run(c, steps).s;
    EveryRunIsOk(c, steps);
    NextBlockWritesNewOutputs(c, steps, script);
    BlockSpends(c, s, script);
    FirstOutputStays(c.rules.sha, s.utxos, BlockOf(s, script));
    var p := OutPoint(TxId(c.rules.sha, BlockOf(s, script)[0]), 0);
    assert Holds(BlockStored(c, s, script, shareAccepted).utxos, p, 500_000, script);
  }
}

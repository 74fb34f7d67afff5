/** The transactions of a mined block, their effect on the unspent outputs, and what they create and destroy. */
module Blocks {
  import opened Bytes
  import opened TxEncoding
  import opened Merkle
  import opened Sums
  import opened Accounting
  import opened Validation
  import opened Mempool

  const BLOCK_REWARD: nat := 500_000
  const MAX_BLOCK_SIZE: nat := 1_000_000

  // ---------- assembly ----------

  function InsSize(ins: seq<TxIn>): nat {
    if ins == [] then 0 else 48 + |ins[0].scriptSig| + InsSize(ins[1..])
  }

  function OutsSize(outs: seq<TxOut>): nat {
    if outs == [] then 0 else 16 + |outs[0].scriptPubkey| + OutsSize(outs[1..])
  }

  /** Length of the stored form, with its eight-byte list lengths. */
  function Size(tx: Transaction): nat { 24 + InsSize(tx.inputs) + OutsSize(tx.outputs) }

  function TotalSize(txs: seq<Transaction>): nat {
    if txs == [] then 0 else Size(txs[0]) + TotalSize(txs[1..])
  }

  /** The block's own coinbase; the height makes it differ from every other one. */
  function Coinbase(script: seq<byte>, height: nat): Transaction {
    Transaction(1, [TxIn(ZeroHash(), MARKER_INDEX, LE(height, 8), 0xFFFF_FFFF)], [TxOut(BLOCK_REWARD, script)], 0)
  }

  /** How many waiting transactions go into a block that already has `total` bytes. */
  function Selected(total: nat, txs: seq<Transaction>): (n: nat)
    ensures n <= |txs|
    decreases |txs|
  {
    if txs == [] || total + Size(txs[0]) > MAX_BLOCK_SIZE then 0
    else 1 + Selected(total + Size(txs[0]), txs[1..])
  }

  function BlockFor(script: seq<byte>, height: nat, txs: seq<Transaction>): seq<Transaction> {
    var coinbase := Coinbase(script, height);
    [coinbase] + txs[..Selected(Size(coinbase), txs)]
  }

  /** The selected prefix fits, and it is the longest one that does. */
  lemma {:induction false} SelectedIsLongest(total: nat, txs: seq<Transaction>, n: nat)
    requires total <= MAX_BLOCK_SIZE && n <= |txs|
    ensures total + TotalSize(txs[..n]) <= MAX_BLOCK_SIZE <==> n <= Selected(total, txs)
    decreases |txs|
  {
    if n > 0 {
      assert txs[..n][1..] == txs[1..][..n - 1];
      if total + Size(txs[0]) <= MAX_BLOCK_SIZE {
        SelectedIsLongest(total + Size(txs[0]), txs[1..], n - 1);
      }
    }
  }

  method AssembleBlock(script: seq<byte>, height: nat, txs: seq<Transaction>) returns (block: seq<Transaction>)
    ensures block == BlockFor(script, height, txs)
  {
    hide Size, Coinbase;
    var coinbase := Coinbase(script, height);
    block := [coinbase];
    var totalSize: nat := Size(coinbase);
    var i := 0;
    while i < |txs|
      invariant 0 <= i <= |txs| && block == [coinbase] + txs[..i]
      invariant Selected(Size(coinbase), txs) == i + Selected(totalSize, txs[i..])
    {
      if totalSize + Size(txs[i]) > MAX_BLOCK_SIZE {
        break;
      }
      assert txs[i..][1..] == txs[i + 1..];
      block := block + [txs[i]];
      totalSize := totalSize + Size(txs[i]);
      i := i + 1;
    }
  }

  // ---------- effects ----------

  /** The writes and deletions of one transaction, output by output and input by input. */
  method WriteTx(u: Utxos, txid: Hash32, tx: Transaction) returns (v: Utxos)
    ensures v == ApplyTx(u, txid, tx)
  {
    hide SpentPoints, CreatedOuts;
    v := u;
    NothingWritten(u, txid, tx.outputs);
    for k := 0 to |tx.outputs|
      invariant v == u + CreatedOuts(txid, tx.outputs[..k])
    {
      CreatedStep(txid, tx.outputs, k);
      v := v[OutPoint(txid, k) := tx.outputs[k]];
    }
    assert tx.outputs[..|tx.outputs|] == tx.outputs;
    ghost var written := v;
    NothingSpentYet(tx.inputs);
    for k := 0 to |tx.inputs|
      invariant v == written - SpentPoints(tx.inputs[..k])
    {
      SpentStep(tx.inputs, k);
      if !IsMarker(tx.inputs[k]) { v := v - {PointOf(tx.inputs[k])}; }
    }
    assert tx.inputs[..|tx.inputs|] == tx.inputs;
  }

  lemma SpentStep(ins: seq<TxIn>, k: nat)
    requires k < |ins|
    ensures SpentPoints(ins[..k + 1]) == SpentPoints(ins[..k]) + if IsMarker(ins[k]) then {} else {PointOf(ins[k])}
  {
    var next := ins[..k + 1];
    assert forall i :: 0 <= i < k ==> next[i] == ins[..k][i];
    assert next[k] == ins[k];
  }

  lemma SpentHas(ins: seq<TxIn>, k: nat)
    requires k < |ins| && !IsMarker(ins[k])
    ensures PointOf(ins[k]) in SpentPoints(ins)
  {
  }

  lemma NothingSpentYet(ins: seq<TxIn>)
    ensures SpentPoints(ins[..0]) == {}
  {
  }

  lemma NothingWritten(u: Utxos, txid: Hash32, outs: seq<TxOut>)
    ensures u + CreatedOuts(txid, outs[..0]) == u
  {
  }

  lemma CreatedStep(txid: Hash32, outs: seq<TxOut>, k: nat)
    requires k < |outs|
    ensures CreatedOuts(txid, outs[..k + 1]) == CreatedOuts(txid, outs[..k])[OutPoint(txid, k) := outs[k]]
  {
    assert outs[..k + 1][..k] == outs[..k];
  }

  ghost function ApplyTxs(sha: Sha, u: Utxos, txs: seq<Transaction>): Utxos
    decreases |txs|
  {
    if txs == [] then u else ApplyTxs(sha, ApplyTx(u, TxId(sha, txs[0]), txs[0]), txs[1..])
  }

  ghost function Effects(sha: Sha, txs: seq<Transaction>): (es: seq<Effect<OutPoint>>)
    ensures |es| == |txs|
  {
    if txs == [] then [] else [EffectOf(TxId(sha, txs[0]), txs[0])] + Effects(sha, txs[1..])
  }

  lemma {:induction false} ApplyTxsIsEffects(sha: Sha, u: Utxos, txs: seq<Transaction>)
    ensures Values(ApplyTxs(sha, u, txs)) == ApplyAll(Values(u), Effects(sha, txs))
    decreases |txs|
  {
    if txs != [] {
      hide TxId, EffectOf, ApplyTx;
      ApplyIsEffect(u, TxId(sha, txs[0]), txs[0]);
      ApplyTxsIsEffects(sha, ApplyTx(u, TxId(sha, txs[0]), txs[0]), txs[1..]);
    }
  }

  /** A coinbase, or distinct outputs that are all there. */
  ghost predicate Spendable(u: Utxos, tx: Transaction) {
    IsCoinbase(tx)
    || (!SpendsTwice(tx.inputs) && forall i :: 0 <= i < |tx.inputs| ==> PointOf(tx.inputs[i]) in u && !IsMarker(tx.inputs[i]))
  }

  ghost predicate AllSpendable(u: Utxos, txs: seq<Transaction>) { forall i :: 0 <= i < |txs| ==> Spendable(u, txs[i]) }

  ghost predicate SpendApart(txs: seq<Transaction>) {
    forall i, j :: 0 <= i < j < |txs| ==> SpentPoints(txs[i].inputs) !! SpentPoints(txs[j].inputs)
  }

  /** What a transaction adds to the total. */
  ghost function Net(u: Utxos, tx: Transaction): int {
    SumOut(tx.outputs) - if IsCoinbase(tx) then 0 else SumIn(u, tx.inputs)
  }

  ghost function TotalNet(u: Utxos, txs: seq<Transaction>): int {
    if txs == [] then 0 else Net(u, txs[0]) + TotalNet(u, txs[1..])
  }

  lemma SpentOfSpendable(u: Utxos, tx: Transaction)
    requires Spendable(u, tx)
    ensures SpentPoints(tx.inputs) <= Values(u).Keys
    ensures SpentValue(Values(u), SpentPoints(tx.inputs)) == SumOut(tx.outputs) - Net(u, tx)
  {
    if IsCoinbase(tx) {
      assert SpentPoints(tx.inputs) == {};
      NothingSpent(Values(u), SpentPoints(tx.inputs));
    } else {
      SpentIsSumIn(u, tx.inputs);
    }
  }

  lemma {:induction false} SpentBySome(sha: Sha, txs: seq<Transaction>, p: OutPoint)
    ensures p in AllSpent(Effects(sha, txs)) <==> exists i :: 0 <= i < |txs| && p in SpentPoints(txs[i].inputs)
    decreases |txs|
  {
    hide SpentPoints, CreatedOuts, TxId;
    if txs != [] {
      SpentBySome(sha, txs[1..], p);
      assert forall i :: 0 <= i < |txs| - 1 ==> txs[1..][i] == txs[i + 1];
      assert forall i :: 1 <= i < |txs| ==> txs[i] == txs[1..][i - 1];
    }
  }

  lemma {:induction false} BlockEffects(sha: Sha, u: Utxos, txs: seq<Transaction>)
    requires AllSpendable(u, txs) && SpendApart(txs)
    ensures SpendsApart(Values(u), Effects(sha, txs)) && CreatesNonNegative(Effects(sha, txs))
    ensures TotalCreated(Effects(sha, txs)) - TotalSpent(Values(u), Effects(sha, txs)) == TotalNet(u, txs)
    decreases |txs|
  {
    hide SpentPoints, CreatedOuts, TxId, Spendable, Net, SumOut, SpentValue;
    if txs != [] {
      var rest := txs[1..];
      assert forall i :: 0 <= i < |rest| ==> rest[i] == txs[i + 1];
      BlockEffects(sha, u, rest);
      SpentOfSpendable(u, txs[0]);
      CreatedValue(TxId(sha, txs[0]), txs[0].outputs);
      forall p | p in SpentPoints(txs[0].inputs) ensures p !in AllSpent(Effects(sha, rest)) {
        SpentBySome(sha, rest, p);
      }
      assert Effects(sha, txs)[1..] == Effects(sha, rest);
    }
  }

  /** What the transactions write over when they are applied in order. */
  ghost function Overwritten(sha: Sha, u: Utxos, txs: seq<Transaction>): int {
    TotalOverwritten(Values(u), Effects(sha, txs))
  }

  /** No transaction changes the value of an output that is unspent before the block. */
  ghost predicate KeepsValues(sha: Sha, u: Utxos, txs: seq<Transaction>) { KeepsPrices(Values(u), Effects(sha, txs)) }

  /** The total after a block is at most the total before plus what its transactions add, and exactly that less what
      they overwrite when no unspent output changes its value. */
  lemma BlockBalance(sha: Sha, u: Utxos, txs: seq<Transaction>)
    requires AllSpendable(u, txs) && SpendApart(txs)
    ensures Sum(Values(ApplyTxs(sha, u, txs))) <= Sum(Values(u)) + TotalNet(u, txs)
    ensures KeepsValues(sha, u, txs) ==>
      Sum(Values(ApplyTxs(sha, u, txs))) == Sum(Values(u)) + TotalNet(u, txs) - Overwritten(sha, u, txs)
  {
    BlockEffects(sha, u, txs);
    ApplyTxsIsEffects(sha, u, txs);
    hide SpendsApart, CreatesNonNegative, KeepsPrices, AllSpendable, SpendApart;
    assert NonNegative(Values(u));
    Balance(Values(u), Effects(sha, txs));
    if KeepsValues(sha, u, txs) { BalanceExact(Values(u), Effects(sha, txs)); }
  }

  // ---------- waiting transactions in a block ----------

  ghost function Fees(u: Utxos, txs: seq<Transaction>): nat {
    if txs == [] then 0 else FeeIn(u, txs[0]) + Fees(u, txs[1..])
  }

  /** The value created by transactions marked as a coinbase. */
  ghost function Shaped(txs: seq<Transaction>): nat {
    if txs == [] then 0 else (if IsCoinbase(txs[0]) then SumOut(txs[0].outputs) else 0) + Shaped(txs[1..])
  }

  ghost predicate MarkerFree(u: Utxos) { OutPoint(ZeroHash(), MARKER_INDEX) !in u }

  lemma ValidIsSpendable(verify: Verifier, u: Utxos, tx: Transaction)
    requires Validate(verify, u, tx).Valid? && MarkerFree(u)
    ensures Spendable(u, tx)
    ensures Net(u, tx) == (if IsCoinbase(tx) then SumOut(tx.outputs) else 0) - FeeIn(u, tx)
    ensures tx.inputs != [] && tx.outputs != [] && !HasDust(tx.outputs)
  {
    ValidIff(verify, u, tx, Validate(verify, u, tx).fee);
    FeeInIsFee(verify, u, tx);
    hide SpendsTwice, HasDust, FeeIn;
    if !IsCoinbase(tx) {
      forall i | 0 <= i < |tx.inputs| ensures PointOf(tx.inputs[i]) in u && !IsMarker(tx.inputs[i]) {
        assert PointOf(tx.inputs[i]) in u;
      }
    }
  }

  lemma {:induction false} PoolNet(verify: Verifier, u: Utxos, txs: seq<Transaction>)
    requires AllValid(verify, u, txs) && MarkerFree(u)
    ensures AllSpendable(u, txs) && TotalNet(u, txs) == Shaped(txs) - Fees(u, txs)
    decreases |txs|
  {
    hide Validate, Spendable, Net, FeeIn, MarkerFree;
    if txs != [] {
      assert forall i :: 0 <= i < |txs| - 1 ==> txs[1..][i] == txs[i + 1];
      ValidIsSpendable(verify, u, txs[0]);
      PoolNet(verify, u, txs[1..]);
    }
  }

  lemma CoinbaseInFront(u: Utxos, script: seq<byte>, height: nat, txs: seq<Transaction>)
    requires AllSpendable(u, txs) && SpendApart(txs)
    ensures var block := [Coinbase(script, height)] + txs;
      AllSpendable(u, block) && SpendApart(block) && TotalNet(u, block) == BLOCK_REWARD + TotalNet(u, txs)
  {
    var c := Coinbase(script, height);
    var block := [c] + txs;
    assert SpentPoints(c.inputs) == {};
    assert IsCoinbase(c);
    assert c.outputs[..0] == [];
    assert SumOut(c.outputs) == BLOCK_REWARD;
    assert block[1..] == txs;
    hide Coinbase, SpentPoints, Spendable, SumOut, SumIn;
    assert forall i :: 1 <= i < |block| ==> block[i] == txs[i - 1];
  }

  lemma CompatibleIsApart(sha: Sha, txs: seq<Transaction>)
    requires AllCompatible(sha, txs)
    ensures SpendApart(txs)
  {
    hide TxId, SpentPoints;
    forall i, j | 0 <= i < j < |txs| ensures SpentPoints(txs[i].inputs) !! SpentPoints(txs[j].inputs) {
      assert Compatible(sha, txs[i], txs[j]);
    }
  }

  /** A block of a coinbase and waiting transactions raises the total by at most the block reward and what
      coinbase-marked transactions create, less the fees, and by exactly that less what is overwritten. */
  lemma MinedBlockBalance(r: Rules, u: Utxos, script: seq<byte>, height: nat, txs: seq<Transaction>)
    requires AllValid(r.verify, u, txs) && AllCompatible(r.sha, txs) && MarkerFree(u)
    ensures var block := [Coinbase(script, height)] + txs;
      var most := Sum(Values(u)) + BLOCK_REWARD + Shaped(txs) - Fees(u, txs);
      && Sum(Values(ApplyTxs(r.sha, u, block))) <= most
      && (KeepsValues(r.sha, u, block) ==> Sum(Values(ApplyTxs(r.sha, u, block))) == most - Overwritten(r.sha, u, block))
  {
    hide AllValid, AllCompatible, AllSpendable, SpendApart, Coinbase, ApplyTxs, Overwritten, KeepsValues, MarkerFree;
    PoolNet(r.verify, u, txs);
    CompatibleIsApart(r.sha, txs);
    CoinbaseInFront(u, script, height, txs);
    BlockBalance(r.sha, u, [Coinbase(script, height)] + txs);
  }
}

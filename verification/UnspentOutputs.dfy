/** Which outputs are unspent after a list of transactions, said of the transactions alone. */
module UnspentOutputs {
  import opened Bytes
  import opened TxEncoding
  import opened Merkle
  import opened Validation
  import opened Mempool
  import opened Blocks

  /** The transaction has an input that names the outpoint and is not the marker of a coinbase. */
  ghost predicate SpendsIt(tx: Transaction, p: OutPoint) {
    exists i :: 0 <= i < |tx.inputs| && Names(tx.inputs[i], p)
  }

  predicate Names(i: TxIn, p: OutPoint) {
    i.prevTxid == p.txid && i.prevIndex == p.index && !(i.prevTxid == ZeroHash() && i.prevIndex == 0xFFFF_FFFF)
  }

  /** The outpoint is one of the transaction's, which puts this output there. */
  predicate MakesIt(sha: Sha, tx: Transaction, p: OutPoint, o: TxOut) {
    p.txid == sha(sha(TxidPreimage(tx, 4))) && p.index < |tx.outputs| && tx.outputs[p.index] == o
  }

  predicate Writes(sha: Sha, tx: Transaction, p: OutPoint) {
    p.txid == sha(sha(TxidPreimage(tx, 4))) && p.index < |tx.outputs|
  }

  /** Of k transactions, the output comes from the last, or from before if there is none, and is not spent by it. */
  ghost predicate ComesFrom(sha: Sha, u: Utxos, txs: seq<Transaction>, k: nat, p: OutPoint, o: TxOut)
    requires k <= |txs|
  {
    if k == 0 then p in u && u[p] == o else MakesIt(sha, txs[k - 1], p, o) && !SpendsIt(txs[k - 1], p)
  }

  /** No transaction from place k on touches the outpoint. */
  ghost predicate Untouched(sha: Sha, txs: seq<Transaction>, k: nat, p: OutPoint) {
    forall j :: k <= j < |txs| ==> !Writes(sha, txs[j], p) && !SpendsIt(txs[j], p)
  }

  ghost predicate LeftUnspent(sha: Sha, u: Utxos, txs: seq<Transaction>, p: OutPoint, o: TxOut) {
    exists k :: 0 <= k <= |txs| && ComesFrom(sha, u, txs, k, p, o) && Untouched(sha, txs, k, p)
  }

  lemma {:induction false} CreatedAt(txid: Hash32, outs: seq<TxOut>, p: OutPoint)
    ensures p in CreatedOuts(txid, outs) <==> p.txid == txid && p.index < |outs|
    ensures p in CreatedOuts(txid, outs) ==> CreatedOuts(txid, outs)[p] == outs[p.index]
  {
    if outs != [] { CreatedAt(txid, outs[..|outs| - 1], p); }
  }

  lemma OneApplied(sha: Sha, u: Utxos, tx: Transaction, p: OutPoint, o: TxOut)
    ensures var after := ApplyTx(u, TxId(sha, tx), tx);
      p in after && after[p] == o
      <==> !SpendsIt(tx, p) && (MakesIt(sha, tx, p, o) || (!Writes(sha, tx, p) && p in u && u[p] == o))
  {
    CreatedAt(TxId(sha, tx), tx.outputs, p);
    assert p in SpentPoints(tx.inputs) <==> SpendsIt(tx, p) by {
      assert forall i :: 0 <= i < |tx.inputs| ==> (Names(tx.inputs[i], p) <==> PointOf(tx.inputs[i]) == p && !IsMarker(tx.inputs[i]));
    }
    hide CreatedOuts, SpentPoints, SpendsIt;
  }

  lemma {:induction false} ApplyLast(sha: Sha, u: Utxos, txs: seq<Transaction>)
    requires txs != []
    ensures var n := |txs| - 1;
      ApplyTxs(sha, u, txs) == ApplyTx(ApplyTxs(sha, u, txs[..n]), TxId(sha, txs[n]), txs[n])
    decreases |txs|
  {
    hide ApplyTx, TxId;
    var n := |txs| - 1;
    if n == 0 {
      assert txs[1..] == [] && txs[..0] == [];
    } else {
      ApplyLast(sha, ApplyTx(u, TxId(sha, txs[0]), txs[0]), txs[1..]);
      assert txs[..n][1..] == txs[1..][..n - 1] && txs[1..][n - 1] == txs[n];
    }
  }

  lemma LeftByLast(sha: Sha, u: Utxos, txs: seq<Transaction>, p: OutPoint, o: TxOut)
    requires txs != []
    ensures var n := |txs| - 1;
      LeftUnspent(sha, u, txs, p, o)
      <==> !SpendsIt(txs[n], p)
           && (MakesIt(sha, txs[n], p, o) || (!Writes(sha, txs[n], p) && LeftUnspent(sha, u, txs[..n], p, o)))
  {
    hide SpendsIt, MakesIt, Writes;
    var n := |txs| - 1;
    if MakesIt(sha, txs[n], p, o) && !SpendsIt(txs[n], p) {
      assert ComesFrom(sha, u, txs, n + 1, p, o) && Untouched(sha, txs, n + 1, p);
    }
    forall k | 0 <= k <= n
      ensures ComesFrom(sha, u, txs, k, p, o) == ComesFrom(sha, u, txs[..n], k, p, o)
      ensures Untouched(sha, txs, k, p)
         <==> Untouched(sha, txs[..n], k, p) && !Writes(sha, txs[n], p) && !SpendsIt(txs[n], p)
    {
    }
  }

  /** An output is unspent after the transactions exactly if one of them made it, or it was unspent before, and neither
      this one spends it nor any later one writes or spends it. */
  lemma {:induction false} UnspentIff(sha: Sha, u: Utxos, txs: seq<Transaction>, p: OutPoint, o: TxOut)
    ensures var after := ApplyTxs(sha, u, txs);
      p in after && after[p] == o <==> LeftUnspent(sha, u, txs, p, o)
    decreases |txs|
  {
    if txs == [] {
      assert ComesFrom(sha, u, txs, 0, p, o) == (p in u && u[p] == o);
      assert Untouched(sha, txs, 0, p);
    } else {
      hide LeftUnspent, SpendsIt, MakesIt, Writes, ApplyTx, ApplyTxs;
      var n := |txs| - 1;
      UnspentIff(sha, u, txs[..n], p, o);
      ApplyLast(sha, u, txs);
      OneApplied(sha, ApplyTxs(sha, u, txs[..n]), txs[n], p, o);
      LeftByLast(sha, u, txs, p, o);
    }
  }
}

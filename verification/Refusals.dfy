/** With which error validation refuses a transaction: the first check that fails decides. */
module Refusals {
  import opened TxEncoding
  import opened Validation

  /** The input is unspent, adds up within 64 bits with those before it, and is unlocked. */
  ghost predicate InputPasses(verify: Verifier, u: Utxos, tx: Transaction, k: nat)
    requires k < |tx.inputs|
  {
    && PointOf(tx.inputs[k]) in u
    && SumIn(u, tx.inputs[..k + 1]) < WORD
    && verify(tx, k, u[PointOf(tx.inputs[k])])
  }

  /** The first of the three that it fails. */
  ghost predicate InputFails(verify: Verifier, u: Utxos, tx: Transaction, k: nat, e: Error)
    requires k < |tx.inputs|
  {
    if PointOf(tx.inputs[k]) !in u then e == UtxoNotFound
    else if SumIn(u, tx.inputs[..k + 1]) >= WORD then e == Overflow
    else !verify(tx, k, u[PointOf(tx.inputs[k])]) && e == InvalidSignature
  }

  /** All inputs before one pass, and that one fails. */
  ghost predicate InputStops(verify: Verifier, u: Utxos, tx: Transaction, e: Error) {
    exists j :: 0 <= j < |tx.inputs| && InputFails(verify, u, tx, j, e)
                && forall i :: 0 <= i < j ==> InputPasses(verify, u, tx, i)
  }

  ghost predicate AllPass(verify: Verifier, u: Utxos, tx: Transaction) {
    forall i :: 0 <= i < |tx.inputs| ==> InputPasses(verify, u, tx, i)
  }

  lemma {:induction false} ScanStops(verify: Verifier, u: Utxos, tx: Transaction, k: nat, e: Error)
    requires k <= |tx.inputs| && forall i :: 0 <= i < k ==> InputPasses(verify, u, tx, i)
    ensures var r := ScanInputs(verify, u, tx, k, SumIn(u, tx.inputs[..k]));
      && (r == Invalid(e) <==> InputStops(verify, u, tx, e))
      && (r.Valid? <==> AllPass(verify, u, tx))
      && (r.Valid? ==> r.fee == SumIn(u, tx.inputs))
    decreases |tx.inputs| - k
  {
    hide InputPasses, InputFails, SumIn;
    if k == |tx.inputs| {
      assert tx.inputs[..k] == tx.inputs;
      NoneFails(verify, u, tx, e);
    } else {
      OneScanned(verify, u, tx, k);
      if InputPasses(verify, u, tx, k) {
        ScanStops(verify, u, tx, k + 1, e);
      } else {
        FailsExactly(verify, u, tx, k, e, ScanInputs(verify, u, tx, k, SumIn(u, tx.inputs[..k])).error);
        StopsHere(verify, u, tx, k, e);
      }
    }
  }

  /** One input: pass on with the sum so far, or stop with its failure. */
  lemma OneScanned(verify: Verifier, u: Utxos, tx: Transaction, k: nat)
    requires k < |tx.inputs|
    ensures var r := ScanInputs(verify, u, tx, k, SumIn(u, tx.inputs[..k]));
      if InputPasses(verify, u, tx, k) then r == ScanInputs(verify, u, tx, k + 1, SumIn(u, tx.inputs[..k + 1]))
      else r.Invalid? && InputFails(verify, u, tx, k, r.error)
  {
    assert tx.inputs[..k + 1][..k] == tx.inputs[..k];
  }

  lemma FailsExactly(verify: Verifier, u: Utxos, tx: Transaction, k: nat, e: Error, f: Error)
    requires k < |tx.inputs|
    ensures InputFails(verify, u, tx, k, e) ==> !InputPasses(verify, u, tx, k)
    ensures InputFails(verify, u, tx, k, e) && InputFails(verify, u, tx, k, f) ==> e == f
  {
  }

  lemma NoneFails(verify: Verifier, u: Utxos, tx: Transaction, e: Error)
    requires AllPass(verify, u, tx)
    ensures !InputStops(verify, u, tx, e)
  {
    hide InputPasses, InputFails;
    forall k | 0 <= k < |tx.inputs| ensures !InputFails(verify, u, tx, k, e) {
      FailsExactly(verify, u, tx, k, e, e);
    }
  }

  lemma StopsHere(verify: Verifier, u: Utxos, tx: Transaction, k: nat, e: Error)
    requires k < |tx.inputs| && !InputPasses(verify, u, tx, k)
    requires forall i :: 0 <= i < k ==> InputPasses(verify, u, tx, i)
    ensures InputStops(verify, u, tx, e) <==> InputFails(verify, u, tx, k, e)
  {
    hide InputPasses, InputFails;
    forall i | 0 <= i < k ensures !InputFails(verify, u, tx, i, e) { FailsExactly(verify, u, tx, i, e, e); }
  }

  // ---------- the verdict ----------

  /** The checks in their order, each with its error; the sum of the outputs wraps around in the fourth. */
  ghost predicate RefusedFor(verify: Verifier, u: Utxos, tx: Transaction, e: Error) {
    if tx.inputs == [] || tx.outputs == [] then e == EmptyTransaction
    else if SpendsTwice(tx.inputs) then e == DoubleSpend
    else if exists i :: 0 <= i < |tx.outputs| && tx.outputs[i].value < 100 then e == DustOutput
    else if SumOut(tx.outputs) % WORD > 1_500_000_000_000_000 then e == ExceedsMaxSupply
    else if IsCoinbase(tx) then false
    else if !AllPass(verify, u, tx) then InputStops(verify, u, tx, e)
    else if SumOut(tx.outputs) >= WORD then e == Overflow
    else if SumOut(tx.outputs) > SumIn(u, tx.inputs) then e == OutputsExceedInputs
    else SumIn(u, tx.inputs) < SumOut(tx.outputs) + 50 && e == FeeBelowMinimum
  }

  /** A transaction is refused with an error exactly when that is the error of the first check it fails. */
  lemma RefusedIff(verify: Verifier, u: Utxos, tx: Transaction, e: Error)
    ensures Validate(verify, u, tx) == Invalid(e) <==> RefusedFor(verify, u, tx, e)
  {
    hide SpendsTwice, SumOut, SumIn, InputStops, AllPass;
    NoInputs(u, tx);
    ScanStops(verify, u, tx, 0, e);
  }

  lemma NoInputs(u: Utxos, tx: Transaction)
    ensures SumIn(u, tx.inputs[..0]) == 0
  {
  }
}

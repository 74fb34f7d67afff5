/** What a transaction does to the unspent outputs, and when the node finds it valid. */
module Validation {
  import opened Bytes
  import opened TxEncoding
  import opened Sums
  import opened Accounting

  const DUST_LIMIT: nat := 100
  const MINIMUM_FEE: nat := 50
  const MAX_SUPPLY: nat := 1_500_000_000_000_000
  const WORD: nat := 0x1_0000_0000_0000_0000
  const MARKER_INDEX: nat := 0xFFFF_FFFF

  datatype OutPoint = OutPoint(txid: Hash32, index: nat)

  type Utxos = map<OutPoint, TxOut>

  /** Whether an input's script unlocks the output it spends; signatures are not part of this model. */
  type Verifier = (Transaction, nat, TxOut) -> bool

  function PointOf(i: TxIn): OutPoint { OutPoint(i.prevTxid, i.prevIndex) }

  predicate IsMarker(i: TxIn) { i.prevTxid == ZeroHash() && i.prevIndex == MARKER_INDEX }

  predicate IsCoinbase(tx: Transaction) { |tx.inputs| == 1 && IsMarker(tx.inputs[0]) }

  function SumOut(outs: seq<TxOut>): nat {
    if outs == [] then 0 else SumOut(outs[..|outs| - 1]) + outs[|outs| - 1].value
  }

  /** The value of the outputs spent; a missing one counts nothing. */
  function SumIn(u: Utxos, ins: seq<TxIn>): nat {
    if ins == [] then 0
    else
      var p := PointOf(ins[|ins| - 1]);
      SumIn(u, ins[..|ins| - 1]) + if p in u then u[p].value else 0
  }

  datatype Error = EmptyTransaction | DoubleSpend | DustOutput | ExceedsMaxSupply
                 | UtxoNotFound | Overflow | InvalidSignature | OutputsExceedInputs | FeeBelowMinimum

  datatype Verdict = Valid(fee: nat) | Invalid(error: Error)

  ghost predicate SpendsTwice(ins: seq<TxIn>) {
    exists i, j :: 0 <= i < j < |ins| && !IsMarker(ins[i]) && !IsMarker(ins[j]) && PointOf(ins[i]) == PointOf(ins[j])
  }

  ghost predicate HasDust(outs: seq<TxOut>) { exists i :: 0 <= i < |outs| && outs[i].value < DUST_LIMIT }

  /** The checks that need no unspent outputs. The sum of the outputs is a 64-bit sum that wraps around. */
  ghost function BasicError(tx: Transaction): Option<Error> {
    if tx.inputs == [] || tx.outputs == [] then Some(EmptyTransaction)
    else if SpendsTwice(tx.inputs) then Some(DoubleSpend)
    else if HasDust(tx.outputs) then Some(DustOutput)
    else if SumOut(tx.outputs) % WORD > MAX_SUPPLY then Some(ExceedsMaxSupply)
    else None
  }

  method ValidateBasic(tx: Transaction) returns (error: Option<Error>)
    ensures error == BasicError(tx)
  {
    if tx.inputs == [] || tx.outputs == [] {
      return Some(EmptyTransaction);
    }
    var seen: set<OutPoint> := {};
    for i := 0 to |tx.inputs|
      invariant !SpendsTwice(tx.inputs[..i])
      invariant seen == set k | 0 <= k < i && !IsMarker(tx.inputs[k]) :: PointOf(tx.inputs[k])
    {
      var input := tx.inputs[i];
      if !IsMarker(input) {
        if PointOf(input) in seen {
          assert SpendsTwice(tx.inputs);
          return Some(DoubleSpend);
        }
        seen := seen + {PointOf(input)};
      }
    }
    assert tx.inputs[..|tx.inputs|] == tx.inputs;
    var sum := 0;
    for i := 0 to |tx.outputs|
      invariant forall k :: 0 <= k < i ==> tx.outputs[k].value >= DUST_LIMIT
    {
      if tx.outputs[i].value < DUST_LIMIT {
        return Some(DustOutput);
      }
    }
    for i := 0 to |tx.outputs|
      invariant sum == SumOut(tx.outputs[..i]) % WORD
    {
      assert tx.outputs[..i + 1][..i] == tx.outputs[..i];
      WrapAdd(SumOut(tx.outputs[..i]), tx.outputs[i].value);
      sum := (sum + tx.outputs[i].value) % WORD;
    }
    assert tx.outputs[..|tx.outputs|] == tx.outputs;
    return if sum > MAX_SUPPLY then Some(ExceedsMaxSupply) else None;
  }

  lemma WrapAdd(a: nat, b: nat)
    ensures (a % WORD + b) % WORD == (a + b) % WORD
  {
  }

  /** The scan of the inputs from index k on: the first failing one decides. */
  function ScanInputs(verify: Verifier, u: Utxos, tx: Transaction, k: nat, sum: nat): Verdict
    requires k <= |tx.inputs|
    decreases |tx.inputs| - k
  {
    if k == |tx.inputs| then Valid(sum)
    else
      var p := PointOf(tx.inputs[k]);
      if p !in u then Invalid(UtxoNotFound)
      else if sum + u[p].value >= WORD then Invalid(Overflow)
      else if !verify(tx, k, u[p]) then Invalid(InvalidSignature)
      else ScanInputs(verify, u, tx, k + 1, sum + u[p].value)
  }

  /** Validation against the unspent outputs; the verdict carries the fee. */
  ghost function Validate(verify: Verifier, u: Utxos, tx: Transaction): Verdict {
    if BasicError(tx).Some? then Invalid(BasicError(tx).value)
    else if IsCoinbase(tx) then Valid(0)
    else
      match ScanInputs(verify, u, tx, 0, 0)
      case Invalid(e) => Invalid(e)
      case Valid(inSum) =>
        var outSum := SumOut(tx.outputs);
        if outSum >= WORD then Invalid(Overflow)
        else if outSum > inSum then Invalid(OutputsExceedInputs)
        else if inSum - outSum < MINIMUM_FEE then Invalid(FeeBelowMinimum)
        else Valid(inSum - outSum)
  }

  lemma {:induction false} SumOutGrows(outs: seq<TxOut>, k: nat)
    requires k <= |outs|
    ensures SumOut(outs[..k]) <= SumOut(outs)
    decreases |outs| - k
  {
    if k < |outs| {
      assert outs[..k + 1][..k] == outs[..k];
      SumOutGrows(outs, k + 1);
    } else {
      assert outs[..k] == outs;
    }
  }

  method ValidateTx(verify: Verifier, u: Utxos, tx: Transaction) returns (v: Verdict)
    ensures v == Validate(verify, u, tx)
  {
    var error := ValidateBasic(tx);
    hide BasicError;
    if error.Some? {
      return Invalid(error.value);
    }
    if IsCoinbase(tx) {
      return Valid(0);
    }
    var inputSum: nat := 0;
    for i := 0 to |tx.inputs|
      invariant ScanInputs(verify, u, tx, i, inputSum) == ScanInputs(verify, u, tx, 0, 0)
    {
      var p := PointOf(tx.inputs[i]);
      if p !in u {
        return Invalid(UtxoNotFound);
      }
      if inputSum + u[p].value >= WORD {
        return Invalid(Overflow);
      }
      if !verify(tx, i, u[p]) {
        return Invalid(InvalidSignature);
      }
      inputSum := inputSum + u[p].value;
    }
    var outputSum := 0;
    for i := 0 to |tx.outputs|
      invariant outputSum == SumOut(tx.outputs[..i]) < WORD
    {
      assert tx.outputs[..i + 1][..i] == tx.outputs[..i];
      outputSum := outputSum + tx.outputs[i].value;
      if outputSum >= WORD {
        SumOutGrows(tx.outputs, i + 1);
        return Invalid(Overflow);
      }
    }
    assert tx.outputs[..|tx.outputs|] == tx.outputs;
    if outputSum > inputSum {
      return Invalid(OutputsExceedInputs);
    }
    var fee := inputSum - outputSum;
    if fee < MINIMUM_FEE {
      return Invalid(FeeBelowMinimum);
    }
    return Valid(fee);
  }

  // ---------- what validity means ----------

  ghost predicate Unlocks(verify: Verifier, u: Utxos, tx: Transaction) {
    forall i :: 0 <= i < |tx.inputs| ==> PointOf(tx.inputs[i]) in u && verify(tx, i, u[PointOf(tx.inputs[i])])
  }

  lemma {:induction false} SumInGrows(u: Utxos, ins: seq<TxIn>, k: nat)
    requires k <= |ins|
    ensures SumIn(u, ins[..k]) <= SumIn(u, ins)
    decreases |ins| - k
  {
    if k < |ins| {
      assert ins[..k + 1][..k] == ins[..k];
      SumInGrows(u, ins, k + 1);
    } else {
      assert ins[..k] == ins;
    }
  }

  lemma {:induction false} ScanMeans(verify: Verifier, u: Utxos, tx: Transaction, k: nat)
    requires k <= |tx.inputs| && SumIn(u, tx.inputs[..k]) < WORD
    requires forall i :: 0 <= i < k ==> PointOf(tx.inputs[i]) in u && verify(tx, i, u[PointOf(tx.inputs[i])])
    ensures var r := ScanInputs(verify, u, tx, k, SumIn(u, tx.inputs[..k]));
      && (r.Valid? <==> Unlocks(verify, u, tx) && SumIn(u, tx.inputs) < WORD)
      && (r.Valid? ==> r.fee == SumIn(u, tx.inputs))
    decreases |tx.inputs| - k
  {
    if k == |tx.inputs| {
      assert tx.inputs[..k] == tx.inputs;
    } else {
      var p := PointOf(tx.inputs[k]);
      assert tx.inputs[..k + 1][..k] == tx.inputs[..k];
      SumInGrows(u, tx.inputs, k + 1);
      if p in u && SumIn(u, tx.inputs[..k]) + u[p].value < WORD && verify(tx, k, u[p]) {
        ScanMeans(verify, u, tx, k + 1);
      }
    }
  }

  /** A transaction passes with a fee exactly when it is not empty, spends nothing twice, makes no dust, its
      outputs are within the supply, and it is either marked as a coinbase, at no fee, or unlocks outputs that
      are there, with the fee, at least the minimum, as what they exceed its own outputs by. */
  lemma ValidIff(verify: Verifier, u: Utxos, tx: Transaction, fee: nat)
    ensures Validate(verify, u, tx) == Valid(fee)
       <==> && tx.inputs != [] && tx.outputs != [] && !SpendsTwice(tx.inputs) && !HasDust(tx.outputs)
            && SumOut(tx.outputs) % WORD <= MAX_SUPPLY
            && if IsCoinbase(tx) then fee == 0
               else Unlocks(verify, u, tx) && fee >= MINIMUM_FEE
                    && SumIn(u, tx.inputs) == SumOut(tx.outputs) + fee < WORD
  {
    hide SpendsTwice, HasDust, Unlocks;
    assert tx.inputs[..0] == [];
    ScanMeans(verify, u, tx, 0);
  }

  // ---------- effects ----------

  function Values(u: Utxos): map<OutPoint, int> { map p | p in u :: u[p].value }

  function CreatedOuts(txid: Hash32, outs: seq<TxOut>): Utxos {
    if outs == [] then map[]
    else CreatedOuts(txid, outs[..|outs| - 1])[OutPoint(txid, |outs| - 1) := outs[|outs| - 1]]
  }

  ghost function SpentPoints(ins: seq<TxIn>): set<OutPoint> {
    set i | 0 <= i < |ins| && !IsMarker(ins[i]) :: PointOf(ins[i])
  }

  /** The outputs are written first, then the inputs deleted; a coinbase marker deletes nothing. */
  ghost function ApplyTx(u: Utxos, txid: Hash32, tx: Transaction): Utxos {
    u + CreatedOuts(txid, tx.outputs) - SpentPoints(tx.inputs)
  }

  ghost function EffectOf(txid: Hash32, tx: Transaction): Effect<OutPoint> {
    Effect(Values(CreatedOuts(txid, tx.outputs)), SpentPoints(tx.inputs))
  }

  lemma ApplyIsEffect(u: Utxos, txid: Hash32, tx: Transaction)
    ensures Values(ApplyTx(u, txid, tx)) == Apply(Values(u), EffectOf(txid, tx))
  {
    var c, s := CreatedOuts(txid, tx.outputs), SpentPoints(tx.inputs);
    hide CreatedOuts, SpentPoints;
    assert Values(u + c - s) == Values(u) + Values(c) - s;
  }

  lemma {:induction false} CreatedPoints(txid: Hash32, outs: seq<TxOut>)
    ensures forall p :: p in CreatedOuts(txid, outs) <==> p.txid == txid && p.index < |outs|
  {
    if outs != [] { CreatedPoints(txid, outs[..|outs| - 1]); }
  }

  lemma {:induction false} CreatedValue(txid: Hash32, outs: seq<TxOut>)
    ensures Sum(Values(CreatedOuts(txid, outs))) == SumOut(outs)
    ensures NonNegative(Values(CreatedOuts(txid, outs)))
  {
    if outs == [] {
      assert Values(map[]) == map[];
    } else {
      var n := |outs| - 1;
      var before, p := CreatedOuts(txid, outs[..n]), OutPoint(txid, n);
      CreatedValue(txid, outs[..n]);
      CreatedPoints(txid, outs[..n]);
      assert Values(before[p := outs[n]]) == Values(before)[p := outs[n].value];
      SumUpdate(Values(before), p, outs[n].value);
    }
  }

  /** When the inputs are distinct, none is a marker, and all are there, what the effect spends is their sum. */
  lemma {:induction false} SpentIsSumIn(u: Utxos, ins: seq<TxIn>)
    requires !SpendsTwice(ins)
    requires forall i :: 0 <= i < |ins| ==> PointOf(ins[i]) in u && !IsMarker(ins[i])
    ensures SpentPoints(ins) <= Values(u).Keys
    ensures SpentValue(Values(u), SpentPoints(ins)) == SumIn(u, ins)
  {
    if ins == [] {
      assert SpentPoints(ins) == {};
      NothingSpent(Values(u), SpentPoints(ins));
    } else {
      var n := |ins| - 1;
      var s, p := SpentPoints(ins[..n]), PointOf(ins[n]);
      NotTwicePrefix(ins);
      SpentIsSumIn(u, ins[..n]);
      assert SpentPoints(ins) == s + {p};
      OneMoreSpent(Values(u), s, p);
    }
  }

  lemma NotTwicePrefix(ins: seq<TxIn>)
    requires !SpendsTwice(ins) && ins != []
    ensures !SpendsTwice(ins[..|ins| - 1])
    ensures !IsMarker(ins[|ins| - 1]) ==> PointOf(ins[|ins| - 1]) !in SpentPoints(ins[..|ins| - 1])
  {
    var n := |ins| - 1;
    assert forall i, j :: 0 <= i < j <= n ==> IsMarker(ins[i]) || IsMarker(ins[j]) || PointOf(ins[i]) != PointOf(ins[j]);
    assert forall i :: 0 <= i < n ==> ins[..n][i] == ins[i];
  }
}

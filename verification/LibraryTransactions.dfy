/** The library's transactions: its unspent outputs, its validation, and how that relates to the node's. */
module LibraryTransactions {
  import opened Bytes
  import opened TxEncoding
  import opened Sums
  import opened Validation

  datatype LibError = InvalidCoinbase | SpentTwice | KeyNotFound | InsufficientInput | Dust | FeeTooLow

  datatype LibVerdict = Accepted(fee: nat) | Rejected(error: LibError)

  ghost predicate Repeats(ins: seq<TxIn>, k: nat)
    requires k < |ins|
  {
    exists j :: 0 <= j < k && PointOf(ins[j]) == PointOf(ins[k])
  }

  /** The inputs from index k on, in order: seen before, missing, or too much for 64 bits. */
  ghost function InputScan(u: Utxos, ins: seq<TxIn>, k: nat, sum: nat): LibVerdict
    requires k <= |ins|
    decreases |ins| - k
  {
    if k == |ins| then Accepted(sum)
    else if Repeats(ins, k) then Rejected(SpentTwice)
    else if PointOf(ins[k]) !in u then Rejected(KeyNotFound)
    else if sum + u[PointOf(ins[k])].value >= WORD then Rejected(InsufficientInput)
    else InputScan(u, ins, k + 1, sum + u[PointOf(ins[k])].value)
  }

  function OutputScan(outs: seq<TxOut>, k: nat, sum: nat): LibVerdict
    requires k <= |outs|
    decreases |outs| - k
  {
    if k == |outs| then Accepted(sum)
    else if outs[k].value < DUST_LIMIT then Rejected(Dust)
    else if sum + outs[k].value >= WORD then Rejected(InsufficientInput)
    else OutputScan(outs, k + 1, sum + outs[k].value)
  }

  ghost function LibValidate(u: Utxos, tx: Transaction): LibVerdict {
    if IsCoinbase(tx) then
      if tx.outputs == [] || HasDust(tx.outputs) then Rejected(InvalidCoinbase) else Accepted(0)
    else
      match InputScan(u, tx.inputs, 0, 0)
      case Rejected(e) => Rejected(e)
      case Accepted(inSum) =>
        match OutputScan(tx.outputs, 0, 0)
        case Rejected(e) => Rejected(e)
        case Accepted(outSum) =>
          if inSum < outSum then Rejected(InsufficientInput)
          else if inSum - outSum < MINIMUM_FEE then Rejected(FeeTooLow)
          else Accepted(inSum - outSum)
  }

  ghost predicate NoRepeats(ins: seq<TxIn>) { forall k :: 0 <= k < |ins| ==> !Repeats(ins, k) }

  ghost predicate AllIn(u: Utxos, ins: seq<TxIn>) { forall k :: 0 <= k < |ins| ==> PointOf(ins[k]) in u }

  lemma {:induction false} InputScanMeans(u: Utxos, ins: seq<TxIn>, k: nat)
    requires k <= |ins| && SumIn(u, ins[..k]) < WORD
    requires forall i :: 0 <= i < k ==> !Repeats(ins, i) && PointOf(ins[i]) in u
    ensures var r := InputScan(u, ins, k, SumIn(u, ins[..k]));
      && (r.Accepted? <==> NoRepeats(ins) && AllIn(u, ins) && SumIn(u, ins) < WORD)
      && (r.Accepted? ==> r.fee == SumIn(u, ins))
    decreases |ins| - k
  {
    hide Repeats;
    if k == |ins| {
      assert ins[..k] == ins;
    } else {
      assert ins[..k + 1][..k] == ins[..k];
      SumInGrows(u, ins, k + 1);
      if !Repeats(ins, k) && PointOf(ins[k]) in u && SumIn(u, ins[..k]) + u[PointOf(ins[k])].value < WORD {
        InputScanMeans(u, ins, k + 1);
      }
    }
  }

  lemma {:induction false} OutputScanMeans(outs: seq<TxOut>, k: nat)
    requires k <= |outs| && SumOut(outs[..k]) < WORD
    requires forall i :: 0 <= i < k ==> outs[i].value >= DUST_LIMIT
    ensures var r := OutputScan(outs, k, SumOut(outs[..k]));
      && (r.Accepted? <==> !HasDust(outs) && SumOut(outs) < WORD)
      && (r.Accepted? ==> r.fee == SumOut(outs))
    decreases |outs| - k
  {
    if k == |outs| {
      assert outs[..k] == outs;
    } else {
      assert outs[..k + 1][..k] == outs[..k];
      SumOutGrows(outs, k + 1);
      if outs[k].value >= DUST_LIMIT && SumOut(outs[..k]) + outs[k].value < WORD {
        OutputScanMeans(outs, k + 1);
      }
    }
  }

  /** The library accepts an ordinary transaction exactly when its inputs are distinct and unspent, it makes no
      dust, and the fee, at least the minimum, is what they exceed its outputs by. */
  lemma LibValidIff(u: Utxos, tx: Transaction, fee: nat)
    requires !IsCoinbase(tx)
    ensures LibValidate(u, tx) == Accepted(fee)
       <==> NoRepeats(tx.inputs) && AllIn(u, tx.inputs) && !HasDust(tx.outputs) && fee >= MINIMUM_FEE
            && SumIn(u, tx.inputs) == SumOut(tx.outputs) + fee < WORD
  {
    hide NoRepeats, AllIn, HasDust;
    assert tx.inputs[..0] == [] && tx.outputs[..0] == [];
    InputScanMeans(u, tx.inputs, 0);
    OutputScanMeans(tx.outputs, 0);
  }

  /** A coinbase it accepts, at no fee, exactly when it has outputs, each of at least 100; and it names one error
      otherwise. */
  lemma LibCoinbaseIff(u: Utxos, tx: Transaction)
    requires IsCoinbase(tx)
    ensures LibValidate(u, tx)
         == if tx.outputs != [] && (forall i :: 0 <= i < |tx.outputs| ==> tx.outputs[i].value >= 100) then Accepted(0)
            else Rejected(InvalidCoinbase)
  {
  }

  lemma RepeatsIsTwice(u: Utxos, ins: seq<TxIn>)
    requires AllIn(u, ins) && OutPoint(ZeroHash(), MARKER_INDEX) !in u
    ensures NoRepeats(ins) <==> !SpendsTwice(ins)
  {
    assert forall i :: 0 <= i < |ins| ==> PointOf(ins[i]) in u && !IsMarker(ins[i]);
    if NoRepeats(ins) {
      forall i, j | 0 <= i < j < |ins| ensures PointOf(ins[i]) != PointOf(ins[j]) {
        assert !Repeats(ins, j);
      }
    }
  }

  /** The node accepts an ordinary transaction, at the same fee, exactly when the library does and, which only the
      node asks for, there is an output, the outputs are within the supply and every input is unlocked. */
  lemma NodeIsStricter(verify: Verifier, u: Utxos, tx: Transaction, fee: nat)
    requires !IsCoinbase(tx) && OutPoint(ZeroHash(), MARKER_INDEX) !in u
    ensures Validate(verify, u, tx) == Valid(fee)
       <==> LibValidate(u, tx) == Accepted(fee) && tx.outputs != [] && SumOut(tx.outputs) <= MAX_SUPPLY
            && Unlocks(verify, u, tx)
  {
    hide NoRepeats, SpendsTwice, HasDust, Validate, LibValidate;
    ValidIff(verify, u, tx, fee);
    LibValidIff(u, tx, fee);
    if AllIn(u, tx.inputs) { RepeatsIsTwice(u, tx.inputs); }
    assert SumIn(u, []) == 0;
    assert Unlocks(verify, u, tx) ==> AllIn(u, tx.inputs);
  }

  // ---------- the set of unspent outputs ----------

  ghost function Matching(u: Utxos, address: seq<byte>): map<OutPoint, int> {
    map p | p in u && u[p].scriptPubkey == address :: u[p].value
  }

  ghost function Balance(u: Utxos, address: seq<byte>): int { Sum(Matching(u, address)) }

  /** Adding an output raises the balance of its own script and of no other; spending it takes that back. */
  lemma BalanceMoves(u: Utxos, p: OutPoint, o: TxOut, address: seq<byte>)
    requires p !in u
    ensures Balance(u[p := o], address) == Balance(u, address) + if o.scriptPubkey == address then o.value else 0
    ensures u[p := o] - {p} == u
  {
    var m := Matching(u, address);
    assert u[p := o] - {p} == u;
    if o.scriptPubkey == address {
      assert Matching(u[p := o], address) == m[p := o.value];
      SumUpdate(m, p, o.value);
    } else {
      assert Matching(u[p := o], address) == m;
    }
  }

  class UTXOSet {
    var utxos: Utxos

    constructor ()
      ensures utxos == map[]
    {
      utxos := map[];
    }

    method AddOutput(txid: Hash32, index: u32, output: TxOut)
      modifies this
      ensures utxos == old(utxos)[OutPoint(txid, index) := output]
    {
      utxos := utxos[OutPoint(txid, index) := output];
    }

    method SpendInput(txid: Hash32, index: u32) returns (spent: Option<TxOut>)
      modifies this
      ensures var p := OutPoint(txid, index);
        && utxos == old(utxos) - {p}
        && spent == if p in old(utxos) then Some(old(utxos)[p]) else None
    {
      var p := OutPoint(txid, index);
      if p !in utxos { return None; }
      spent := Some(utxos[p]);
      utxos := utxos - {p};
    }

    /** The sum over the outputs with the given script, in any order; it wraps around at 64 bits. */
    method GetBalance(address: seq<byte>) returns (sum: nat)
      ensures sum == Balance(utxos, address) % WORD
    {
      hide Sum;
      sum := 0;
      var rest := utxos.Keys;
      ghost var done: map<OutPoint, int> := map[];
      SumOfNothing();
      while rest != {}
        invariant rest <= utxos.Keys && done == Matching(utxos, address) - rest
        invariant sum == Sum(done) % WORD
        decreases |rest|
      {
        var p :| p in rest;
        if utxos[p].scriptPubkey == address {
          SumUpdate(done, p, utxos[p].value);
          WrapAddInt(Sum(done), utxos[p].value);
          done := done[p := utxos[p].value];
          sum := (sum + utxos[p].value) % WORD;
        }
        rest := rest - {p};
      }
      assert done == Matching(utxos, address);
    }

    method Validate(tx: Transaction) returns (v: LibVerdict)
      ensures v == LibValidate(utxos, tx)
    {
      if IsCoinbase(tx) {
        if tx.outputs == [] { return Rejected(InvalidCoinbase); }
        for i := 0 to |tx.outputs|
          invariant forall k :: 0 <= k < i ==> tx.outputs[k].value >= DUST_LIMIT
        {
          if tx.outputs[i].value < DUST_LIMIT { return Rejected(InvalidCoinbase); }
        }
        return Accepted(0);
      }
      var seen: set<OutPoint> := {};
      var inputSum: nat := 0;
      for i := 0 to |tx.inputs|
        invariant seen == set k | 0 <= k < i :: PointOf(tx.inputs[k])
        invariant InputScan(utxos, tx.inputs, i, inputSum) == InputScan(utxos, tx.inputs, 0, 0)
      {
        var p := PointOf(tx.inputs[i]);
        assert p in seen <==> Repeats(tx.inputs, i);
        if p in seen { return Rejected(SpentTwice); }
        seen := seen + {p};
        if p !in utxos { return Rejected(KeyNotFound); }
        if inputSum + utxos[p].value >= WORD { return Rejected(InsufficientInput); }
        inputSum := inputSum + utxos[p].value;
      }
      var outputSum: nat := 0;
      for i := 0 to |tx.outputs|
        invariant OutputScan(tx.outputs, i, outputSum) == OutputScan(tx.outputs, 0, 0)
      {
        if tx.outputs[i].value < DUST_LIMIT { return Rejected(Dust); }
        if outputSum + tx.outputs[i].value >= WORD { return Rejected(InsufficientInput); }
        outputSum := outputSum + tx.outputs[i].value;
      }
      if inputSum < outputSum { return Rejected(InsufficientInput); }
      if inputSum - outputSum < MINIMUM_FEE { return Rejected(FeeTooLow); }
      return Accepted(inputSum - outputSum);
    }
  }

  lemma SumOfNothing()
    ensures Sum<OutPoint>(map[]) == 0
  {
  }

  lemma WrapAddInt(a: int, b: int)
    ensures (a % WORD + b) % WORD == (a + b) % WORD
  {
  }
}

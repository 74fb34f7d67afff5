/** Transactions and the byte strings that are hashed for their identifiers and signatures. */
module TxEncoding {
  import opened Bytes

  datatype TxOut = TxOut(value: u64, scriptPubkey: seq<byte>)
  datatype TxIn = TxIn(prevTxid: Hash32, prevIndex: u32, scriptSig: seq<byte>, sequence: u32)
  datatype Transaction = Transaction(version: u32, inputs: seq<TxIn>, outputs: seq<TxOut>, locktime: u32)

  // Each encoder takes the bytes that follow. Length prefixes are `width` bytes: 4 in the node, 8 in the
  // library; a longer list keeps only the low bytes of its length.

  function EncodeIn(i: TxIn, width: nat, rest: seq<byte>): seq<byte> {
    i.prevTxid + (LE(i.prevIndex, 4) + (LE(|i.scriptSig|, width) + (i.scriptSig + (LE(i.sequence, 4) + rest))))
  }

  function EncodeOut(o: TxOut, width: nat, rest: seq<byte>): seq<byte> {
    LE(o.value, 8) + (LE(|o.scriptPubkey|, width) + (o.scriptPubkey + rest))
  }

  function EncodeIns(ins: seq<TxIn>, width: nat, rest: seq<byte>): seq<byte> {
    if ins == [] then rest else EncodeIn(ins[0], width, EncodeIns(ins[1..], width, rest))
  }

  function EncodeOuts(outs: seq<TxOut>, width: nat, rest: seq<byte>): seq<byte> {
    if outs == [] then rest else EncodeOut(outs[0], width, EncodeOuts(outs[1..], width, rest))
  }

  function OutputSection(tx: Transaction, width: nat, rest: seq<byte>): seq<byte> {
    LE(|tx.outputs|, width) + EncodeOuts(tx.outputs, width, LE(tx.locktime, 4) + rest)
  }

  function EncodeTx(tx: Transaction, width: nat, rest: seq<byte>): seq<byte> {
    LE(tx.version, 4) + (LE(|tx.inputs|, width) + EncodeIns(tx.inputs, width, OutputSection(tx, width, rest)))
  }

  /** Every list and script is short enough for its length prefix. */
  ghost predicate Fits(tx: Transaction, width: nat) {
    && |tx.inputs| < Pow256(width) && |tx.outputs| < Pow256(width)
    && (forall i :: 0 <= i < |tx.inputs| ==> |tx.inputs[i].scriptSig| < Pow256(width))
    && (forall i :: 0 <= i < |tx.outputs| ==> |tx.outputs[i].scriptPubkey| < Pow256(width))
  }

  // ---------- the encoding is prefix-free ----------

  lemma SameHead(a: seq<byte>, b: seq<byte>, r: seq<byte>, s: seq<byte>)
    requires |a| == |b| && a + r == b + s
    ensures a == b && r == s
  {
    assert a == (a + r)[..|a|] && b == (b + s)[..|a|];
    assert r == (a + r)[|a|..] && s == (b + s)[|a|..];
  }

  /** A number in front determines itself and what follows. */
  lemma SameNumber(m: nat, n: nat, k: nat, r: seq<byte>, s: seq<byte>)
    requires m < Pow256(k) && n < Pow256(k) && LE(m, k) + r == LE(n, k) + s
    ensures m == n && r == s
  {
    SameHead(LE(m, k), LE(n, k), r, s);
    LEInjective(m, n, k);
  }

  lemma SameScript(a: seq<byte>, b: seq<byte>, width: nat, r: seq<byte>, s: seq<byte>)
    requires |a| < Pow256(width) && |b| < Pow256(width)
    requires LE(|a|, width) + (a + r) == LE(|b|, width) + (b + s)
    ensures a == b && r == s
  {
    SameNumber(|a|, |b|, width, a + r, b + s);
    SameHead(a, b, r, s);
  }

  lemma SameIn(a: TxIn, b: TxIn, width: nat, r: seq<byte>, s: seq<byte>)
    requires |a.scriptSig| < Pow256(width) && |b.scriptSig| < Pow256(width)
    requires EncodeIn(a, width, r) == EncodeIn(b, width, s)
    ensures a == b && r == s
  {
    Pow256Values();
    var ra, rb := LE(a.sequence, 4) + r, LE(b.sequence, 4) + s;
    var sa, sb := LE(|a.scriptSig|, width) + (a.scriptSig + ra), LE(|b.scriptSig|, width) + (b.scriptSig + rb);
    SameHead(a.prevTxid, b.prevTxid, LE(a.prevIndex, 4) + sa, LE(b.prevIndex, 4) + sb);
    SameNumber(a.prevIndex, b.prevIndex, 4, sa, sb);
    SameScript(a.scriptSig, b.scriptSig, width, ra, rb);
    SameNumber(a.sequence, b.sequence, 4, r, s);
  }

  lemma SameOut(a: TxOut, b: TxOut, width: nat, r: seq<byte>, s: seq<byte>)
    requires |a.scriptPubkey| < Pow256(width) && |b.scriptPubkey| < Pow256(width)
    requires EncodeOut(a, width, r) == EncodeOut(b, width, s)
    ensures a == b && r == s
  {
    Pow256Values();
    SameNumber(a.value, b.value, 8, LE(|a.scriptPubkey|, width) + (a.scriptPubkey + r),
               LE(|b.scriptPubkey|, width) + (b.scriptPubkey + s));
    SameScript(a.scriptPubkey, b.scriptPubkey, width, r, s);
  }

  lemma {:induction false} SameIns(a: seq<TxIn>, b: seq<TxIn>, width: nat, r: seq<byte>, s: seq<byte>)
    requires |a| == |b|
    requires forall i :: 0 <= i < |a| ==> |a[i].scriptSig| < Pow256(width)
    requires forall i :: 0 <= i < |b| ==> |b[i].scriptSig| < Pow256(width)
    requires EncodeIns(a, width, r) == EncodeIns(b, width, s)
    ensures a == b && r == s
  {
    if a != [] {
      SameIn(a[0], b[0], width, EncodeIns(a[1..], width, r), EncodeIns(b[1..], width, s));
      SameIns(a[1..], b[1..], width, r, s);
      assert a == [a[0]] + a[1..] && b == [b[0]] + b[1..];
    }
  }

  lemma {:induction false} SameOuts(a: seq<TxOut>, b: seq<TxOut>, width: nat, r: seq<byte>, s: seq<byte>)
    requires |a| == |b|
    requires forall i :: 0 <= i < |a| ==> |a[i].scriptPubkey| < Pow256(width)
    requires forall i :: 0 <= i < |b| ==> |b[i].scriptPubkey| < Pow256(width)
    requires EncodeOuts(a, width, r) == EncodeOuts(b, width, s)
    ensures a == b && r == s
  {
    if a != [] {
      SameOut(a[0], b[0], width, EncodeOuts(a[1..], width, r), EncodeOuts(b[1..], width, s));
      SameOuts(a[1..], b[1..], width, r, s);
      assert a == [a[0]] + a[1..] && b == [b[0]] + b[1..];
    }
  }

  /** No transaction's encoding is a prefix of another's: the bytes determine the transaction and whatever
      follows it. */
  lemma TxPrefixFree(a: Transaction, b: Transaction, width: nat, r: seq<byte>, s: seq<byte>)
    requires Fits(a, width) && Fits(b, width)
    requires EncodeTx(a, width, r) == EncodeTx(b, width, s)
    ensures a == b && r == s
  {
    Pow256Values();
    var la, lb := LE(a.locktime, 4) + r, LE(b.locktime, 4) + s;
    var oa, ob := OutputSection(a, width, r), OutputSection(b, width, s);
    var ia, ib := EncodeIns(a.inputs, width, oa), EncodeIns(b.inputs, width, ob);
    SameNumber(a.version, b.version, 4, LE(|a.inputs|, width) + ia, LE(|b.inputs|, width) + ib);
    SameNumber(|a.inputs|, |b.inputs|, width, ia, ib);
    SameIns(a.inputs, b.inputs, width, oa, ob);
    SameNumber(|a.outputs|, |b.outputs|, width, EncodeOuts(a.outputs, width, la), EncodeOuts(b.outputs, width, lb));
    SameOuts(a.outputs, b.outputs, width, la, lb);
    SameNumber(a.locktime, b.locktime, 4, r, s);
  }

  function TxidPreimage(tx: Transaction, width: nat): seq<byte> { EncodeTx(tx, width, []) }

  /** Equal identifier preimages come from equal transactions. */
  lemma TxidPreimageInjective(a: Transaction, b: Transaction, width: nat)
    requires Fits(a, width) && Fits(b, width)
    ensures TxidPreimage(a, width) == TxidPreimage(b, width) <==> a == b
  {
    if TxidPreimage(a, width) == TxidPreimage(b, width) {
      TxPrefixFree(a, b, width, [], []);
    }
  }

  // ---------- signature preimages ----------

  function BlankIns(ins: seq<TxIn>, index: nat): (blank: seq<TxIn>)
    ensures |blank| == |ins|
  {
    if index < |ins| then ins[index := ins[index].(scriptSig := [])] else ins
  }

  /** The transaction without the unlocking script of one input (index past the end: unchanged). */
  function Blanked(tx: Transaction, index: nat): Transaction { tx.(inputs := BlankIns(tx.inputs, index)) }

  /** It is followed by the four-byte signature kind. */
  function SighashPreimage(tx: Transaction, index: nat): seq<byte> { EncodeTx(Blanked(tx, index), 4, LE(1, 4)) }

  lemma Assoc(a: seq<byte>, b: seq<byte>, c: seq<byte>)
    ensures (a + b) + c == a + (b + c)
  {
  }

  /** Appending the chosen encoding of one input to the buffer moves it out of what is still to come. */
  lemma AppendIn(data: seq<byte>, i: TxIn, rest: seq<byte>)
    ensures (data + i.prevTxid + LE(i.prevIndex, 4) + LE(|i.scriptSig|, 4) + i.scriptSig + LE(i.sequence, 4)) + rest
         == data + EncodeIn(i, 4, rest)
  {
    var s := LE(i.sequence, 4);
    var d1 := data + i.prevTxid;
    var d2 := d1 + LE(i.prevIndex, 4);
    var d3 := d2 + LE(|i.scriptSig|, 4);
    Assoc(d3 + i.scriptSig, s, rest);
    Assoc(d3, i.scriptSig, s + rest);
    Assoc(d2, LE(|i.scriptSig|, 4), i.scriptSig + (s + rest));
    Assoc(d1, LE(i.prevIndex, 4), LE(|i.scriptSig|, 4) + (i.scriptSig + (s + rest)));
    Assoc(data, i.prevTxid, LE(i.prevIndex, 4) + (LE(|i.scriptSig|, 4) + (i.scriptSig + (s + rest))));
  }

  lemma AppendOut(data: seq<byte>, o: TxOut, rest: seq<byte>)
    ensures (data + LE(o.value, 8) + LE(|o.scriptPubkey|, 4) + o.scriptPubkey) + rest == data + EncodeOut(o, 4, rest)
  {
    var d1 := data + LE(o.value, 8);
    Assoc(d1 + LE(|o.scriptPubkey|, 4), o.scriptPubkey, rest);
    Assoc(d1, LE(|o.scriptPubkey|, 4), o.scriptPubkey + rest);
    Assoc(data, LE(o.value, 8), LE(|o.scriptPubkey|, 4) + (o.scriptPubkey + rest));
  }

  method AppendInputs(prefix: seq<byte>, ins: seq<TxIn>, index: nat, ghost rest: seq<byte>) returns (data: seq<byte>)
    ensures data + rest == prefix + EncodeIns(BlankIns(ins, index), 4, rest)
  {
    data := prefix;
    ghost var blank := BlankIns(ins, index);
    for i := 0 to |ins|
      invariant data + EncodeIns(blank[i..], 4, rest) == prefix + EncodeIns(blank, 4, rest)
    {
      var input := ins[i];
      ghost var before := data;
      data := data + input.prevTxid;
      data := data + LE(input.prevIndex, 4);
      if i == index {
        data := data + LE(0, 4);
        assert data + [] == data;
      } else {
        data := data + LE(|input.scriptSig|, 4);
        data := data + input.scriptSig;
      }
      data := data + LE(input.sequence, 4);
      AppendIn(before, blank[i], EncodeIns(blank[i + 1..], 4, rest));
      assert blank[i..][1..] == blank[i + 1..];
    }
    assert blank[|ins|..] == [];
  }

  method AppendOutputs(prefix: seq<byte>, outs: seq<TxOut>, ghost rest: seq<byte>) returns (data: seq<byte>)
    ensures data + rest == prefix + EncodeOuts(outs, 4, rest)
  {
    data := prefix;
    for i := 0 to |outs|
      invariant data + EncodeOuts(outs[i..], 4, rest) == prefix + EncodeOuts(outs, 4, rest)
    {
      AppendOut(data, outs[i], EncodeOuts(outs[i + 1..], 4, rest));
      data := data + LE(outs[i].value, 8);
      data := data + LE(|outs[i].scriptPubkey|, 4);
      data := data + outs[i].scriptPubkey;
      assert outs[i..][1..] == outs[i + 1..];
    }
  }

  /** The node builds the signature preimage in one pass over a growing buffer, writing a zero length for the
      chosen input only. */
  method BuildSighashPreimage(tx: Transaction, index: nat) returns (data: seq<byte>)
    ensures data == SighashPreimage(tx, index)
  {
    ghost var blank := tx.(inputs := BlankIns(tx.inputs, index));
    ghost var last := LE(tx.locktime, 4) + LE(1, 4);
    var head := LE(tx.version, 4) + LE(|tx.inputs|, 4);
    var body := AppendInputs(head, tx.inputs, index, OutputSection(blank, 4, LE(1, 4)));
    Assoc(LE(tx.version, 4), LE(|tx.inputs|, 4), EncodeIns(blank.inputs, 4, OutputSection(blank, 4, LE(1, 4))));
    var outs := AppendOutputs(body + LE(|tx.outputs|, 4), tx.outputs, last);
    Assoc(body, LE(|tx.outputs|, 4), EncodeOuts(tx.outputs, 4, last));
    data := outs + LE(tx.locktime, 4);
    data := data + LE(1, 4);
    Assoc(outs, LE(tx.locktime, 4), LE(1, 4));
  }

  /** Equal signature preimages at one index: the transactions agree on everything except that input's
      unlocking script. */
  lemma SighashBinds(a: Transaction, b: Transaction, index: nat)
    requires Fits(a, 4) && Fits(b, 4)
    ensures SighashPreimage(a, index) == SighashPreimage(b, index)
       <==> && a.version == b.version && a.locktime == b.locktime && a.outputs == b.outputs
            && BlankIns(a.inputs, index) == BlankIns(b.inputs, index)
  {
    hide Fits, EncodeTx, BlankIns, LE;
    BlankFits(a, index);
    BlankFits(b, index);
    if SighashPreimage(a, index) == SighashPreimage(b, index) {
      TxPrefixFree(Blanked(a, index), Blanked(b, index), 4, LE(1, 4), LE(1, 4));
    }
  }

  lemma BlankFits(tx: Transaction, index: nat)
    requires Fits(tx, 4)
    ensures Fits(Blanked(tx, index), 4)
  {
    hide Pow256;
    Pow256Values();
  }

  /** What agreement after blanking means: the same inputs, except for the unlocking script at the index. */
  lemma BlankAgreement(a: seq<TxIn>, b: seq<TxIn>, index: nat)
    ensures BlankIns(a, index) == BlankIns(b, index)
       <==> && |a| == |b|
            && (forall i :: 0 <= i < |a| && i != index ==> a[i] == b[i])
            && (index < |a| == |b| ==> a[index].(scriptSig := b[index].scriptSig) == b[index])
  {
    var x, y := BlankIns(a, index), BlankIns(b, index);
    if |a| == |b| {
      assert forall i :: 0 <= i < |a| && i != index ==> x[i] == a[i] && y[i] == b[i];
      assert index < |a| ==>
        (x[index] == y[index] <==> a[index].(scriptSig := b[index].scriptSig) == b[index]);
    }
  }
}

/** Where every byte of the node's encodings is, and which byte it is. */
module Layouts {
  import opened Bytes
  import opened Codec
  import opened TxEncoding
  import opened Blocks

  /** The k bytes at place p are the number n with its low byte first. */
  ghost predicate Number(s: seq<byte>, p: nat, k: nat, n: nat) {
    p + k <= |s| && forall i :: 0 <= i < k ==> s[p + i] == n / Pow256(i) % 256
  }

  /** The bytes x are at place p. */
  ghost predicate Has(s: seq<byte>, p: nat, x: seq<byte>) {
    p + |x| <= |s| && s[p..p + |x|] == x
  }

  lemma DivTwice(n: nat, p: nat)
    requires p > 0
    ensures n / 256 / p == n / (256 * p)
  {
    var q, high, low := n / 256 / p, n / 256 % p, n % 256;
    MulAssoc(256, p, q);
    assert n / 256 == p * q + high;
    assert n == 256 * p * q + (256 * high + low);
    DivOf(256 * p, q, 256 * high + low);
  }

  lemma DivOf(p: nat, q: nat, r: nat)
    requires r < p
    ensures (p * q + r) / p == q
  {
    var n := p * q + r;
    SameQuotient(p, q, n / p, r, n % p);
  }

  lemma SameQuotient(p: nat, q: int, d: int, r: nat, m: nat)
    requires r < p && m < p && p * q + r == p * d + m
    ensures q == d
  {
    if q > d { AtLeastOnce(p, q, d); }
    if d > q { AtLeastOnce(p, d, q); }
  }

  lemma AtLeastOnce(p: nat, a: int, b: int)
    requires a > b
    ensures p * a >= p * b + p
  {
    assert p * a == p * b + p + p * (a - b - 1);
  }

  lemma {:induction false} ByteOfNumber(n: nat, k: nat, i: nat)
    requires i < k
    ensures LE(n, k)[i] == n / Pow256(i) % 256
    decreases k
  {
    if i > 0 {
      ByteOfNumber(n / 256, k - 1, i - 1);
      DivTwice(n, Pow256(i - 1));
    }
  }

  /** What the encoders write for a number. */
  lemma NumberAt(s: seq<byte>, p: nat, k: nat, n: nat)
    requires Has(s, p, LE(n, k))
    ensures Number(s, p, k, n)
  {
    forall i | 0 <= i < k ensures s[p + i] == n / Pow256(i) % 256 {
      ByteOfNumber(n, k, i);
      assert s[p..p + k][i] == s[p + i];
    }
  }

  // ---------- transactions ----------

  /** The length of an encoded input and output, with length prefixes of w bytes. */
  function InLength(i: TxIn, w: nat): nat { 32 + 4 + w + |i.scriptSig| + 4 }
  function OutLength(o: TxOut, w: nat): nat { 8 + w + |o.scriptPubkey| }

  function InsLength(ins: seq<TxIn>, w: nat, k: nat): nat
    requires k <= |ins|
  {
    if k == 0 then 0 else InsLength(ins, w, k - 1) + InLength(ins[k - 1], w)
  }

  function OutsLength(outs: seq<TxOut>, w: nat, k: nat): nat
    requires k <= |outs|
  {
    if k == 0 then 0 else OutsLength(outs, w, k - 1) + OutLength(outs[k - 1], w)
  }

  /** An input at place p: the output it spends, the length and the bytes of its script, and its sequence number. */
  ghost predicate InAt(s: seq<byte>, p: nat, i: TxIn, w: nat) {
    && Has(s, p, i.prevTxid) && Number(s, p + 32, 4, i.prevIndex)
    && Number(s, p + 36, w, |i.scriptSig|) && Has(s, p + 36 + w, i.scriptSig)
    && Number(s, p + 36 + w + |i.scriptSig|, 4, i.sequence)
  }

  /** An output at place p: its value, and the length and the bytes of its script. */
  ghost predicate OutAt(s: seq<byte>, p: nat, o: TxOut, w: nat) {
    Number(s, p, 8, o.value) && Number(s, p + 8, w, |o.scriptPubkey|) && Has(s, p + 8 + w, o.scriptPubkey)
  }

  ghost predicate InsAt(s: seq<byte>, p: nat, ins: seq<TxIn>, w: nat) {
    forall k :: 0 <= k < |ins| ==> InAt(s, p + InsLength(ins, w, k), ins[k], w)
  }

  ghost predicate OutsAt(s: seq<byte>, p: nat, outs: seq<TxOut>, w: nat) {
    forall k :: 0 <= k < |outs| ==> OutAt(s, p + OutsLength(outs, w, k), outs[k], w)
  }

  /** Where the number of outputs is, and where the lock time is. */
  function OutputsPlace(tx: Transaction, w: nat): nat { 4 + w + InsLength(tx.inputs, w, |tx.inputs|) }
  function LockPlace(tx: Transaction, w: nat): nat {
    OutputsPlace(tx, w) + w + OutsLength(tx.outputs, w, |tx.outputs|)
  }

  /** A transaction at the beginning: the version, the inputs behind their number, the outputs behind theirs, and the
      lock time. */
  ghost predicate TxAt(s: seq<byte>, tx: Transaction, w: nat) {
    && Number(s, 0, 4, tx.version)
    && Number(s, 4, w, |tx.inputs|) && InsAt(s, 4 + w, tx.inputs, w)
    && Number(s, OutputsPlace(tx, w), w, |tx.outputs|) && OutsAt(s, OutputsPlace(tx, w) + w, tx.outputs, w)
    && Number(s, LockPlace(tx, w), 4, tx.locktime)
  }

  /** From place p on, the string is t. */
  ghost predicate From(s: seq<byte>, p: nat, t: seq<byte>) {
    p <= |s| && s[p..] == t
  }

  lemma Ahead(s: seq<byte>, p: nat, x: seq<byte>, t: seq<byte>)
    requires From(s, p, x + t)
    ensures Has(s, p, x) && From(s, p + |x|, t)
  {
    assert s[p..][..|x|] == x && s[p..][|x|..] == t;
    assert s[p..p + |x|] == s[p..][..|x|];
  }

  lemma NumberAhead(s: seq<byte>, p: nat, k: nat, n: nat, t: seq<byte>)
    requires From(s, p, LE(n, k) + t)
    ensures Number(s, p, k, n) && From(s, p + k, t)
  {
    Ahead(s, p, LE(n, k), t);
    NumberAt(s, p, k, n);
  }

  lemma InAhead(s: seq<byte>, p: nat, i: TxIn, w: nat, t: seq<byte>)
    requires From(s, p, EncodeIn(i, w, t))
    ensures InAt(s, p, i, w) && From(s, p + InLength(i, w), t)
  {
    hide Number, Has, From;
    var afterScript := LE(i.sequence, 4) + t;
    var atScript := LE(|i.scriptSig|, w) + (i.scriptSig + afterScript);
    Ahead(s, p, i.prevTxid, LE(i.prevIndex, 4) + atScript);
    NumberAhead(s, p + 32, 4, i.prevIndex, atScript);
    NumberAhead(s, p + 36, w, |i.scriptSig|, i.scriptSig + afterScript);
    Ahead(s, p + 36 + w, i.scriptSig, afterScript);
    NumberAhead(s, p + 36 + w + |i.scriptSig|, 4, i.sequence, t);
  }

  lemma OutAhead(s: seq<byte>, p: nat, o: TxOut, w: nat, t: seq<byte>)
    requires From(s, p, EncodeOut(o, w, t))
    ensures OutAt(s, p, o, w) && From(s, p + OutLength(o, w), t)
  {
    hide Number, Has, From;
    NumberAhead(s, p, 8, o.value, LE(|o.scriptPubkey|, w) + (o.scriptPubkey + t));
    NumberAhead(s, p + 8, w, |o.scriptPubkey|, o.scriptPubkey + t);
    Ahead(s, p + 8 + w, o.scriptPubkey, t);
  }

  lemma FirstIn(s: seq<byte>, p: nat, ins: seq<TxIn>, w: nat, t: seq<byte>)
    requires ins != [] && From(s, p, EncodeIns(ins, w, t))
    ensures InAt(s, p, ins[0], w) && From(s, p + InLength(ins[0], w), EncodeIns(ins[1..], w, t))
  {
    hide InAt, From, InLength, EncodeIn;
    InAhead(s, p, ins[0], w, EncodeIns(ins[1..], w, t));
  }

  lemma InsLengthIs(ins: seq<TxIn>, w: nat, k: nat)
    requires k <= |ins|
    ensures InsLength(ins, w, k) == if k == 0 then 0 else InsLength(ins, w, k - 1) + InLength(ins[k - 1], w)
  {
  }

  /** Behind k inputs the others follow. */
  lemma {:induction false} InsAhead(s: seq<byte>, p: nat, ins: seq<TxIn>, w: nat, t: seq<byte>, k: nat)
    requires From(s, p, EncodeIns(ins, w, t)) && k <= |ins|
    ensures From(s, p + InsLength(ins, w, k), EncodeIns(ins[k..], w, t))
    ensures forall j :: 0 <= j < k ==> InAt(s, p + InsLength(ins, w, j), ins[j], w)
  {
    hide InAt, From, EncodeIns, InLength, InsLength;
    InsLengthIs(ins, w, k);
    if k == 0 {
      assert ins[0..] == ins;
    } else {
      InsAhead(s, p, ins, w, t, k - 1);
      var left := ins[k - 1..];
      assert left[0] == ins[k - 1] && left[1..] == ins[k..];
      FirstIn(s, p + InsLength(ins, w, k - 1), left, w, t);
    }
  }

  lemma FirstOut(s: seq<byte>, p: nat, outs: seq<TxOut>, w: nat, t: seq<byte>)
    requires outs != [] && From(s, p, EncodeOuts(outs, w, t))
    ensures OutAt(s, p, outs[0], w) && From(s, p + OutLength(outs[0], w), EncodeOuts(outs[1..], w, t))
  {
    hide OutAt, From, OutLength, EncodeOut;
    OutAhead(s, p, outs[0], w, EncodeOuts(outs[1..], w, t));
  }

  lemma OutsLengthIs(outs: seq<TxOut>, w: nat, k: nat)
    requires k <= |outs|
    ensures OutsLength(outs, w, k) == if k == 0 then 0 else OutsLength(outs, w, k - 1) + OutLength(outs[k - 1], w)
  {
  }

  /** Behind k outputs the others follow. */
  lemma {:induction false} OutsAhead(s: seq<byte>, p: nat, outs: seq<TxOut>, w: nat, t: seq<byte>, k: nat)
    requires From(s, p, EncodeOuts(outs, w, t)) && k <= |outs|
    ensures From(s, p + OutsLength(outs, w, k), EncodeOuts(outs[k..], w, t))
    ensures forall j :: 0 <= j < k ==> OutAt(s, p + OutsLength(outs, w, j), outs[j], w)
  {
    hide OutAt, From, EncodeOuts, OutLength, OutsLength;
    OutsLengthIs(outs, w, k);
    if k == 0 {
      assert outs[0..] == outs;
    } else {
      OutsAhead(s, p, outs, w, t, k - 1);
      var left := outs[k - 1..];
      assert left[0] == outs[k - 1] && left[1..] == outs[k..];
      FirstOut(s, p + OutsLength(outs, w, k - 1), left, w, t);
    }
  }

  lemma AllInsAhead(s: seq<byte>, p: nat, ins: seq<TxIn>, w: nat, t: seq<byte>)
    requires From(s, p, EncodeIns(ins, w, t))
    ensures InsAt(s, p, ins, w) && From(s, p + InsLength(ins, w, |ins|), t)
  {
    hide From, InAt, InsLength;
    InsAhead(s, p, ins, w, t, |ins|);
    assert EncodeIns(ins[|ins|..], w, t) == t;
  }

  lemma AllOutsAhead(s: seq<byte>, p: nat, outs: seq<TxOut>, w: nat, t: seq<byte>)
    requires From(s, p, EncodeOuts(outs, w, t))
    ensures OutsAt(s, p, outs, w) && From(s, p + OutsLength(outs, w, |outs|), t)
  {
    hide From, OutAt, OutsLength;
    OutsAhead(s, p, outs, w, t, |outs|);
    assert EncodeOuts(outs[|outs|..], w, t) == t;
  }

  lemma EncodedTxAt(s: seq<byte>, tx: Transaction, w: nat, t: seq<byte>)
    requires s == EncodeTx(tx, w, t)
    ensures TxAt(s, tx, w) && From(s, LockPlace(tx, w) + 4, t)
  {
    hide From, Number, InsAt, OutsAt, EncodeIns, EncodeOuts, InsLength, OutsLength;
    var outs := EncodeOuts(tx.outputs, w, LE(tx.locktime, 4) + t);
    var ins := EncodeIns(tx.inputs, w, LE(|tx.outputs|, w) + outs);
    Whole(s);
    NumberAhead(s, 0, 4, tx.version, LE(|tx.inputs|, w) + ins);
    NumberAhead(s, 4, w, |tx.inputs|, ins);
    AllInsAhead(s, 4 + w, tx.inputs, w, LE(|tx.outputs|, w) + outs);
    NumberAhead(s, OutputsPlace(tx, w), w, |tx.outputs|, outs);
    AllOutsAhead(s, OutputsPlace(tx, w) + w, tx.outputs, w, LE(tx.locktime, 4) + t);
    NumberAhead(s, LockPlace(tx, w), 4, tx.locktime, t);
  }

  lemma Whole(s: seq<byte>)
    ensures From(s, 0, s)
  {
  }

  /** The bytes hashed for an identifier, with four-byte or eight-byte length prefixes: every field at its place, and
      nothing behind the lock time. */
  lemma TxidLayout(tx: Transaction, w: nat)
    ensures TxAt(TxidPreimage(tx, w), tx, w) && |TxidPreimage(tx, w)| == LockPlace(tx, w) + 4
  {
    EncodedTxAt(TxidPreimage(tx, w), tx, w, []);
  }

  /** The bytes hashed for the signature of an input: those of the transaction with an empty script in this input, and
      the signature kind 1 in four more bytes. */
  lemma SighashLayout(tx: Transaction, index: nat, signed: Transaction)
    requires signed == tx.(inputs := signed.inputs) && |signed.inputs| == |tx.inputs|
    requires forall k :: 0 <= k < |tx.inputs| ==>
      signed.inputs[k] == if k == index then tx.inputs[k].(scriptSig := []) else tx.inputs[k]
    ensures var s := SighashPreimage(tx, index);
      && TxAt(s, signed, 4) && |s| == LockPlace(signed, 4) + 8
      && s[LockPlace(signed, 4) + 4..] == [1, 0, 0, 0]
  {
    hide TxAt, LockPlace;
    assert BlankIns(tx.inputs, index) == signed.inputs;
    assert LE(1, 4) == [1, 0, 0, 0];
    EncodedTxAt(SighashPreimage(tx, index), signed, 4, LE(1, 4));
  }

  // ---------- the length of the stored form ----------

  lemma {:induction false} InsSizeIs(ins: seq<TxIn>, k: nat)
    requires k <= |ins|
    ensures InsSize(ins) == InsLength(ins, 8, k) + InsSize(ins[k..])
  {
    if k == 0 {
      assert ins[0..] == ins;
    } else {
      InsSizeIs(ins, k - 1);
      assert ins[k - 1..][1..] == ins[k..];
    }
  }

  lemma {:induction false} OutsSizeIs(outs: seq<TxOut>, k: nat)
    requires k <= |outs|
    ensures OutsSize(outs) == OutsLength(outs, 8, k) + OutsSize(outs[k..])
  {
    if k == 0 {
      assert outs[0..] == outs;
    } else {
      OutsSizeIs(outs, k - 1);
      assert outs[k - 1..][1..] == outs[k..];
    }
  }

  /** The size that counts towards a block's limit is the length of the encoding with eight-byte prefixes, which is
      what the node's serialiser writes. */
  lemma SizeIsLength(tx: Transaction)
    ensures Size(tx) == |TxidPreimage(tx, 8)|
  {
    hide EncodeTx;
    TxidLayout(tx, 8);
    InsSizeIs(tx.inputs, |tx.inputs|);
    OutsSizeIs(tx.outputs, |tx.outputs|);
    assert tx.inputs[|tx.inputs|..] == [] && tx.outputs[|tx.outputs|..] == [];
  }

  // ---------- headers, packets and scripts ----------

  ghost predicate HeaderAt(s: seq<byte>, p: nat, h: BlockHeader) {
    && Number(s, p, 4, h.version) && Has(s, p + 4, h.prevHash) && Has(s, p + 36, h.merkleRoot)
    && Number(s, p + 68, 8, h.timestamp) && Has(s, p + 76, h.difficulty)
    && Number(s, p + 108, 8, h.nonce) && Number(s, p + 116, 4, h.epochIndex)
  }

  lemma HeaderIn(s: seq<byte>, p: nat, h: BlockHeader)
    requires Has(s, p, HeaderBytes(h))
    ensures HeaderAt(s, p, h)
  {
    hide HeaderBytes, Number;
    HeaderFields(h);
    var t := s[p..p + 120];
    assert forall a, b | 0 <= a <= b <= 120 :: t[a..b] == s[p + a..p + b];
    NumberAt(s, p, 4, h.version);
    NumberAt(s, p + 68, 8, h.timestamp);
    NumberAt(s, p + 108, 8, h.nonce);
    NumberAt(s, p + 116, 4, h.epochIndex);
  }

  /** The bytes of a header: 120 of them. */
  lemma HeaderLayout(h: BlockHeader)
    ensures |HeaderBytes(h)| == 120 && HeaderAt(HeaderBytes(h), 0, h)
  {
    assert Has(HeaderBytes(h), 0, HeaderBytes(h));
    HeaderIn(HeaderBytes(h), 0, h);
  }

  /** The bytes of a share packet: the miner, the header, the nonce and the hash, 180 in all. */
  lemma PacketLayout(p: SharePacket)
    ensures var s := PacketBytes(p);
      && |s| == 180 && Has(s, 0, p.minerId) && HeaderAt(s, 20, p.header) && Number(s, 140, 8, p.nonce)
      && Has(s, 148, p.hash)
  {
    hide HeaderBytes, HeaderAt, Number;
    var s := PacketBytes(p);
    FourFields(p.minerId, HeaderBytes(p.header), LE(p.nonce, 8), p.hash);
    HeaderIn(s, 20, p.header);
    NumberAt(s, 140, 8, p.nonce);
    assert s[148..180] == s[148..];
  }

  /** What signing writes: the length of the signature in one byte, the signature, the length of the key, the key. */
  lemma ScriptSigLayout(sig: seq<byte>, key: seq<byte>)
    ensures var s := WriteScriptSig(sig, key);
      && |s| == 2 + |sig| + |key| && s[0] == |sig| % 256 && Has(s, 1, sig)
      && s[1 + |sig|] == |key| % 256 && Has(s, 2 + |sig|, key)
  {
  }
}

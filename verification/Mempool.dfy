/** Admission of transactions to the waiting pool: what is refused, the order by fee, and what is evicted. */
module Mempool {
  import opened Bytes
  import opened TxEncoding
  import opened Merkle
  import opened Validation

  // ---------- the stable sort by descending fee ----------

  function InsertDesc<T>(fee: T -> nat, s: seq<T>, x: T): (r: seq<T>)
    ensures |r| == |s| + 1
  {
    if s == [] || fee(s[0]) < fee(x) then [x] + s else [s[0]] + InsertDesc(fee, s[1..], x)
  }

  function SortDesc<T>(fee: T -> nat, s: seq<T>): (r: seq<T>)
    ensures |r| == |s|
  {
    if s == [] then [] else InsertDesc(fee, SortDesc(fee, s[..|s| - 1]), s[|s| - 1])
  }

  ghost predicate Descending<T>(fee: T -> nat, s: seq<T>) {
    forall i, j :: 0 <= i < j < |s| ==> fee(s[i]) >= fee(s[j])
  }

  /** Where the new element goes: behind everything with at least its fee. */
  lemma {:induction false} InsertPlace<T>(fee: T -> nat, s: seq<T>, x: T) returns (k: nat)
    requires Descending(fee, s)
    ensures k <= |s| && InsertDesc(fee, s, x) == s[..k] + [x] + s[k..]
    ensures (forall i :: 0 <= i < k ==> fee(s[i]) >= fee(x)) && (forall i :: k <= i < |s| ==> fee(s[i]) < fee(x))
    ensures Descending(fee, InsertDesc(fee, s, x)) && multiset(InsertDesc(fee, s, x)) == multiset(s) + multiset{x}
  {
    hide Descending, InsertDesc;
    k := PlaceOf(fee, s, x);
    Placed(fee, s, x, k);
    MoreByOne(s, k, x);
  }

  lemma {:induction false} PlaceOf<T>(fee: T -> nat, s: seq<T>, x: T) returns (k: nat)
    requires Descending(fee, s)
    ensures k <= |s| && InsertDesc(fee, s, x) == s[..k] + [x] + s[k..]
    ensures (forall i :: 0 <= i < k ==> fee(s[i]) >= fee(x)) && (forall i :: k <= i < |s| ==> fee(s[i]) < fee(x))
  {
    if s == [] || fee(s[0]) < fee(x) {
      k := 0;
    } else {
      var j := PlaceOf(fee, s[1..], x);
      k := j + 1;
      assert s[..k] == [s[0]] + s[1..][..j] && s[k..] == s[1..][j..];
      assert forall i :: 0 < i < |s| ==> s[i] == s[1..][i - 1];
    }
  }

  lemma Placed<T>(fee: T -> nat, s: seq<T>, x: T, k: nat)
    requires Descending(fee, s) && k <= |s|
    requires (forall i :: 0 <= i < k ==> fee(s[i]) >= fee(x)) && (forall i :: k <= i < |s| ==> fee(s[i]) < fee(x))
    ensures Descending(fee, s[..k] + [x] + s[k..])
  {
    var r := s[..k] + [x] + s[k..];
    assert forall i :: 0 <= i < |r| ==> r[i] == if i < k then s[i] else if i == k then x else s[i - 1];
  }

  lemma MoreByOne<T>(r: seq<T>, k: nat, x: T)
    requires k <= |r|
    ensures multiset(r[..k] + [x] + r[k..]) == multiset(r) + multiset{x}
  {
    assert r == r[..k] + r[k..];
  }

  lemma SortOfMore<T>(fee: T -> nat, s: seq<T>, x: T)
    ensures SortDesc(fee, s + [x]) == InsertDesc(fee, SortDesc(fee, s), x)
  {
    hide InsertDesc;
    assert (s + [x])[..|s|] == s;
  }

  lemma {:induction false} SortSorts<T>(fee: T -> nat, s: seq<T>)
    ensures Descending(fee, SortDesc(fee, s)) && multiset(SortDesc(fee, s)) == multiset(s)
  {
    if s != [] {
      hide *;
      var prefix, x := s[..|s| - 1], s[|s| - 1];
      assert s == prefix + [x];
      SortSorts(fee, prefix);
      SortOfMore(fee, prefix, x);
      var k := InsertPlace(fee, SortDesc(fee, prefix), x);
    }
  }

  /** Sorting again changes nothing. */
  lemma {:induction false} SortOfSorted<T>(fee: T -> nat, s: seq<T>)
    requires Descending(fee, s)
    ensures SortDesc(fee, s) == s
  {
    if s != [] {
      var prefix, x := s[..|s| - 1], s[|s| - 1];
      assert s == prefix + [x];
      assert forall i :: 0 <= i < |prefix| ==> prefix[i] == s[i];
      assert forall i :: 0 <= i < |prefix| ==> fee(s[i]) >= fee(x);
      hide SortDesc, InsertDesc;
      SortOfSorted(fee, prefix);
      SortOfMore(fee, prefix, x);
      var k := PlaceOf(fee, prefix, x);
      assert k == |prefix|;
    }
  }

  /** The elements with one fee, in their order. */
  ghost function WithFee<T>(fee: T -> nat, f: nat, s: seq<T>): seq<T> {
    if s == [] then [] else (if fee(s[0]) == f then [s[0]] else []) + WithFee(fee, f, s[1..])
  }

  /** The fees descend, nothing is added or lost, and elements of one fee keep their order. */
  ghost predicate StableSortOf<T(!new)>(fee: T -> nat, r: seq<T>, s: seq<T>) {
    && Descending(fee, r)
    && multiset(r) == multiset(s)
    && forall f :: WithFee(fee, f, r) == WithFee(fee, f, s)
  }

  lemma FrontOf<T>(fee: T -> nat, f: nat, s: seq<T>)
    requires s != []
    ensures WithFee(fee, f, s) == (if fee(s[0]) == f then [s[0]] else []) + WithFee(fee, f, s[1..])
  {
  }

  lemma {:induction false} WithFeeOfParts<T>(fee: T -> nat, f: nat, a: seq<T>, b: seq<T>)
    ensures WithFee(fee, f, a + b) == WithFee(fee, f, a) + WithFee(fee, f, b)
    decreases |a|
  {
    if a == [] {
      assert a + b == b;
    } else {
      assert (a + b)[1..] == a[1..] + b;
      WithFeeOfParts(fee, f, a[1..], b);
      hide WithFee;
      FrontOf(fee, f, a);
      FrontOf(fee, f, a + b);
    }
  }

  lemma {:induction false} NoneWithFee<T>(fee: T -> nat, f: nat, s: seq<T>)
    requires forall i :: 0 <= i < |s| ==> fee(s[i]) < f
    ensures WithFee(fee, f, s) == []
  {
    if s != [] {
      assert forall i :: 0 <= i < |s| - 1 ==> s[1..][i] == s[i + 1];
      NoneWithFee(fee, f, s[1..]);
    }
  }

  lemma InsertIsStable<T>(fee: T -> nat, s: seq<T>, x: T, f: nat)
    requires Descending(fee, s)
    ensures WithFee(fee, f, InsertDesc(fee, s, x)) == WithFee(fee, f, s + [x])
  {
    hide InsertDesc, Descending;
    var k := PlaceOf(fee, s, x);
    assert s == s[..k] + s[k..];
    WithFeeOfParts(fee, f, s[..k] + [x], s[k..]);
    WithFeeOfParts(fee, f, s[..k], [x]);
    WithFeeOfParts(fee, f, s[..k], s[k..]);
    WithFeeOfParts(fee, f, s, [x]);
    if f == fee(x) { NoneWithFee(fee, f, s[k..]); }
    assert WithFee(fee, f, [x]) == if fee(x) == f then [x] else [];
  }

  lemma {:induction false} SortIsStable<T(!new)>(fee: T -> nat, s: seq<T>)
    ensures StableSortOf(fee, SortDesc(fee, s), s)
  {
    SortSorts(fee, s);
    forall f ensures WithFee(fee, f, SortDesc(fee, s)) == WithFee(fee, f, s) { SortKeepsOrder(fee, s, f); }
  }

  lemma {:induction false} SortKeepsOrder<T>(fee: T -> nat, s: seq<T>, f: nat)
    ensures WithFee(fee, f, SortDesc(fee, s)) == WithFee(fee, f, s)
  {
    if s != [] {
      var prefix, x := s[..|s| - 1], s[|s| - 1];
      assert s == prefix + [x];
      hide SortDesc, InsertDesc, WithFee;
      SortOfMore(fee, prefix, x);
      SortSorts(fee, prefix);
      SortKeepsOrder(fee, prefix, f);
      InsertIsStable(fee, SortDesc(fee, prefix), x, f);
      WithFeeOfParts(fee, f, SortDesc(fee, prefix), [x]);
      WithFeeOfParts(fee, f, prefix, [x]);
    }
  }

  lemma FirstWithFee<T>(fee: T -> nat, s: seq<T>)
    requires s != []
    ensures WithFee(fee, fee(s[0]), s) != [] && WithFee(fee, fee(s[0]), s)[0] == s[0]
  {
  }

  lemma {:induction false} WithFeeHas<T>(fee: T -> nat, f: nat, s: seq<T>)
    requires WithFee(fee, f, s) != []
    ensures exists i :: 0 <= i < |s| && fee(s[i]) == f
  {
    if fee(s[0]) != f {
      WithFeeHas(fee, f, s[1..]);
      var i :| 0 <= i < |s| - 1 && fee(s[1..][i]) == f;
      assert s[i + 1] == s[1..][i];
    }
  }

  lemma Behind<T>(front: seq<T>, x: seq<T>, y: seq<T>)
    requires front + x == front + y
    ensures x == y
  {
    assert x == (front + x)[|front|..] && y == (front + y)[|front|..];
  }

  lemma SameTails<T>(fee: T -> nat, f: nat, a: seq<T>, b: seq<T>)
    requires a != [] && b != [] && a[0] == b[0] && WithFee(fee, f, a) == WithFee(fee, f, b)
    ensures WithFee(fee, f, a[1..]) == WithFee(fee, f, b[1..])
  {
    hide WithFee;
    FrontOf(fee, f, a);
    FrontOf(fee, f, b);
    Behind(if fee(a[0]) == f then [a[0]] else [], WithFee(fee, f, a[1..]), WithFee(fee, f, b[1..]));
  }

  lemma SameFirst<T(!new)>(fee: T -> nat, a: seq<T>, b: seq<T>)
    requires Descending(fee, a) && Descending(fee, b) && forall f :: WithFee(fee, f, a) == WithFee(fee, f, b)
    requires a != []
    ensures b != [] && a[0] == b[0]
  {
    hide WithFee;
    FirstWithFee(fee, a);
    assert WithFee(fee, fee(a[0]), b) != [];
    WithFeeHas(fee, fee(a[0]), b);
    FirstWithFee(fee, b);
    assert WithFee(fee, fee(b[0]), a) != [];
    WithFeeHas(fee, fee(b[0]), a);
  }

  /** There is only one such order, so that any stable sort gives the same list. */
  lemma {:induction false} StableOrderIsUnique<T(!new)>(fee: T -> nat, a: seq<T>, b: seq<T>)
    requires Descending(fee, a) && Descending(fee, b) && forall f :: WithFee(fee, f, a) == WithFee(fee, f, b)
    ensures a == b
    decreases |a|
  {
    if a == [] {
      if b != [] { FirstWithFee(fee, b); }
    } else {
      SameFirst(fee, a, b);
      assert Descending(fee, a[1..]) && Descending(fee, b[1..]);
      hide WithFee, Descending;
      forall f ensures WithFee(fee, f, a[1..]) == WithFee(fee, f, b[1..]) { SameTails(fee, f, a, b); }
      StableOrderIsUnique(fee, a[1..], b[1..]);
      assert a == [a[0]] + a[1..] && b == [b[0]] + b[1..];
    }
  }

  lemma StableSortIsSort<T(!new)>(fee: T -> nat, r: seq<T>, s: seq<T>)
    requires StableSortOf(fee, r, s)
    ensures r == SortDesc(fee, s)
  {
    SortIsStable(fee, s);
    hide Descending, SortDesc, WithFee;
    StableOrderIsUnique(fee, r, SortDesc(fee, s));
  }

  // ---------- the pool ----------

  /** The node's parameters: the hash function, the signature check and the size limit of the pool. */
  datatype Rules = Rules(sha: Sha, verify: Verifier, maxMempool: nat)

  function TxId(sha: Sha, tx: Transaction): Hash32 { sha(sha(TxidPreimage(tx, 4))) }

  predicate AllThere(u: Utxos, ins: seq<TxIn>) { forall i :: 0 <= i < |ins| ==> PointOf(ins[i]) in u }

  /** The fee the sort uses: zero for a coinbase, and when it cannot be computed. */
  function FeeIn(u: Utxos, tx: Transaction): nat {
    if IsCoinbase(tx) || !AllThere(u, tx.inputs) then 0
    else
      var i, o := SumIn(u, tx.inputs) % WORD, SumOut(tx.outputs) % WORD;
      if i < o then 0 else i - o
  }

  function FeeBy(u: Utxos): Transaction -> nat { tx => FeeIn(u, tx) }

  datatype AdmitError = NotValid(error: Error) | AlreadyProcessed | AlreadyInMempool | InputUsed

  datatype Pool = Pool(txs: seq<Transaction>, processed: set<Hash32>)

  ghost predicate HasId(sha: Sha, txs: seq<Transaction>, id: Hash32) {
    exists i :: 0 <= i < |txs| && TxId(sha, txs[i]) == id
  }

  ghost function UsedPoints(txs: seq<Transaction>): set<OutPoint> {
    if txs == [] then {} else UsedPoints(txs[..|txs| - 1]) + SpentPoints(txs[|txs| - 1].inputs)
  }

  ghost function Ids(sha: Sha, txs: seq<Transaction>): set<Hash32> {
    set i | 0 <= i < |txs| :: TxId(sha, txs[i])
  }

  ghost function AdmitErrorOf(r: Rules, u: Utxos, p: Pool, tx: Transaction): Option<AdmitError> {
    var v := Validate(r.verify, u, tx);
    if v.Invalid? then Some(NotValid(v.error))
    else if TxId(r.sha, tx) in p.processed then Some(AlreadyProcessed)
    else if HasId(r.sha, p.txs, TxId(r.sha, tx)) then Some(AlreadyInMempool)
    else if SpentPoints(tx.inputs) * UsedPoints(p.txs) != {} then Some(InputUsed)
    else None
  }

  /** The pool with the transaction in its place by fee, before the limit is applied. */
  ghost function Full(u: Utxos, p: Pool, tx: Transaction): seq<Transaction> {
    SortDesc(FeeBy(u), p.txs + [tx])
  }

  function Cut<T>(s: seq<T>, max: nat): seq<T> { if |s| <= max then s else s[..max] }

  ghost function Admitted(r: Rules, u: Utxos, p: Pool, tx: Transaction): Pool {
    var full := Full(u, p, tx);
    Pool(Cut(full, r.maxMempool),
         p.processed + {TxId(r.sha, tx)} - Ids(r.sha, full[|Cut(full, r.maxMempool)|..]))
  }

  ghost function Admit(r: Rules, u: Utxos, p: Pool, tx: Transaction): Pool {
    if AdmitErrorOf(r, u, p, tx).Some? then p else Admitted(r, u, p, tx)
  }

  // ---------- the invariant ----------

  /** Two transactions that can stand in one block: different identifiers, no output spent by both. */
  ghost predicate Compatible(sha: Sha, a: Transaction, b: Transaction) {
    TxId(sha, a) != TxId(sha, b) && SpentPoints(a.inputs) !! SpentPoints(b.inputs)
  }

  ghost predicate AllCompatible(sha: Sha, txs: seq<Transaction>) {
    forall i, j :: 0 <= i < |txs| && 0 <= j < |txs| && i != j ==> Compatible(sha, txs[i], txs[j])
  }

  ghost predicate AllValid(verify: Verifier, u: Utxos, txs: seq<Transaction>) {
    forall i :: 0 <= i < |txs| ==> Validate(verify, u, txs[i]).Valid?
  }

  /** Every waiting transaction is valid against the unspent outputs, any two are compatible, all are recorded
      as processed, the fees descend and the limit holds. */
  ghost predicate PoolOk(r: Rules, u: Utxos, p: Pool) {
    && AllValid(r.verify, u, p.txs)
    && AllCompatible(r.sha, p.txs)
    && Ids(r.sha, p.txs) <= p.processed
    && Descending(FeeBy(u), p.txs)
    && |p.txs| <= r.maxMempool
  }

  lemma {:induction false} UsedHas(txs: seq<Transaction>, i: nat)
    requires i < |txs|
    ensures SpentPoints(txs[i].inputs) <= UsedPoints(txs)
  {
    if i < |txs| - 1 { UsedHas(txs[..|txs| - 1], i); }
  }

  lemma FullShape(u: Utxos, p: Pool, tx: Transaction) returns (k: nat)
    requires Descending(FeeBy(u), p.txs)
    ensures k <= |p.txs| && Full(u, p, tx) == p.txs[..k] + [tx] + p.txs[k..]
    ensures Descending(FeeBy(u), Full(u, p, tx))
  {
    SortOfSorted(FeeBy(u), p.txs);
    assert (p.txs + [tx])[..|p.txs|] == p.txs;
    k := InsertPlace(FeeBy(u), p.txs, tx);
  }

  lemma NewIsCompatible(sha: Sha, txs: seq<Transaction>, tx: Transaction, i: nat)
    requires i < |txs| && !HasId(sha, txs, TxId(sha, tx)) && SpentPoints(tx.inputs) * UsedPoints(txs) == {}
    ensures Compatible(sha, txs[i], tx) && Compatible(sha, tx, txs[i])
  {
    UsedHas(txs, i);
    hide TxId, SpentPoints, UsedPoints;
    DisjointPart(SpentPoints(txs[i].inputs), UsedPoints(txs), SpentPoints(tx.inputs));
    assert TxId(sha, txs[i]) != TxId(sha, tx);
  }

  lemma DisjointPart<T>(part: set<T>, whole: set<T>, other: set<T>)
    requires part <= whole && other * whole == {}
    ensures part !! other && other !! part
  {
    assert forall x :: x in other && x in whole ==> x in other * whole;
  }

  lemma InsertedCompatible(sha: Sha, txs: seq<Transaction>, tx: Transaction, k: nat)
    requires AllCompatible(sha, txs) && k <= |txs|
    requires forall i :: 0 <= i < |txs| ==> Compatible(sha, txs[i], tx) && Compatible(sha, tx, txs[i])
    ensures AllCompatible(sha, txs[..k] + [tx] + txs[k..])
  {
    hide Compatible;
    var all := txs[..k] + [tx] + txs[k..];
    forall i, j | 0 <= i < |all| && 0 <= j < |all| && i != j ensures Compatible(sha, all[i], all[j]) {
      assert i != k ==> all[i] == txs[if i < k then i else i - 1];
      assert j != k ==> all[j] == txs[if j < k then j else j - 1];
    }
  }

  lemma PrefixOk(r: Rules, u: Utxos, txs: seq<Transaction>, n: nat)
    requires n <= |txs|
    requires AllValid(r.verify, u, txs) && AllCompatible(r.sha, txs) && Descending(FeeBy(u), txs)
    ensures AllValid(r.verify, u, txs[..n]) && AllCompatible(r.sha, txs[..n]) && Descending(FeeBy(u), txs[..n])
  {
    hide Compatible, Validate, FeeBy;
  }

  lemma IdsSplit(sha: Sha, txs: seq<Transaction>, n: nat)
    requires n <= |txs| && AllCompatible(sha, txs)
    ensures Ids(sha, txs[..n]) !! Ids(sha, txs[n..])
    ensures Ids(sha, txs[..n]) <= Ids(sha, txs)
  {
    forall i, j | 0 <= i < n && n <= j < |txs| ensures TxId(sha, txs[i]) != TxId(sha, txs[j]) {
      assert Compatible(sha, txs[i], txs[j]);
    }
    hide Compatible, TxId;
    assert forall i :: 0 <= i < n ==> txs[..n][i] == txs[i];
    assert forall j :: 0 <= j < |txs| - n ==> txs[n..][j] == txs[n + j];
  }

  lemma IdsOfInserted(sha: Sha, txs: seq<Transaction>, tx: Transaction, k: nat)
    requires k <= |txs|
    ensures Ids(sha, txs[..k] + [tx] + txs[k..]) == Ids(sha, txs) + {TxId(sha, tx)}
  {
    hide TxId;
    var all := txs[..k] + [tx] + txs[k..];
    forall i | 0 <= i < |txs| ensures TxId(sha, txs[i]) in Ids(sha, all) {
      assert all[if i < k then i else i + 1] == txs[i];
    }
    assert all[k] == tx;
    forall i | 0 <= i < |all| ensures TxId(sha, all[i]) in Ids(sha, txs) + {TxId(sha, tx)} {
      assert i != k ==> all[i] == txs[if i < k then i else i - 1];
    }
  }

  lemma InsertedOk(r: Rules, u: Utxos, txs: seq<Transaction>, tx: Transaction, k: nat)
    requires AllValid(r.verify, u, txs) && Validate(r.verify, u, tx).Valid? && k <= |txs|
    requires AllCompatible(r.sha, txs)
    requires !HasId(r.sha, txs, TxId(r.sha, tx)) && SpentPoints(tx.inputs) * UsedPoints(txs) == {}
    ensures var full := txs[..k] + [tx] + txs[k..]; AllValid(r.verify, u, full) && AllCompatible(r.sha, full)
  {
    hide Validate, SpentPoints, UsedPoints, TxId, HasId, Compatible;
    forall i | 0 <= i < |txs| ensures Compatible(r.sha, txs[i], tx) && Compatible(r.sha, tx, txs[i]) {
      NewIsCompatible(r.sha, txs, tx, i);
    }
    InsertedCompatible(r.sha, txs, tx, k);
  }

  lemma CutOk(r: Rules, u: Utxos, full: seq<Transaction>, processed: set<Hash32>)
    requires AllValid(r.verify, u, full) && AllCompatible(r.sha, full) && Descending(FeeBy(u), full)
    requires Ids(r.sha, full) <= processed
    ensures var n := |Cut(full, r.maxMempool)|;
      PoolOk(r, u, Pool(Cut(full, r.maxMempool), processed - Ids(r.sha, full[n..])))
  {
    hide Validate, TxId, Compatible, AllValid, AllCompatible, Descending, FeeBy, Ids;
    var n := |Cut(full, r.maxMempool)|;
    assert Cut(full, r.maxMempool) == full[..n];
    PrefixOk(r, u, full, n);
    IdsSplit(r.sha, full, n);
  }

  /** Every admission keeps the invariant, whether or not it evicts. */
  lemma AdmitKeepsPool(r: Rules, u: Utxos, p: Pool, tx: Transaction)
    requires PoolOk(r, u, p)
    ensures PoolOk(r, u, Admit(r, u, p, tx))
  {
    hide Validate, TxId, AllValid, AllCompatible, Descending, FeeBy, Ids, HasId, SpentPoints, UsedPoints, Full, Cut;
    if AdmitErrorOf(r, u, p, tx) == None {
      var k := FullShape(u, p, tx);
      InsertedOk(r, u, p.txs, tx, k);
      IdsOfInserted(r.sha, p.txs, tx, k);
      CutOk(r, u, Full(u, p, tx), p.processed + {TxId(r.sha, tx)});
    }
  }

  /** What an admission evicts never pays more than what it keeps. */
  lemma EvictsLowestFees(r: Rules, u: Utxos, p: Pool, tx: Transaction, i: nat, j: nat)
    requires PoolOk(r, u, p)
    requires i < |Cut(Full(u, p, tx), r.maxMempool)| <= j < |Full(u, p, tx)|
    ensures FeeIn(u, Full(u, p, tx)[j]) <= FeeIn(u, Cut(Full(u, p, tx), r.maxMempool)[i])
  {
    var k := FullShape(u, p, tx);
    hide Full, FeeIn, AllValid, AllCompatible, Ids;
    var full := Full(u, p, tx);
    assert FeeBy(u)(full[i]) >= FeeBy(u)(full[j]);
  }

  /** For a valid transaction the sort key is its fee. */
  lemma FeeInIsFee(verify: Verifier, u: Utxos, tx: Transaction)
    requires Validate(verify, u, tx).Valid?
    ensures FeeIn(u, tx) == Validate(verify, u, tx).fee
  {
    ValidIff(verify, u, tx, Validate(verify, u, tx).fee);
  }
}

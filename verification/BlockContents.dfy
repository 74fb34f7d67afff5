/** What a Merkle root, and so the last hash of a chain, says about the transactions below it: not the lists of
    transactions, but the full trees they fill, and that is enough to fix the unspent outputs. */
module BlockContents {
  import opened Bytes
  import opened TxEncoding
  import opened Merkle
  import opened Validation
  import opened Mempool
  import opened Blocks
  import opened ChainSync

  // ---------- the root of a block ----------

  /** The strings hashed for the identifiers of the transactions; the outer one is a hash itself. */
  ghost function Sources(sha: Sha, txs: seq<Transaction>): set<seq<byte>> {
    (set i | 0 <= i < |txs| :: TxidPreimage(txs[i], 4)) + InnerHashes(sha, txs)
  }

  ghost function InnerHashes(sha: Sha, txs: seq<Transaction>): set<seq<byte>> {
    set i | 0 <= i < |txs| :: sha(TxidPreimage(txs[i], 4))
  }

  ghost function AllStrings(sha: Sha, txs: seq<Transaction>): set<seq<byte>> {
    HashedInputs(sha, TxIds(sha, txs)) + Sources(sha, txs)
  }

  /** The lists of the transactions fit their length prefixes, and among the strings hashed for two blocks no two
      collide and none has the all-zero hash, which stands for the empty block. */
  ghost predicate Comparable(sha: Sha, a: seq<Transaction>, b: seq<Transaction>) {
    && (forall t :: t in a || t in b ==> Fits(t, 4))
    && CollisionFree(sha, AllStrings(sha, a) + AllStrings(sha, b))
    && forall x :: x in AllStrings(sha, a) + AllStrings(sha, b) ==> sha(x) != ZeroHash()
  }

  /** The lists fill the same full tree. */
  ghost predicate SameTree<T(!new)>(a: seq<T>, b: seq<T>) {
    if a == [] || b == [] then a == b else Height(|a|) == Height(|b|) && Filled(a) == Filled(b)
  }

  lemma SameIdSameTx(sha: Sha, a: seq<Transaction>, b: seq<Transaction>, s: Transaction, t: Transaction)
    requires Comparable(sha, a, b) && s in a && t in b && TxId(sha, s) == TxId(sha, t)
    ensures s == t
  {
    hide Fits, TxidPreimage, HashedInputs;
    var all := AllStrings(sha, a) + AllStrings(sha, b);
    assert TxidPreimage(s, 4) in Sources(sha, a) && sha(TxidPreimage(s, 4)) in Sources(sha, a);
    assert TxidPreimage(t, 4) in Sources(sha, b) && sha(TxidPreimage(t, 4)) in Sources(sha, b);
    TxidPreimageInjective(s, t, 4);
  }

  lemma IdsAreLeaves(sha: Sha, txs: seq<Transaction>, all: set<seq<byte>>)
    requires InnerHashes(sha, txs) <= all
    ensures LeavesOf(sha, TxIds(sha, txs), all)
  {
    forall i | 0 <= i < |txs| ensures HashOfSome(sha, TxIds(sha, txs)[i], all) {
      assert sha(TxidPreimage(txs[i], 4)) in InnerHashes(sha, txs);
    }
  }

  lemma FilledIds(sha: Sha, txs: seq<Transaction>)
    requires txs != []
    ensures |Filled(TxIds(sha, txs))| == |Filled(txs)|
    ensures forall i :: 0 <= i < |Filled(txs)| ==> Filled(TxIds(sha, txs))[i] == TxId(sha, Filled(txs)[i])
  {
    hide TxId;
  }

  lemma FilledMembers<T>(s: seq<T>)
    requires s != []
    ensures forall i :: 0 <= i < |Filled(s)| ==> Filled(s)[i] in s
  {
  }

  lemma SameIdsSameTree(sha: Sha, a: seq<Transaction>, b: seq<Transaction>)
    requires a != [] && b != [] && Comparable(sha, a, b)
    ensures Filled(TxIds(sha, a)) == Filled(TxIds(sha, b)) <==> Filled(a) == Filled(b)
  {
    hide TxId, Filled, Comparable;
    FilledIds(sha, a);
    FilledIds(sha, b);
    FilledMembers(a);
    FilledMembers(b);
    if Filled(TxIds(sha, a)) == Filled(TxIds(sha, b)) {
      forall i | 0 <= i < |Filled(a)| ensures Filled(a)[i] == Filled(b)[i] {
        SameIdSameTx(sha, a, b, Filled(a)[i], Filled(b)[i]);
      }
    }
  }

  lemma RootIsHash(sha: Sha, hs: seq<Hash32>, sources: set<seq<byte>>) returns (x: seq<byte>)
    requires hs != [] && LeavesOf(sha, hs, sources)
    ensures x in HashedInputs(sha, hs) + sources && sha(x) == Root(sha, hs)
  {
    if |hs| == 1 {
      assert HashOfSome(sha, hs[0], sources);
      x :| x in sources && sha(x) == hs[0];
    } else {
      RootOfUp(sha, Height(|hs|), hs);
      x := UpIsHashed(sha, Height(|hs|), hs, 0);
    }
  }

  lemma RootNotZero(sha: Sha, txs: seq<Transaction>, all: set<seq<byte>>)
    requires txs != [] && AllStrings(sha, txs) <= all && forall x :: x in all ==> sha(x) != ZeroHash()
    ensures Root(sha, TxIds(sha, txs)) != ZeroHash()
  {
    hide TxId, Root, HashedInputs, LeavesOf, TxidPreimage;
    IdsAreLeaves(sha, txs, Sources(sha, txs));
    var x := RootIsHash(sha, TxIds(sha, txs), Sources(sha, txs));
  }

  lemma NonEmptyRootsEqualIff(sha: Sha, a: seq<Transaction>, b: seq<Transaction>)
    requires a != [] && b != [] && Comparable(sha, a, b)
    ensures Root(sha, TxIds(sha, a)) == Root(sha, TxIds(sha, b)) <==> SameTree(a, b)
  {
    hide TxId, Root, Filled, HashedInputs, LeavesOf, TxidPreimage, Fits;
    var all := Sources(sha, a) + Sources(sha, b);
    IdsAreLeaves(sha, a, all);
    IdsAreLeaves(sha, b, all);
    RootsEqualIffSameTree(sha, TxIds(sha, a), TxIds(sha, b), all);
    SameIdsSameTree(sha, a, b);
  }

  /** Two blocks have the same root exactly when their transactions fill the same full tree: one may repeat the
      end of the other. */
  lemma BlockRootsEqualIff(sha: Sha, a: seq<Transaction>, b: seq<Transaction>)
    requires Comparable(sha, a, b)
    ensures Root(sha, TxIds(sha, a)) == Root(sha, TxIds(sha, b)) <==> SameTree(a, b)
  {
    hide TxId, Root, Filled, AllStrings, CollisionFree, Fits;
    EmptyRoot(sha);
    if a != [] { RootNotZero(sha, a, AllStrings(sha, a) + AllStrings(sha, b)); }
    if b != [] { RootNotZero(sha, b, AllStrings(sha, a) + AllStrings(sha, b)); }
    if a != [] && b != [] { NonEmptyRootsEqualIff(sha, a, b); }
  }

  lemma EmptyRoot(sha: Sha)
    ensures Root(sha, []) == ZeroHash() && TxIds(sha, []) == []
  {
  }

  // ---------- the same tree has the same effect ----------

  ghost predicate Touches(sha: Sha, tx: Transaction, p: OutPoint) {
    (p.txid == TxId(sha, tx) && p.index < |tx.outputs|) || p in SpentPoints(tx.inputs)
  }

  ghost predicate SameAt(u: Utxos, v: Utxos, p: OutPoint) {
    (p in u <==> p in v) && (p in u ==> u[p] == v[p])
  }

  lemma {:induction false} Untouched(sha: Sha, u: Utxos, txs: seq<Transaction>, p: OutPoint)
    requires forall i :: 0 <= i < |txs| ==> !Touches(sha, txs[i], p)
    ensures SameAt(ApplyTxs(sha, u, txs), u, p)
    decreases |txs|
  {
    hide TxId, SpentPoints;
    if txs != [] {
      CreatedPoints(TxId(sha, txs[0]), txs[0].outputs);
      assert !Touches(sha, txs[0], p);
      assert forall i :: 0 <= i < |txs| - 1 ==> txs[1..][i] == txs[i + 1];
      Untouched(sha, ApplyTx(u, TxId(sha, txs[0]), txs[0]), txs[1..], p);
    }
  }

  /** The last transaction that touches an output decides what becomes of it. */
  lemma {:induction false} LastTouchDecides(sha: Sha, u: Utxos, txs: seq<Transaction>, p: OutPoint, k: nat)
    requires k < |txs| && Touches(sha, txs[k], p)
    requires forall i :: k < i < |txs| ==> !Touches(sha, txs[i], p)
    ensures SameAt(ApplyTxs(sha, u, txs), ApplyTx(map[], TxId(sha, txs[k]), txs[k]), p)
    decreases |txs|
  {
    hide TxId, SpentPoints, Touches;
    var next := ApplyTx(u, TxId(sha, txs[0]), txs[0]);
    assert forall i :: 0 <= i < |txs| - 1 ==> txs[1..][i] == txs[i + 1];
    if k > 0 {
      LastTouchDecides(sha, next, txs[1..], p, k - 1);
    } else {
      Untouched(sha, next, txs[1..], p);
      TouchedByOne(sha, u, txs[0], p);
    }
  }

  lemma TouchedByOne(sha: Sha, u: Utxos, tx: Transaction, p: OutPoint)
    requires Touches(sha, tx, p)
    ensures SameAt(ApplyTx(u, TxId(sha, tx), tx), ApplyTx(map[], TxId(sha, tx), tx), p)
  {
    hide TxId, SpentPoints;
    CreatedPoints(TxId(sha, tx), tx.outputs);
  }

  lemma {:induction false} LastTouch(sha: Sha, txs: seq<Transaction>, p: OutPoint) returns (k: int)
    ensures -1 <= k < |txs| && (k >= 0 ==> Touches(sha, txs[k], p))
    ensures forall i :: k < i < |txs| ==> !Touches(sha, txs[i], p)
  {
    hide Touches;
    k := |txs| - 1;
    while k >= 0 && !Touches(sha, txs[k], p)
      invariant -1 <= k < |txs|
      invariant forall i :: k < i < |txs| ==> !Touches(sha, txs[i], p)
    {
      k := k - 1;
    }
  }

  /** Applying the leaves of the full tree has the effect of applying the list: whatever is repeated, the last
      transaction that touches an output is the same. */
  lemma FilledHasSameEffect(sha: Sha, u: Utxos, txs: seq<Transaction>)
    requires txs != []
    ensures ApplyTxs(sha, u, Filled(txs)) == ApplyTxs(sha, u, txs)
  {
    hide ApplyTxs, TxId, Touches, ApplyTx;
    var full := Filled(txs);
    forall p ensures SameAt(ApplyTxs(sha, u, full), ApplyTxs(sha, u, txs), p) {
      var k := LastTouch(sha, txs, p);
      var place := LastTouch(sha, full, p);
      SameLastTouch(sha, txs, p, k, place);
      if k >= 0 {
        LastTouchDecides(sha, u, txs, p, k);
        LastTouchDecides(sha, u, full, p, place);
      } else {
        Untouched(sha, u, txs, p);
        Untouched(sha, u, full, p);
      }
    }
    Extensional(ApplyTxs(sha, u, full), ApplyTxs(sha, u, txs));
  }

  lemma Extensional(u: Utxos, v: Utxos)
    requires forall p :: SameAt(u, v, p)
    ensures u == v
  {
    assert forall p :: p in u ==> SameAt(u, v, p);
    assert forall p :: p in v ==> SameAt(u, v, p);
  }

  lemma SameLastTouch(sha: Sha, txs: seq<Transaction>, p: OutPoint, k: int, place: int)
    requires txs != [] && -1 <= k < |txs| && -1 <= place < Width(|txs|)
    requires k >= 0 ==> Touches(sha, txs[k], p)
    requires forall i :: k < i < |txs| ==> !Touches(sha, txs[i], p)
    requires place >= 0 ==> Touches(sha, Filled(txs)[place], p)
    requires forall i :: place < i < Width(|txs|) ==> !Touches(sha, Filled(txs)[i], p)
    ensures if k < 0 then place < 0 else place >= 0 && Filled(txs)[place] == txs[k]
  {
    hide Touches;
    var n := |txs|;
    if k >= 0 {
      var some := SomePlace(n, k);
      assert Filled(txs)[some] == txs[k];
      forall i | place < i < Width(n) ensures Slot(n, i) != k {
        assert Filled(txs)[i] == txs[Slot(n, i)];
      }
      if Slot(n, place) < k {
        var later := LaterPlace(n, place, k);
      }
    }
  }

  lemma SameTreeSameEffect(sha: Sha, u: Utxos, a: seq<Transaction>, b: seq<Transaction>)
    requires SameTree(a, b)
    ensures ApplyTxs(sha, u, a) == ApplyTxs(sha, u, b)
  {
    hide ApplyTxs, Filled, Height;
    if a != [] && b != [] {
      FilledHasSameEffect(sha, u, a);
      FilledHasSameEffect(sha, u, b);
    }
  }

  // ---------- chains with one tip ----------

  /** The unspent outputs after the stored blocks up to a height. */
  ghost function Replayed(sha: Sha, u: Utxos, blocks: map<nat, Block>, height: nat): Utxos
    requires forall h :: 1 <= h <= height ==> h in blocks
  {
    if height == 0 then u else ApplyTxs(sha, Replayed(sha, u, blocks, height - 1), blocks[height].transactions)
  }

  ghost predicate IsReplay(c: Hashing, u: Utxos, s: State) {
    && (forall h :: 1 <= h <= |s.chain| ==> h in s.blocks)
    && s.utxos == Replayed(c.sha, u, s.blocks, |s.chain|)
  }

  lemma {:induction false} ReplayedSame(sha: Sha, u: Utxos, blocks: map<nat, Block>, others: map<nat, Block>, height: nat)
    requires forall h :: 1 <= h <= height ==> h in blocks && h in others
    requires forall h :: 1 <= h <= height ==> SameTree(blocks[h].transactions, others[h].transactions)
    ensures Replayed(sha, u, blocks, height) == Replayed(sha, u, others, height)
  {
    hide ApplyTxs, SameTree;
    if height > 0 {
      ReplayedSame(sha, u, blocks, others, height - 1);
      SameTreeSameEffect(sha, Replayed(sha, u, blocks, height - 1), blocks[height].transactions, others[height].transactions);
    }
  }

  lemma AcceptReplays(c: Hashing, u: Utxos, s: State, b: Block)
    requires IsReplay(c, u, s)
    ensures IsReplay(c, u, Accept(c, s, b))
  {
    hide ApplyTxs, HashOf, SameTree;
    var next := Accept(c, s, b);
    forall h | 1 <= h <= |s.chain| ensures SameTree(s.blocks[h].transactions, next.blocks[h].transactions) {
      SameTreeReflexive(s.blocks[h].transactions);
    }
    ReplayedSame(c.sha, u, s.blocks, next.blocks, |s.chain|);
  }

  lemma SameTreeReflexive(txs: seq<Transaction>)
    ensures SameTree(txs, txs)
  {
  }

  lemma {:induction false} AllReplays(c: Hashing, u: Utxos, s: State, bs: seq<Block>)
    requires IsReplay(c, u, s)
    ensures IsReplay(c, u, AcceptAll(c, s, bs))
  {
    hide Accept, IsReplay;
    if bs != [] {
      AllReplays(c, u, s, bs[..|bs| - 1]);
      AcceptReplays(c, u, AcceptAll(c, s, bs[..|bs| - 1]), bs[|bs| - 1]);
    }
  }

  lemma {:induction false} RunReplays(c: Hashing, s: State, calls: seq<Call>)
    requires s.chain == []
    requires forall i :: 0 <= i < |calls| ==> |calls[i].blocks| == |calls[i].clock|
    ensures IsReplay(c, s.utxos, Run(c, s, calls))
  {
    hide AcceptAll, Accepted;
    if calls != [] {
      var before, call := Run(c, s, calls[..|calls| - 1]), calls[|calls| - 1];
      RunReplays(c, s, calls[..|calls| - 1]);
      AllReplays(c, s.utxos, before, call.blocks[..Accepted(c, before, call.blocks, call.clock)]);
    }
  }

  ghost predicate ComparableChains(c: Hashing, a: State, b: State) {
    && CollisionFree(c.pow, Encodings(a.chain) + Encodings(b.chain))
    && (forall h :: h in a.chain || h in b.chain ==> HashOf(c, h) != ZeroHash())
    && forall h :: 1 <= h <= |a.chain| && h in a.blocks && h in b.blocks ==>
         Comparable(c.sha, a.blocks[h].transactions, b.blocks[h].transactions)
  }

  /** Two nodes that started from an empty local chain and the same unspent outputs, took any calls, and agree on
      the hash of their last header: at each height their blocks fill the same tree, and their unspent outputs are
      the same, unless hashes collide. */
  lemma SameTipSameOutputs(c: Hashing, s: State, calls: seq<Call>, t: State, others: seq<Call>)
    requires s.chain == [] && t.chain == [] && s.utxos == t.utxos
    requires forall i :: 0 <= i < |calls| ==> |calls[i].blocks| == |calls[i].clock|
    requires forall i :: 0 <= i < |others| ==> |others[i].blocks| == |others[i].clock|
    requires var (a, b) := (Run(c, s, calls), Run(c, t, others));
      && a.chain != [] && b.chain != [] && HashOf(c, a.chain[|a.chain| - 1]) == HashOf(c, b.chain[|b.chain| - 1])
      && ComparableChains(c, a, b)
    ensures var (a, b) := (Run(c, s, calls), Run(c, t, others));
      && a.chain == b.chain && a.utxos == b.utxos
      && forall h :: 1 <= h <= |a.chain| ==>
           h in a.blocks && h in b.blocks && SameTree(a.blocks[h].transactions, b.blocks[h].transactions)
  {
    hide HashOf, CollisionFree, Encodings, Run, IsReplay, Comparable, VerifiedFrom, Stored;
    SameTipSameChain(c, s, calls, t, others);
    EveryChainIsVerified(c, s, calls);
    EveryChainIsVerified(c, t, others);
    RunReplays(c, s, calls);
    RunReplays(c, t, others);
    SameChainSameOutputs(c, s.utxos, Run(c, s, calls), Run(c, t, others));
  }

  lemma SameChainSameOutputs(c: Hashing, u: Utxos, a: State, b: State)
    requires a.chain == b.chain && IsReplay(c, u, a) && IsReplay(c, u, b)
    requires VerifiedFrom(c, a, 0) && VerifiedFrom(c, b, 0) && ComparableChains(c, a, b)
    ensures a.utxos == b.utxos
    ensures forall h :: 1 <= h <= |a.chain| ==>
      h in a.blocks && h in b.blocks && SameTree(a.blocks[h].transactions, b.blocks[h].transactions)
  {
    hide Meets, HashOf, LinkAt, SignatureFails, Root, TxIds, Comparable, SameTree, CollisionFree, Encodings, Replayed;
    forall h | 1 <= h <= |a.chain| ensures SameTree(a.blocks[h].transactions, b.blocks[h].transactions) {
      assert VerifiedAt(c, a, h - 1) && VerifiedAt(c, b, h - 1);
      BlockRootsEqualIff(c.sha, a.blocks[h].transactions, b.blocks[h].transactions);
    }
    ReplayedSame(c.sha, u, a.blocks, b.blocks, |a.chain|);
  }
}

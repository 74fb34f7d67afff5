/** Acceptance of a list of blocks received for synchronisation: every block is checked against the one stored
    before it, and stored, until one fails. The clock is an input, one reading for each block. */
module ChainSync {
  import opened Bytes
  import opened TxEncoding
  import opened Merkle
  import opened Validation
  import opened Mempool
  import opened Blocks
  import opened Protocol
  import Codec
  import Targets

  type Header = Codec.BlockHeader

  datatype Block = Block(
    header: Header,
    transactions: seq<Transaction>,
    signature: Option<seq<byte>>,
    pubkey: Option<seq<byte>>)

  /** The header hash, the hash of the Merkle tree, and the check of a block signature. */
  datatype Hashing = Hashing(pow: Sha, sha: Sha, verifySignature: (seq<byte>, seq<byte>, Hash32) -> bool)

  function HashOf(c: Hashing, h: Header): Hash32 { c.pow(Codec.HeaderBytes(h)) }

  function TxIds(sha: Sha, txs: seq<Transaction>): seq<Hash32> {
    seq(|txs|, i requires 0 <= i < |txs| => TxId(sha, txs[i]))
  }

  datatype SyncError = PreviousNotFound | InvalidPrevHash | DifficultyNotMet | InvalidTimestamp | InvalidMerkleRoot
                     | BadSignature

  datatype State = State(chain: seq<Header>, hashes: map<Hash32, nat>, blocks: map<nat, Block>, utxos: Utxos)

  predicate Meets(c: Hashing, h: Header) { ValueBE(HashOf(c, h)) <= ValueBE(h.difficulty) }

  predicate SignatureFails(c: Hashing, b: Block) {
    b.signature.Some? && b.pubkey.Some? && !c.verifySignature(b.pubkey.value, b.signature.value, HashOf(c, b.header))
  }

  /** The first check that a block fails as the next one; at height 1 the previous hash must be all zero. */
  function BlockError(c: Hashing, s: State, b: Block, now: nat): Option<SyncError> {
    var height := |s.chain| + 1;
    if height > 1 && height - 1 !in s.blocks then Some(PreviousNotFound)
    else if b.header.prevHash != (if height == 1 then ZeroHash() else HashOf(c, s.blocks[height - 1].header)) then
      Some(InvalidPrevHash)
    else if !Meets(c, b.header) then Some(DifficultyNotMet)
    else if b.header.timestamp > now + FUTURE_LIMIT then Some(InvalidTimestamp)
    else if height > 1 && b.header.timestamp <= s.blocks[height - 1].header.timestamp then Some(InvalidTimestamp)
    else if b.header.merkleRoot != Root(c.sha, TxIds(c.sha, b.transactions)) then Some(InvalidMerkleRoot)
    else if SignatureFails(c, b) then Some(BadSignature)
    else None
  }

  ghost function Accept(c: Hashing, s: State, b: Block): State {
    var height := |s.chain| + 1;
    State(s.chain + [b.header], s.hashes[HashOf(c, b.header) := height], s.blocks[height := b],
          ApplyTxs(c.sha, s.utxos, b.transactions))
  }

  ghost function AcceptAll(c: Hashing, s: State, bs: seq<Block>): State {
    if bs == [] then s else Accept(c, AcceptAll(c, s, bs[..|bs| - 1]), bs[|bs| - 1])
  }

  /** How many of the blocks are accepted. */
  ghost function Accepted(c: Hashing, s: State, bs: seq<Block>, clock: seq<nat>): (n: nat)
    requires |bs| == |clock|
    ensures n <= |bs|
    decreases |bs|
  {
    if bs == [] || BlockError(c, s, bs[0], clock[0]).Some? then 0
    else 1 + Accepted(c, Accept(c, s, bs[0]), bs[1..], clock[1..])
  }

  lemma {:induction false} AcceptAllFront(c: Hashing, s: State, bs: seq<Block>)
    requires bs != []
    ensures AcceptAll(c, s, bs) == AcceptAll(c, Accept(c, s, bs[0]), bs[1..])
    decreases |bs|
  {
    hide Accept;
    if |bs| == 1 {
      assert AcceptAll(c, s, bs[..0]) == s && AcceptAll(c, Accept(c, s, bs[0]), []) == Accept(c, s, bs[0]);
    } else {
      AcceptAllFront(c, s, bs[..|bs| - 1]);
      assert bs[..|bs| - 1][1..] == bs[1..][..|bs| - 2];
    }
  }

  /** Block i passes all checks after the ones before it. */
  ghost predicate Passes(c: Hashing, s: State, bs: seq<Block>, clock: seq<nat>, i: nat)
    requires i < |bs| == |clock|
  {
    BlockError(c, AcceptAll(c, s, bs[..i]), bs[i], clock[i]) == None
  }

  lemma PassesAfterFirst(c: Hashing, s: State, bs: seq<Block>, clock: seq<nat>, i: nat)
    requires 0 < i < |bs| == |clock|
    ensures Passes(c, s, bs, clock, i) == Passes(c, Accept(c, s, bs[0]), bs[1..], clock[1..], i - 1)
  {
    hide BlockError, Accept;
    AcceptAllFront(c, s, bs[..i]);
    assert bs[..i][1..] == bs[1..][..i - 1];
  }

  /** The number accepted is where the first block fails: all before it pass, and it does not. */
  lemma {:induction false} AcceptedIsFirstFailure(c: Hashing, s: State, bs: seq<Block>, clock: seq<nat>, n: nat)
    requires |bs| == |clock| && n <= |bs|
    ensures n == Accepted(c, s, bs, clock)
       <==> (forall i :: 0 <= i < n ==> Passes(c, s, bs, clock, i)) && (n < |bs| ==> !Passes(c, s, bs, clock, n))
    decreases |bs|
  {
    hide BlockError, Accept, Passes, AcceptAll;
    if bs != [] {
      var next, more, later := Accept(c, s, bs[0]), bs[1..], clock[1..];
      FirstPasses(c, s, bs, clock);
      forall i | 0 < i < |bs| ensures Passes(c, s, bs, clock, i) == Passes(c, next, more, later, i - 1) {
        PassesAfterFirst(c, s, bs, clock, i);
      }
      if n > 0 {
        AcceptedIsFirstFailure(c, next, more, later, n - 1);
        assert (forall i :: 0 <= i < n ==> Passes(c, s, bs, clock, i))
          <==> Passes(c, s, bs, clock, 0) && forall i :: 0 <= i < n - 1 ==> Passes(c, next, more, later, i)
        by {
          assert forall i :: 0 <= i < n - 1 ==> Passes(c, s, bs, clock, i + 1) == Passes(c, next, more, later, i);
        }
      }
    }
  }

  lemma FirstPasses(c: Hashing, s: State, bs: seq<Block>, clock: seq<nat>)
    requires 0 < |bs| == |clock|
    ensures Passes(c, s, bs, clock, 0) <==> BlockError(c, s, bs[0], clock[0]) == None
  {
    hide BlockError;
    assert AcceptAll(c, s, bs[..0]) == s;
  }

  // ---------- what acceptance keeps ----------

  ghost predicate StoredAt(s: State, k: nat)
    requires k < |s.chain|
  {
    k + 1 in s.blocks && s.blocks[k + 1].header == s.chain[k]
  }

  /** The local chain is the chain of stored headers. */
  ghost predicate Stored(s: State) { forall k :: 0 <= k < |s.chain| ==> StoredAt(s, k) }

  ghost predicate LinkAt(c: Hashing, chain: seq<Header>, k: nat)
    requires k < |chain|
  {
    chain[k].prevHash == if k == 0 then ZeroHash() else HashOf(c, chain[k - 1])
  }

  ghost predicate VerifiedAt(c: Hashing, s: State, k: nat)
    requires k < |s.chain|
  {
    && StoredAt(s, k)
    && Meets(c, s.chain[k])
    && s.chain[k].merkleRoot == Root(c.sha, TxIds(c.sha, s.blocks[k + 1].transactions))
    && LinkAt(c, s.chain, k)
    && (k > 0 ==> s.chain[k - 1].timestamp < s.chain[k].timestamp)
    && !SignatureFails(c, s.blocks[k + 1])
  }

  /** From position `from` on, every header meets its difficulty, has the root of its block's transactions, links to
      the header before it, all zero at the first, and is strictly later than it. */
  ghost predicate VerifiedFrom(c: Hashing, s: State, from: nat) {
    forall k :: from <= k < |s.chain| ==> VerifiedAt(c, s, k)
  }

  lemma AcceptKeeps(c: Hashing, s: State, b: Block, now: nat, from: nat)
    requires Stored(s) && VerifiedFrom(c, s, from) && BlockError(c, s, b, now) == None
    ensures Stored(Accept(c, s, b)) && VerifiedFrom(c, Accept(c, s, b), from)
  {
    hide Meets, HashOf, Root, TxIds, ApplyTxs, SignatureFails;
    var next := Accept(c, s, b);
    assert |s.chain| > 0 ==> StoredAt(s, |s.chain| - 1);
    forall k | 0 <= k < |next.chain| ensures StoredAt(next, k) {
      assert k < |s.chain| ==> StoredAt(s, k);
    }
    forall k | from <= k < |next.chain| ensures VerifiedAt(c, next, k) {
      assert k < |s.chain| ==> VerifiedAt(c, s, k);
      assert 0 < k < |s.chain| ==> next.chain[k - 1] == s.chain[k - 1];
    }
  }

  /** After a call, whether it succeeds or fails part-way: the local chain is still the stored one, and every block
      appended by the call is verified, and so is the whole chain if it was before. */
  lemma {:induction false} CallKeeps(c: Hashing, s: State, bs: seq<Block>, clock: seq<nat>, from: nat)
    requires Stored(s) && VerifiedFrom(c, s, from) && |bs| == |clock|
    ensures var next := AcceptAll(c, s, bs[..Accepted(c, s, bs, clock)]);
      Stored(next) && VerifiedFrom(c, next, from)
    decreases |bs|
  {
    hide BlockError, Accept, VerifiedFrom;
    var n := Accepted(c, s, bs, clock);
    if n == 0 {
      assert bs[..0] == [];
    } else {
      AcceptKeeps(c, s, bs[0], clock[0], from);
      CallKeeps(c, Accept(c, s, bs[0]), bs[1..], clock[1..], from);
      AcceptAllFront(c, s, bs[..n]);
      assert bs[..n][1..] == bs[1..][..n - 1];
    }
  }

  ghost predicate Holds(blocks: map<nat, Block>, height: nat, b: Block) { height in blocks && blocks[height] == b }

  function Headers(bs: seq<Block>): seq<Header> { seq(|bs|, i requires 0 <= i < |bs| => bs[i].header) }

  /** What a call changes: the headers are appended, the blocks are stored at the following heights, and nothing
      else is touched in the chain or the store. */
  lemma {:induction false} AcceptAllShape(c: Hashing, s: State, bs: seq<Block>)
    ensures var next := AcceptAll(c, s, bs);
      && next.chain == s.chain + Headers(bs)
      && (forall i :: 0 <= i < |bs| ==> Holds(next.blocks, |s.chain| + 1 + i, bs[i]))
      && (forall h :: h <= |s.chain| || h > |s.chain| + |bs| ==>
            (h in next.blocks <==> h in s.blocks) && (h in s.blocks ==> next.blocks[h] == s.blocks[h]))
  {
    hide HashOf, ApplyTxs;
    if bs != [] {
      var n, next := |bs| - 1, AcceptAll(c, s, bs);
      AcceptAllShape(c, s, bs[..n]);
      assert Headers(bs) == Headers(bs[..n]) + [bs[n].header];
      forall i | 0 <= i < |bs| ensures Holds(next.blocks, |s.chain| + 1 + i, bs[i]) {
        assert i < n ==> Holds(AcceptAll(c, s, bs[..n]).blocks, |s.chain| + 1 + i, bs[..n][i]);
      }
    }
  }

  // ---------- whole runs ----------

  datatype Call = Call(blocks: seq<Block>, clock: seq<nat>)

  ghost function Run(c: Hashing, s: State, calls: seq<Call>): State
    requires forall i :: 0 <= i < |calls| ==> |calls[i].blocks| == |calls[i].clock|
  {
    if calls == [] then s
    else
      var before, call := Run(c, s, calls[..|calls| - 1]), calls[|calls| - 1];
      AcceptAll(c, before, call.blocks[..Accepted(c, before, call.blocks, call.clock)])
  }

  /** From an empty local chain, and whatever is in the store, every run of calls leads to a chain that is stored
      and verified from its first header on. */
  lemma {:induction false} EveryChainIsVerified(c: Hashing, s: State, calls: seq<Call>)
    requires s.chain == []
    requires forall i :: 0 <= i < |calls| ==> |calls[i].blocks| == |calls[i].clock|
    ensures Stored(Run(c, s, calls)) && VerifiedFrom(c, Run(c, s, calls), 0)
  {
    hide VerifiedAt, BlockError, Accepted, AcceptAll;
    if calls != [] {
      var before, call := Run(c, s, calls[..|calls| - 1]), calls[|calls| - 1];
      EveryChainIsVerified(c, s, calls[..|calls| - 1]);
      CallKeeps(c, before, call.blocks, call.clock, 0);
    }
  }

  // ---------- the tip fixes the chain ----------

  ghost predicate Linked(c: Hashing, chain: seq<Header>) { forall k :: 0 <= k < |chain| ==> LinkAt(c, chain, k) }

  lemma VerifiedIsLinked(c: Hashing, s: State)
    requires VerifiedFrom(c, s, 0)
    ensures Linked(c, s.chain)
  {
    hide Meets, HashOf, Root, TxIds, SignatureFails, LinkAt, StoredAt;
    forall k | 0 <= k < |s.chain| ensures LinkAt(c, s.chain, k) {
      assert VerifiedAt(c, s, k);
    }
  }

  ghost function Encodings(chain: seq<Header>): set<seq<byte>> {
    set k | 0 <= k < |chain| :: Codec.HeaderBytes(chain[k])
  }

  lemma SameHeader(c: Hashing, g: Header, h: Header, encodings: set<seq<byte>>)
    requires CollisionFree(c.pow, encodings) && Codec.HeaderBytes(g) in encodings && Codec.HeaderBytes(h) in encodings
    requires HashOf(c, g) == HashOf(c, h)
    ensures g == h
  {
    Codec.HeaderBijection(g, Codec.HeaderBytes(g));
    Codec.HeaderBijection(h, Codec.HeaderBytes(h));
    hide Codec.HeaderBytes, Codec.DecodeHeader;
  }

  /** Two linked chains with the same last hash are the same chain, unless two headers have the same hash or one
      has the all-zero hash. */
  lemma {:induction false} TipFixesChain(c: Hashing, a: seq<Header>, b: seq<Header>)
    requires Linked(c, a) && Linked(c, b) && a != [] && b != []
    requires CollisionFree(c.pow, Encodings(a) + Encodings(b))
    requires forall h :: h in a || h in b ==> HashOf(c, h) != ZeroHash()
    requires HashOf(c, a[|a| - 1]) == HashOf(c, b[|b| - 1])
    ensures a == b
    decreases |a|
  {
    hide HashOf, Codec.HeaderBytes;
    var m, n := |a| - 1, |b| - 1;
    SameHeader(c, a[m], b[n], Encodings(a) + Encodings(b));
    assert LinkAt(c, a, m) && LinkAt(c, b, n);
    assert a == a[..m] + [a[m]] && b == b[..n] + [b[n]];
    assert m > 0 ==> a[m - 1] in a;
    assert n > 0 ==> b[n - 1] in b;
    if m > 0 && n > 0 {
      PartOfChain(c, a, m);
      PartOfChain(c, b, n);
      TipFixesChain(c, a[..m], b[..n]);
    }
  }

  lemma PartOfChain(c: Hashing, chain: seq<Header>, n: nat)
    requires Linked(c, chain) && n <= |chain|
    ensures Linked(c, chain[..n]) && Encodings(chain[..n]) <= Encodings(chain)
    ensures forall h :: h in chain[..n] ==> h in chain
  {
    hide Codec.HeaderBytes, HashOf;
    forall k | 0 <= k < n ensures LinkAt(c, chain[..n], k) {
      assert LinkAt(c, chain, k);
    }
  }

  /** Two nodes that each started from an empty local chain and took any calls, and that agree on the hash of their
      last header, agree on every header. */
  lemma SameTipSameChain(c: Hashing, s: State, calls: seq<Call>, t: State, others: seq<Call>)
    requires s.chain == [] && t.chain == []
    requires forall i :: 0 <= i < |calls| ==> |calls[i].blocks| == |calls[i].clock|
    requires forall i :: 0 <= i < |others| ==> |others[i].blocks| == |others[i].clock|
    requires var a, b := Run(c, s, calls).chain, Run(c, t, others).chain;
      && a != [] && b != [] && HashOf(c, a[|a| - 1]) == HashOf(c, b[|b| - 1])
      && CollisionFree(c.pow, Encodings(a) + Encodings(b))
      && forall h :: h in a || h in b ==> HashOf(c, h) != ZeroHash()
    ensures Run(c, s, calls).chain == Run(c, t, others).chain
  {
    hide HashOf, Linked, CollisionFree, Encodings, VerifiedFrom, Stored, Run;
    EveryChainIsVerified(c, s, calls);
    EveryChainIsVerified(c, t, others);
    VerifiedIsLinked(c, Run(c, s, calls));
    VerifiedIsLinked(c, Run(c, t, others));
    TipFixesChain(c, Run(c, s, calls).chain, Run(c, t, others).chain);
  }

  /** A first block that links to the genesis header, as the node's own first block does, is refused, unless the
      genesis header has the all-zero hash. */
  lemma GenesisChildIsRefused(c: Hashing, s: State, b: Block, genesis: Header, now: nat)
    requires s.chain == [] && b.header.prevHash == HashOf(c, genesis)
    ensures BlockError(c, s, b, now) == Some(InvalidPrevHash) <==> HashOf(c, genesis) != ZeroHash()
  {
  }

  // ---------- the manager and the store ----------

  datatype Outcome = Reached(height: nat) | Failed(height: nat, error: Option<SyncError>)

  class Storage {
    var blocks: map<nat, Block>
    var utxos: Utxos

    constructor ()
      ensures blocks == map[] && utxos == map[]
    {
      blocks, utxos := map[], map[];
    }

    method StoreBlock(height: nat, block: Block)
      modifies this`blocks
      ensures blocks == old(blocks)[height := block]
    {
      blocks := blocks[height := block];
    }

    method UpdateUtxoSet(sha: Sha, txs: seq<Transaction>)
      modifies this`utxos
      ensures utxos == ApplyTxs(sha, old(utxos), txs)
    {
      hide TxId, ApplyTx;
      for i := 0 to |txs|
        invariant ApplyTxs(sha, utxos, txs[i..]) == ApplyTxs(sha, old(utxos), txs)
      {
        utxos := WriteTx(utxos, TxId(sha, txs[i]), txs[i]);
        assert txs[i..][1..] == txs[i + 1..];
      }
    }
  }

  class SyncManager {
    const hashing: Hashing
    var localChain: seq<Header>
    var localHashes: map<Hash32, nat>

    constructor (hashing: Hashing)
      ensures this.hashing == hashing && localChain == [] && localHashes == map[]
    {
      this.hashing := hashing;
      localChain, localHashes := [], map[];
    }

    function Seen(storage: Storage): State
      reads this, storage
    {
      State(localChain, localHashes, storage.blocks, storage.utxos)
    }

    /** The root of the transactions' identifiers. */
    method ComputeMerkleRoot(txs: seq<Transaction>) returns (root: Hash32)
      ensures root == Root(hashing.sha, TxIds(hashing.sha, txs))
    {
      root := RootLoop(hashing.sha, TxIds(hashing.sha, txs));
    }

    /** The timestamp against the clock and, if there is one, the previous block. */
    method CheckBlock(storage: Storage, block: Block, now: nat) returns (error: Option<SyncError>)
      ensures error == BlockError(hashing, Seen(storage), block, now)
    {
      hide Codec.HeaderBytes, Root, TxIds;
      var expectedHeight := |localChain| + 1;
      var expectedPrev := ZeroHash();
      if expectedHeight > 1 {
        if expectedHeight - 1 !in storage.blocks { return Some(PreviousNotFound); }
        expectedPrev := HashOf(hashing, storage.blocks[expectedHeight - 1].header);
      }
      if block.header.prevHash != expectedPrev { return Some(InvalidPrevHash); }
      var met := Targets.IsMetBy(block.header.difficulty, HashOf(hashing, block.header));
      if !met { return Some(DifficultyNotMet); }
      if block.header.timestamp > now + FUTURE_LIMIT { return Some(InvalidTimestamp); }
      if expectedHeight > 1 && block.header.timestamp <= storage.blocks[expectedHeight - 1].header.timestamp {
        return Some(InvalidTimestamp);
      }
      var root := ComputeMerkleRoot(block.transactions);
      if block.header.merkleRoot != root { return Some(InvalidMerkleRoot); }
      if SignatureFails(hashing, block) { return Some(BadSignature); }
      return None;
    }

    method StoreNext(storage: Storage, block: Block)
      modifies this, storage
      ensures Seen(storage) == Accept(hashing, old(Seen(storage)), block)
      ensures |localChain| == old(|localChain|) + 1
    {
      hide ApplyTxs, Codec.HeaderBytes;
      var height := |localChain| + 1;
      storage.StoreBlock(height, block);
      storage.UpdateUtxoSet(hashing.sha, block.transactions);
      localChain := localChain + [block.header];
      localHashes := localHashes[HashOf(hashing, block.header) := height];
    }

    /** The height reached, or the first error; what was accepted before an error stays. */
    method VerifyAndAcceptBlocks(blocks: seq<Block>, storage: Storage, clock: seq<nat>) returns (r: Outcome)
      requires |blocks| == |clock|
      modifies this, storage
      ensures var n := Accepted(hashing, old(Seen(storage)), blocks, clock);
        && Seen(storage) == AcceptAll(hashing, old(Seen(storage)), blocks[..n])
        && (n == |blocks| ==> r == Reached(old(|localChain|) + |blocks|))
        && (n < |blocks| ==> r == Failed(old(|localChain|) + n + 1, BlockError(hashing, Seen(storage), blocks[n], clock[n])))
    {
      hide BlockError, Accept;
      ghost var s := Seen(storage);
      var newHeight := |localChain|;
      for i := 0 to |blocks|
        invariant newHeight == |localChain| == |s.chain| + i
        invariant Seen(storage) == AcceptAll(hashing, s, blocks[..i])
        invariant Accepted(hashing, s, blocks, clock) == i + Accepted(hashing, Seen(storage), blocks[i..], clock[i..])
      {
        var block := blocks[i];
        assert blocks[i..][0] == block && blocks[i..][1..] == blocks[i + 1..] && clock[i..][1..] == clock[i + 1..];
        assert blocks[..i + 1][..i] == blocks[..i];
        var error := CheckBlock(storage, block, clock[i]);
        if error.Some? {
          return Failed(newHeight + 1, error);
        }
        StoreNext(storage, block);
        newHeight := newHeight + 1;
      }
      assert blocks[..|blocks|] == blocks;
      return Reached(newHeight);
    }
  }
}

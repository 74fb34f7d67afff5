/** The in-memory share store of the current epoch. */
module EpochShareStore {
  import opened Bytes
  import opened Codec
  import opened Merkle
  import opened SortedHashes
  import opened PoolIndex

  type ShareState = PoolState<MinerId, SharePacket, Hash32>

  /** A share's identity: the hash of its 180-byte encoding. */
  function ShareKey(sha: Sha): SharePacket -> Hash32 { p => sha(PacketBytes(p)) }

  function MinerOf(): SharePacket -> MinerId { (p: SharePacket) => p.minerId }

  ghost function Encodings(s: set<SharePacket>): set<seq<byte>> { set p | p in s :: PacketBytes(p) }

  class EpochShares {
    const sha: Sha
    var shares: map<MinerId, seq<SharePacket>>
    var shareCount: nat
    var shareHashes: set<Hash32>

    ghost function State(): ShareState
      reads this
    {
      PoolState(shares, shareHashes)
    }

    ghost predicate Valid()
      reads this
    {
      Consistent(ShareKey(sha), MinerOf(), State()) && shareCount == |shareHashes|
    }

    constructor (sha: Sha)
      ensures Valid() && this.sha == sha && State() == PoolState(map[], {})
    {
      this.sha, shares, shareCount, shareHashes := sha, map[], 0, {};
      new;
      IndexedEmpty<MinerId, Hash32>();
      assert KeysBy(shares, ShareKey(sha)) == map[];
    }

    /** A known share is ignored, a share over the miner's limit refused, any other appended. */
    method AddShare(share: SharePacket) returns (ok: bool)
      requires Valid()
      modifies this
      ensures Valid() && State() == Offer(ShareKey(sha), MinerOf(), old(State()), share)
      ensures ok <==> (ShareKey(sha)(share) in old(shareHashes)
                       || |ListOf(old(shares), share.minerId)| < MAX_SHARES_PER_MINER)
    {
      hide Consistent, PacketBytes;
      var shareHash := ShareKey(sha)(share);
      if shareHash in shareHashes {
        return true;
      }
      var m := share.minerId;
      var minerShares := if m in shares then shares[m] else [];
      if |minerShares| >= MAX_SHARES_PER_MINER {
        return false;
      }
      OfferKeepsConsistent(ShareKey(sha), MinerOf(), State(), share);
      shares := shares[m := minerShares + [share]];
      shareHashes := shareHashes + {shareHash};
      shareCount := shareCount + 1;
      return true;
    }

    method Clear()
      modifies this
      ensures Valid() && State() == PoolState(map[], {})
    {
      shares, shareHashes, shareCount := map[], {}, 0;
      IndexedEmpty<MinerId, Hash32>();
      assert KeysBy(shares, ShareKey(sha)) == map[];
    }

    /** The commitment depends on the set of stored hashes alone, not on the order it is visited in. */
    method CalculateMerkleRoot() returns (root: Hash32)
      ensures root == CommitRoot(sha, shareHashes)
    {
      if shareHashes == {} {
        return ZeroHash();
      }
      var hashes := CollectSorted(shareHashes);
      root := RootLoop(sha, hashes);
    }
  }

  /** Shares that do not collide under the hash have different keys. */
  lemma ShareKeyInjective(sha: Sha, shares: set<SharePacket>)
    requires CollisionFree(sha, Encodings(shares))
    ensures InjectiveOn(ShareKey(sha), shares)
  {
    forall p, q | p in shares && q in shares && ShareKey(sha)(p) == ShareKey(sha)(q) ensures p == q {
      assert PacketBytes(p) in Encodings(shares) && PacketBytes(q) in Encodings(shares);
      PacketBijection(p, PacketBytes(p));
      PacketBijection(q, PacketBytes(q));
    }
  }

  /** The commitment determines the shares it is made for, among all sets of shares, if no two of the strings hashed
      for the shares and the trees collide: a share is 180 bytes, a pair of nodes 64. */
  lemma CommitmentDeterminesShares(sha: Sha, s: set<SharePacket>, t: set<SharePacket>)
    requires s != {} && t != {}
    requires var (a, b) := (KeysOf(ShareKey(sha), s), KeysOf(ShareKey(sha), t));
      CollisionFree(sha, HashedInputs(sha, Sorted(a)) + HashedInputs(sha, Sorted(b)) + Encodings(s + t))
    ensures CommitRoot(sha, KeysOf(ShareKey(sha), s)) == CommitRoot(sha, KeysOf(ShareKey(sha), t)) <==> s == t
  {
    hide CommitRoot, HashedInputs, PacketBytes;
    var a, b := KeysOf(ShareKey(sha), s), KeysOf(ShareKey(sha), t);
    KeysAreHashes(sha, s, s + t);
    KeysAreHashes(sha, t, s + t);
    CommitmentOfSources(sha, a, b, Encodings(s + t));
    ShareKeyInjective(sha, s + t);
    if a == b {
      KeysDetermine(ShareKey(sha), s, t);
    }
  }

  lemma KeysAreHashes(sha: Sha, s: set<SharePacket>, all: set<SharePacket>)
    requires s <= all && s != {}
    ensures KeysOf(ShareKey(sha), s) != {}
    ensures forall h :: h in KeysOf(ShareKey(sha), s) ==> HashOfSome(sha, h, Encodings(all))
  {
    hide PacketBytes;
    var some :| some in s;
    assert ShareKey(sha)(some) in KeysOf(ShareKey(sha), s);
    forall p | p in s ensures HashOfSome(sha, ShareKey(sha)(p), Encodings(all)) {
      assert PacketBytes(p) in Encodings(all);
    }
  }

  lemma KeysDetermine<P(!new), H>(key: P -> H, s: set<P>, t: set<P>)
    requires InjectiveOn(key, s + t) && KeysOf(key, s) == KeysOf(key, t)
    ensures s == t
  {
    forall p | p in s ensures p in t { assert key(p) in KeysOf(key, t); }
    forall p | p in t ensures p in s { assert key(p) in KeysOf(key, s); }
  }

  /** Gossip convergence: two nodes offered the same set of shares, in any order and with any repetition and no
      miner over its limit, store the same shares, count the same number for each miner, and commit to the
      same root, provided no two of the shares collide under the hash. */
  lemma GossipConverges(sha: Sha, ps: seq<SharePacket>, qs: seq<SharePacket>)
    requires SetOf(ps) == SetOf(qs) && CollisionFree(sha, Encodings(SetOf(ps)))
    requires forall m :: |OfMiner(MinerOf(), SetOf(ps), m)| <= MAX_SHARES_PER_MINER
    ensures var s, t := OfferAll(ShareKey(sha), MinerOf(), ps), OfferAll(ShareKey(sha), MinerOf(), qs);
      && CommitRoot(sha, s.hashes) == CommitRoot(sha, t.hashes)
      && (forall m :: SetOf(ListOf(s.lists, m)) == SetOf(ListOf(t.lists, m)) == OfMiner(MinerOf(), SetOf(ps), m))
      && (forall m :: |ListOf(s.lists, m)| == |ListOf(t.lists, m)| == |OfMiner(MinerOf(), SetOf(ps), m)|)
  {
    ShareKeyInjective(sha, SetOf(ps));
    SameSharesSamePool(ShareKey(sha), MinerOf(), ps, qs);
  }
}

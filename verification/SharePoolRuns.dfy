/** Runs of the node's share pool: what they store, when two nodes agree, and a run in which a refused share costs
    another miner one of its own. */
module NodePoolRuns {
  import opened Bytes
  import opened Codec
  import opened Merkle
  import opened SortedHashes
  import opened PoolIndex
  import opened EpochShareStore
  import opened NodeSharePool

  /** A share that arrives, and the verdict on it. */
  datatype Arrival = Arrival(share: Share, valid: bool)

  /** The pool p is what some run of AddShare over the arrivals leaves of an empty pool. */
  ghost predicate Reaches(identity: Share -> Hash32, size: nat, limit: nat, epoch: nat, arrivals: seq<Arrival>, p: PoolData)
  {
    if arrivals == [] then p == Pool(map[], {}, map[], map[], map[], 0)
    else
      var n := |arrivals| - 1;
      exists q, r :: Reaches(identity, size, limit, epoch, arrivals[..n], q)
        && AddShareSpec(identity, size, limit, epoch, q, arrivals[n].share, arrivals[n].valid, r, p)
  }

  predicate Counts(epoch: nat, a: Arrival) { a.valid && a.share.packet.header.epochIndex == epoch }

  /** The valid shares of the epoch among the arrivals. */
  function Countable(epoch: nat, arrivals: seq<Arrival>): seq<Share> {
    if arrivals == [] then []
    else
      var a := arrivals[|arrivals| - 1];
      Countable(epoch, arrivals[..|arrivals| - 1]) + if Counts(epoch, a) then [a.share] else []
  }

  ghost function Packets(epoch: nat, arrivals: seq<Arrival>): set<SharePacket> {
    SetOf(Mapped(Countable(epoch, arrivals), PacketOf()))
  }

  /** The valid packets of the epoch do not collide, no miner has more than its limit, and all fit in memory. */
  ghost predicate WithinLimits(sha: Sha, size: nat, limit: nat, packets: set<SharePacket>) {
    && InjectiveOn(ShareKey(sha), packets)
    && (forall m :: |OfMiner(MinerOf(), packets, m)| <= MAX_SHARES_PER_MINER)
    && size * |packets| <= limit
  }

  lemma SmallerWithinLimits(sha: Sha, size: nat, limit: nat, s: set<SharePacket>, t: set<SharePacket>)
    requires WithinLimits(sha, size, limit, t) && s <= t
    ensures WithinLimits(sha, size, limit, s)
  {
    forall m ensures |OfMiner(MinerOf(), s, m)| <= MAX_SHARES_PER_MINER {
      SubsetSize(OfMiner(MinerOf(), s, m), OfMiner(MinerOf(), t, m));
    }
    SubsetSize(s, t);
    MulMonotone(|s|, |t|, size);
  }

  lemma PacketsOfMore(epoch: nat, arrivals: seq<Arrival>)
    requires arrivals != []
    ensures var n := |arrivals| - 1;
      Packets(epoch, arrivals)
        == Packets(epoch, arrivals[..n]) + if Counts(epoch, arrivals[n]) then {arrivals[n].share.packet} else {}
  {
    var n := |arrivals| - 1;
    var before := Countable(epoch, arrivals[..n]);
    var more := Countable(epoch, arrivals);
    if Counts(epoch, arrivals[n]) {
      assert Mapped(more, PacketOf()) == Mapped(before, PacketOf()) + [arrivals[n].share.packet];
    } else {
      assert more == before;
    }
  }

  /** The pool holds exactly the packets, each once and in its miner's list, and counts them right. */
  ghost predicate Stores(sha: Sha, size: nat, p: PoolData, packets: set<SharePacket>) {
    && Holds(ShareKey(sha), MinerOf(), PoolState(KeysBy(p.shares, PacketOf()), p.hashes), packets)
    && p.memory == size * |packets|
    && forall m :: CountOf(p.count, m) == |ListOf(p.shares, m)|
  }

  lemma StoredSizes(sha: Sha, size: nat, p: PoolData, packets: set<SharePacket>, m: MinerId)
    requires Stores(sha, size, p, packets)
    ensures |ListOf(p.shares, m)| == |OfMiner(MinerOf(), packets, m)|
    ensures SetOf(Mapped(ListOf(p.shares, m), PacketOf())) == OfMiner(MinerOf(), packets, m)
  {
    var l := ListOf(KeysBy(p.shares, PacketOf()), m);
    assert l == Mapped(ListOf(p.shares, m), PacketOf());
    assert Lists(l, OfMiner(MinerOf(), packets, m));
    DistinctSize(l);
  }

  /** There is room for a new packet that belongs to a set within the limits. */
  lemma RoomForOneMore(sha: Sha, size: nat, limit: nat, p: PoolData, have: set<SharePacket>, packet: SharePacket)
    requires Stores(sha, size, p, have) && WithinLimits(sha, size, limit, have + {packet}) && packet !in have
    ensures p.memory + size <= limit && |ListOf(p.shares, packet.minerId)| < MAX_SHARES_PER_MINER
    ensures p.memory + size == size * |have + {packet}|
  {
    hide Holds, ListOf, InjectiveOn, OfMiner;
    StoredSizes(sha, size, p, have, packet.minerId);
    OneMoreOf(MinerOf(), have, packet);
    Distribute(|have|, 1, size);
  }

  /** One more valid share of the epoch, known or new. */
  lemma CountableStored(sha: Sha, size: nat, limit: nat, epoch: nat, q: PoolData, have: set<SharePacket>,
                        share: Share, r: AddResult, p: PoolData)
    requires Stores(sha, size, q, have) && WithinLimits(sha, size, limit, have + {share.packet})
    requires share.packet.header.epochIndex == epoch
    requires AddShareSpec(Identity(sha), size, limit, epoch, q, share, true, r, p)
    ensures Stores(sha, size, p, have + {share.packet})
  {
    hide AddShareSpec, PacketBytes, OfMiner;
    var packet := share.packet;
    assert Identity(sha)(share) in q.hashes <==> packet in have by {
      assert q.hashes == KeysOf(ShareKey(sha), have);
      assert Identity(sha)(share) == ShareKey(sha)(packet);
    }
    if packet in have {
      assert have + {packet} == have;
    } else {
      RoomForOneMore(sha, size, limit, q, have, packet);
    }
    AddedIsOffered(Identity(sha), size, limit, epoch, q, share, r, p);
    CountAfter(Identity(sha), size, limit, epoch, q, share, r, p);
    OfferProjects(ShareKey(sha), MinerOf(), PacketOf(), Identity(sha), Owner(), PoolState(q.shares, q.hashes), share);
    OfferHolds(ShareKey(sha), MinerOf(), PoolState(KeysBy(q.shares, PacketOf()), q.hashes), have, packet);
  }

  lemma CountAfter(identity: Share -> Hash32, size: nat, limit: nat, epoch: nat,
                   before: PoolData, share: Share, r: AddResult, after: PoolData)
    requires AddShareSpec(identity, size, limit, epoch, before, share, true, r, after)
    requires share.packet.header.epochIndex == epoch
    requires identity(share) in before.hashes
             || (before.memory + size <= limit && |ListOf(before.shares, share.packet.minerId)| < MAX_SHARES_PER_MINER)
    requires forall m :: CountOf(before.count, m) == |ListOf(before.shares, m)|
    ensures forall m :: CountOf(after.count, m) == |ListOf(after.shares, m)|
  {
    forall m ensures CountOf(after.count, m) == |ListOf(after.shares, m)| {
      assert CountOf(before.count, m) == |ListOf(before.shares, m)|;
    }
  }

  lemma NothingStoredYet(sha: Sha, size: nat, limit: nat, epoch: nat, p: PoolData)
    requires Reaches(Identity(sha), size, limit, epoch, [], p)
    ensures Stores(sha, size, p, Packets(epoch, []))
  {
    assert Packets(epoch, []) == {};
    assert KeysBy(p.shares, PacketOf()) == map[];
  }

  lemma LastStep(identity: Share -> Hash32, size: nat, limit: nat, epoch: nat, arrivals: seq<Arrival>, p: PoolData)
    returns (q: PoolData, r: AddResult)
    requires Reaches(identity, size, limit, epoch, arrivals, p) && arrivals != []
    ensures var n := |arrivals| - 1;
      && Reaches(identity, size, limit, epoch, arrivals[..n], q)
      && AddShareSpec(identity, size, limit, epoch, q, arrivals[n].share, arrivals[n].valid, r, p)
  {
    hide AddShareSpec;
    var n := |arrivals| - 1;
    q, r :| Reaches(identity, size, limit, epoch, arrivals[..n], q)
      && AddShareSpec(identity, size, limit, epoch, q, arrivals[n].share, arrivals[n].valid, r, p);
  }

  /** Within the limits, and whatever else arrives between them, every run stores exactly the valid packets of the
      epoch, each once. */
  lemma {:induction false} RunStores(sha: Sha, size: nat, limit: nat, epoch: nat, arrivals: seq<Arrival>, p: PoolData)
    requires Reaches(Identity(sha), size, limit, epoch, arrivals, p)
    requires WithinLimits(sha, size, limit, Packets(epoch, arrivals))
    ensures Stores(sha, size, p, Packets(epoch, arrivals))
  {
    if arrivals == [] {
      NothingStoredYet(sha, size, limit, epoch, p);
    } else {
      hide Reaches, WithinLimits, Stores, AddShareSpec, Packets, PacketBytes, Counts;
      var n := |arrivals| - 1;
      var a, have := arrivals[n], Packets(epoch, arrivals[..n]);
      var q, r := LastStep(Identity(sha), size, limit, epoch, arrivals, p);
      PacketsOfMore(epoch, arrivals);
      SmallerWithinLimits(sha, size, limit, have, Packets(epoch, arrivals));
      RunStores(sha, size, limit, epoch, arrivals[..n], q);
      if Counts(epoch, a) {
        CountableStored(sha, size, limit, epoch, q, have, a.share, r, p);
      } else {
        OtherStored(sha, size, limit, epoch, q, have, a, r, p);
      }
    }
  }

  lemma OtherStored(sha: Sha, size: nat, limit: nat, epoch: nat, q: PoolData, have: set<SharePacket>,
                    a: Arrival, r: AddResult, p: PoolData)
    requires Stores(sha, size, q, have) && !Counts(epoch, a)
    requires AddShareSpec(Identity(sha), size, limit, epoch, q, a.share, a.valid, r, p)
    ensures Stores(sha, size, p, have)
  {
    hide Holds, PacketBytes;
  }

  /** Gossip convergence of the node's pool: two runs whose valid packets of the epoch are the same, in any order,
      with any repetitions and times, and with whatever invalid or late shares between them, and neither of which
      reaches a limit, end with the same packets and count for each miner and with the same commitment. The two
      nodes may have different memory limits. */
  lemma NodePoolsConverge(sha: Sha, epoch: nat, xs: seq<Arrival>, size: nat, limit: nat, p: PoolData,
                          ys: seq<Arrival>, otherSize: nat, otherLimit: nat, q: PoolData)
    requires Reaches(Identity(sha), size, limit, epoch, xs, p)
    requires Reaches(Identity(sha), otherSize, otherLimit, epoch, ys, q)
    requires Packets(epoch, xs) == Packets(epoch, ys)
    requires WithinLimits(sha, size, limit, Packets(epoch, xs)) && otherSize * |Packets(epoch, xs)| <= otherLimit
    ensures p.hashes == q.hashes == KeysOf(ShareKey(sha), Packets(epoch, xs))
    ensures CommitRoot(sha, p.hashes) == CommitRoot(sha, q.hashes)
    ensures forall m :: CountOf(p.count, m) == CountOf(q.count, m) == |OfMiner(MinerOf(), Packets(epoch, xs), m)|
    ensures forall m :: SetOf(Mapped(ListOf(p.shares, m), PacketOf()))
                     == SetOf(Mapped(ListOf(q.shares, m), PacketOf()))
                     == OfMiner(MinerOf(), Packets(epoch, xs), m)
  {
    RunStores(sha, size, limit, epoch, xs, p);
    RunStores(sha, otherSize, otherLimit, epoch, ys, q);
    hide Reaches, Packets, OfMiner, Mapped, SetOf, Lists, ListOf, CommitRoot;
    var packets := Packets(epoch, xs);
    forall m
      ensures CountOf(p.count, m) == CountOf(q.count, m) == |OfMiner(MinerOf(), packets, m)|
      ensures SetOf(Mapped(ListOf(p.shares, m), PacketOf())) == SetOf(Mapped(ListOf(q.shares, m), PacketOf()))
           == OfMiner(MinerOf(), packets, m)
    {
      StoredSizes(sha, size, p, packets, m);
      StoredSizes(sha, otherSize, q, packets, m);
    }
  }

  // ---------- a refusal that evicts ----------

  lemma SpecKeepsSound(identity: Share -> Hash32, size: nat, limit: nat, epoch: nat,
                       before: PoolData, share: Share, valid: bool, r: AddResult, after: PoolData)
    requires Sound(identity, Owner(), InEpoch(epoch), size, limit, before)
    requires AddShareSpec(identity, size, limit, epoch, before, share, valid, r, after)
    ensures Sound(identity, Owner(), InEpoch(epoch), size, limit, after)
  {
    hide Sound, MakesRoom;
    var m := share.packet.minerId;
    if share.packet.header.epochIndex == epoch && identity(share) !in before.hashes {
      CountedSound(identity, Owner(), InEpoch(epoch), size, limit, before, m, valid);
      if valid {
        var room :| MakesRoom(identity, size, limit, Counted(before, m, true), room)
          && Admits(identity, size, room, share, r, after);
        RoomSound(identity, size, limit, epoch, before, room, share);
        if r == Added {
          PushedSound(identity, Owner(), InEpoch(epoch), size, limit, room, share);
        }
      }
    }
  }

  /** Every run of AddShare from an empty pool, within the limits or not, keeps all indexes in agreement. */
  lemma {:induction false} RunIsSound(identity: Share -> Hash32, size: nat, limit: nat, epoch: nat,
                                      arrivals: seq<Arrival>, p: PoolData)
    requires Reaches(identity, size, limit, epoch, arrivals, p)
    ensures Sound(identity, Owner(), InEpoch(epoch), size, limit, p)
  {
    hide Sound, AddShareSpec;
    if arrivals == [] {
      EmptySound(identity, Owner(), InEpoch(epoch), size, limit);
    } else {
      var n := |arrivals| - 1;
      var q, r := LastStep(identity, size, limit, epoch, arrivals, p);
      RunIsSound(identity, size, limit, epoch, arrivals[..n], q);
      SpecKeepsSound(identity, size, limit, epoch, q, arrivals[n].share, arrivals[n].valid, r, p);
    }
  }

  /** With memory full, one miner at the limit and another one with as many shares, a new share of the first is
      refused and still costs the second its oldest share. */
  lemma RefusalEvicts(identity: Share -> Hash32, size: nat, limit: nat, epoch: nat,
                      before: PoolData, share: Share, other: MinerId) returns (after: PoolData)
    requires Sound(identity, Owner(), InEpoch(epoch), size, limit, before)
    requires share.packet.header.epochIndex == epoch && identity(share) !in before.hashes
    requires before.memory + size > limit && other != share.packet.minerId
    requires |ListOf(before.shares, share.packet.minerId)| == MAX_SHARES_PER_MINER == |ListOf(before.shares, other)|
    ensures AddShareSpec(identity, size, limit, epoch, before, share, true, TooManyShares, after)
    ensures after.hashes == before.hashes - {identity(before.shares[other][0])} && |after.hashes| == |before.hashes| - 1
  {
    var m := share.packet.minerId;
    var counted := Counted(before, m, true);
    CountedSound(identity, Owner(), InEpoch(epoch), size, limit, before, m, true);
    NoneLonger(identity, size, limit, epoch, before);
    hide Sound;
    PoppedSound(identity, Owner(), InEpoch(epoch), size, limit, counted, other);
    after := Popped(identity, size, counted, other);
    assert Largest(counted.shares, other);
    assert MayPop(identity, size, counted, other);
    assert Evicts(identity, size, counted, after);
    assert MakesRoom(identity, size, limit, counted, after);
    AddedSpec(identity, size, limit, epoch, before, share, after, TooManyShares, after);
  }

  lemma NoneLonger(identity: Share -> Hash32, size: nat, limit: nat, epoch: nat, p: PoolData)
    requires Sound(identity, Owner(), InEpoch(epoch), size, limit, p)
    ensures forall m :: m in p.shares ==> |p.shares[m]| <= MAX_SHARES_PER_MINER
  {
    assert forall m :: m in p.shares ==> OwnList(Owner(), m, p.shares[m]);
  }

  lemma {:induction false} RunExists(sha: Sha, size: nat, limit: nat, epoch: nat, arrivals: seq<Arrival>) returns (p: PoolData)
    requires WithinLimits(sha, size, limit, Packets(epoch, arrivals))
    ensures Reaches(Identity(sha), size, limit, epoch, arrivals, p)
  {
    p := Pool(map[], {}, map[], map[], map[], 0);
    if arrivals != [] {
      hide Packets, WithinLimits, AddShareSpec, PacketBytes;
      var n := |arrivals| - 1;
      PacketsOfMore(epoch, arrivals);
      SmallerWithinLimits(sha, size, limit, Packets(epoch, arrivals[..n]), Packets(epoch, arrivals));
      var q := RunExists(sha, size, limit, epoch, arrivals[..n]);
      RunStores(sha, size, limit, epoch, arrivals[..n], q);
      var r;
      r, p := NextExists(sha, size, limit, epoch, q, Packets(epoch, arrivals[..n]), arrivals[n]);
    }
  }

  lemma NextExists(sha: Sha, size: nat, limit: nat, epoch: nat, q: PoolData, have: set<SharePacket>, a: Arrival)
    returns (r: AddResult, p: PoolData)
    requires Stores(sha, size, q, have)
    requires WithinLimits(sha, size, limit, have + if Counts(epoch, a) then {a.share.packet} else {})
    ensures AddShareSpec(Identity(sha), size, limit, epoch, q, a.share, a.valid, r, p)
  {
    hide PacketBytes;
    var m := a.share.packet.minerId;
    if a.share.packet.header.epochIndex != epoch {
      r, p := WrongEpoch, q;
    } else if Identity(sha)(a.share) in q.hashes {
      r, p := Ignored, q;
    } else if !a.valid {
      r, p := Ignored, Counted(q, m, false);
    } else {
      assert a.share.packet in have ==> ShareKey(sha)(a.share.packet) in KeysOf(ShareKey(sha), have);
      RoomForOneMore(sha, size, limit, q, have, a.share.packet);
      r, p := Added, Pushed(Identity(sha), Owner(), size, Counted(q, m, true), a.share);
      assert Admits(Identity(sha), size, Counted(q, m, true), a.share, Added, p);
      AddedSpec(Identity(sha), size, limit, epoch, q, a.share, Counted(q, m, true), Added, p);
    }
  }

  const FULL: nat := 5000

  function Numbered(m: MinerId, header: BlockHeader, nonce: u64): SharePacket {
    SharePacket(m, header, nonce, ZeroHash())
  }

  /** Five thousand packets of each of two miners. */
  function CrowdPackets(a: MinerId, b: MinerId, header: BlockHeader): seq<SharePacket> {
    seq(2 * FULL, i requires 0 <= i < 2 * FULL => Numbered(if i < FULL then a else b, header, i))
  }

  function Crowd(a: MinerId, b: MinerId, header: BlockHeader): seq<Arrival> {
    Mapped(CrowdPackets(a, b, header), (p: SharePacket) => Arrival(Share(p, 0), true))
  }

  lemma {:induction false} AllCountable(epoch: nat, arrivals: seq<Arrival>)
    requires forall i :: 0 <= i < |arrivals| ==> Counts(epoch, arrivals[i])
    ensures |Countable(epoch, arrivals)| == |arrivals|
    ensures forall i :: 0 <= i < |arrivals| ==> Countable(epoch, arrivals)[i] == arrivals[i].share
  {
    if arrivals != [] { AllCountable(epoch, arrivals[..|arrivals| - 1]); }
  }

  lemma CrowdSizes(a: MinerId, b: MinerId, header: BlockHeader)
    requires a != b
    ensures var s := SetOf(CrowdPackets(a, b, header));
      && |s| == 2 * FULL
      && |OfMiner(MinerOf(), s, a)| == FULL == |OfMiner(MinerOf(), s, b)|
      && forall m :: |OfMiner(MinerOf(), s, m)| <= FULL
  {
    var l := CrowdPackets(a, b, header);
    var s := SetOf(l);
    forall i | 0 <= i < |l| ensures l[i].nonce == i && l[i].minerId == (if i < FULL then a else b) {
      assert l[i] == Numbered(if i < FULL then a else b, header, i);
    }
    DistinctSize(l);
    DistinctSize(l[..FULL]);
    DistinctSize(l[FULL..]);
    assert OfMiner(MinerOf(), s, a) == SetOf(l[..FULL]);
    assert OfMiner(MinerOf(), s, b) == SetOf(l[FULL..]);
    forall m | m != a && m != b ensures OfMiner(MinerOf(), s, m) == {} {
    }
  }

  lemma CrowdPacketsArrive(a: MinerId, b: MinerId, header: BlockHeader)
    ensures Packets(header.epochIndex, Crowd(a, b, header)) == SetOf(CrowdPackets(a, b, header))
  {
    hide CrowdPackets;
    var l, arrivals := CrowdPackets(a, b, header), Crowd(a, b, header);
    CrowdEpoch(a, b, header);
    AllCountable(header.epochIndex, arrivals);
    assert Mapped(Countable(header.epochIndex, arrivals), PacketOf()) == l;
  }

  lemma CrowdEpoch(a: MinerId, b: MinerId, header: BlockHeader)
    ensures forall i :: 0 <= i < |Crowd(a, b, header)| ==> Counts(header.epochIndex, Crowd(a, b, header)[i])
  {
    var l := CrowdPackets(a, b, header);
    forall i | 0 <= i < |l| ensures l[i].header == header {
      assert l[i] == Numbered(if i < FULL then a else b, header, i);
    }
  }

  /** A pool with room for ten thousand shares, five thousand of each of two miners, and one more of the first: that
      one is refused, and the pool has lost a share to it. */
  lemma RefusedShareEvicts(sha: Sha, size: nat, a: MinerId, b: MinerId, header: BlockHeader)
    returns (p: PoolData, after: PoolData)
    requires a != b && size > 0
    requires CollisionFree(sha, Encodings(SetOf(CrowdPackets(a, b, header)) + {Numbered(a, header, 2 * FULL)}))
    ensures Reaches(Identity(sha), size, size * (2 * FULL), header.epochIndex, Crowd(a, b, header), p)
    ensures var share := Share(Numbered(a, header, 2 * FULL), 0);
      AddShareSpec(Identity(sha), size, size * (2 * FULL), header.epochIndex, p, share, true, TooManyShares, after)
    ensures after.hashes < p.hashes
  {
    hide CrowdPackets, Reaches, AddShareSpec, Sound, Packets, PacketBytes, CollisionFree, Encodings, OfMiner, Crowd, Holds;
    var s, extra, limit := SetOf(CrowdPackets(a, b, header)), Numbered(a, header, 2 * FULL), size * (2 * FULL);
    CrowdSizes(a, b, header);
    CrowdPacketsArrive(a, b, header);
    ExtraIsNew(a, b, header);
    ShareKeyInjective(sha, s + {extra});
    p := RunExists(sha, size, limit, header.epochIndex, Crowd(a, b, header));
    RunStores(sha, size, limit, header.epochIndex, Crowd(a, b, header), p);
    RunIsSound(Identity(sha), size, limit, header.epochIndex, Crowd(a, b, header), p);
    StoredSizes(sha, size, p, s, a);
    StoredSizes(sha, size, p, s, b);
    KeyIsNew(sha, size, p, s, extra);
    after := RefusalEvicts(Identity(sha), size, limit, header.epochIndex, p, Share(extra, 0), b);
  }

  lemma ExtraIsNew(a: MinerId, b: MinerId, header: BlockHeader)
    ensures Numbered(a, header, 2 * FULL) !in SetOf(CrowdPackets(a, b, header))
  {
    var l := CrowdPackets(a, b, header);
    forall i | 0 <= i < |l| ensures l[i].nonce == i {
      assert l[i] == Numbered(if i < FULL then a else b, header, i);
    }
  }

  lemma KeyIsNew(sha: Sha, size: nat, p: PoolData, packets: set<SharePacket>, extra: SharePacket)
    requires Stores(sha, size, p, packets) && extra !in packets && InjectiveOn(ShareKey(sha), packets + {extra})
    ensures Identity(sha)(Share(extra, 0)) !in p.hashes
  {
    hide PacketBytes;
    assert p.hashes == KeysOf(ShareKey(sha), packets);
    assert Identity(sha)(Share(extra, 0)) == ShareKey(sha)(extra);
  }
}

/** Runs of the persistent pool below its limits. It knows a share by the work hash the sender put in it, so that
    its commitment always converges, and its stored shares exactly if no two packets carry the same hash. */
module PersistentPoolRuns {
  import opened Bytes
  import opened Codec
  import opened Merkle
  import opened SortedHashes
  import opened PoolIndex
  import opened EpochShareStore
  import opened PersistentPool

  /** What the memory counter says of a pool whose indexes agree. */
  ghost function MemoryOf(size: nat, s: ShareState): nat { size * |s.hashes| }

  ghost predicate Reaches(size: nat, limit: nat, epoch: nat, ps: seq<SharePacket>, s: ShareState) {
    if ps == [] then s == PoolState(map[], {})
    else
      var n := |ps| - 1;
      exists q, ok :: Reaches(size, limit, epoch, ps[..n], q) && AddSpec(size, limit, epoch, q, MemoryOf(size, q), ps[n], ok, s)
  }

  /** The packets of the epoch among those offered. */
  ghost function Offered(epoch: nat, ps: seq<SharePacket>): set<SharePacket> {
    set p | p in ps && p.header.epochIndex == epoch
  }

  ghost predicate WithinLimits(size: nat, limit: nat, packets: set<SharePacket>) {
    (forall m :: |OfMiner(MinerOf(), packets, m)| <= MAX_SHARES_PER_MINER) && size * |packets| <= limit
  }

  /** Every hash offered is stored, and every stored packet was offered, once. */
  ghost predicate Covers(s: ShareState, packets: set<SharePacket>) {
    && s.hashes == KeysOf(WorkHash(), packets)
    && (forall m :: Distinct(ListOf(s.lists, m)) && SetOf(ListOf(s.lists, m)) <= OfMiner(MinerOf(), packets, m))
    && (forall m, i :: 0 <= i < |ListOf(s.lists, m)| ==> ListOf(s.lists, m)[i].hash in s.hashes)
    && (forall h :: h in s.hashes ==> exists m :: HasHash(ListOf(s.lists, m), h))
  }

  ghost predicate HasHash(l: seq<SharePacket>, h: Hash32) { exists i :: 0 <= i < |l| && l[i].hash == h }

  lemma {:induction false} KeysFewer<P, H>(key: P -> H, s: set<P>)
    ensures |KeysOf(key, s)| <= |s|
    decreases |s|
  {
    if s != {} {
      var p :| p in s;
      KeysFewer(key, s - {p});
      assert KeysOf(key, s) == KeysOf(key, s - {p}) + {key(p)};
    }
  }

  lemma RoomForNew(size: nat, limit: nat, s: ShareState, have: set<SharePacket>, p: SharePacket)
    requires Covers(s, have) && WithinLimits(size, limit, have + {p}) && p.hash !in s.hashes
    ensures MemoryOf(size, s) + size <= limit && |ListOf(s.lists, p.minerId)| < MAX_SHARES_PER_MINER
  {
    assert p in have ==> WorkHash()(p) in KeysOf(WorkHash(), have);
    var l := ListOf(s.lists, p.minerId);
    assert Distinct(l) && SetOf(l) <= OfMiner(MinerOf(), have, p.minerId);
    hide Covers, OfMiner, SetOf, ListOf;
    DistinctSize(l);
    SubsetSize(SetOf(l), OfMiner(MinerOf(), have, p.minerId));
    OneMoreOf(MinerOf(), have, p);
    KeysFewer(WorkHash(), have);
    MulMonotone(|s.hashes| + 1, |have + {p}|, size);
    Distribute(|s.hashes|, 1, size);
  }

  lemma NewCovered(s: ShareState, have: set<SharePacket>, p: SharePacket)
    requires Covers(s, have) && p.hash !in s.hashes && |ListOf(s.lists, p.minerId)| < MAX_SHARES_PER_MINER
    ensures Covers(Offer(WorkHash(), MinerOf(), s, p), have + {p})
  {
    var next, m := Offer(WorkHash(), MinerOf(), s, p), p.minerId;
    var l := ListOf(s.lists, m);
    assert next.hashes == KeysOf(WorkHash(), have + {p});
    assert ListOf(next.lists, m) == l + [p];
    assert forall n :: n != m ==> ListOf(next.lists, n) == ListOf(s.lists, n);
    forall n ensures Distinct(ListOf(next.lists, n)) && SetOf(ListOf(next.lists, n)) <= OfMiner(MinerOf(), have + {p}, n) {
      assert Distinct(ListOf(s.lists, n)) && SetOf(ListOf(s.lists, n)) <= OfMiner(MinerOf(), have, n);
      if n == m { NewAtEnd(l, p); }
    }
    forall h | h in next.hashes ensures exists n :: HasHash(ListOf(next.lists, n), h) {
      NewFound(s, p, h);
    }
  }

  lemma NewFound(s: ShareState, p: SharePacket, h: Hash32)
    requires p.hash !in s.hashes && |ListOf(s.lists, p.minerId)| < MAX_SHARES_PER_MINER
    requires h != p.hash ==> exists n :: HasHash(ListOf(s.lists, n), h)
    ensures exists n :: HasHash(ListOf(Offer(WorkHash(), MinerOf(), s, p).lists, n), h)
  {
    var next, m := Offer(WorkHash(), MinerOf(), s, p), p.minerId;
    var l := ListOf(s.lists, m);
    assert ListOf(next.lists, m) == l + [p];
    if h == p.hash {
      assert (l + [p])[|l|] == p;
      assert HasHash(ListOf(next.lists, m), h);
    } else {
      var n :| HasHash(ListOf(s.lists, n), h);
      var i :| 0 <= i < |ListOf(s.lists, n)| && ListOf(s.lists, n)[i].hash == h;
      assert ListOf(next.lists, n)[i].hash == h;
      assert HasHash(ListOf(next.lists, n), h);
    }
  }

  lemma NewAtEnd(l: seq<SharePacket>, p: SharePacket)
    requires Distinct(l) && forall i :: 0 <= i < |l| ==> l[i].hash != p.hash
    ensures Distinct(l + [p]) && SetOf(l + [p]) == SetOf(l) + {p}
  {
  }

  lemma KnownCovered(s: ShareState, have: set<SharePacket>, p: SharePacket)
    requires Covers(s, have) && p.hash in s.hashes
    ensures Covers(s, have + {p})
  {
    assert KeysOf(WorkHash(), have + {p}) == KeysOf(WorkHash(), have);
    forall m ensures SetOf(ListOf(s.lists, m)) <= OfMiner(MinerOf(), have + {p}, m) {
      assert SetOf(ListOf(s.lists, m)) <= OfMiner(MinerOf(), have, m);
    }
  }

  lemma SmallerWithin(size: nat, limit: nat, s: set<SharePacket>, t: set<SharePacket>)
    requires WithinLimits(size, limit, t) && s <= t
    ensures WithinLimits(size, limit, s)
  {
    forall m ensures |OfMiner(MinerOf(), s, m)| <= MAX_SHARES_PER_MINER {
      SubsetSize(OfMiner(MinerOf(), s, m), OfMiner(MinerOf(), t, m));
    }
    SubsetSize(s, t);
    MulMonotone(|s|, |t|, size);
  }

  lemma OfferedMore(epoch: nat, ps: seq<SharePacket>)
    requires ps != []
    ensures var n := |ps| - 1;
      Offered(epoch, ps) == Offered(epoch, ps[..n]) + if ps[n].header.epochIndex == epoch then {ps[n]} else {}
  {
    assert ps == ps[..|ps| - 1] + [ps[|ps| - 1]];
  }

  lemma AddedCovers(size: nat, limit: nat, epoch: nat, q: ShareState, have: set<SharePacket>, p: SharePacket, ok: bool,
                    s: ShareState)
    requires Covers(q, have) && AddSpec(size, limit, epoch, q, MemoryOf(size, q), p, ok, s)
    requires WithinLimits(size, limit, have + if p.header.epochIndex == epoch then {p} else {})
    ensures Covers(s, have + if p.header.epochIndex == epoch then {p} else {})
  {
    hide Covers, WithinLimits, Spills;
    if p.header.epochIndex != epoch {
      assert have + {} == have;
    } else if p.hash in q.hashes {
      KnownCovered(q, have, p);
    } else {
      RoomForNew(size, limit, q, have, p);
      NewCovered(q, have, p);
    }
  }

  lemma {:induction false} RunCovers(size: nat, limit: nat, epoch: nat, ps: seq<SharePacket>, s: ShareState)
    requires Reaches(size, limit, epoch, ps, s) && WithinLimits(size, limit, Offered(epoch, ps))
    ensures Covers(s, Offered(epoch, ps))
  {
    if ps != [] {
      var n := |ps| - 1;
      var q, ok :| Reaches(size, limit, epoch, ps[..n], q) && AddSpec(size, limit, epoch, q, MemoryOf(size, q), ps[n], ok, s);
      hide Covers, WithinLimits, AddSpec, Offered;
      OfferedMore(epoch, ps);
      SmallerWithin(size, limit, Offered(epoch, ps[..n]), Offered(epoch, ps));
      RunCovers(size, limit, epoch, ps[..n], q);
      AddedCovers(size, limit, epoch, q, Offered(epoch, ps[..n]), ps[n], ok, s);
    }
  }

  /** A run of offers whose packets of the epoch are exactly the set. */
  ghost predicate RunOver(size: nat, limit: nat, epoch: nat, packets: set<SharePacket>, ps: seq<SharePacket>, s: ShareState) {
    Offered(epoch, ps) == packets && Reaches(size, limit, epoch, ps, s)
  }

  /** The commitment converges whatever the packets are: two nodes offered the same ones have the same hashes. */
  lemma CommitmentConverges(sha: Sha, size: nat, limit: nat, epoch: nat, packets: set<SharePacket>,
                            xs: seq<SharePacket>, s: ShareState, ys: seq<SharePacket>, t: ShareState)
    requires WithinLimits(size, limit, packets)
    requires RunOver(size, limit, epoch, packets, xs, s) && RunOver(size, limit, epoch, packets, ys, t)
    ensures s.hashes == t.hashes == KeysOf(WorkHash(), packets)
    ensures PromotedRoot(sha, Sorted(s.hashes)) == PromotedRoot(sha, Sorted(t.hashes))
  {
    hide Reaches, WithinLimits, Offered;
    RunCovers(size, limit, epoch, xs, s);
    RunCovers(size, limit, epoch, ys, t);
  }

  ghost predicate SameStored(s: ShareState, t: ShareState) {
    forall m :: SetOf(ListOf(s.lists, m)) == SetOf(ListOf(t.lists, m))
  }

  /** All nodes offered these packets, in whatever order and repetition, store the same shares. */
  ghost predicate AlwaysAgree(size: nat, limit: nat, epoch: nat, packets: set<SharePacket>) {
    forall xs, s, ys, t :: RunOver(size, limit, epoch, packets, xs, s) && RunOver(size, limit, epoch, packets, ys, t)
      ==> SameStored(s, t)
  }

  lemma AllStored(s: ShareState, packets: set<SharePacket>)
    requires Covers(s, packets) && InjectiveOn(WorkHash(), packets)
    ensures forall m :: SetOf(ListOf(s.lists, m)) == OfMiner(MinerOf(), packets, m)
  {
    forall m, p | p in OfMiner(MinerOf(), packets, m) ensures p in SetOf(ListOf(s.lists, m)) {
      assert WorkHash()(p) in KeysOf(WorkHash(), packets);
      var n :| HasHash(ListOf(s.lists, n), p.hash);
      var i :| 0 <= i < |ListOf(s.lists, n)| && ListOf(s.lists, n)[i].hash == p.hash;
      var q := ListOf(s.lists, n)[i];
      assert q in SetOf(ListOf(s.lists, n));
      assert SetOf(ListOf(s.lists, n)) <= OfMiner(MinerOf(), packets, n);
      assert q in packets && WorkHash()(q) == WorkHash()(p);
    }
    forall m ensures SetOf(ListOf(s.lists, m)) == OfMiner(MinerOf(), packets, m) {
      assert SetOf(ListOf(s.lists, m)) <= OfMiner(MinerOf(), packets, m);
    }
  }

  lemma {:induction false} RunExists(size: nat, limit: nat, epoch: nat, ps: seq<SharePacket>) returns (s: ShareState)
    requires WithinLimits(size, limit, Offered(epoch, ps))
    ensures Reaches(size, limit, epoch, ps, s)
  {
    s := PoolState(map[], {});
    if ps != [] {
      hide Covers, WithinLimits, AddSpec, Offered;
      var n := |ps| - 1;
      OfferedMore(epoch, ps);
      SmallerWithin(size, limit, Offered(epoch, ps[..n]), Offered(epoch, ps));
      var q := RunExists(size, limit, epoch, ps[..n]);
      RunCovers(size, limit, epoch, ps[..n], q);
      var ok;
      ok, s := NextExists(size, limit, epoch, q, Offered(epoch, ps[..n]), ps[n]);
    }
  }

  lemma NextExists(size: nat, limit: nat, epoch: nat, q: ShareState, have: set<SharePacket>, p: SharePacket)
    returns (ok: bool, s: ShareState)
    requires Covers(q, have) && WithinLimits(size, limit, have + if p.header.epochIndex == epoch then {p} else {})
    ensures AddSpec(size, limit, epoch, q, MemoryOf(size, q), p, ok, s)
  {
    hide Covers, WithinLimits, Spills;
    ok, s := false, q;
    if p.header.epochIndex == epoch && p.hash !in q.hashes {
      RoomForNew(size, limit, q, have, p);
      ok, s := true, Offer(WorkHash(), MinerOf(), q, p);
    }
  }

  /** The first packet offered with a hash is the one that is stored for it. */
  ghost predicate OnlyFirst(s: ShareState, p: SharePacket) {
    p.hash in s.hashes
    && forall m, i :: 0 <= i < |ListOf(s.lists, m)| && ListOf(s.lists, m)[i].hash == p.hash ==> ListOf(s.lists, m)[i] == p
  }

  lemma {:induction false} FirstWins(size: nat, limit: nat, epoch: nat, ps: seq<SharePacket>, s: ShareState)
    requires Reaches(size, limit, epoch, ps, s) && WithinLimits(size, limit, Offered(epoch, ps))
    requires ps != [] && ps[0].header.epochIndex == epoch
    ensures OnlyFirst(s, ps[0])
  {
    hide Covers, WithinLimits, Offered, OnlyFirst, AddSpec;
    var n := |ps| - 1;
    var q, ok :| Reaches(size, limit, epoch, ps[..n], q) && AddSpec(size, limit, epoch, q, MemoryOf(size, q), ps[n], ok, s);
    OfferedMore(epoch, ps);
    SmallerWithin(size, limit, Offered(epoch, ps[..n]), Offered(epoch, ps));
    RunCovers(size, limit, epoch, ps[..n], q);
    var have := Offered(epoch, ps[..n]);
    if n > 0 {
      FirstWins(size, limit, epoch, ps[..n], q);
      StaysFirst(size, limit, epoch, q, have, ps[n], ok, s, ps[0]);
    } else {
      assert q == PoolState(map[], {});
      FirstIsStored(size, limit, epoch, q, have, ps[0], ok, s);
    }
  }

  lemma StaysFirst(size: nat, limit: nat, epoch: nat, q: ShareState, have: set<SharePacket>, p: SharePacket, ok: bool,
                   s: ShareState, first: SharePacket)
    requires Covers(q, have) && AddSpec(size, limit, epoch, q, MemoryOf(size, q), p, ok, s) && OnlyFirst(q, first)
    requires WithinLimits(size, limit, have + if p.header.epochIndex == epoch then {p} else {})
    ensures OnlyFirst(s, first)
  {
    hide Covers, WithinLimits, Spills, MemoryOf;
    if p.header.epochIndex == epoch && p.hash !in q.hashes {
      RoomForNew(size, limit, q, have, p);
      OfferKeepsFirst(q, p, first);
    }
  }

  lemma OfferKeepsFirst(q: ShareState, p: SharePacket, first: SharePacket)
    requires OnlyFirst(q, first) && p.hash !in q.hashes && |ListOf(q.lists, p.minerId)| < MAX_SHARES_PER_MINER
    ensures OnlyFirst(Offer(WorkHash(), MinerOf(), q, p), first)
  {
    var s, l := Offer(WorkHash(), MinerOf(), q, p), ListOf(q.lists, p.minerId);
    forall m, i | 0 <= i < |ListOf(s.lists, m)| && ListOf(s.lists, m)[i].hash == first.hash
      ensures ListOf(s.lists, m)[i] == first
    {
      assert ListOf(s.lists, m) == if m == p.minerId then l + [p] else ListOf(q.lists, m);
      assert i < |ListOf(q.lists, m)|;
    }
  }

  lemma FirstIsStored(size: nat, limit: nat, epoch: nat, q: ShareState, have: set<SharePacket>, p: SharePacket, ok: bool,
                      s: ShareState)
    requires q == PoolState(map[], {}) && p.header.epochIndex == epoch && Covers(q, have)
    requires AddSpec(size, limit, epoch, q, MemoryOf(size, q), p, ok, s) && WithinLimits(size, limit, have + {p})
    ensures OnlyFirst(s, p)
  {
    RoomForNew(size, limit, q, have, p);
    hide Covers, WithinLimits, Spills;
  }

  /** Two orders that begin with different packets of one hash store different shares. */
  lemma OrdersDiffer(size: nat, limit: nat, epoch: nat, packets: set<SharePacket>, l: seq<SharePacket>, p: SharePacket,
                     q: SharePacket)
    requires WithinLimits(size, limit, packets) && Offered(epoch, l) == packets
    requires p in packets && q in packets && p != q && p.hash == q.hash
    ensures !AlwaysAgree(size, limit, epoch, packets)
  {
    hide Reaches, WithinLimits, Offered, Covers, OnlyFirst;
    OfferedAgain(epoch, l, p);
    OfferedAgain(epoch, l, q);
    var s := RunExists(size, limit, epoch, [p] + l);
    var t := RunExists(size, limit, epoch, [q] + l);
    FirstWins(size, limit, epoch, [p] + l, s);
    FirstWins(size, limit, epoch, [q] + l, t);
    RunCovers(size, limit, epoch, [p] + l, s);
    assert RunOver(size, limit, epoch, packets, [p] + l, s) && RunOver(size, limit, epoch, packets, [q] + l, t);
    StoredApart(s, packets, t, p, q);
  }

  lemma OfferedAgain(epoch: nat, l: seq<SharePacket>, p: SharePacket)
    requires p in Offered(epoch, l)
    ensures Offered(epoch, [p] + l) == Offered(epoch, l) && p.header.epochIndex == epoch
  {
  }

  lemma StoredApart(s: ShareState, packets: set<SharePacket>, t: ShareState, p: SharePacket, q: SharePacket)
    requires Covers(s, packets) && OnlyFirst(s, p) && OnlyFirst(t, q) && p != q && p.hash == q.hash
    ensures !SameStored(s, t)
  {
    var m :| HasHash(ListOf(s.lists, m), p.hash);
    var i :| 0 <= i < |ListOf(s.lists, m)| && ListOf(s.lists, m)[i].hash == p.hash;
    assert ListOf(s.lists, m)[i] == p && p in SetOf(ListOf(s.lists, m));
    assert p !in SetOf(ListOf(t.lists, m));
  }

  /** The stored shares converge exactly if no two of the packets carry the same work hash. */
  lemma SharesConvergeIff(size: nat, limit: nat, epoch: nat, packets: set<SharePacket>, l: seq<SharePacket>)
    requires WithinLimits(size, limit, packets) && Offered(epoch, l) == packets
    ensures AlwaysAgree(size, limit, epoch, packets) <==> InjectiveOn(WorkHash(), packets)
  {
    hide Reaches, WithinLimits, Offered, Covers;
    if InjectiveOn(WorkHash(), packets) {
      forall xs, s, ys, t | RunOver(size, limit, epoch, packets, xs, s) && RunOver(size, limit, epoch, packets, ys, t)
        ensures SameStored(s, t)
      {
        RunCovers(size, limit, epoch, xs, s);
        RunCovers(size, limit, epoch, ys, t);
        AllStored(s, packets);
        AllStored(t, packets);
      }
    } else {
      var p, q :| p in packets && q in packets && p.hash == q.hash && p != q;
      OrdersDiffer(size, limit, epoch, packets, l, p, q);
    }
  }
}

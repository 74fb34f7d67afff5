/** What the share pools keep of what arrives: each miner's list is in order of arrival, and it is the oldest share of
    a miner with the most that goes when memory is short. */
module ArrivalOrder {
  import opened Bytes
  import opened Codec
  import opened PoolIndex
  import opened EpochShareStore
  import opened NodeSharePool
  import opened PersistentPool

  // ---------- one arrival ----------

  /** A miner with the most shares, which is not none. */
  ghost predicate HasMost<M(!new), P>(lists: map<M, seq<P>>, m: M) {
    ListOf(lists, m) != [] && forall n :: |ListOf(lists, n)| <= |ListOf(lists, m)|
  }

  /** The lists after one arrival: the loser's are short of its first share, and an added share is last in its own. */
  ghost predicate Moved<M(!new), P>(before: map<M, seq<P>>, after: map<M, seq<P>>, loser: Option<M>, m: M, p: P,
                                    added: bool)
  {
    && (loser.Some? ==> HasMost(before, loser.value))
    && forall n :: ListOf(after, n) == (if loser == Some(n) then ListOf(before, n)[1..] else ListOf(before, n))
                                       + (if added && n == m then [p] else [])
  }

  /** When memory is short, and anything is stored, somebody loses a share; otherwise nobody does. The share is added
      exactly if fewer than 5000 of its miner are left then. */
  ghost predicate MakesRoomAndAdds<M(!new), P>(before: map<M, seq<P>>, after: map<M, seq<P>>, short: bool,
                                               m: M, p: P, added: bool)
  {
    exists loser: Option<M> ::
      && Moved(before, after, loser, m, p, added)
      && (loser.Some? <==> short && exists n :: ListOf(before, n) != [])
      && (added <==> |ListOf(before, m)| - (if loser == Some(m) then 1 else 0) < 5000)
  }

  /** The lists that are left when somebody loses a share, or nobody. */
  ghost predicate LeavesRoom<M(!new), P>(before: map<M, seq<P>>, room: map<M, seq<P>>, short: bool) {
    if short && exists n :: ListOf(before, n) != []
    then exists n :: n in before && HasMost(before, n) && room == before[n := before[n][1..]]
    else room == before
  }

  lemma RoomThenAdded<M(!new), P>(before: map<M, seq<P>>, room: map<M, seq<P>>, after: map<M, seq<P>>, short: bool,
                                  m: M, p: P, added: bool)
    requires LeavesRoom(before, room, short) && added == (|ListOf(room, m)| < 5000)
    requires after == if added then room[m := ListOf(room, m) + [p]] else room
    ensures MakesRoomAndAdds(before, after, short, m, p, added)
  {
    var loser: Option<M> := None;
    if short && exists n :: ListOf(before, n) != [] {
      var n :| n in before && HasMost(before, n) && room == before[n := before[n][1..]];
      loser := Some(n);
    }
    assert Moved(before, after, loser, m, p, added);
  }

  lemma NodeArrival(identity: Share -> Hash32, size: nat, limit: nat, epoch: nat,
                    before: PoolData, share: Share, isValid: bool, r: AddResult, after: PoolData)
    requires AddShareSpec(identity, size, limit, epoch, before, share, isValid, r, after)
    ensures var m := share.packet.minerId;
      if share.packet.header.epochIndex != epoch || identity(share) in before.hashes || !isValid
      then r in {WrongEpoch, Ignored} && after.shares == before.shares
      else r in {Added, TooManyShares}
           && MakesRoomAndAdds(before.shares, after.shares, before.memory + size > limit, m, share, r == Added)
  {
    hide MakesRoom, MakesRoomAndAdds, LeavesRoom;
    var m := share.packet.minerId;
    if share.packet.header.epochIndex == epoch && identity(share) !in before.hashes && isValid {
      var room :| MakesRoom(identity, size, limit, Counted(before, m, true), room)
        && Admits(identity, size, room, share, r, after);
      NodeRoom(identity, size, limit, Counted(before, m, true), room);
      RoomThenAdded(before.shares, room.shares, after.shares, before.memory + size > limit, m, share, r == Added);
    }
  }

  lemma NodeRoom(identity: Share -> Hash32, size: nat, limit: nat, p: PoolData, room: PoolData)
    requires MakesRoom(identity, size, limit, p, room)
    ensures LeavesRoom(p.shares, room.shares, p.memory + size > limit)
  {
    if p.memory + size > limit && exists n :: n in p.shares && p.shares[n] != [] {
      var n :| MayPop(identity, size, p, n) && room == Popped(identity, size, p, n);
      assert HasMost(p.shares, n);
    }
  }

  lemma PersistentArrival(size: nat, limit: nat, epoch: nat, before: ShareState, memory: nat, p: SharePacket, ok: bool,
                          after: ShareState)
    requires AddSpec(size, limit, epoch, before, memory, p, ok, after)
    ensures if p.header.epochIndex != epoch || p.hash in before.hashes then !ok && after == before
      else MakesRoomAndAdds(before.lists, after.lists, memory + size > limit, p.minerId, p, ok)
  {
    hide MakesRoomAndAdds, LeavesRoom, Spills;
    if p.header.epochIndex == epoch && p.hash !in before.hashes {
      var room :| (if memory + size <= limit then room == before else Spills(before, room))
        && ok == (|ListOf(room.lists, p.minerId)| < MAX_SHARES_PER_MINER)
        && after == if ok then Offer(WorkHash(), MinerOf(), room, p) else room;
      PersistentRoom(before, room, memory + size > limit);
      RoomThenAdded(before.lists, room.lists, after.lists, memory + size > limit, p.minerId, p, ok);
    }
  }

  lemma PersistentRoom(s: ShareState, room: ShareState, short: bool)
    requires if short then Spills(s, room) else room == s
    ensures LeavesRoom(s.lists, room.lists, short) && room.hashes <= s.hashes
  {
    if short && exists n :: n in s.lists && s.lists[n] != [] {
      var n :| Largest(s.lists, n) && room == WithoutOldest(s, n);
      assert HasMost(s.lists, n);
    }
  }

  // ---------- runs ----------

  /** The shares of a miner that were added, in order of arrival. */
  ghost function AddedOf<M, P>(miner: P -> M, ps: seq<P>, added: seq<bool>, m: M): seq<P>
    requires |added| == |ps|
  {
    if ps == [] then []
    else
      var n := |ps| - 1;
      AddedOf(miner, ps[..n], added[..n], m) + if added[n] && miner(ps[n]) == m then [ps[n]] else []
  }

  ghost predicate IsEndOf<T>(s: seq<T>, t: seq<T>) {
    |s| <= |t| && s == t[|t| - |s|..]
  }

  /** Each miner's list is the end of what it has had added: nothing is reordered, and only the oldest is lost. */
  ghost predicate Latest<M(!new), P>(miner: P -> M, lists: map<M, seq<P>>, ps: seq<P>, added: seq<bool>)
    requires |added| == |ps|
  {
    forall m :: IsEndOf(ListOf(lists, m), AddedOf(miner, ps, added, m))
  }

  lemma LatestStep<M(!new), P>(miner: P -> M, before: map<M, seq<P>>, after: map<M, seq<P>>, ps: seq<P>, added: seq<bool>,
                               loser: Option<M>)
    requires |added| == |ps| > 0
    requires var n := |ps| - 1;
      Latest(miner, before, ps[..n], added[..n]) && Moved(before, after, loser, miner(ps[n]), ps[n], added[n])
    ensures Latest(miner, after, ps, added)
  {
    hide ListOf, AddedOf, IsEndOf;
    var n := |ps| - 1;
    forall m ensures IsEndOf(ListOf(after, m), AddedOf(miner, ps, added, m)) {
      assert IsEndOf(ListOf(before, m), AddedOf(miner, ps[..n], added[..n], m));
      AddedStep(miner, ps, added, m);
      EndStep(ListOf(before, m), AddedOf(miner, ps[..n], added[..n], m), loser == Some(m),
              if added[n] && miner(ps[n]) == m then [ps[n]] else []);
    }
  }

  lemma AddedStep<M, P>(miner: P -> M, ps: seq<P>, added: seq<bool>, m: M)
    requires |added| == |ps| > 0
    ensures var n := |ps| - 1;
      AddedOf(miner, ps, added, m)
        == AddedOf(miner, ps[..n], added[..n], m) + (if added[n] && miner(ps[n]) == m then [ps[n]] else [])
  {
  }

  lemma EndStep<T>(s: seq<T>, t: seq<T>, first: bool, more: seq<T>)
    requires IsEndOf(s, t) && (first ==> s != [])
    ensures IsEndOf((if first then s[1..] else s) + more, t + more)
  {
    var u := if first then s[1..] else s;
    assert t == t[..|t| - |u|] + u;
    assert (t + more)[|t| - |u|..] == u + more;
  }

  /** A run of the node's pool: the pools in between, and what was answered to each arrival. */
  datatype Trace = Trace(pools: seq<PoolData>, answers: seq<AddResult>)

  ghost predicate Follows(identity: Share -> Hash32, size: nat, limit: nat, epoch: nat, shares: seq<Share>, valid: seq<bool>,
                          t: Trace) {
    && |valid| == |shares| == |t.answers| && |t.pools| == |shares| + 1
    && t.pools[0] == Pool(map[], {}, map[], map[], map[], 0)
    && forall i :: 0 <= i < |shares| ==>
         AddShareSpec(identity, size, limit, epoch, t.pools[i], shares[i], valid[i], t.answers[i], t.pools[i + 1])
  }

  /** The arrivals that count for a miner: of the epoch, and not stored when they arrive. */
  ghost predicate Counts(identity: Share -> Hash32, epoch: nat, shares: seq<Share>, t: Trace, i: nat, m: MinerId)
    requires i < |shares| < |t.pools|
  {
    shares[i].packet.header.epochIndex == epoch && identity(shares[i]) !in t.pools[i].hashes && shares[i].packet.minerId == m
  }

  ghost function TotalOf(identity: Share -> Hash32, epoch: nat, shares: seq<Share>, t: Trace, n: nat, m: MinerId): nat
    requires n <= |shares| < |t.pools|
  {
    if n == 0 then 0
    else TotalOf(identity, epoch, shares, t, n - 1, m) + if Counts(identity, epoch, shares, t, n - 1, m) then 1 else 0
  }

  ghost function InvalidOf(identity: Share -> Hash32, epoch: nat, shares: seq<Share>, valid: seq<bool>, t: Trace,
                           n: nat, m: MinerId): nat
    requires n <= |shares| < |t.pools| && |valid| == |shares|
  {
    if n == 0 then 0
    else InvalidOf(identity, epoch, shares, valid, t, n - 1, m)
         + if Counts(identity, epoch, shares, t, n - 1, m) && !valid[n - 1] then 1 else 0
  }

  ghost function Answered(t: Trace, n: nat): seq<bool>
    requires n <= |t.answers|
  {
    seq(n, i requires 0 <= i < n => t.answers[i] == Added)
  }

  /** Over every run of the node's pool, within the limits or not, each miner's list is the end of the list of its added
      shares. */
  lemma {:induction false} NodeKeepsLatest(identity: Share -> Hash32, size: nat, limit: nat, epoch: nat,
                                           shares: seq<Share>, valid: seq<bool>, t: Trace, n: nat)
    requires Follows(identity, size, limit, epoch, shares, valid, t) && n <= |shares|
    ensures Latest(Owner(), t.pools[n].shares, shares[..n], Answered(t, n))
  {
    hide AddShareSpec, MakesRoomAndAdds, Latest;
    if n == 0 {
      NothingYet(Owner(), t.pools[0].shares, shares[..0], Answered(t, 0));
    } else {
      NodeKeepsLatest(identity, size, limit, epoch, shares, valid, t, n - 1);
      NodeArrival(identity, size, limit, epoch, t.pools[n - 1], shares[n - 1], valid[n - 1], t.answers[n - 1], t.pools[n]);
      var ps, added := shares[..n], Answered(t, n);
      assert ps[..n - 1] == shares[..n - 1] && added[..n - 1] == Answered(t, n - 1);
      assert Owner()(ps[n - 1]) == shares[n - 1].packet.minerId;
      OneArrival(Owner(), t.pools[n - 1].shares, t.pools[n].shares, t.pools[n - 1].memory + size > limit, ps, added);
    }
  }

  lemma NothingYet<M(!new), P>(miner: P -> M, lists: map<M, seq<P>>, ps: seq<P>, added: seq<bool>)
    requires lists == map[] && ps == [] && added == []
    ensures Latest(miner, lists, ps, added)
  {
  }

  /** An arrival that changes no list, or moves them as above. */
  lemma OneArrival<M(!new), P>(miner: P -> M, before: map<M, seq<P>>, after: map<M, seq<P>>, short: bool, ps: seq<P>,
                                   added: seq<bool>)
    requires |added| == |ps| > 0
    requires var n := |ps| - 1;
      && Latest(miner, before, ps[..n], added[..n])
      && ((before == after && !added[n])
          || MakesRoomAndAdds(before, after, short, miner(ps[n]), ps[n], added[n]))
    ensures Latest(miner, after, ps, added)
  {
    hide Latest, Moved;
    var n := |ps| - 1;
    if before == after && !added[n] {
      NotMoved(before, miner(ps[n]), ps[n]);
      LatestStep(miner, before, after, ps, added, None);
    } else {
      var loser :| Moved(before, after, loser, miner(ps[n]), ps[n], added[n]);
      LatestStep(miner, before, after, ps, added, loser);
    }
  }

  lemma NotMoved<M(!new), P>(lists: map<M, seq<P>>, m: M, p: P)
    ensures Moved(lists, lists, None, m, p, false)
  {
  }

  /** And the counters of a miner are the numbers of its arrivals that count, and of the invalid ones among them. */
  lemma {:induction false} NodeCountsArrivals(identity: Share -> Hash32, size: nat, limit: nat, epoch: nat,
                                              shares: seq<Share>, valid: seq<bool>, t: Trace, n: nat, m: MinerId)
    requires Follows(identity, size, limit, epoch, shares, valid, t) && n <= |shares|
    ensures CountOf(t.pools[n].total, m) == TotalOf(identity, epoch, shares, t, n, m)
    ensures CountOf(t.pools[n].invalid, m) == InvalidOf(identity, epoch, shares, valid, t, n, m)
  {
    hide AddShareSpec;
    if n > 0 {
      NodeCountsArrivals(identity, size, limit, epoch, shares, valid, t, n - 1, m);
      OneCounted(identity, size, limit, epoch, t.pools[n - 1], shares[n - 1], valid[n - 1], t.answers[n - 1], t.pools[n], m);
    }
  }

  lemma OneCounted(identity: Share -> Hash32, size: nat, limit: nat, epoch: nat,
                   before: PoolData, share: Share, isValid: bool, r: AddResult, after: PoolData, m: MinerId)
    requires AddShareSpec(identity, size, limit, epoch, before, share, isValid, r, after)
    ensures var counts := share.packet.header.epochIndex == epoch && identity(share) !in before.hashes
                          && share.packet.minerId == m;
      && CountOf(after.total, m) == CountOf(before.total, m) + (if counts then 1 else 0)
      && CountOf(after.invalid, m) == CountOf(before.invalid, m) + (if counts && !isValid then 1 else 0)
  {
    hide Largest;
  }

  /** The same of the pool that spills: its states after the arrivals, with their memory counters, and the answers. */
  datatype SpillTrace = SpillTrace(states: seq<ShareState>, memory: seq<nat>, answers: seq<bool>)

  ghost predicate Spilled(size: nat, limit: nat, epoch: nat, packets: seq<SharePacket>, t: SpillTrace) {
    && |packets| == |t.answers| && |t.states| == |t.memory| == |packets| + 1
    && t.states[0] == PoolState(map[], {})
    && forall i :: 0 <= i < |packets| ==>
         AddSpec(size, limit, epoch, t.states[i], t.memory[i], packets[i], t.answers[i], t.states[i + 1])
  }

  lemma {:induction false} PersistentKeepsLatest(size: nat, limit: nat, epoch: nat, packets: seq<SharePacket>,
                                                 t: SpillTrace, n: nat)
    requires Spilled(size, limit, epoch, packets, t) && n <= |packets|
    ensures Latest(MinerOf(), t.states[n].lists, packets[..n], t.answers[..n])
  {
    hide AddSpec, MakesRoomAndAdds, Latest;
    if n == 0 {
      NothingYet(MinerOf(), t.states[0].lists, packets[..0], t.answers[..0]);
    } else {
      PersistentKeepsLatest(size, limit, epoch, packets, t, n - 1);
      PersistentArrival(size, limit, epoch, t.states[n - 1], t.memory[n - 1], packets[n - 1], t.answers[n - 1], t.states[n]);
      var ps, added := packets[..n], t.answers[..n];
      assert ps[..n - 1] == packets[..n - 1] && added[..n - 1] == t.answers[..n - 1];
      assert MinerOf()(ps[n - 1]) == packets[n - 1].minerId;
      OneArrival(MinerOf(), t.states[n - 1].lists, t.states[n].lists, t.memory[n - 1] + size > limit, ps, added);
    }
  }

  /** The store of the epoch: a share is added unless it is known or its miner has 5000. */
  ghost function TakenFlags<M, P, H>(key: P -> H, miner: P -> M, ps: seq<P>): seq<bool> {
    seq(|ps|, i requires 0 <= i < |ps| =>
      key(ps[i]) !in OfferAll(key, miner, ps[..i]).hashes
      && |ListOf(OfferAll(key, miner, ps[..i]).lists, miner(ps[i]))| < 5000)
  }

  /** It loses nothing: each list is all of the miner's added shares, in order of arrival. */
  lemma {:induction false} OffersInOrder<M(!new), P, H>(key: P -> H, miner: P -> M, ps: seq<P>, m: M)
    ensures ListOf(OfferAll(key, miner, ps).lists, m) == AddedOf(miner, ps, TakenFlags(key, miner, ps), m)
  {
    hide ListOf, TakenFlags;
    FlagsOfMore(key, miner, ps);
    if ps == [] {
      NothingOffered(key, miner, m);
    } else {
      var n := |ps| - 1;
      OffersInOrder(key, miner, ps[..n], m);
      OneOffered(key, miner, OfferAll(key, miner, ps[..n]), ps[n], m);
      hide Offer;
    }
  }

  lemma FlagsOfMore<M, P, H>(key: P -> H, miner: P -> M, ps: seq<P>)
    ensures |TakenFlags(key, miner, ps)| == |ps|
    ensures ps != [] ==> var n := |ps| - 1; var s := OfferAll(key, miner, ps[..n]);
      && TakenFlags(key, miner, ps)[..n] == TakenFlags(key, miner, ps[..n])
      && TakenFlags(key, miner, ps)[n] == (key(ps[n]) !in s.hashes && |ListOf(s.lists, miner(ps[n]))| < 5000)
  {
    hide OfferAll, ListOf;
    if ps != [] {
      assert forall i :: 0 <= i < |ps| - 1 ==> ps[..|ps| - 1][..i] == ps[..i];
    }
  }

  lemma NothingOffered<M(!new), P, H>(key: P -> H, miner: P -> M, m: M)
    ensures ListOf(OfferAll(key, miner, []).lists, m) == [] == AddedOf(miner, [], [], m)
  {
  }

  lemma OneOffered<M, P, H>(key: P -> H, miner: P -> M, s: PoolState<M, P, H>, p: P, m: M)
    ensures var added := key(p) !in s.hashes && |ListOf(s.lists, miner(p))| < 5000;
      ListOf(Offer(key, miner, s, p).lists, m) == ListOf(s.lists, m) + (if added && miner(p) == m then [p] else [])
  {
  }
}

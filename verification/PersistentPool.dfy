/** The share pool that spills its oldest shares, and serves shares in batches. */
module PersistentPool {
  import opened Bytes
  import opened Codec
  import opened Merkle
  import opened SortedHashes
  import opened PoolIndex
  import opened EpochShareStore

  /** This pool knows a share by its proof-of-work hash alone. */
  function WorkHash(): SharePacket -> Hash32 { (p: SharePacket) => p.hash }
  function OfEpoch(epoch: nat): SharePacket -> bool { (p: SharePacket) => p.header.epochIndex == epoch }

  /** The hash set, the memory counter, the epoch and the limit agree with the stored shares. */
  ghost predicate Kept(s: ShareState, memory: nat, size: nat, limit: nat, epoch: nat) {
    && Consistent(WorkHash(), MinerOf(), s)
    && Everywhere(s.lists, OfEpoch(epoch))
    && memory == size * |s.hashes|
    && (memory <= limit || |s.hashes| <= 1)
  }

  function WithoutOldest(s: ShareState, m: MinerId): ShareState
    requires m in s.lists && s.lists[m] != []
  {
    PoolState(s.lists[m := s.lists[m][1..]], s.hashes - {s.lists[m][0].hash})
  }

  ghost predicate Spills(s: ShareState, t: ShareState) {
    if forall n :: n in s.lists ==> s.lists[n] == [] then t == s
    else exists m :: Largest(s.lists, m) && t == WithoutOldest(s, m)
  }

  lemma KeptFacts(s: ShareState, memory: nat, size: nat, limit: nat, epoch: nat)
    requires Kept(s, memory, size, limit, epoch)
    ensures memory == size * |s.hashes| && (memory <= limit || |s.hashes| <= 1)
  {
  }

  lemma SpilledKept(s: ShareState, memory: nat, size: nat, limit: nat, epoch: nat, m: MinerId)
    requires Kept(s, memory, size, limit, epoch) && m in s.lists && s.lists[m] != []
    ensures memory >= size && Kept(WithoutOldest(s, m), memory - size, size, limit, epoch)
    ensures |WithoutOldest(s, m).hashes| == |s.hashes| - 1
  {
    hide Consistent, Everywhere;
    PopKeepsConsistent(WorkHash(), MinerOf(), s, m);
    EverywherePop(s.lists, OfEpoch(epoch), m);
    MemoryOfLess(size, |s.hashes|);
  }

  lemma OfferedKept(s: ShareState, memory: nat, size: nat, limit: nat, epoch: nat, p: SharePacket)
    requires Kept(s, memory, size, limit, epoch) && p.hash !in s.hashes && p.header.epochIndex == epoch
    requires |ListOf(s.lists, p.minerId)| < MAX_SHARES_PER_MINER
    requires memory + size <= limit || s.hashes == {}
    ensures Kept(Offer(WorkHash(), MinerOf(), s, p), memory + size, size, limit, epoch)
  {
    hide Consistent, Everywhere;
    OfferKeepsConsistent(WorkHash(), MinerOf(), s, p);
    EverywherePush(s.lists, OfEpoch(epoch), p.minerId, p);
    MemoryOfLess(size, |s.hashes| + 1);
  }

  lemma EmptyKept(size: nat, limit: nat, epoch: nat)
    ensures Kept(PoolState(map[], {}), 0, size, limit, epoch)
  {
    IndexedEmpty<MinerId, Hash32>();
    assert KeysBy<MinerId, SharePacket, Hash32>(map[], WorkHash()) == map[];
  }

  lemma NoneKept(s: ShareState, memory: nat, size: nat, limit: nat, epoch: nat)
    requires Kept(s, memory, size, limit, epoch) && forall m :: m in s.lists ==> s.lists[m] == []
    ensures s.hashes == {}
  {
    NothingStored(s.lists, s.hashes, WorkHash());
  }

  /** What one call may do with a share: refuse it at once, or make room and then append it or refuse it. */
  ghost predicate AddSpec(size: nat, limit: nat, epoch: nat, before: ShareState, memory: nat,
                          p: SharePacket, ok: bool, after: ShareState)
  {
    if p.header.epochIndex != epoch || p.hash in before.hashes then !ok && after == before
    else exists room :: (if memory + size <= limit then room == before else Spills(before, room))
                        && ok == (|ListOf(room.lists, p.minerId)| < MAX_SHARES_PER_MINER)
                        && after == if ok then Offer(WorkHash(), MinerOf(), room, p) else room
  }

  ghost function WorkHashes(lists: map<MinerId, seq<SharePacket>>, ms: set<MinerId>): set<Hash32> {
    set m, i | m in ms && m in lists && 0 <= i < |lists[m]| :: lists[m][i].hash
  }

  ghost function FirstHashes(l: seq<SharePacket>, k: nat): set<Hash32>
    requires k <= |l|
  {
    set i | 0 <= i < k :: l[i].hash
  }

  lemma AscendingEmpty()
    ensures Ascending([])
  {
  }

  /** No hash is stored twice: one that is reached was not reached before. */
  lemma NotYetSeen(s: ShareState, done: set<MinerId>, m: MinerId, i: nat)
    requires Consistent(WorkHash(), MinerOf(), s) && m in s.lists && i < |s.lists[m]| && m !in done
    ensures s.lists[m][i].hash !in WorkHashes(s.lists, done)
    ensures s.lists[m][i].hash !in FirstHashes(s.lists[m], i)
  {
    var keys := KeysBy(s.lists, WorkHash());
    assert At(keys, m, i);
    forall n, j | n in s.lists && 0 <= j < |s.lists[n]| && !(n == m && j == i)
      ensures s.lists[n][j].hash != s.lists[m][i].hash
    {
      assert At(keys, n, j);
    }
  }

  lemma AllHashes(s: ShareState)
    requires Consistent(WorkHash(), MinerOf(), s)
    ensures WorkHashes(s.lists, s.lists.Keys) == s.hashes
  {
    var keys := KeysBy(s.lists, WorkHash());
    forall h ensures h in s.hashes <==> h in WorkHashes(s.lists, s.lists.Keys) {
      if h in s.hashes {
        var m, i :| At(keys, m, i) && keys[m][i] == h;
        assert s.lists[m][i].hash == h;
      } else if h in WorkHashes(s.lists, s.lists.Keys) {
        var m, i :| m in s.lists && 0 <= i < |s.lists[m]| && s.lists[m][i].hash == h;
        assert At(keys, m, i);
        assert false;
      }
    }
  }

  /** One miner's hashes, none of them seen before, put into an ascending list. */
  method InsertHashes(hashes: seq<Hash32>, l: seq<SharePacket>) returns (next: seq<Hash32>)
    requires Ascending(hashes)
    requires forall i :: 0 <= i < |l| ==> l[i].hash !in Elements(hashes) && l[i].hash !in FirstHashes(l, i)
    ensures Ascending(next) && Elements(next) == Elements(hashes) + FirstHashes(l, |l|)
  {
    hide Insert, Ascending;
    next := hashes;
    for i := 0 to |l|
      invariant Ascending(next)
      invariant Elements(next) == Elements(hashes) + FirstHashes(l, i)
    {
      var h := l[i].hash;
      assert h !in Elements(next);
      InsertAscending(next, h);
      InsertElements(next, h);
      next := Insert(next, h);
    }
  }

  class PersistentSharePool {
    const sha: Sha
    const shareSize: nat
    const maxMemoryBytes: nat
    var shares: map<MinerId, seq<SharePacket>>
    var shareHashes: set<Hash32>
    var shareCount: nat
    var memoryUsage: nat
    var currentEpoch: nat

    ghost function State(): ShareState
      reads this
    {
      PoolState(shares, shareHashes)
    }

    ghost predicate Valid()
      reads this
    {
      Kept(State(), memoryUsage, shareSize, maxMemoryBytes, currentEpoch) && shareCount == |shareHashes|
    }

    constructor (sha: Sha, maxMemoryMb: nat, shareSize: nat)
      ensures Valid() && State() == PoolState(map[], {}) && currentEpoch == 1
      ensures this.sha == sha && this.shareSize == shareSize && maxMemoryBytes == maxMemoryMb * 1024 * 1024
    {
      this.sha, this.shareSize, maxMemoryBytes := sha, shareSize, maxMemoryMb * 1024 * 1024;
      shares, shareHashes, shareCount, memoryUsage, currentEpoch := map[], {}, 0, 0, 1;
      new;
      EmptyKept(shareSize, maxMemoryBytes, 1);
    }

    method SpillOldest()
      requires Valid()
      modifies this
      ensures Valid() && Spills(old(State()), State()) && currentEpoch == old(currentEpoch)
      ensures shareHashes <= old(shareHashes)
      ensures memoryUsage + shareSize <= maxMemoryBytes || shareHashes == {}
    {
      hide Kept;
      KeptFacts(State(), memoryUsage, shareSize, maxMemoryBytes, currentEpoch);
      if shares == map[] {
        NoneKept(State(), memoryUsage, shareSize, maxMemoryBytes, currentEpoch);
        return;
      }
      var found, m := FindLargest(shares);
      if found {
        SpilledKept(State(), memoryUsage, shareSize, maxMemoryBytes, currentEpoch, m);
        shareHashes := shareHashes - {shares[m][0].hash};
        shareCount := shareCount - 1;
        memoryUsage := memoryUsage - shareSize;
        shares := shares[m := shares[m][1..]];
      } else {
        NoneKept(State(), memoryUsage, shareSize, maxMemoryBytes, currentEpoch);
      }
    }

    method AddShare(share: SharePacket) returns (ok: bool)
      requires Valid()
      modifies this
      ensures Valid() && currentEpoch == old(currentEpoch)
      ensures AddSpec(shareSize, maxMemoryBytes, currentEpoch, old(State()), old(memoryUsage), share, ok, State())
    {
      hide Kept, Spills, Consistent, Everywhere;
      if share.header.epochIndex != currentEpoch {
        return false;
      }
      if share.hash in shareHashes {
        return false;
      }
      if memoryUsage + shareSize > maxMemoryBytes {
        SpillOldest();
      }
      var m := share.minerId;
      var minerShares := if m in shares then shares[m] else [];
      if |minerShares| >= MAX_SHARES_PER_MINER {
        return false;
      }
      OfferedKept(State(), memoryUsage, shareSize, maxMemoryBytes, currentEpoch, share);
      shares := shares[m := minerShares + [share]];
      shareHashes := shareHashes + {share.hash};
      shareCount := shareCount + 1;
      memoryUsage := memoryUsage + shareSize;
      return true;
    }

    method NewEpoch()
      modifies this
      ensures Valid() && State() == PoolState(map[], {}) && currentEpoch == old(currentEpoch) + 1
    {
      shares, shareHashes, shareCount, memoryUsage, currentEpoch := map[], {}, 0, 0, currentEpoch + 1;
      EmptyKept(shareSize, maxMemoryBytes, currentEpoch);
    }

    /** The stored hashes, gathered miner by miner in any order and sorted, under the promoting tree. */
    method ComputeMerkleRoot() returns (root: Hash32)
      requires Valid()
      ensures root == PromotedRoot(sha, Sorted(shareHashes))
    {
      hide Consistent, Everywhere, PromotedRoot, Insert, Ascending;
      AscendingEmpty();
      var hashes: seq<Hash32> := [];
      var rest := shares.Keys;
      while rest != {}
        invariant rest <= shares.Keys && Ascending(hashes)
        invariant Elements(hashes) == WorkHashes(shares, shares.Keys - rest)
        decreases |rest|
      {
        var m :| m in rest;
        ghost var done := shares.Keys - rest;
        forall i | 0 <= i < |shares[m]|
          ensures shares[m][i].hash !in Elements(hashes) && shares[m][i].hash !in FirstHashes(shares[m], i)
        {
          NotYetSeen(State(), done, m, i);
        }
        hashes := InsertHashes(hashes, shares[m]);
        assert WorkHashes(shares, done + {m}) == WorkHashes(shares, done) + FirstHashes(shares[m], |shares[m]|);
        rest := rest - {m};
        assert shares.Keys - rest == done + {m};
      }
      AllHashes(State());
      assert shares.Keys - rest == shares.Keys;
      AscendingUnique(hashes, Sorted(shareHashes));
      return PromotedRoot(sha, hashes);
    }

    /** Serving a request: for each listed miner, the shares from the offset on, at most `limit` of them. */
    method GetSharesBatch(minerIds: seq<MinerId>, offset: nat, limit: nat) returns (result: seq<SharePacket>)
      ensures result == Batch(shares, minerIds, offset, limit)
    {
      result := [];
      for k := 0 to |minerIds|
        invariant result == Batch(shares, minerIds[..k], offset, limit)
      {
        assert minerIds[..k + 1][..k] == minerIds[..k];
        var m := minerIds[k];
        if m in shares {
          var l := shares[m];
          var start := if offset <= |l| then offset else |l|;
          var end := if offset + limit <= |l| then offset + limit else |l|;
          ghost var before := result;
          for i := start to end
            invariant result == before + l[start..i]
          {
            result := result + [l[i]];
          }
        }
      }
      assert minerIds[..|minerIds|] == minerIds;
    }
  }

  function Page<T>(l: seq<T>, offset: nat, limit: nat): seq<T> {
    var start := if offset <= |l| then offset else |l|;
    var end := if offset + limit <= |l| then offset + limit else |l|;
    l[start..end]
  }

  function Batch<T>(lists: map<MinerId, seq<T>>, ids: seq<MinerId>, offset: nat, limit: nat): seq<T> {
    if ids == [] then []
    else
      var rest, m := ids[..|ids| - 1], ids[|ids| - 1];
      Batch(lists, rest, offset, limit) + if m in lists then Page(lists[m], offset, limit) else []
  }

  /** The batches a peer gets by asking again and again, moving the offset by the limit each time. */
  function Asked<T>(lists: map<MinerId, seq<T>>, m: MinerId, limit: nat, times: nat): seq<T> {
    if times == 0 then [] else Asked(lists, m, limit, times - 1) + Batch(lists, [m], (times - 1) * limit, limit)
  }

  /** Asking page by page reassembles a miner's list, in order and without repetition. */
  lemma {:induction false} PagesReassemble<T>(lists: map<MinerId, seq<T>>, m: MinerId, limit: nat, times: nat)
    requires m in lists
    ensures Asked(lists, m, limit, times) == lists[m][..if times * limit <= |lists[m]| then times * limit else |lists[m]|]
  {
    hide Page;
    if times > 0 {
      PagesReassemble(lists, m, limit, times - 1);
      var l, offset := lists[m], (times - 1) * limit;
      OneLess(times, limit);
      assert [m][..0] == [];
      assert Batch(lists, [m], offset, limit) == Page(l, offset, limit);
      NextPage(l, offset, limit);
    }
  }

  lemma OneLess(n: nat, p: nat)
    requires n > 0
    ensures n * p == (n - 1) * p + p
  {
  }

  lemma NextPage<T>(l: seq<T>, offset: nat, limit: nat)
    ensures l[..if offset <= |l| then offset else |l|] + Page(l, offset, limit)
         == l[..if offset + limit <= |l| then offset + limit else |l|]
  {
  }

  // ---------- several miners ----------

  /** How many packets of one miner a batch has. */
  function PageSize<T>(lists: map<MinerId, seq<T>>, m: MinerId, offset: nat, limit: nat): nat {
    if m !in lists || |lists[m]| <= offset then 0
    else if |lists[m]| - offset < limit then |lists[m]| - offset
    else limit
  }

  /** Where the part of the miner at place k begins in a batch. */
  function PageStart<T>(lists: map<MinerId, seq<T>>, ids: seq<MinerId>, offset: nat, limit: nat, k: nat): nat
    requires k <= |ids|
  {
    if k == 0 then 0
    else PageStart(lists, ids, offset, limit, k - 1) + PageSize(lists, ids[k - 1], offset, limit)
  }

  /** The batch has the packets of the miner at place k at their positions. */
  ghost predicate HasPage<T>(batch: seq<T>, lists: map<MinerId, seq<T>>, ids: seq<MinerId>, offset: nat, limit: nat, k: nat)
    requires k < |ids|
  {
    var start, size := PageStart(lists, ids, offset, limit, k), PageSize(lists, ids[k], offset, limit);
    start + size <= |batch| && (size > 0 ==> batch[start..start + size] == lists[ids[k]][offset..offset + size])
  }

  /** A batch has, in the order of the miners asked for, the packets of each from the offset on, as many as the limit
      allows, in the order they are stored; and nothing else. */
  lemma {:induction false} BatchAt<T>(lists: map<MinerId, seq<T>>, ids: seq<MinerId>, offset: nat, limit: nat)
    ensures var batch := Batch(lists, ids, offset, limit);
      && |batch| == PageStart(lists, ids, offset, limit, |ids|)
      && forall k :: 0 <= k < |ids| ==> HasPage(batch, lists, ids, offset, limit, k)
  {
    hide Page;
    if ids != [] {
      var rest, m := ids[..|ids| - 1], ids[|ids| - 1];
      BatchAt(lists, rest, offset, limit);
      SameStart(lists, ids, offset, limit, |rest|);
      if m in lists { PageAt(lists[m], offset, limit); }
      forall k | 0 <= k < |rest| ensures HasPage(Batch(lists, ids, offset, limit), lists, ids, offset, limit, k) {
        SameStart(lists, ids, offset, limit, k);
        assert rest[k] == ids[k];
        assert HasPage(Batch(lists, rest, offset, limit), lists, rest, offset, limit, k);
      }
      assert HasPage(Batch(lists, ids, offset, limit), lists, ids, offset, limit, |rest|);
    }
  }

  lemma PageAt<T>(l: seq<T>, offset: nat, limit: nat)
    ensures |Page(l, offset, limit)| == if |l| <= offset then 0 else if |l| - offset < limit then |l| - offset else limit
    ensures Page(l, offset, limit) != [] ==> Page(l, offset, limit) == l[offset..offset + |Page(l, offset, limit)|]
  {
  }

  lemma {:induction false} SameStart<T>(lists: map<MinerId, seq<T>>, ids: seq<MinerId>, offset: nat, limit: nat, k: nat)
    requires k < |ids|
    ensures PageStart(lists, ids, offset, limit, k) == PageStart(lists, ids[..|ids| - 1], offset, limit, k)
  {
    if k > 0 { SameStart(lists, ids, offset, limit, k - 1); }
  }

  /** The batches a peer gets by asking for several miners again and again. */
  function AskedForAll<T>(lists: map<MinerId, seq<T>>, ids: seq<MinerId>, limit: nat, times: nat): seq<T> {
    if times == 0 then []
    else AskedForAll(lists, ids, limit, times - 1) + Batch(lists, ids, (times - 1) * limit, limit)
  }

  /** All lists of the miners asked for, one after the other. */
  function AllLists<T>(lists: map<MinerId, seq<T>>, ids: seq<MinerId>): seq<T> {
    if ids == [] then []
    else AllLists(lists, ids[..|ids| - 1]) + if ids[|ids| - 1] in lists then lists[ids[|ids| - 1]] else []
  }

  /** Asking for several miners page by page, often enough for the longest list, gets every packet of theirs as often
      as it is stored, and nothing else. */
  lemma PagesOfAllReassemble<T(!new)>(lists: map<MinerId, seq<T>>, ids: seq<MinerId>, limit: nat, times: nat)
    requires forall m :: m in ids && m in lists ==> |lists[m]| <= times * limit
    ensures multiset(AskedForAll(lists, ids, limit, times)) == multiset(AllLists(lists, ids))
  {
    AskedSoFar(lists, ids, limit, times);
    WholeLists(lists, ids, times * limit);
  }

  lemma {:induction false} AskedSoFar<T(!new)>(lists: map<MinerId, seq<T>>, ids: seq<MinerId>, limit: nat, times: nat)
    ensures multiset(AskedForAll(lists, ids, limit, times)) == multiset(Batch(lists, ids, 0, times * limit))
  {
    hide Batch;
    if times == 0 {
      NothingAsked(lists, ids, 0);
    } else {
      AskedSoFar(lists, ids, limit, times - 1);
      OneLess(times, limit);
      NextBatch(lists, ids, (times - 1) * limit, limit);
    }
  }

  lemma {:induction false} NothingAsked<T>(lists: map<MinerId, seq<T>>, ids: seq<MinerId>, offset: nat)
    ensures Batch(lists, ids, offset, 0) == []
  {
    if ids != [] { NothingAsked(lists, ids[..|ids| - 1], offset); }
  }

  lemma {:induction false} NextBatch<T(!new)>(lists: map<MinerId, seq<T>>, ids: seq<MinerId>, n: nat, limit: nat)
    ensures multiset(Batch(lists, ids, 0, n)) + multiset(Batch(lists, ids, n, limit))
         == multiset(Batch(lists, ids, 0, n + limit))
  {
    hide Page;
    if ids != [] {
      var rest, m := ids[..|ids| - 1], ids[|ids| - 1];
      NextBatch(lists, rest, n, limit);
      if m in lists {
        FirstPage(lists[m], n);
        FirstPage(lists[m], n + limit);
        NextPage(lists[m], n, limit);
      }
    }
  }

  lemma FirstPage<T>(l: seq<T>, n: nat)
    ensures Page(l, 0, n) == l[..if n <= |l| then n else |l|]
  {
  }

  lemma {:induction false} WholeLists<T>(lists: map<MinerId, seq<T>>, ids: seq<MinerId>, n: nat)
    requires forall m :: m in ids && m in lists ==> |lists[m]| <= n
    ensures Batch(lists, ids, 0, n) == AllLists(lists, ids)
  {
    if ids != [] {
      var m := ids[|ids| - 1];
      WholeLists(lists, ids[..|ids| - 1], n);
      if m in lists { FirstPage(lists[m], n); }
    }
  }
}

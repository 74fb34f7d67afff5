/** The node's share pool: per-miner lists with redundant counters and a memory limit. */
module NodeSharePool {
  import opened Bytes
  import opened Codec
  import opened Merkle
  import opened SortedHashes
  import opened PoolIndex

  /** A share as the node keeps it: the packet, and the time it was made, which is not part of its identity. */
  datatype Share = Share(packet: SharePacket, timestamp: u64)

  datatype AddResult = Added | Ignored | WrongEpoch | TooManyShares

  function PacketOf(): Share -> SharePacket { (s: Share) => s.packet }
  function Identity(sha: Sha): Share -> Hash32 { (s: Share) => sha(PacketBytes(s.packet)) }
  function Owner(): Share -> MinerId { (s: Share) => s.packet.minerId }
  function InEpoch(epoch: nat): Share -> bool { (s: Share) => s.packet.header.epochIndex == epoch }

  type PoolData = Pool<MinerId, Share, Hash32>

  class SharePool {
    const sha: Sha
    const identity: Share -> Hash32
    const shareSize: nat
    const maxMemoryBytes: nat
    var shares: map<MinerId, seq<Share>>
    var shareCount: map<MinerId, nat>
    var shareHashes: set<Hash32>
    var invalidShares: map<MinerId, nat>
    var totalShares: map<MinerId, nat>
    var currentEpoch: nat
    var memoryUsed: nat

    ghost function Data(): PoolData
      reads this
    {
      Pool(shares, shareHashes, shareCount, invalidShares, totalShares, memoryUsed)
    }

    /** The redundant indexes agree, and all shares carry the current epoch. */
    ghost predicate Valid()
      reads this
    {
      Sound(identity, Owner(), InEpoch(currentEpoch), shareSize, maxMemoryBytes, Data())
    }

    constructor (sha: Sha, maxMemoryMb: nat, shareSize: nat)
      ensures Valid() && Data() == Pool(map[], {}, map[], map[], map[], 0) && currentEpoch == 1
      ensures this.sha == sha && identity == Identity(sha) && this.shareSize == shareSize
      ensures maxMemoryBytes == maxMemoryMb * 1024 * 1024
    {
      this.sha, identity, this.shareSize, maxMemoryBytes := sha, Identity(sha), shareSize, maxMemoryMb * 1024 * 1024;
      shares, shareCount, shareHashes, invalidShares, totalShares := map[], map[], {}, map[], map[];
      currentEpoch, memoryUsed := 1, 0;
      new;
      EmptySound(identity, Owner(), InEpoch(1), shareSize, maxMemoryBytes);
    }

    /** Removes the oldest share of a miner with the most shares. */
    method EvictOldest()
      requires Valid()
      modifies this
      ensures Evicts(identity, shareSize, old(Data()), Data()) && currentEpoch == old(currentEpoch)
    {
      hide Sound, Evicts, Largest;
      NothingEvicted(identity, shareSize, Data());
      if shares == map[] {
        return;
      }
      var found, m := FindLargest(shares);
      if found {
        LargestHasShares(shares, m);
        OldestEvicted(identity, shareSize, Data(), m);
        PoppedSound(identity, Owner(), InEpoch(currentEpoch), shareSize, maxMemoryBytes, Data(), m);
        shareHashes := shareHashes - {identity(shares[m][0])};
        memoryUsed := memoryUsed - shareSize;
        shares := shares[m := shares[m][1..]];
        shareCount := shareCount[m := CountOf(shareCount, m) - 1];
      }
    }

    method AppendShare(share: Share)
      requires Valid() && MayPush(identity, shareSize, maxMemoryBytes, currentEpoch, Data(), share)
      modifies this
      ensures Valid() && Data() == Pushed(identity, Owner(), shareSize, old(Data()), share)
      ensures currentEpoch == old(currentEpoch)
    {
      hide Sound;
      PushedSound(identity, Owner(), InEpoch(currentEpoch), shareSize, maxMemoryBytes, Data(), share);
      var m := share.packet.minerId;
      shares := shares[m := ListOf(shares, m) + [share]];
      shareHashes := shareHashes + {identity(share)};
      memoryUsed := memoryUsed + shareSize;
      shareCount := Bump(shareCount, m);
    }

    /** Whatever the share and the verdict on it: one of another epoch, or a known one, leaves the pool alone; an
        invalid one is only counted; a valid one is counted, makes room by eviction when the memory limit would
        be passed, and is then appended unless its miner is at the limit. */
    method AddShare(share: Share, isValid: bool) returns (r: AddResult)
      requires Valid()
      modifies this
      ensures Valid() && currentEpoch == old(currentEpoch)
      ensures AddShareSpec(identity, shareSize, maxMemoryBytes, currentEpoch, old(Data()), share, isValid, r, Data())
    {
      hide Sound, Evicts;
      ghost var before := Data();
      var m := share.packet.minerId;
      var shareHash := identity(share);
      if share.packet.header.epochIndex != currentEpoch {
        return WrongEpoch;
      }
      if shareHash in shareHashes {
        return Ignored;
      }
      CountedSound(identity, Owner(), InEpoch(currentEpoch), shareSize, maxMemoryBytes, Data(), m, isValid);
      totalShares := Bump(totalShares, m);
      if !isValid {
        invalidShares := Bump(invalidShares, m);
        return Ignored;
      }
      if memoryUsed + shareSize > maxMemoryBytes {
        EvictOldest();
      }
      ghost var room := Data();
      RoomSound(identity, shareSize, maxMemoryBytes, currentEpoch, before, room, share);
      hide AddShareSpec, MakesRoom, InEpoch, MayPush;
      var count := CountOf(shareCount, m);
      if count >= MAX_SHARES_PER_MINER {
        AddedSpec(identity, shareSize, maxMemoryBytes, currentEpoch, before, share, room, TooManyShares, Data());
        return TooManyShares;
      }
      AppendShare(share);
      AddedSpec(identity, shareSize, maxMemoryBytes, currentEpoch, before, share, room, Added, Data());
      return Added;
    }

    method NewEpoch()
      modifies this
      ensures Valid() && Data() == Pool(map[], {}, map[], map[], map[], 0) && currentEpoch == old(currentEpoch) + 1
    {
      shares, shareCount, shareHashes, invalidShares, totalShares := map[], map[], {}, map[], map[];
      memoryUsed, currentEpoch := 0, currentEpoch + 1;
      EmptySound(identity, Owner(), InEpoch(currentEpoch), shareSize, maxMemoryBytes);
    }

    /** The commitment depends on the set of stored hashes alone, not on the order it is visited in. */
    method CalculateMerkleRoot() returns (root: Hash32)
      ensures root == CommitRoot(sha, shareHashes)
    {
      if shareHashes == {} {
        return ZeroHash();
      }
      var hashes := CollectSorted(shareHashes);
      root := RootLoop(sha, hashes);
    }
  }

  /** The pool a valid share is added to: the counted one, or what eviction leaves of it. */
  ghost predicate MakesRoom(identity: Share -> Hash32, size: nat, limit: nat, counted: PoolData, room: PoolData) {
    if counted.memory + size <= limit then room == counted else Evicts(identity, size, counted, room)
  }

  ghost predicate AddShareSpec(identity: Share -> Hash32, size: nat, limit: nat, epoch: nat,
                               before: PoolData, share: Share, isValid: bool, r: AddResult, after: PoolData)
  {
    var m := share.packet.minerId;
    if share.packet.header.epochIndex != epoch then r == WrongEpoch && after == before
    else if identity(share) in before.hashes then r == Ignored && after == before
    else if !isValid then r == Ignored && after == Counted(before, m, false)
    else exists room ::
      MakesRoom(identity, size, limit, Counted(before, m, true), room) && Admits(identity, size, room, share, r, after)
  }

  /** Appending to the pool that has room, unless the miner is at the limit. */
  ghost predicate Admits(identity: Share -> Hash32, size: nat, room: PoolData, share: Share, r: AddResult,
                         after: PoolData) {
    if |ListOf(room.shares, share.packet.minerId)| >= MAX_SHARES_PER_MINER then r == TooManyShares && after == room
    else r == Added && after == Pushed(identity, Owner(), size, room, share)
  }

  lemma AddedSpec(identity: Share -> Hash32, size: nat, limit: nat, epoch: nat,
                  before: PoolData, share: Share, room: PoolData, r: AddResult, after: PoolData)
    requires share.packet.header.epochIndex == epoch && identity(share) !in before.hashes
    requires MakesRoom(identity, size, limit, Counted(before, share.packet.minerId, true), room)
    requires Admits(identity, size, room, share, r, after)
    ensures AddShareSpec(identity, size, limit, epoch, before, share, true, r, after)
  {
  }

  /** A new share of the epoch, countable, with a place for it in its miner's list and in memory. */
  ghost predicate MayPush(identity: Share -> Hash32, size: nat, limit: nat, epoch: nat, p: PoolData, share: Share) {
    var m := share.packet.minerId;
    && share.packet.header.epochIndex == epoch && identity(share) !in p.hashes
    && |ListOf(p.shares, m)| < MAX_SHARES_PER_MINER
    && |ListOf(p.shares, m)| + CountOf(p.invalid, m) < CountOf(p.total, m)
    && (p.memory + size <= limit || p.hashes == {})
  }

  /** Making room keeps the pool sound, and the new share may then be appended unless its miner is at the limit. */
  lemma RoomSound(identity: Share -> Hash32, size: nat, limit: nat, epoch: nat, p: PoolData, room: PoolData, share: Share)
    requires Sound(identity, Owner(), InEpoch(epoch), size, limit, p) && identity(share) !in p.hashes
    requires share.packet.header.epochIndex == epoch
    requires MakesRoom(identity, size, limit, Counted(p, share.packet.minerId, true), room)
    ensures Sound(identity, Owner(), InEpoch(epoch), size, limit, room)
    ensures CountOf(room.count, share.packet.minerId) == |ListOf(room.shares, share.packet.minerId)|
    ensures |ListOf(room.shares, share.packet.minerId)| < MAX_SHARES_PER_MINER ==>
      MayPush(identity, size, limit, epoch, room, share)
  {
    var m := share.packet.minerId;
    var counted := Counted(p, m, true);
    CountedSound(identity, Owner(), InEpoch(epoch), size, limit, p, m, true);
    SoundFacts(identity, Owner(), InEpoch(epoch), size, limit, counted, m);
    if counted.memory + size > limit {
      hide Sound;
      EvictsSound(identity, Owner(), InEpoch(epoch), size, limit, counted, room);
      assert |ListOf(room.shares, m)| <= |ListOf(counted.shares, m)|;
    }
    SoundFacts(identity, Owner(), InEpoch(epoch), size, limit, room, m);
  }

  /** Adding a valid share of the current epoch is one step of offering it, when the share is known or both limits
      leave room for it. */
  lemma AddedIsOffered(identity: Share -> Hash32, size: nat, limit: nat, epoch: nat,
                       before: PoolData, share: Share, r: AddResult, after: PoolData)
    requires AddShareSpec(identity, size, limit, epoch, before, share, true, r, after)
    requires share.packet.header.epochIndex == epoch
    requires identity(share) in before.hashes
             || (before.memory + size <= limit && |ListOf(before.shares, share.packet.minerId)| < MAX_SHARES_PER_MINER)
    ensures PoolState(after.shares, after.hashes) == Offer(identity, Owner(), PoolState(before.shares, before.hashes), share)
    ensures r == if identity(share) in before.hashes then Ignored else Added
    ensures after.memory == before.memory + if identity(share) in before.hashes then 0 else size
  {
  }

  /** A share refused because its miner is at the limit leaves the stored shares as they were exactly if there was
      room in memory; otherwise one other share was evicted for it first. */
  lemma RefusedKeepsSharesIff(identity: Share -> Hash32, size: nat, limit: nat, epoch: nat,
                              before: PoolData, share: Share, after: PoolData)
    requires Sound(identity, Owner(), InEpoch(epoch), size, limit, before)
    requires AddShareSpec(identity, size, limit, epoch, before, share, true, TooManyShares, after)
    ensures after.shares == before.shares <==> before.memory + size <= limit
    ensures after.hashes == before.hashes <==> before.memory + size <= limit
    ensures |after.hashes| == |before.hashes| - if before.memory + size <= limit then 0 else 1
  {
    hide Sound, Evicts;
    var m := share.packet.minerId;
    var counted := Counted(before, m, true);
    if before.memory + size > limit {
      CountedSound(identity, Owner(), InEpoch(epoch), size, limit, before, m, true);
      EvictsDrops(identity, size, limit, epoch, counted, after, m);
    }
  }

  lemma EvictsDrops(identity: Share -> Hash32, size: nat, limit: nat, epoch: nat, p: PoolData, q: PoolData, m: MinerId)
    requires Sound(identity, Owner(), InEpoch(epoch), size, limit, p) && Evicts(identity, size, p, q)
    requires |ListOf(q.shares, m)| >= MAX_SHARES_PER_MINER
    ensures |q.hashes| == |p.hashes| - 1 && q.shares != p.shares
  {
    assert exists n :: n in p.shares && p.shares[n] != [];
    var n :| MayPop(identity, size, p, n) && q == Popped(identity, size, p, n);
    hide Sound;
    PoppedSound(identity, Owner(), InEpoch(epoch), size, limit, p, n);
    assert |q.shares[n]| == |p.shares[n]| - 1;
  }
}

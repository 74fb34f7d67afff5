/** The node's miners and its share pool together: a share is counted for its miner when, and only when, the pool has
    taken it, and an epoch end clears both. */
module JointShares {
  import opened Bytes
  import opened PoolIndex
  import opened NodeSharePool
  import opened Ledger
  import opened Payouts
  import Rewards
  import Loyalty

  /** The node's state, its pool, and whether the pool evicted a share in this epoch. */
  datatype Joint = Joint(s: State, pool: PoolData, evicted: bool)

  datatype Move =
    | Offer(share: Share, valid: bool)
    | PutBond(id: MinerId, amount: nat)
    | Grow(height: nat)
    | EndEpoch(script: seq<byte>, results: seq<MinerResult>)

  /** The pool's parameters. */
  datatype Limits = Limits(identity: Share -> Hash32, size: nat, limit: nat)

  const NO_SHARES: PoolData := Pool(map[], {}, map[], map[], map[], 0)

  predicate BondActive(s: State, id: MinerId) { id in s.bonds && Rewards.IsActive(s.bonds[id], s.height) }

  /** Adding the share passes the memory limit. */
  ghost predicate Crowds(lim: Limits, epoch: nat, p: PoolData, share: Share, valid: bool) {
    valid && share.packet.header.epochIndex == epoch && lim.identity(share) !in p.hashes && p.memory + lim.size > lim.limit
  }

  ghost predicate Offers(lim: Limits, j: Joint, share: Share, valid: bool, next: Joint) {
    if !BondActive(j.s, share.packet.minerId) then next == j
    else exists r ::
      && AddShareSpec(lim.identity, lim.size, lim.limit, j.s.epoch, j.pool, share, valid, r, next.pool)
      && next.s == ShareOffered(j.s, share.packet.minerId, r == Added)
      && next.evicted == (j.evicted || Crowds(lim, j.s.epoch, j.pool, share, valid))
  }

  ghost predicate Moves(c: Config, lim: Limits, j: Joint, move: Move, next: Joint) {
    match move
    case Offer(share, valid) => Offers(lim, j, share, valid, next)
    case PutBond(id, amount) => next == j.(s := BondPut(j.s, id, amount))
    case Grow(height) => next == j.(s := j.s.(height := height))
    case EndEpoch(script, results) => next == Joint(EpochEnded(c, j.s, script, results), NO_SHARES, false)
  }

  ghost predicate Reaches(c: Config, lim: Limits, moves: seq<Move>, j: Joint) {
    if moves == [] then j == Joint(GenesisState(c), NO_SHARES, false)
    else
      var n := |moves| - 1;
      exists before :: Reaches(c, lim, moves[..n], before) && Moves(c, lim, before, moves[n], j)
  }

  function CountedFor(s: State, id: MinerId): nat { if id in s.miners then s.miners[id].shares else 0 }

  function Pooled(p: PoolData, id: MinerId): nat { |ListOf(p.shares, id)| }

  /** Every miner is counted at least its pooled shares, and exactly those if nothing was evicted. */
  ghost predicate InTune(j: Joint) {
    forall id :: Pooled(j.pool, id) <= CountedFor(j.s, id) && (!j.evicted ==> Pooled(j.pool, id) == CountedFor(j.s, id))
  }

  /** What adding a share does to the pooled shares of every miner. */
  lemma PooledAfter(lim: Limits, epoch: nat, p: PoolData, share: Share, valid: bool, r: AddResult, next: PoolData, id: MinerId)
    requires AddShareSpec(lim.identity, lim.size, lim.limit, epoch, p, share, valid, r, next)
    ensures var most := Pooled(p, id) + if r == Added && id == share.packet.minerId then 1 else 0;
      Pooled(next, id) <= most && (!Crowds(lim, epoch, p, share, valid) ==> Pooled(next, id) == most)
  {
  }

  lemma CountedAfter(s: State, id: MinerId, accepted: bool, other: MinerId)
    requires BondActive(s, id)
    ensures CountedFor(ShareOffered(s, id, accepted), other) == CountedFor(s, other) + if accepted && other == id then 1 else 0
  {
    hide Loyalty.Update;
  }

  lemma MoveStaysInTune(c: Config, lim: Limits, j: Joint, move: Move, next: Joint)
    requires InTune(j) && Moves(c, lim, j, move, next)
    ensures InTune(next)
  {
    hide AddShareSpec, ShareOffered, Crowds, EpochEnded, BondPut;
    match move
    case Offer(share, valid) =>
      if BondActive(j.s, share.packet.minerId) {
        OfferStaysInTune(lim, j, share, valid, next);
      }
    case PutBond(id, amount) => BondCounts(j.s, id, amount);
    case Grow(height) =>
    case EndEpoch(script, results) => EndCounts(c, j.s, script, results);
  }

  lemma OfferStaysInTune(lim: Limits, j: Joint, share: Share, valid: bool, next: Joint)
    requires InTune(j) && Offers(lim, j, share, valid, next) && BondActive(j.s, share.packet.minerId)
    ensures InTune(next)
  {
    hide AddShareSpec, ShareOffered, Crowds, Pooled, CountedFor;
    var r :| && AddShareSpec(lim.identity, lim.size, lim.limit, j.s.epoch, j.pool, share, valid, r, next.pool)
             && next.s == ShareOffered(j.s, share.packet.minerId, r == Added);
    forall id ensures Pooled(next.pool, id) <= CountedFor(next.s, id)
              ensures !next.evicted ==> Pooled(next.pool, id) == CountedFor(next.s, id)
    {
      PooledAfter(lim, j.s.epoch, j.pool, share, valid, r, next.pool, id);
      CountedAfter(j.s, share.packet.minerId, r == Added, id);
      assert Pooled(j.pool, id) <= CountedFor(j.s, id);
    }
  }

  lemma BondCounts(s: State, id: MinerId, amount: nat)
    ensures forall other :: CountedFor(BondPut(s, id, amount), other) == CountedFor(s, other)
  {
  }

  lemma EndCounts(c: Config, s: State, script: seq<byte>, results: seq<MinerResult>)
    ensures forall id :: CountedFor(EpochEnded(c, s, script, results), id) == 0
  {
    hide PayAll, LoyaltyAfter;
  }

  /** Over every joint run the shares counted for a miner, which its rewards depend on, are at least those the pool
      holds for it, and exactly those if the pool evicted nothing in the epoch. */
  lemma {:induction false} CountedAndPooled(c: Config, lim: Limits, moves: seq<Move>, j: Joint)
    requires Reaches(c, lim, moves, j)
    ensures InTune(j)
  {
    hide Moves, GenesisState;
    if moves == [] {
      NothingCounted(c);
    } else {
      var n := |moves| - 1;
      var before :| Reaches(c, lim, moves[..n], before) && Moves(c, lim, before, moves[n], j);
      CountedAndPooled(c, lim, moves[..n], before);
      MoveStaysInTune(c, lim, before, moves[n], j);
    }
  }

  lemma NothingCounted(c: Config)
    ensures InTune(Joint(GenesisState(c), NO_SHARES, false))
  {
  }
}

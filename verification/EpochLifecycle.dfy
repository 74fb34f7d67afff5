/** The epoch manager: which blocks it takes, when an epoch ends, and which shares it pools. */
module EpochLifecycle {
  import opened Bytes
  import opened Codec
  import opened Merkle
  import opened PoolIndex
  import opened EpochShareStore
  import opened MedianTime
  import opened Protocol

  const GENESIS_TIMESTAMP: nat := 1741353600

  datatype Epoch = Epoch(startBlock: nat, endBlock: nat, startTime: nat, endTime: Option<nat>,
                         totalShares: nat, activeMiners: nat)
  {
    predicate ContainsBlock(height: nat) { startBlock <= height <= endBlock }
  }

  function NewEpoch(startBlock: nat, startTime: nat): Epoch {
    Epoch(startBlock, startBlock + EPOCH_BLOCKS - 1, startTime, None, 0, 0)
  }

  datatype Outcome = Taken | InvalidEpoch | InvalidTimestamp

  /** The manager's values; `pool` is the state of its share store. */
  datatype Manager = Manager(epochs: map<nat, Epoch>, current: nat, timestamps: seq<nat>, heights: seq<nat>,
                             pool: ShareState)

  function NewManager(): Manager {
    Manager(map[1 := NewEpoch(0, GENESIS_TIMESTAMP)], 1, [], [], PoolState(map[], {}))
  }

  /** Strictly after the median of the last eleven timestamps and strictly before two hours from now, once there
      are eleven; anything before that. */
  predicate TimestampOk(timestamps: seq<nat>, timestamp: nat, now: nat) {
    |timestamps| < 11 || Median(Window(timestamps)) < timestamp < now + FUTURE_LIMIT
  }

  function EndEpoch(m: Manager, now: nat): Manager {
    var ended := if m.current in m.epochs
      then m.epochs[m.current := m.epochs[m.current].(endTime := Some(now), totalShares := |m.pool.hashes|,
                                                      activeMiners := |m.pool.lists|)]
      else m.epochs;
    var start := if m.heights == [] then 1 else m.heights[|m.heights| - 1] + 1;
    m.(epochs := ended[m.current + 1 := NewEpoch(start, now)], current := m.current + 1, pool := PoolState(map[], {}))
  }

  function AddBlockTo(m: Manager, epochIndex: nat, timestamp: nat, height: nat, now: nat): (Manager, Outcome) {
    if epochIndex != m.current then (m, InvalidEpoch)
    else if !TimestampOk(m.timestamps, timestamp, now) then (m, InvalidTimestamp)
    else
      var stored := m.(timestamps := m.timestamps + [timestamp], heights := m.heights + [height]);
      (if |stored.heights| % EPOCH_BLOCKS == 0 then EndEpoch(stored, now) else stored, Taken)
  }

  class EpochManager {
    var epochs: map<nat, Epoch>
    var currentEpoch: nat
    var blockTimestamps: seq<nat>
    var blockHeights: seq<nat>
    const epochShares: EpochShares

    ghost function State(): Manager
      reads this, epochShares
    {
      Manager(epochs, currentEpoch, blockTimestamps, blockHeights, epochShares.State())
    }

    constructor (sha: Sha)
      ensures fresh(epochShares) && epochShares.Valid() && epochShares.sha == sha
      ensures State() == NewManager()
    {
      epochShares := new EpochShares(sha);
      epochs, currentEpoch := map[1 := NewEpoch(0, GENESIS_TIMESTAMP)], 1;
      blockTimestamps, blockHeights := [], [];
    }

    method VerifyTimestamp(timestamp: nat, now: nat) returns (ok: bool)
      ensures ok == TimestampOk(blockTimestamps, timestamp, now)
    {
      if |blockTimestamps| < 11 {
        return true;
      }
      var last11 := Sort(blockTimestamps[|blockTimestamps| - 11..]);
      var median := last11[5];
      return timestamp > median && timestamp < now + FUTURE_LIMIT;
    }

    method AddBlock(epochIndex: nat, timestamp: nat, height: nat, now: nat) returns (r: Outcome)
      requires epochShares.Valid()
      modifies this, epochShares
      ensures epochShares.Valid()
      ensures (State(), r) == AddBlockTo(old(State()), epochIndex, timestamp, height, now)
    {
      if epochIndex != currentEpoch {
        return InvalidEpoch;
      }
      var ok := VerifyTimestamp(timestamp, now);
      if !ok {
        return InvalidTimestamp;
      }
      blockTimestamps := blockTimestamps + [timestamp];
      blockHeights := blockHeights + [height];
      var blocksInEpoch := |blockHeights| % EPOCH_BLOCKS;
      if blocksInEpoch == 0 {
        EndCurrentEpoch(now);
      }
      return Taken;
    }

    method EndCurrentEpoch(now: nat)
      requires epochShares.Valid()
      modifies this, epochShares
      ensures epochShares.Valid() && State() == EndEpoch(old(State()), now)
    {
      hide Consistent, NewEpoch;
      if currentEpoch in epochs {
        epochs := epochs[currentEpoch := epochs[currentEpoch].(endTime := Some(now),
          totalShares := epochShares.shareCount, activeMiners := |epochShares.shares|)];
      }
      var next := currentEpoch + 1;
      var start := if blockHeights == [] then 1 else blockHeights[|blockHeights| - 1] + 1;
      epochs := epochs[next := NewEpoch(start, now)];
      epochShares.Clear();
      currentEpoch := next;
    }

    /** Shares of another epoch are refused before the store sees them. */
    method AddShare(share: SharePacket) returns (ok: bool)
      requires epochShares.Valid()
      modifies epochShares
      ensures epochShares.Valid()
      ensures State() == AddShareTo(epochShares.sha, old(State()), share)
      ensures ok <==> TakesShare(epochShares.sha, old(State()), share)
    {
      if share.header.epochIndex != currentEpoch {
        return false;
      }
      ok := epochShares.AddShare(share);
    }
  }

  /** A share of the current epoch that is known already, or that its miner still has room for. */
  predicate TakesShare(sha: Sha, m: Manager, share: SharePacket) {
    share.header.epochIndex == m.current
    && (ShareKey(sha)(share) in m.pool.hashes || |ListOf(m.pool.lists, share.minerId)| < MAX_SHARES_PER_MINER)
  }

  function AddShareTo(sha: Sha, m: Manager, share: SharePacket): Manager {
    if share.header.epochIndex != m.current then m
    else m.(pool := Offer(ShareKey(sha), MinerOf(), m.pool, share))
  }

  // ---------- runs ----------

  datatype Event =
    | Block(epochIndex: nat, timestamp: nat, height: nat, now: nat)
    | Share(share: SharePacket)

  function Step(sha: Sha, m: Manager, e: Event): Manager {
    match e
    case Block(epochIndex, timestamp, height, now) => AddBlockTo(m, epochIndex, timestamp, height, now).0
    case Share(share) => AddShareTo(sha, m, share)
  }

  function Run(sha: Sha, es: seq<Event>): Manager {
    if es == [] then NewManager() else Step(sha, Run(sha, es[..|es| - 1]), es[|es| - 1])
  }

  /** Each block offered carries the height after the blocks accepted so far: 0, 1, 2, ... */
  ghost predicate HeightsInOrder(sha: Sha, es: seq<Event>) {
    forall i :: 0 <= i < |es| && es[i].Block? ==> es[i].height == |Run(sha, es[..i]).heights|
  }

  /** The epochs so far cover the heights 0 .. current * 1440 - 1, each its own block of 1440. */
  ghost predicate Tiled(m: Manager) {
    && m.current == 1 + |m.heights| / EPOCH_BLOCKS
    && (forall e :: e in m.epochs <==> 1 <= e <= m.current)
    && (forall e :: e in m.epochs ==>
          m.epochs[e].startBlock == (e - 1) * EPOCH_BLOCKS && m.epochs[e].endBlock == e * EPOCH_BLOCKS - 1)
    && (forall k :: 0 <= k < |m.heights| ==> m.heights[k] == k)
  }

  ghost predicate PoolIsCurrent(m: Manager) {
    forall id, i :: id in m.pool.lists && 0 <= i < |m.pool.lists[id]| ==>
      m.pool.lists[id][i].header.epochIndex == m.current
  }

  lemma RollOver(n: nat)
    requires n > 0
    ensures n % EPOCH_BLOCKS == 0 ==> n / EPOCH_BLOCKS == (n - 1) / EPOCH_BLOCKS + 1 && n == n / EPOCH_BLOCKS * EPOCH_BLOCKS
    ensures n % EPOCH_BLOCKS != 0 ==> n / EPOCH_BLOCKS == (n - 1) / EPOCH_BLOCKS
  {
  }

  lemma BlockKeepsTiled(m: Manager, epochIndex: nat, timestamp: nat, now: nat)
    requires Tiled(m)
    ensures Tiled(AddBlockTo(m, epochIndex, timestamp, |m.heights|, now).0)
  {
    RollOver(|m.heights| + 1);
  }

  lemma HeightsPrefix(sha: Sha, es: seq<Event>)
    requires HeightsInOrder(sha, es) && es != []
    ensures HeightsInOrder(sha, es[..|es| - 1])
  {
    var prefix := es[..|es| - 1];
    forall i | 0 <= i < |prefix| && prefix[i].Block? ensures prefix[i].height == |Run(sha, prefix[..i]).heights| {
      assert prefix[..i] == es[..i];
    }
  }

  /** Over every run with heights 0, 1, 2, ..., epoch e covers exactly the heights (e - 1) * 1440 .. e * 1440 - 1,
      and the current epoch is one more than the number of full epochs of accepted blocks. */
  lemma {:induction false} EpochsTileTheChain(sha: Sha, es: seq<Event>)
    requires HeightsInOrder(sha, es)
    ensures Tiled(Run(sha, es))
  {
    if es != [] {
      var prefix, e := es[..|es| - 1], es[|es| - 1];
      HeightsPrefix(sha, es);
      EpochsTileTheChain(sha, prefix);
      if e.Block? {
        BlockKeepsTiled(Run(sha, prefix), e.epochIndex, e.timestamp, e.now);
      }
    }
  }

  /** An accepted block's height lies in the epoch its header names, and in no other epoch that ever exists. */
  lemma AcceptedBlockInItsEpoch(sha: Sha, es: seq<Event>, i: nat, epoch: nat)
    requires HeightsInOrder(sha, es) && i < |es| && es[i].Block?
    requires var b := es[i]; AddBlockTo(Run(sha, es[..i]), b.epochIndex, b.timestamp, b.height, b.now).1 == Taken
    ensures es[i].epochIndex == 1 + es[i].height / EPOCH_BLOCKS
    ensures epoch in Run(sha, es).epochs ==>
      (Run(sha, es).epochs[epoch].ContainsBlock(es[i].height) <==> epoch == es[i].epochIndex)
  {
    HeightsUpTo(sha, es, i);
    EpochsTileTheChain(sha, es[..i]);
    EpochsTileTheChain(sha, es);
    var h := es[i].height;
    if epoch in Run(sha, es).epochs {
      var e := Run(sha, es).epochs[epoch];
      assert e.startBlock == (epoch - 1) * EPOCH_BLOCKS && e.endBlock == epoch * EPOCH_BLOCKS - 1;
      InBlockOf(h, epoch);
    }
  }

  lemma InBlockOf(h: nat, e: int)
    ensures (e - 1) * EPOCH_BLOCKS <= h <= e * EPOCH_BLOCKS - 1 <==> e == 1 + h / EPOCH_BLOCKS
  {
  }

  lemma {:induction false} HeightsUpTo(sha: Sha, es: seq<Event>, n: nat)
    requires HeightsInOrder(sha, es) && n <= |es|
    ensures HeightsInOrder(sha, es[..n])
  {
    forall i | 0 <= i < n && es[..n][i].Block? ensures es[..n][i].height == |Run(sha, es[..n][..i]).heights| {
      assert es[..n][..i] == es[..i];
    }
  }

  /** Over every run, whatever heights are offered, all pooled shares belong to the current epoch. */
  lemma {:induction false} PoolStaysCurrent(sha: Sha, es: seq<Event>)
    ensures PoolIsCurrent(Run(sha, es))
  {
    if es != [] {
      PoolStaysCurrent(sha, es[..|es| - 1]);
    }
  }

  // ---------- median time ----------

  lemma StepAppends(sha: Sha, m: Manager, e: Event)
    ensures var next := Step(sha, m, e);
      next.timestamps == m.timestamps
      || (e.Block? && next.timestamps == m.timestamps + [e.timestamp]
          && (|m.timestamps| >= 11 ==> e.timestamp > Median(Window(m.timestamps))))
  {
  }

  /** Along every run the median of the last eleven timestamps never goes back, though timestamps may. */
  lemma {:induction false} MedianTimeNeverGoesBack(sha: Sha, es: seq<Event>, i: nat)
    requires i <= |es| && |Run(sha, es[..i]).timestamps| >= 11
    ensures |Run(sha, es).timestamps| >= 11
    ensures Median(Window(Run(sha, es[..i]).timestamps)) <= Median(Window(Run(sha, es).timestamps))
  {
    hide Step, Median, Window;
    if i == |es| {
      assert es[..i] == es;
    } else {
      var prefix := es[..|es| - 1];
      assert prefix[..i] == es[..i];
      MedianTimeNeverGoesBack(sha, prefix, i);
      var m, e := Run(sha, prefix), es[|es| - 1];
      StepAppends(sha, m, e);
      if Run(sha, es).timestamps != m.timestamps {
        MedianNeverFalls(m.timestamps, e.timestamp);
      }
    }
  }

  /** No accepted block is at or before the median of any earlier window. */
  lemma AcceptedAfterEveryMedian(sha: Sha, es: seq<Event>, i: nat, b: Event)
    requires i <= |es| && |Run(sha, es[..i]).timestamps| >= 11 && b.Block?
    requires AddBlockTo(Run(sha, es), b.epochIndex, b.timestamp, b.height, b.now).1 == Taken
    ensures b.timestamp > Median(Window(Run(sha, es[..i]).timestamps))
  {
    MedianTimeNeverGoesBack(sha, es, i);
  }

  // ---------- what is taken, and what is recorded ----------

  /** A block is taken exactly if it names the current epoch and, once eleven blocks were, at least six of the last
      eleven timestamps are earlier than its own, and its own is less than 7200 seconds ahead of the clock. */
  lemma TakenIff(sha: Sha, es: seq<Event>, b: Event)
    requires b.Block?
    ensures var m := Run(sha, es);
      var n := |m.timestamps|;
      var (next, r) := AddBlockTo(m, b.epochIndex, b.timestamp, b.height, b.now);
      && (r == Taken <==>
           b.epochIndex == m.current
           && (n >= 11 ==> CountBelow(m.timestamps[n - 11..], b.timestamp) >= 6 && b.timestamp < b.now + 7200))
      && (r == InvalidEpoch <==> b.epochIndex != m.current)
      && next == Run(sha, es + [b])
      && next.timestamps == m.timestamps + (if r == Taken then [b.timestamp] else [])
      && next.heights == m.heights + (if r == Taken then [b.height] else [])
      && (r != Taken ==> next == m)
      && next.current == m.current + (if r == Taken && (|m.heights| + 1) % 1440 == 0 then 1 else 0)
  {
    hide Median, CountBelow, Run, NewEpoch;
    var m := Run(sha, es);
    RunOneMore(sha, es, b);
    if |m.timestamps| >= 11 {
      MedianRank(Window(m.timestamps), b.timestamp);
    }
  }

  lemma RunOneMore(sha: Sha, es: seq<Event>, b: Event)
    ensures Run(sha, es + [b]) == Step(sha, Run(sha, es), b)
  {
    hide Step;
    assert (es + [b])[..|es|] == es;
  }

  /** Event i ended epoch e: the epoch has the time and the numbers of stored shares and of miners of that moment, and
      the next one starts at that time. */
  ghost predicate EndedBy(sha: Sha, es: seq<Event>, i: nat, epochs: map<nat, Epoch>, e: nat)
    requires i < |es| && e in epochs && e + 1 in epochs
  {
    var before := Run(sha, es[..i]);
    && es[i].Block? && before.current == e && Run(sha, es[..i + 1]).current == e + 1
    && epochs[e].endTime == Some(es[i].now) && epochs[e + 1].startTime == es[i].now
    && epochs[e].totalShares == |before.pool.hashes| && epochs[e].activeMiners == |before.pool.lists|
  }

  lemma {:induction false} EpochsSoFar(sha: Sha, es: seq<Event>)
    ensures var m := Run(sha, es);
      && (forall e :: e in m.epochs <==> 1 <= e <= m.current) && m.current >= 1
      && m.epochs[m.current].endTime == None && m.epochs[1].startTime == GENESIS_TIMESTAMP
  {
    if es != [] { EpochsSoFar(sha, es[..|es| - 1]); }
  }

  lemma StepKeepsEpochs(sha: Sha, m: Manager, event: Event, e: nat)
    requires forall k :: k in m.epochs <==> 1 <= k <= m.current
    requires 1 <= e <= m.current
    ensures var next := Step(sha, m, event);
      && m.current <= next.current && e in next.epochs && next.epochs[e].startTime == m.epochs[e].startTime
      && (e < m.current ==> next.epochs[e] == m.epochs[e])
  {
    hide TimestampOk;
  }

  lemma StepThatEnds(sha: Sha, m: Manager, event: Event)
    requires m.current < Step(sha, m, event).current && m.current in m.epochs
    ensures var next, e := Step(sha, m, event), m.current;
      && event.Block? && next.current == e + 1 && e in next.epochs && e + 1 in next.epochs
      && next.epochs[e].endTime == Some(event.now) && next.epochs[e + 1].startTime == event.now
      && next.epochs[e].totalShares == |m.pool.hashes| && next.epochs[e].activeMiners == |m.pool.lists|
  {
    hide TimestampOk;
  }

  lemma RunLast(sha: Sha, es: seq<Event>, n: nat)
    requires n == |es| - 1
    ensures Run(sha, es) == Step(sha, Run(sha, es[..n]), es[n])
  {
  }

  lemma EndsNow(sha: Sha, es: seq<Event>, n: nat)
    requires n == |es| - 1 && Run(sha, es[..n]).current < Run(sha, es).current
    requires Run(sha, es[..n]).current in Run(sha, es[..n]).epochs
    ensures var e := Run(sha, es[..n]).current;
      e in Run(sha, es).epochs && e + 1 in Run(sha, es).epochs && EndedBy(sha, es, n, Run(sha, es).epochs, e)
  {
    hide Step, Run;
    assert es[..n + 1] == es;
    RunLast(sha, es, n);
    StepThatEnds(sha, Run(sha, es[..n]), es[n]);
  }

  /** Over every run, each epoch before the current one was ended by one event, and says when and with what. */
  lemma {:induction false} EveryEpochEnded(sha: Sha, es: seq<Event>, e: nat) returns (i: nat)
    requires 1 <= e < Run(sha, es).current
    ensures i < |es| && e in Run(sha, es).epochs && e + 1 in Run(sha, es).epochs
    ensures EndedBy(sha, es, i, Run(sha, es).epochs, e)
  {
    hide Step, TimestampOk;
    var n := |es| - 1;
    assert es != [];
    var before := Run(sha, es[..n]);
    EpochsSoFar(sha, es[..n]);
    if e == before.current {
      i := n;
      EndsNow(sha, es, n);
    } else {
      assert e < before.current by { OneEpochAtMost(sha, before, es[n]); }
      i := EveryEpochEnded(sha, es[..n], e);
      StepKeepsEpochs(sha, before, es[n], e);
      StepKeepsEpochs(sha, before, es[n], e + 1);
      assert es[..n][..i] == es[..i] && es[..n][..i + 1] == es[..i + 1];
    }
  }

  lemma OneEpochAtMost(sha: Sha, m: Manager, event: Event)
    ensures Step(sha, m, event).current <= m.current + 1
  {
    hide TimestampOk;
  }
}

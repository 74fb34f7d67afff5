/** Who is paid at an epoch end, and where: the outputs that are there afterwards, said without the functions that
    write them. */
module EpochPayments {
  import opened Bytes
  import opened Merkle
  import opened Validation
  import opened Blocks
  import opened Payouts
  import opened Ledger
  import opened LedgerSafety
  import opened LedgerExactness
  import Rewards

  /** The outpoint of a reward: the hash of the tag, the height, the epoch and the miner, and index 0. */
  function RewardOutPoint(sha: Sha, height: nat, epoch: nat, id: MinerId): OutPoint {
    OutPoint(sha(Text("ACCUM-EPOCH-REWARD") + LE(height, 8) + LE(epoch, 4) + id), 0)
  }

  /** A text of one-byte characters as bytes. */
  function Text(s: string): seq<byte> { seq(|s|, i requires 0 <= i < |s| => s[i] as int % 256) }

  lemma SamePoint(sha: Sha, height: nat, epoch: nat, id: MinerId)
    ensures RewardOutPoint(sha, height, epoch, id) == RewardPoint(sha, height, epoch, id)
  {
    assert Text("ACCUM-EPOCH-REWARD") == RewardTag();
    hide RewardTag, Text, LE;
    assert RewardTag() + LE(height, 8) + LE(epoch, 4) + id == RewardBytes(height, epoch, id);
  }

  ghost predicate Holds(u: Utxos, p: OutPoint, value: nat, script: seq<byte>) {
    p in u && u[p].value == value && u[p].scriptPubkey == script
  }

  /** The outpoints of the results are not unspent, and are distinct. */
  ghost predicate OutPointsFree(sha: Sha, s: State, results: seq<MinerResult>) {
    && (forall i :: 0 <= i < |results| ==> RewardOutPoint(sha, s.height, s.epoch, results[i].minerId) !in s.utxos)
    && (forall i, j :: 0 <= i < j < |results| ==>
          RewardOutPoint(sha, s.height, s.epoch, results[i].minerId) != RewardOutPoint(sha, s.height, s.epoch, results[j].minerId))
  }

  /** A positive reward of the node's own miner is an output to its wallet's script, one of another miner an output
      to that miner's address if it has one, and nothing else is at their outpoints. */
  ghost predicate PaidRight(c: Config, s: State, script: seq<byte>, r: MinerResult, u: Utxos) {
    var p := RewardOutPoint(c.rules.sha, s.height, s.epoch, r.minerId);
    if r.reward == 0 then p !in u
    else if r.minerId == c.self then Holds(u, p, r.reward, script)
    else if c.address(r.minerId).Some? then Holds(u, p, r.reward, c.address(r.minerId).value)
    else p !in u
  }

  lemma {:induction false} PaysEach(c: Config, s: State, script: seq<byte>, results: seq<MinerResult>, i: nat)
    requires PointsFree(c.rules.sha, s.height, s.epoch, s.utxos, results) && i < |results|
    ensures PaidRight(c, s, script, results[i],
                      PayAll(c.rules.sha, PurseOf(c, script), s.height, s.epoch, s.utxos, results))
  {
    hide RewardPoint, RewardOutPoint;
    var n, purse := |results| - 1, PurseOf(c, script);
    SamePoint(c.rules.sha, s.height, s.epoch, results[i].minerId);
    if i < n {
      PaysEach(c, s, script, results[..n], i);
    } else {
      PaidPoints(c.rules.sha, purse, s.height, s.epoch, s.utxos, results[..n],
                 RewardPoint(c.rules.sha, s.height, s.epoch, results[n].minerId));
    }
  }

  /** What an epoch end pays, when its outpoints are free: each result is paid right, everything that was unspent is
      as it was, and nothing else is new. */
  lemma EpochEndPays(c: Config, s: State, script: seq<byte>, results: seq<MinerResult>)
    requires OutPointsFree(c.rules.sha, s, results)
    ensures var u := EpochEnded(c, s, script, results).utxos;
      && (forall i :: 0 <= i < |results| ==> PaidRight(c, s, script, results[i], u))
      && (forall p :: p in s.utxos ==> p in u && u[p] == s.utxos[p])
      && (forall p :: p in u && p !in s.utxos ==>
            exists i :: 0 <= i < |results| && p == RewardOutPoint(c.rules.sha, s.height, s.epoch, results[i].minerId))
  {
    hide RewardPoint, RewardOutPoint, PaidRight, LoyaltyAfter, WithoutShares, PayAll, IsPaid;
    var sha, purse := c.rules.sha, PurseOf(c, script);
    forall i | 0 <= i < |results|
      ensures RewardOutPoint(sha, s.height, s.epoch, results[i].minerId) == RewardPoint(sha, s.height, s.epoch, results[i].minerId)
    {
      SamePoint(sha, s.height, s.epoch, results[i].minerId);
    }
    forall i | 0 <= i < |results| ensures PaidRight(c, s, script, results[i], EpochEnded(c, s, script, results).utxos) {
      PaysEach(c, s, script, results, i);
    }
    forall p ensures p in s.utxos ==> p in PayAll(sha, purse, s.height, s.epoch, s.utxos, results) {
      PaidPoints(sha, purse, s.height, s.epoch, s.utxos, results, p);
    }
    var u := PayAll(sha, purse, s.height, s.epoch, s.utxos, results);
    forall p | p in u
      ensures (p in s.utxos && u[p] == s.utxos[p])
           || exists i :: 0 <= i < |results| && p == RewardPoint(sha, s.height, s.epoch, results[i].minerId)
    {
      PaidValues(sha, purse, s.height, s.epoch, s.utxos, results, p);
    }
  }

  /** On every run, if hashes do not collide: the block that ends an epoch leaves each of its results paid right. */
  lemma EveryEpochEndPays(c: Config, steps: seq<Step>, script: seq<byte>, shareAccepted: bool, results: seq<MinerResult>)
    requires var all := steps + [Mine(script, shareAccepted, results)];
      Rewards.RootLike(c.sqrt) && Lawful(c, all) && |all| < WORD && RunCollisionFree(c, all)
    requires EndsEpoch(Run(c, steps).s.height + 1)
    ensures var before, after := Run(c, steps).s, Run(c, steps + [Mine(script, shareAccepted, results)]).s;
      forall i :: 0 <= i < |results| ==>
        PaidRight(c, before.(height := before.height + 1), script, results[i], after.utxos)
  {
    hide Rewards.RootLike, Lawful, Run, Past, Separate, StateOk, RunCollisionFree, PaidRight, Allowed, Next, EndsEpoch;
    var step := Mine(script, shareAccepted, results);
    LastOfRun(c, steps, step);
    RunIsSeparate(c, steps + [step]);
    BeforeLast(c, steps, step);
    NextEndPays(c, Run(c, steps), script, shareAccepted, results);
  }

  lemma NextEndPays(c: Config, l: Ledger, script: seq<byte>, shareAccepted: bool, results: seq<MinerResult>)
    requires StateOk(c, l.s) && Past(c, l, l.s.height) && l.s.height + 1 < WORD && EndsEpoch(l.s.height + 1)
    requires Allowed(c, l, Mine(script, shareAccepted, results))
    requires var next := Next(c, l, Mine(script, shareAccepted, results)); Separate(c.rules.sha, next.applied, next.rewarded)
    ensures forall i :: 0 <= i < |results| ==>
      PaidRight(c, l.s.(height := l.s.height + 1), script, results[i],
                Next(c, l, Mine(script, shareAccepted, results)).s.utxos)
  {
    hide Past, Separate, StateOk, PaidRight, Allowed, Rewards.ResultsFor, AfterBlock, AfterEpoch, EndsEpoch, EpochInput, Next;
    var stored := AfterBlock(c, l, script, shareAccepted);
    MineEndsEpoch(c, l, script, shareAccepted, results);
    BlockPast(c, l, script, shareAccepted);
    StoredKept(c, l, script, shareAccepted);
    AllowedResults(c, l, script, shareAccepted, results);
    Listed(EpochInput(stored.s), c.sqrt, results);
    SeparateBefore(c, stored, script, results);
    EpochIsFree(c, stored, script, results);
    PaysAll(c, stored, script, results);
    SameRight(c, stored.s, l.s.(height := l.s.height + 1), script, results, AfterEpoch(c, stored, script, results).s.utxos);
  }

  lemma LastOfRun(c: Config, steps: seq<Step>, step: Step)
    requires Lawful(c, steps + [step])
    ensures Run(c, steps + [step]) == Next(c, Run(c, steps), step)
    ensures Lawful(c, steps) && Allowed(c, Run(c, steps), step)
  {
    hide Next, Allowed;
    assert (steps + [step])[..|steps|] == steps;
  }

  /** The run up to a step is as the theorems about runs need it. */
  lemma BeforeLast(c: Config, steps: seq<Step>, step: Step)
    requires Rewards.RootLike(c.sqrt) && Lawful(c, steps) && |steps| < WORD
    requires Run(c, steps + [step]) == Next(c, Run(c, steps), step)
    requires Separate(c.rules.sha, Run(c, steps + [step]).applied, Run(c, steps + [step]).rewarded)
    ensures var l := Run(c, steps);
      StateOk(c, l.s) && Past(c, l, l.s.height) && l.s.height <= |steps|
  {
    hide Rewards.RootLike, Lawful, Run, Past, Separate, StateOk, Next, Supply, Exact;
    var l := Run(c, steps);
    Grows(c, l, step);
    SeparatePart(c.rules.sha, l.applied, l.rewarded, Run(c, steps + [step]).applied, Run(c, steps + [step]).rewarded);
    ExactRun(c, steps);
    EveryRunIsOk(c, steps);
  }

  lemma MineEndsEpoch(c: Config, l: Ledger, script: seq<byte>, shareAccepted: bool, results: seq<MinerResult>)
    requires StateOk(c, l.s) && EndsEpoch(l.s.height + 1)
    ensures Next(c, l, Mine(script, shareAccepted, results))
         == AfterEpoch(c, AfterBlock(c, l, script, shareAccepted), script, results)
  {
    hide StateOk, HasDuplicates, BlockStored, AfterEpoch, EndsEpoch, Fees, Shaped, Overwritten, BlockOf;
    NoDuplicatesIn(c, l.s, script);
    StoredHeight(c, l.s, script, shareAccepted);
  }

  lemma StoredKept(c: Config, l: Ledger, script: seq<byte>, shareAccepted: bool)
    ensures var next := AfterBlock(c, l, script, shareAccepted);
      next.s.height == l.s.height + 1 && next.s.epoch == l.s.epoch
  {
    SharePart(l.s, c.self, shareAccepted);
    hide ShareOffered, Fees, Shaped, Overwritten, ApplyTxs, OrdinaryIds, BlockOf;
  }

  lemma AllowedResults(c: Config, l: Ledger, script: seq<byte>, shareAccepted: bool, results: seq<MinerResult>)
    requires Allowed(c, l, Mine(script, shareAccepted, results)) && EndsEpoch(l.s.height + 1)
    ensures Rewards.ResultsFor(EpochInput(AfterBlock(c, l, script, shareAccepted).s), c.sqrt, results)
  {
    hide Rewards.ResultsFor, EpochInput, AfterBlock, EndsEpoch;
  }

  lemma SeparateBefore(c: Config, l: Ledger, script: seq<byte>, results: seq<MinerResult>)
    requires var next := AfterEpoch(c, l, script, results); Separate(c.rules.sha, next.applied, next.rewarded)
    ensures Separate(c.rules.sha, l.applied, AfterEpoch(c, l, script, results).rewarded)
  {
    hide Separate, EpochEnded, Paid, RewardBytes;
  }

  lemma PaysAll(c: Config, l: Ledger, script: seq<byte>, results: seq<MinerResult>)
    requires PointsFree(c.rules.sha, l.s.height, l.s.epoch, l.s.utxos, results)
    ensures forall i :: 0 <= i < |results| ==>
      PaidRight(c, l.s, script, results[i], AfterEpoch(c, l, script, results).s.utxos)
  {
    hide PaidRight, PointsFree, PayAll, LoyaltyAfter, WithoutShares, Paid, RewardBytes;
    forall i | 0 <= i < |results| ensures PaidRight(c, l.s, script, results[i], AfterEpoch(c, l, script, results).s.utxos) {
      PaysEach(c, l.s, script, results, i);
    }
  }

  lemma SameRight(c: Config, s: State, t: State, script: seq<byte>, results: seq<MinerResult>, u: Utxos)
    requires s.height == t.height && s.epoch == t.epoch
    requires forall i :: 0 <= i < |results| ==> PaidRight(c, s, script, results[i], u)
    ensures forall i :: 0 <= i < |results| ==> PaidRight(c, t, script, results[i], u)
  {
    hide RewardOutPoint, Holds;
  }
}

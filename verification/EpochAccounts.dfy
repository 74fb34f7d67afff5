/** How shares, bonds and loyalty of the miners move together over the runs of the node: every miner is credited
    once in an epoch it takes part in and decays once at the end of an epoch it misses. */
module EpochAccounts {
  import opened Bytes
  import opened Mempool
  import opened Payouts
  import opened Ledger
  import opened LedgerSafety
  import opened Blocks
  import opened Protocol
  import Loyalty
  import Rewards

  /** A score was last updated in this epoch if its miner has shares in it, and at the end of the previous one
      otherwise. */
  ghost predicate ScoresInStep(miners: map<MinerId, Rewards.Miner>, scores: map<MinerId, Loyalty.Score>, epoch: nat) {
    && scores.Keys == miners.Keys
    && forall id :: id in miners ==> scores[id].lastEpoch == if miners[id].shares > 0 then epoch else epoch - 1
  }

  /** A miner has a bond on record, of the amount it is counted with, at least the minimum and locked for its time. */
  ghost predicate BondsAgree(miners: map<MinerId, Rewards.Miner>, bonds: map<MinerId, Rewards.Bond>, height: nat) {
    && (forall id :: id in miners ==> id in bonds && bonds[id].amount == miners[id].bond)
    && (forall id :: id in bonds ==>
          bonds[id].amount >= MINIMUM_BOND && bonds[id].createdAt <= height
          && bonds[id].lockUntil == bonds[id].createdAt + BOND_LOCKUP)
  }

  ghost predicate InStep(s: State) {
    s.epoch >= 1 && ScoresInStep(s.miners, s.scores, s.epoch) && BondsAgree(s.miners, s.bonds, s.height)
  }

  lemma BondKeepsStep(s: State, id: MinerId, amount: nat)
    requires InStep(s)
    ensures InStep(BondPut(s, id, amount))
  {
  }

  lemma ShareKeepsStep(s: State, id: MinerId, accepted: bool)
    requires InStep(s)
    ensures InStep(ShareOffered(s, id, accepted))
  {
    UpdateSetsEpoch(ScoreOf(s.scores, id), s.epoch, true);
    hide Loyalty.Update;
  }

  lemma UpdateSetsEpoch(score: Loyalty.Score, epoch: nat, participated: bool)
    ensures score.lastEpoch <= epoch ==> Loyalty.Update(score, epoch, participated).lastEpoch == epoch
  {
  }

  /** The results report shares for exactly the miners that have some. */
  lemma TookPartMeansShares(s: State, sqrt: Rewards.Root, results: seq<MinerResult>, id: MinerId)
    requires Rewards.ResultsFor(EpochInput(s), sqrt, results) && id in s.miners
    ensures TookPart(results, id) <==> s.miners[id].shares > 0
  {
    hide Rewards.IndexOf, Rewards.RewardsOf;
    assert exists i :: 0 <= i < |results| && results[i].minerId == id;
    assert forall i :: 0 <= i < |results| ==> results[i] == Rewards.ResultOf(EpochInput(s), sqrt, results[i].minerId);
  }

  lemma EpochKeepsStep(c: Config, s: State, script: seq<byte>, results: seq<MinerResult>)
    requires InStep(s)
    ensures InStep(EpochEnded(c, s, script, results))
  {
    hide Loyalty.Update, TookPart, PayAll;
    forall id | id in s.miners ensures
      Loyalty.Update(ScoreOf(s.scores, id), s.epoch, TookPart(results, id)).lastEpoch == s.epoch
    {
      UpdateSetsEpoch(ScoreOf(s.scores, id), s.epoch, TookPart(results, id));
    }
  }

  lemma StoredKeepsStep(c: Config, s: State, script: seq<byte>, shareAccepted: bool)
    requires InStep(s)
    ensures InStep(BlockStored(c, s, script, shareAccepted))
  {
    ShareKeepsStep(s, c.self, shareAccepted);
    hide ShareOffered, OrdinaryIds, BlockOf;
  }

  lemma StepKeepsStep(c: Config, l: Ledger, step: Step)
    requires InStep(l.s)
    ensures InStep(Next(c, l, step).s)
  {
    hide InStep, BondPut, ShareOffered, Admit, BlockStored, EpochEnded, HasDuplicates, EndsEpoch, BlockOf;
    match step
    case Submit(tx) => SubmitKeepsStep(l.s, Admit(c.rules, l.s.utxos, l.s.pool, tx));
    case PutBond(id, amount) => BondKeepsStep(l.s, id, amount);
    case OfferShare(id, accepted) => ShareKeepsStep(l.s, id, accepted);
    case Mine(script, shareAccepted, results) =>
      StoredKeepsStep(c, l.s, script, shareAccepted);
      EpochKeepsStep(c, BlockStored(c, l.s, script, shareAccepted), script, results);
  }

  lemma SubmitKeepsStep(s: State, pool: Pool)
    requires InStep(s)
    ensures InStep(s.(pool := pool))
  {
  }

  /** Every run keeps scores, shares and bonds in step. */
  lemma {:induction false} EveryRunInStep(c: Config, steps: seq<Step>)
    ensures InStep(Run(c, steps).s)
    decreases |steps|
  {
    hide Next, InStep;
    if steps == [] {
      GenesisInStep(c);
    } else {
      EveryRunInStep(c, steps[..|steps| - 1]);
      StepKeepsStep(c, Run(c, steps[..|steps| - 1]), steps[|steps| - 1]);
    }
  }

  lemma GenesisInStep(c: Config)
    ensures InStep(Genesis(c).s)
  {
  }

  ghost function ValueOf(s: State, id: MinerId): real { ScoreOf(s.scores, id).value }

  /** The share of a known miner that is stored first in an epoch raises its loyalty by exactly one, without any
      decay; a new miner starts with one; no later share of the epoch changes the loyalty. */
  lemma FirstShareCreditsOne(c: Config, steps: seq<Step>, id: MinerId)
    requires var s := Run(c, steps).s; id in s.bonds && Rewards.IsActive(s.bonds[id], s.height)
    ensures var s := Run(c, steps).s;
      var next := ShareOffered(s, id, true);
      && (id in s.miners && s.miners[id].shares == 0 ==> ValueOf(next, id) == ValueOf(s, id) + 1.0)
      && (id in s.miners && s.miners[id].shares > 0 ==> next.scores == s.scores)
      && (id !in s.miners ==> ValueOf(next, id) == 1.0)
  {
    EveryRunInStep(c, steps);
    var s := Run(c, steps).s;
    var score := ScoreOf(s.scores, id);
    hide Run;
    Loyalty.DecayBounds(0.0, s.epoch - 1, false);
    assert Loyalty.DecayedBy(score.value, 0, score.grace > 0) == score.value;
    assert id in s.miners && s.miners[id].shares > 0 ==> s.scores[id := s.scores[id]] == s.scores;
  }

  /** The block that ends an epoch leaves the loyalty of a miner with shares as it is when the block is stored, and
      of one without takes the half while grace remains and three tenths otherwise. */
  lemma EpochEndDecaysAbsentOnce(c: Config, steps: seq<Step>, script: seq<byte>, shareAccepted: bool,
                                 results: seq<MinerResult>,
                                 id: MinerId)
    requires Rewards.RootLike(c.sqrt) && Lawful(c, steps) && EndsEpoch(Run(c, steps).s.height + 1)
    requires Allowed(c, Run(c, steps), Mine(script, shareAccepted, results))
    requires id in BlockStored(c, Run(c, steps).s, script, shareAccepted).miners
    ensures var s := BlockStored(c, Run(c, steps).s, script, shareAccepted);
      var next := Mined(c, Run(c, steps).s, script, shareAccepted, results);
      if s.miners[id].shares > 0 then ScoreOf(next.scores, id) == ScoreOf(s.scores, id)
      else ValueOf(next, id) == ValueOf(s, id) * if ScoreOf(s.scores, id).grace > 0 then 0.5 else 0.7
  {
    hide Rewards.RootLike, Lawful, Run, Rewards.ResultsFor, InStep, StateOk, ScoresOk, PoolOk, MarkerFree, BlockStored, Mined,
      EndsEpoch, EpochInput, EpochEnded, ScoreOf, ValueOf, AfterBlock;
    var before := Run(c, steps).s;
    EveryRunInStep(c, steps);
    EveryRunIsOk(c, steps);
    StoredKeepsStep(c, before, script, shareAccepted);
    BlockKeeps(c, before, script, shareAccepted);
    EndedAfterStored(c, Run(c, steps), script, shareAccepted, results);
    DecaysAbsentOnce(c, BlockStored(c, before, script, shareAccepted), script, results, id);
  }

  lemma EndedAfterStored(c: Config, l: Ledger, script: seq<byte>, shareAccepted: bool, results: seq<MinerResult>)
    requires StateOk(c, l.s) && EndsEpoch(l.s.height + 1)
    ensures AfterBlock(c, l, script, shareAccepted).s == BlockStored(c, l.s, script, shareAccepted)
    ensures Mined(c, l.s, script, shareAccepted, results)
         == EpochEnded(c, BlockStored(c, l.s, script, shareAccepted), script, results)
  {
    hide StateOk, HasDuplicates, BlockOf, EpochEnded, EndsEpoch, BlockStored, Fees, Shaped, Overwritten, Paid, Members;
    NoDuplicatesIn(c, l.s, script);
    StoredHeight(c, l.s, script, shareAccepted);
  }

  lemma DecaysAbsentOnce(c: Config, s: State, script: seq<byte>, results: seq<MinerResult>, id: MinerId)
    requires InStep(s) && ScoresOk(s.scores) && id in s.miners && Rewards.ResultsFor(EpochInput(s), c.sqrt, results)
    ensures var next := EpochEnded(c, s, script, results);
      if s.miners[id].shares > 0 then ScoreOf(next.scores, id) == ScoreOf(s.scores, id)
      else ValueOf(next, id) == ValueOf(s, id) * if ScoreOf(s.scores, id).grace > 0 then 0.5 else 0.7
  {
    TookPartMeansShares(s, c.sqrt, results, id);
    hide Rewards.ResultsFor, TookPart, PayAll, Loyalty.Update;
    OneDecay(s.scores[id], s.epoch);
  }

  lemma OneDecay(score: Loyalty.Score, epoch: nat)
    requires Loyalty.Bounded(score)
    ensures epoch == score.lastEpoch + 1 ==>
      Loyalty.Update(score, epoch, false).value == score.value * if score.grace > 0 then 0.5 else 0.7
    ensures epoch == score.lastEpoch ==> forall p :: Loyalty.Update(score, epoch, p) == score
  {
    Loyalty.DecayIsLinear(score.value);
    assert Loyalty.DecayedBy(score.value, 1, score.grace > 0)
        == Loyalty.Decayed(Loyalty.DecayedBy(score.value, 0, score.grace > 0), score.grace > 0);
  }
}

/** The node's bonds and shares as a log of its steps: what is on record follows from the steps alone. */
module NodeLog {
  import opened Bytes
  import opened Blocks
  import opened Payouts
  import Mempool
  import opened Ledger
  import opened LedgerSafety
  import Loyalty
  import Rewards

  /** A bond is put down with this amount, large enough, at this height. */
  datatype Deposit = Deposit(amount: nat, height: nat)

  ghost function LastDeposit(c: Config, steps: seq<Step>, id: MinerId): Option<Deposit> {
    if steps == [] then None
    else
      var n := |steps| - 1;
      if steps[n].PutBond? && steps[n].id == id && steps[n].amount >= 10_000_000
      then Some(Deposit(steps[n].amount, Run(c, steps[..n]).s.height))
      else LastDeposit(c, steps[..n], id)
  }

  /** The miner's last deposit still holds: it was made less than 20160 blocks ago. */
  ghost predicate Locked(c: Config, steps: seq<Step>, id: MinerId) {
    var d := LastDeposit(c, steps, id);
    var h := Run(c, steps).s.height;
    d.Some? && d.value.height <= h < d.value.height + 20_160
  }

  ghost predicate BondsAsLogged(c: Config, steps: seq<Step>) {
    forall id :: BondAsLogged(Run(c, steps).s.bonds, LastDeposit(c, steps, id), id)
  }

  ghost predicate BondAsLogged(bonds: map<MinerId, Rewards.Bond>, d: Option<Deposit>, id: MinerId) {
    if d.None? then id !in bonds
    else id in bonds && bonds[id] == Rewards.Bond(d.value.amount, d.value.height, d.value.height + 20_160)
  }

  lemma BondsAfter(c: Config, l: Ledger, step: Step, id: MinerId)
    ensures var next := Next(c, l, step).s.bonds;
      if step.PutBond? && step.id == id && step.amount >= 10_000_000
      then id in next && next[id] == Rewards.Bond(step.amount, l.s.height, l.s.height + 20_160)
      else (id in next <==> id in l.s.bonds) && (id in next ==> next[id] == l.s.bonds[id])
  {
    hide Mempool.Admit, ShareOffered, AfterMine;
    if step.Mine? { MiningKeepsBonds(c, l, step.script, step.shareAccepted, step.results); }
    if step.OfferShare? { SharePart(l.s, step.id, step.accepted); }
  }

  lemma MiningKeepsBonds(c: Config, l: Ledger, script: seq<byte>, shareAccepted: bool, results: seq<MinerResult>)
    ensures AfterMine(c, l, script, shareAccepted, results).s.bonds == l.s.bonds
  {
    hide HasDuplicates, BlockOf, ShareOffered, ApplyTxs, OrdinaryIds, PayAll, LoyaltyAfter, WithoutShares, Fees, Shaped,
      Overwritten, Paid;
    SharePart(l.s, c.self, shareAccepted);
  }

  /** The bond on record for a miner is its last deposit, locked for 20160 blocks from the height it was made at, on
      every run. */
  lemma {:induction false} EveryRunBonds(c: Config, steps: seq<Step>)
    ensures BondsAsLogged(c, steps)
    decreases |steps|
  {
    if steps != [] {
      hide Next;
      var n := |steps| - 1;
      EveryRunBonds(c, steps[..n]);
      forall id ensures BondAsLogged(Run(c, steps).s.bonds, LastDeposit(c, steps, id), id) {
        BondsAfter(c, Run(c, steps[..n]), steps[n], id);
        assert BondAsLogged(Run(c, steps[..n]).s.bonds, LastDeposit(c, steps[..n], id), id);
      }
    }
  }

  predicate Active(s: State, id: MinerId) { id in s.bonds && Rewards.IsActive(s.bonds[id], s.height) }

  /** A miner's bond is active exactly while its last deposit holds; one made now is active now. */
  lemma ActiveIffLocked(c: Config, steps: seq<Step>, id: MinerId)
    ensures var s := Run(c, steps).s;
      Active(s, id) <==> Locked(c, steps, id)
  {
    EveryRunBonds(c, steps);
    hide Run, LastDeposit;
    assert BondAsLogged(Run(c, steps).s.bonds, LastDeposit(c, steps, id), id);
  }

  // ---------- shares ----------

  /** The shares counted for a miner in the running epoch: one for each accepted share under a deposit that holds,
      its own block's share included, from zero with each epoch. */
  ghost function SharesCounted(c: Config, steps: seq<Step>, id: MinerId): nat {
    if steps == [] then 0
    else
      var n := |steps| - 1;
      var before := SharesCounted(c, steps[..n], id);
      match steps[n]
      case OfferShare(other, accepted) =>
        before + if other == id && accepted && Locked(c, steps[..n], id) then 1 else 0
      case Mine(script, shareAccepted, results) =>
        if (Run(c, steps[..n]).s.height + 1) % 1440 == 0 then 0
        else before + if c.self == id && shareAccepted && Locked(c, steps[..n], id) then 1 else 0
      case _ => before
  }

  function SharesOf(s: State, id: MinerId): nat { if id in s.miners then s.miners[id].shares else 0 }

  lemma SharesAfterOffer(s: State, id: MinerId, accepted: bool, other: MinerId)
    ensures SharesOf(ShareOffered(s, id, accepted), other)
         == SharesOf(s, other)
            + if other == id && accepted && Active(s, id) then 1 else 0
  {
    hide Loyalty.Update;
  }

  lemma SharesAfterMine(c: Config, l: Ledger, script: seq<byte>, shareAccepted: bool, results: seq<MinerResult>, id: MinerId)
    requires StateOk(c, l.s)
    ensures SharesOf(AfterMine(c, l, script, shareAccepted, results).s, id)
         == if (l.s.height + 1) % 1440 == 0 then 0 else SharesOf(ShareOffered(l.s, c.self, shareAccepted), id)
  {
    hide StateOk, HasDuplicates, BlockOf, ApplyTxs, OrdinaryIds, ShareOffered, PayAll, LoyaltyAfter, Fees, Shaped, Overwritten,
      Paid, Members;
    NoDuplicatesIn(c, l.s, script);
  }

  lemma SharesAfterBond(s: State, id: MinerId, amount: nat, other: MinerId)
    ensures SharesOf(BondPut(s, id, amount), other) == SharesOf(s, other)
  {
  }

  lemma SharesAfter(c: Config, l: Ledger, step: Step, id: MinerId)
    requires StateOk(c, l.s)
    ensures SharesOf(Next(c, l, step).s, id) == match step
      case OfferShare(other, accepted) =>
        SharesOf(l.s, id) + (if other == id && accepted && Active(l.s, id) then 1 else 0)
      case Mine(script, shareAccepted, results) =>
        if (l.s.height + 1) % 1440 == 0 then 0
        else SharesOf(l.s, id) + (if c.self == id && shareAccepted && Active(l.s, id) then 1 else 0)
      case _ => SharesOf(l.s, id)
  {
    hide StateOk, AfterMine, BondPut, ShareOffered, Mempool.Admit, SharesOf, Rewards.IsActive;
    match step
    case Submit(tx) => SamePart(l.s, Mempool.Admit(c.rules, l.s.utxos, l.s.pool, tx), id);
    case PutBond(other, amount) => SharesAfterBond(l.s, other, amount, id);
    case OfferShare(other, accepted) => SharesAfterOffer(l.s, other, accepted, id);
    case Mine(script, shareAccepted, results) =>
      SharesAfterMine(c, l, script, shareAccepted, results, id);
      SharesAfterOffer(l.s, c.self, shareAccepted, id);
  }

  /** On every run the counted shares of a miner are those of the log. */
  lemma {:induction false} EveryRunShares(c: Config, steps: seq<Step>, id: MinerId)
    requires Rewards.RootLike(c.sqrt) && Lawful(c, steps)
    ensures SharesOf(Run(c, steps).s, id) == SharesCounted(c, steps, id)
    decreases |steps|
  {
    hide Rewards.RootLike, StateOk, Run, Lawful, Next, SharesOf, Locked, Active, SharesCounted;
    if steps != [] {
      var n := |steps| - 1;
      LastStep(c, steps);
      EveryRunShares(c, steps[..n], id);
      StateIsOk(c, steps[..n]);
      ActiveIffLocked(c, steps[..n], id);
      SharesAfter(c, Run(c, steps[..n]), steps[n], id);
      CountedStep(c, steps, id);
    } else {
      NoShares(c, id);
    }
  }

  lemma StateIsOk(c: Config, steps: seq<Step>)
    requires Rewards.RootLike(c.sqrt) && Lawful(c, steps)
    ensures StateOk(c, Run(c, steps).s)
  {
    hide Rewards.RootLike, StateOk, Run, Lawful, Supply, Balanced;
    EveryRunIsOk(c, steps);
  }

  lemma LastStep(c: Config, steps: seq<Step>)
    requires steps != [] && Lawful(c, steps)
    ensures var n := |steps| - 1; Lawful(c, steps[..n]) && Run(c, steps) == Next(c, Run(c, steps[..n]), steps[n])
  {
    hide Next, Allowed;
  }

  lemma CountedStep(c: Config, steps: seq<Step>, id: MinerId)
    requires steps != []
    ensures var n := |steps| - 1;
      SharesCounted(c, steps, id) == match steps[n]
        case OfferShare(other, accepted) =>
          SharesCounted(c, steps[..n], id) + (if other == id && accepted && Locked(c, steps[..n], id) then 1 else 0)
        case Mine(script, shareAccepted, results) =>
          if (Run(c, steps[..n]).s.height + 1) % 1440 == 0 then 0
          else SharesCounted(c, steps[..n], id) + (if c.self == id && shareAccepted && Locked(c, steps[..n], id) then 1 else 0)
        case _ => SharesCounted(c, steps[..n], id)
  {
    hide Locked, Next;
  }

  lemma NoShares(c: Config, id: MinerId)
    ensures SharesOf(Run(c, []).s, id) == 0 == SharesCounted(c, [], id)
  {
  }

  lemma SamePart(s: State, pool: Mempool.Pool, id: MinerId)
    ensures SharesOf(s.(pool := pool), id) == SharesOf(s, id)
  {
  }

  /** A share of a miner whose deposit does not hold, or one that is not accepted, changes nothing at all. */
  lemma ShareWithoutDeposit(c: Config, steps: seq<Step>, id: MinerId, accepted: bool)
    ensures ShareOffered(Run(c, steps).s, id, accepted) == Run(c, steps).s <==> !(accepted && Locked(c, steps, id))
  {
    ActiveIffLocked(c, steps, id);
    SharesAfterOffer(Run(c, steps).s, id, accepted, id);
    hide Run, Locked;
  }
}

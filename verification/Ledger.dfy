/** The node's state and its steps: a transaction is submitted, a bond put down, a share offered, a block mined,
    and with every 1440th block an epoch ended. Beside the state, a ledger keeps what a run has taken in fees,
    paid out, created for coinbase-marked transactions, overwritten, applied and rewarded. */
module Ledger {
  import opened Bytes
  import opened TxEncoding
  import opened Merkle
  import opened Sums
  import opened Validation
  import opened Mempool
  import opened Blocks
  import opened Payouts
  import opened Protocol
  import Loyalty
  import Rewards

  const GENESIS_VALUE: nat := 500_000_000

  /** What does not change: the rules of admission, the node's own miner, the payout addresses and the root. */
  datatype Config = Config(rules: Rules, self: MinerId, address: MinerId -> Option<seq<byte>>, sqrt: Rewards.Root)

  datatype State = State(
    utxos: Utxos, pool: Pool, height: nat, epoch: nat,
    miners: map<MinerId, Rewards.Miner>, bonds: map<MinerId, Rewards.Bond>, scores: map<MinerId, Loyalty.Score>)

  function GenesisScript(): seq<byte> {
    [0x76, 0xa9, 0x14, 0x62, 0xe9, 0x07, 0xb1, 0x5c, 0xbf, 0x27, 0xd5, 0x42, 0x53, 0x99, 0xeb, 0xf6,
     0xf0, 0xfb, 0x50, 0xeb, 0xb8, 0x8f, 0x18, 0x88, 0xac]
  }

  function GenesisTx(): Transaction {
    Transaction(1, [TxIn(ZeroHash(), MARKER_INDEX, [], 0xFFFF_FFFF)], [TxOut(GENESIS_VALUE, GenesisScript())], 0)
  }

  function GenesisState(c: Config): State {
    State(map[OutPoint(TxId(c.rules.sha, GenesisTx()), 0) := GenesisTx().outputs[0]], Pool([], {}), 0, 1,
          map[], map[], map[])
  }

  // ---------- steps on the state ----------

  function ScoreOf(scores: map<MinerId, Loyalty.Score>, id: MinerId): Loyalty.Score {
    if id in scores then scores[id] else Loyalty.NEW_SCORE
  }

  function BondPut(s: State, id: MinerId, amount: nat): State {
    if amount < MINIMUM_BOND then s
    else
      s.(bonds := s.bonds[id := Rewards.Bond(amount, s.height, s.height + BOND_LOCKUP)],
         miners := if id in s.miners then s.miners[id := s.miners[id].(bond := amount)] else s.miners)
  }

  /** A share of a miner without an active bond is refused; `accepted` says whether the remaining checks and the
      share pool take it. */
  function ShareOffered(s: State, id: MinerId, accepted: bool): State {
    if id !in s.bonds || !Rewards.IsActive(s.bonds[id], s.height) || !accepted then s
    else
      var m := if id in s.miners then s.miners[id] else Rewards.Miner(0, s.bonds[id].amount);
      s.(miners := s.miners[id := m.(shares := m.shares + 1)],
         scores := s.scores[id := Loyalty.Update(ScoreOf(s.scores, id), s.epoch, true)])
  }

  function Chosen(s: State, script: seq<byte>): seq<Transaction> {
    s.pool.txs[..Selected(Size(Coinbase(script, s.height + 1)), s.pool.txs)]
  }

  function BlockOf(s: State, script: seq<byte>): seq<Transaction> { BlockFor(script, s.height + 1, s.pool.txs) }

  ghost predicate HasDuplicates(sha: Sha, block: seq<Transaction>) {
    exists i, j :: 0 <= i < j < |block| && !IsCoinbase(block[i]) && !IsCoinbase(block[j])
                   && TxId(sha, block[i]) == TxId(sha, block[j])
  }

  ghost function OrdinaryIds(sha: Sha, block: seq<Transaction>): set<Hash32> {
    set i | 0 <= i < |block| && !IsCoinbase(block[i]) :: TxId(sha, block[i])
  }

  /** The state after a found block is stored: all waiting transactions are dropped, also those left out. */
  ghost function BlockStored(c: Config, s: State, script: seq<byte>, shareAccepted: bool): State {
    var block := BlockOf(s, script);
    ShareOffered(s, c.self, shareAccepted).(
      utxos := ApplyTxs(c.rules.sha, s.utxos, block),
      pool := Pool([], s.pool.processed + OrdinaryIds(c.rules.sha, block)),
      height := s.height + 1)
  }

  function EpochInput(s: State): Rewards.Epoch<MinerId> {
    Rewards.Epoch(s.miners, s.bonds, map id | id in s.scores :: s.scores[id].value, s.height)
  }

  function PurseOf(c: Config, script: seq<byte>): Purse { Purse(c.self, script, c.address) }

  predicate TookPart(results: seq<MinerResult>, id: MinerId) {
    exists i :: 0 <= i < |results| && results[i].minerId == id && results[i].shares > 0
  }

  function WithoutShares(miners: map<MinerId, Rewards.Miner>): map<MinerId, Rewards.Miner> {
    map id | id in miners :: miners[id].(shares := 0)
  }

  function LoyaltyAfter(scores: map<MinerId, Loyalty.Score>, ids: set<MinerId>, completed: nat, results: seq<MinerResult>)
    : map<MinerId, Loyalty.Score>
  {
    map id | id in scores.Keys + ids ::
      if id in ids then Loyalty.Update(ScoreOf(scores, id), completed, TookPart(results, id)) else scores[id]
  }

  function EpochEnded(c: Config, s: State, script: seq<byte>, results: seq<MinerResult>): State {
    State(PayAll(c.rules.sha, PurseOf(c, script), s.height, s.epoch, s.utxos, results),
          s.pool, s.height, s.epoch + 1,
          WithoutShares(s.miners), s.bonds, LoyaltyAfter(s.scores, s.miners.Keys, s.epoch, results))
  }

  predicate EndsEpoch(height: nat) { height % EPOCH_BLOCKS == 0 }

  // ---------- the ledger over a run ----------

  datatype Ledger = Ledger(
    s: State,
    fees: nat,
    paid: nat,
    shaped: nat,
    overwritten: int,
    applied: set<Transaction>,
    rewarded: set<seq<byte>>)

  datatype Step =
    | Submit(tx: Transaction)
    | PutBond(id: MinerId, amount: nat)
    | OfferShare(id: MinerId, accepted: bool)
    | Mine(script: seq<byte>, shareAccepted: bool, results: seq<MinerResult>)

  ghost function Members(txs: seq<Transaction>): set<Transaction> { set t | t in txs }

  ghost function AfterBlock(c: Config, l: Ledger, script: seq<byte>, shareAccepted: bool): Ledger {
    Ledger(BlockStored(c, l.s, script, shareAccepted),
           l.fees + Fees(l.s.utxos, Chosen(l.s, script)), l.paid, l.shaped + Shaped(Chosen(l.s, script)),
           l.overwritten + Overwritten(c.rules.sha, l.s.utxos, BlockOf(l.s, script)),
           l.applied + Members(BlockOf(l.s, script)), l.rewarded)
  }

  ghost function AfterEpoch(c: Config, l: Ledger, script: seq<byte>, results: seq<MinerResult>): Ledger {
    Ledger(EpochEnded(c, l.s, script, results),
           l.fees, l.paid + Paid(PurseOf(c, script), results), l.shaped, l.overwritten, l.applied,
           l.rewarded + set i | 0 <= i < |results| :: RewardBytes(l.s.height, l.s.epoch, results[i].minerId))
  }

  /** A block found: refused if two of its ordinary transactions are the same, otherwise stored, and with every
      1440th height the epoch ends. */
  ghost function AfterMine(c: Config, l: Ledger, script: seq<byte>, shareAccepted: bool,
                           results: seq<MinerResult>): Ledger {
    if HasDuplicates(c.rules.sha, BlockOf(l.s, script)) then l
    else
      var stored := AfterBlock(c, l, script, shareAccepted);
      if EndsEpoch(stored.s.height) then AfterEpoch(c, stored, script, results) else stored
  }

  /** The same step on the state alone, with nothing on the ledger yet. */
  ghost function Mined(c: Config, s: State, script: seq<byte>, shareAccepted: bool, results: seq<MinerResult>): State {
    AfterMine(c, Ledger(s, 0, 0, 0, 0, {}, {}), script, shareAccepted, results).s
  }

  /** What is on the ledger does not influence the step. */
  lemma AfterMineIsMined(c: Config, l: Ledger, script: seq<byte>, shareAccepted: bool, results: seq<MinerResult>)
    ensures AfterMine(c, l, script, shareAccepted, results).s == Mined(c, l.s, script, shareAccepted, results)
  {
    hide HasDuplicates, BlockStored, EpochEnded, Fees, Shaped, Overwritten, Paid, BlockOf, Chosen, RewardBytes, EndsEpoch;
  }

  ghost function Next(c: Config, l: Ledger, step: Step): Ledger {
    match step
    case Submit(tx) => l.(s := l.s.(pool := Admit(c.rules, l.s.utxos, l.s.pool, tx)))
    case PutBond(id, amount) => l.(s := BondPut(l.s, id, amount))
    case OfferShare(id, accepted) => l.(s := ShareOffered(l.s, id, accepted))
    case Mine(script, shareAccepted, results) => AfterMine(c, l, script, shareAccepted, results)
  }

  /** Submitted transactions have lists short enough for their length prefixes, and the results that an epoch end
      pays out are the ones its inputs determine, in some order. */
  ghost predicate Allowed(c: Config, l: Ledger, step: Step) {
    match step
    case Submit(tx) => Fits(tx, 4)
    case Mine(script, shareAccepted, results) =>
      |script| < 0x1_0000_0000
      && (EndsEpoch(l.s.height + 1) ==>
            Rewards.ResultsFor(EpochInput(AfterBlock(c, l, script, shareAccepted).s), c.sqrt, results))
    case _ => true
  }

  function Genesis(c: Config): Ledger { Ledger(GenesisState(c), 0, 0, 0, 0, {GenesisTx()}, {}) }

  ghost function Run(c: Config, steps: seq<Step>): Ledger {
    if steps == [] then Genesis(c) else Next(c, Run(c, steps[..|steps| - 1]), steps[|steps| - 1])
  }

  ghost predicate Lawful(c: Config, steps: seq<Step>) {
    steps != [] ==> Lawful(c, steps[..|steps| - 1]) && Allowed(c, Run(c, steps[..|steps| - 1]), steps[|steps| - 1])
  }

  ghost function Supply(s: State): int { Sum(Values(s.utxos)) }
}

/** The constants that several parts of the node share. */
module Protocol {
  const EPOCH_BLOCKS: nat := 1440
  const EPOCH_REWARD: nat := 720_000_000
  const MINIMUM_BOND: nat := 10_000_000
  const BOND_LOCKUP: nat := 20_160
  /** How far a timestamp may be ahead of the clock, in seconds. */
  const FUTURE_LIMIT: nat := 7200
}

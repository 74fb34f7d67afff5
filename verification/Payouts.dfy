/** The outputs an epoch end writes for the rewards it pays. */
module Payouts {
  import opened Bytes
  import opened TxEncoding
  import opened Merkle
  import opened Sums
  import opened Validation
  import opened Protocol
  import Rewards

  type MinerResult = Rewards.Result<MinerId>

  /** "ACCUM-EPOCH-REWARD". */
  function RewardTag(): (tag: seq<byte>)
    ensures |tag| == 18
  {
    [0x41, 0x43, 0x43, 0x55, 0x4D, 0x2D, 0x45, 0x50, 0x4F, 0x43, 0x48, 0x2D, 0x52, 0x45, 0x57, 0x41, 0x52, 0x44]
  }

  function RewardBytes(height: nat, epoch: nat, id: MinerId): (data: seq<byte>)
    ensures |data| == 50
  {
    RewardTag() + (LE(height, 8) + (LE(epoch, 4) + id))
  }

  function RewardPoint(sha: Sha, height: nat, epoch: nat, id: MinerId): OutPoint {
    OutPoint(sha(RewardBytes(height, epoch, id)), 0)
  }

  lemma RewardBytesDiffer(h1: nat, e1: nat, id1: MinerId, h2: nat, e2: nat, id2: MinerId)
    requires h1 < WORD && h2 < WORD
    requires RewardBytes(h1, e1, id1) == RewardBytes(h2, e2, id2)
    ensures h1 == h2 && id1 == id2
  {
    hide RewardTag, LE;
    SameHead(RewardTag(), RewardTag(), LE(h1, 8) + (LE(e1, 4) + id1), LE(h2, 8) + (LE(e2, 4) + id2));
    SameHead(LE(h1, 8), LE(h2, 8), LE(e1, 4) + id1, LE(e2, 4) + id2);
    SameHead(LE(e1, 4), LE(e2, 4), id1, id2);
    Pow256Values();
    LEInjective(h1, h2, 8);
  }

  /** Who can be paid: the node itself to its wallet's script, others where they left an address. */
  datatype Purse = Purse(self: MinerId, ownScript: seq<byte>, address: MinerId -> Option<seq<byte>>)

  function ScriptFor(purse: Purse, id: MinerId): Option<seq<byte>> {
    if id == purse.self then Some(purse.ownScript) else purse.address(id)
  }

  predicate IsPaid(purse: Purse, r: MinerResult) { r.reward > 0 && ScriptFor(purse, r.minerId).Some? }

  function PaidOut(purse: Purse, r: MinerResult): TxOut
    requires IsPaid(purse, r)
  {
    TxOut(r.reward, ScriptFor(purse, r.minerId).value)
  }

  /** The unspent outputs after the rewards in a list are paid in order. */
  function PayAll(sha: Sha, purse: Purse, height: nat, epoch: nat, u: Utxos, results: seq<MinerResult>): Utxos {
    if results == [] then u
    else
      var r := results[|results| - 1];
      var before := PayAll(sha, purse, height, epoch, u, results[..|results| - 1]);
      if IsPaid(purse, r) then before[RewardPoint(sha, height, epoch, r.minerId) := PaidOut(purse, r)] else before
  }

  ghost function Paid(purse: Purse, results: seq<MinerResult>): nat {
    if results == [] then 0
    else
      var r := results[|results| - 1];
      Paid(purse, results[..|results| - 1]) + if IsPaid(purse, r) then r.reward else 0
  }

  lemma {:induction false} PaidPoints(sha: Sha, purse: Purse, height: nat, epoch: nat, u: Utxos,
                                      results: seq<MinerResult>, p: OutPoint)
    ensures p in PayAll(sha, purse, height, epoch, u, results)
       <==> p in u || exists i :: 0 <= i < |results| && IsPaid(purse, results[i])
                                  && p == RewardPoint(sha, height, epoch, results[i].minerId)
  {
    hide RewardPoint, IsPaid;
    if results != [] {
      PaidPoints(sha, purse, height, epoch, u, results[..|results| - 1], p);
    }
  }

  lemma {:induction false} PaidValues(sha: Sha, purse: Purse, height: nat, epoch: nat, u: Utxos, results: seq<MinerResult>,
                                      p: OutPoint)
    requires p in PayAll(sha, purse, height, epoch, u, results)
    ensures (p in u && PayAll(sha, purse, height, epoch, u, results)[p] == u[p])
         || exists i :: 0 <= i < |results| && p == RewardPoint(sha, height, epoch, results[i].minerId)
  {
    hide RewardPoint, IsPaid;
    if results != [] {
      var n := |results| - 1;
      if p != RewardPoint(sha, height, epoch, results[n].minerId) {
        PaidValues(sha, purse, height, epoch, u, results[..n], p);
      }
    }
  }

  /** No reward of this height and epoch overwrites an output, and no two rewards share one. */
  ghost predicate PointsFree(sha: Sha, height: nat, epoch: nat, u: Utxos, results: seq<MinerResult>) {
    && (forall i :: 0 <= i < |results| ==> RewardPoint(sha, height, epoch, results[i].minerId) !in u)
    && (forall i, j :: 0 <= i < j < |results| ==>
          RewardPoint(sha, height, epoch, results[i].minerId) != RewardPoint(sha, height, epoch, results[j].minerId))
  }

  /** Paying raises the total by at most what is paid, and by exactly that when no output is overwritten. */
  lemma {:induction false} PayBalance(sha: Sha, purse: Purse, height: nat, epoch: nat, u: Utxos,
                                      results: seq<MinerResult>)
    ensures Sum(Values(PayAll(sha, purse, height, epoch, u, results))) <= Sum(Values(u)) + Paid(purse, results)
    ensures PointsFree(sha, height, epoch, u, results) ==>
      Sum(Values(PayAll(sha, purse, height, epoch, u, results))) == Sum(Values(u)) + Paid(purse, results)
  {
    hide RewardPoint, IsPaid, ScriptFor, Sum;
    if results != [] {
      var n := |results| - 1;
      var r, before := results[n], PayAll(sha, purse, height, epoch, u, results[..n]);
      PayBalance(sha, purse, height, epoch, u, results[..n]);
      if IsPaid(purse, r) {
        var p, o := RewardPoint(sha, height, epoch, r.minerId), PaidOut(purse, r);
        assert Values(before[p := o]) == Values(before)[p := o.value];
        SumUpdate(Values(before), p, o.value);
        PaidPoints(sha, purse, height, epoch, u, results[..n], p);
        assert NonNegative(Values(before));
      }
    }
  }

  // ---------- what is paid is within the epoch reward ----------

  ghost function SumOver<K>(m: map<K, int>, ids: seq<K>): int
    requires forall i :: 0 <= i < |ids| ==> ids[i] in m
  {
    if ids == [] then 0 else SumOver(m, ids[..|ids| - 1]) + m[ids[|ids| - 1]]
  }

  lemma {:induction false} SumOverDistinct<K>(m: map<K, int>, ids: seq<K>)
    requires NonNegative(m) && (forall i :: 0 <= i < |ids| ==> ids[i] in m)
    requires forall i, j :: 0 <= i < j < |ids| ==> ids[i] != ids[j]
    ensures SumOver(m, ids) <= Sum(m)
    decreases |ids|
  {
    if ids == [] {
      SumNonNegative(m);
    } else {
      var n := |ids| - 1;
      SumAt(m, ids[n]);
      SumOverDistinct(m - {ids[n]}, ids[..n]);
      SumOverSame(m - {ids[n]}, m, ids[..n]);
    }
  }

  lemma {:induction false} SumOverSame<K>(m: map<K, int>, n: map<K, int>, ids: seq<K>)
    requires forall i :: 0 <= i < |ids| ==> ids[i] in m && ids[i] in n && m[ids[i]] == n[ids[i]]
    ensures SumOver(m, ids) == SumOver(n, ids)
  {
    if ids != [] { SumOverSame(m, n, ids[..|ids| - 1]); }
  }

  lemma {:induction false} PaidWithin(purse: Purse, results: seq<MinerResult>, rewards: map<MinerId, int>,
                                      ids: seq<MinerId>)
    requires NonNegative(rewards) && |ids| == |results|
    requires forall i :: 0 <= i < |results| ==> ids[i] in rewards && results[i].reward == rewards[ids[i]]
    ensures Paid(purse, results) <= SumOver<MinerId>(rewards, ids)
  {
    if results != [] {
      PaidWithin(purse, results[..|results| - 1], rewards, ids[..|results| - 1]);
    }
  }

  /** At one epoch end no more is paid than the epoch reward. */
  lemma PaidBound(purse: Purse, e: Rewards.Epoch<MinerId>, sqrt: Rewards.Root, results: seq<MinerResult>)
    requires Rewards.RootLike(sqrt) && Rewards.LoyaltyNonNegative(e) && Rewards.ResultsFor(e, sqrt, results)
    ensures Paid(purse, results) <= EPOCH_REWARD
  {
    hide *;
    Rewards.RewardBounds(e, sqrt);
    Listed(e, sqrt, results);
    PaidAtMost(purse, results, Rewards.RewardsOf(e, sqrt));
  }

  lemma PaidAtMost(purse: Purse, results: seq<MinerResult>, rewards: map<MinerId, int>)
    requires NonNegative(rewards)
    requires forall i, j :: 0 <= i < j < |results| ==> results[i].minerId != results[j].minerId
    requires forall i :: 0 <= i < |results| ==>
      results[i].minerId in rewards && results[i].reward == rewards[results[i].minerId]
    ensures Paid(purse, results) <= Sum<MinerId>(rewards)
  {
    hide Sum, Paid, SumOver;
    var ids := seq(|results|, i requires 0 <= i < |results| => results[i].minerId);
    PaidWithin(purse, results, rewards, ids);
    SumOverDistinct<MinerId>(rewards, ids);
  }

  lemma Listed<Id(!new)>(e: Rewards.Epoch<Id>, sqrt: Rewards.Root, results: seq<Rewards.Result<Id>>)
    requires Rewards.ResultsFor(e, sqrt, results)
    ensures forall i :: 0 <= i < |results| ==>
      && results[i].minerId in Rewards.RewardsOf(e, sqrt)
      && results[i].reward == Rewards.RewardsOf(e, sqrt)[results[i].minerId]
    ensures forall i, j :: 0 <= i < j < |results| ==> results[i].minerId != results[j].minerId
  {
    hide Rewards.IndexOf, SumR;
  }
}

/** What the entries of an epoch's calculation amount to, said of the entries alone: how an index moves with shares,
    loyalty and bond, where it starts and ends, and how the reward follows from it. */
module RewardFormula {
  import opened Sums
  import opened Rewards

  // ---------- the three ingredients ----------

  /** The root of a miner's shares; nothing for a miner without shares. */
  function ShareRoot<Id>(e: Epoch<Id>, sqrt: Root, id: Id): real
    requires id in e.miners
  {
    if e.miners[id].shares == 0 then 0.0 else sqrt(e.miners[id].shares as real)
  }

  function LoyaltyValue<Id>(e: Epoch<Id>, id: Id): real { if id in e.loyalty then e.loyalty[id] else 0.0 }

  /** A bond that counts: put down already, not yet unlocked, and large enough. */
  predicate Bonded<Id>(e: Epoch<Id>, id: Id) {
    id in e.bonds && e.bonds[id].createdAt <= e.height < e.bonds[id].lockUntil && e.bonds[id].amount >= 10_000_000
  }

  function BondRoot<Id>(e: Epoch<Id>, sqrt: Root, id: Id): real
    requires id in e.miners
  {
    if Bonded(e, id) then sqrt(e.miners[id].bond as real) else 0.0
  }

  // The largest value among the miners, or 1 when none is larger.

  ghost predicate SharePeak<Id(!new)>(e: Epoch<Id>, sqrt: Root, peak: real) {
    && peak >= 1.0
    && (forall id :: id in e.miners ==> sqrt(e.miners[id].shares as real) <= peak)
    && (peak == 1.0 || exists id :: id in e.miners && sqrt(e.miners[id].shares as real) == peak)
  }

  ghost predicate LoyaltyPeak<Id(!new)>(e: Epoch<Id>, peak: real) {
    && peak >= 1.0
    && (forall id :: id in e.miners ==> LoyaltyValue(e, id) <= peak)
    && (peak == 1.0 || exists id :: id in e.miners && LoyaltyValue(e, id) == peak)
  }

  ghost predicate BondPeak<Id(!new)>(e: Epoch<Id>, sqrt: Root, peak: real) {
    && peak >= 1.0
    && (forall id :: id in e.miners && Bonded(e, id) ==> sqrt(e.miners[id].bond as real) <= peak)
    && (peak == 1.0 || exists id :: id in e.miners && Bonded(e, id) && sqrt(e.miners[id].bond as real) == peak)
  }

  ghost predicate Peaks<Id(!new)>(e: Epoch<Id>, sqrt: Root, most: Maxima) {
    SharePeak(e, sqrt, most.shares) && LoyaltyPeak(e, most.loyalty) && BondPeak(e, sqrt, most.bond)
  }

  lemma PeaksAreMaxima<Id(!new)>(e: Epoch<Id>, sqrt: Root, most: Maxima)
    requires Peaks(e, sqrt, most)
    ensures most == MaximaOf(e, sqrt)
  {
    var s, l, b := ShareRoots(e.miners, sqrt), Loyalties(e.miners, e.loyalty), BondRoots(e.miners, e.bonds, e.height, sqrt);
    assert forall id :: id in e.miners ==> s[id] == sqrt(e.miners[id].shares as real) && l[id] == LoyaltyValue(e, id);
    assert forall id :: id in b <==> id in e.miners && Bonded(e, id);
    assert forall id :: id in b ==> b[id] == sqrt(e.miners[id].bond as real);
    assert IsMax(s, most.shares) && IsMax(l, most.loyalty) && IsMax(b, most.bond);
    MaxUnique(s, most.shares, MaxOf(s));
    MaxUnique(l, most.loyalty, MaxOf(l));
    MaxUnique(b, most.bond, MaxOf(b));
  }

  lemma EntryIndex<Id(!new)>(e: Epoch<Id>, sqrt: Root, results: seq<Result<Id>>, i: nat, most: Maxima)
    requires ResultsFor(e, sqrt, results) && i < |results| && Peaks(e, sqrt, most)
    ensures results[i].minerId in e.miners
    ensures var id := results[i].minerId;
      results[i].poci == 0.6 * (ShareRoot(e, sqrt, id) / most.shares) + 0.2 * (LoyaltyValue(e, id) / most.loyalty)
                         + 0.2 * (BondRoot(e, sqrt, id) / most.bond)
  {
    hide Peaks, MaximaOf, RewardsOf;
    PeaksArePositive(e, sqrt, most);
    PeaksAreMaxima(e, sqrt, most);
    assert results[i] == ResultOf(e, sqrt, results[i].minerId);
  }

  lemma PeaksArePositive<Id(!new)>(e: Epoch<Id>, sqrt: Root, most: Maxima)
    requires Peaks(e, sqrt, most)
    ensures most.shares >= 1.0 && most.loyalty >= 1.0 && most.bond >= 1.0
  {
  }

  // ---------- how the index moves ----------

  lemma Difference(a: real, b: real, c: real)
    requires c > 0.0
    ensures a / c - b / c == (a - b) / c
  {
  }

  /** Between two miners of equal loyalty and equal valid bond, the index moves with six tenths of the difference of
      the roots of their shares, over the largest. */
  lemma SharesWeighSixTenths<Id(!new)>(e: Epoch<Id>, sqrt: Root, results: seq<Result<Id>>, i: nat, j: nat, most: Maxima)
    requires ResultsFor(e, sqrt, results) && i < |results| && j < |results| && Peaks(e, sqrt, most)
    requires results[i].minerId in e.miners && results[j].minerId in e.miners
    requires LoyaltyValue(e, results[i].minerId) == LoyaltyValue(e, results[j].minerId)
    requires BondRoot(e, sqrt, results[i].minerId) == BondRoot(e, sqrt, results[j].minerId)
    ensures results[i].poci - results[j].poci
         == 0.6 * ((ShareRoot(e, sqrt, results[i].minerId) - ShareRoot(e, sqrt, results[j].minerId)) / most.shares)
  {
    hide Peaks, ResultsFor, ShareRoot, LoyaltyValue, BondRoot;
    PeaksArePositive(e, sqrt, most);
    EntryIndex(e, sqrt, results, i, most);
    EntryIndex(e, sqrt, results, j, most);
    Difference(ShareRoot(e, sqrt, results[i].minerId), ShareRoot(e, sqrt, results[j].minerId), most.shares);
  }

  /** Between two miners of equal shares and equal valid bond, with two tenths of the difference of their loyalty. */
  lemma LoyaltyWeighsTwoTenths<Id(!new)>(e: Epoch<Id>, sqrt: Root, results: seq<Result<Id>>, i: nat, j: nat, most: Maxima)
    requires ResultsFor(e, sqrt, results) && i < |results| && j < |results| && Peaks(e, sqrt, most)
    requires results[i].minerId in e.miners && results[j].minerId in e.miners
    requires ShareRoot(e, sqrt, results[i].minerId) == ShareRoot(e, sqrt, results[j].minerId)
    requires BondRoot(e, sqrt, results[i].minerId) == BondRoot(e, sqrt, results[j].minerId)
    ensures results[i].poci - results[j].poci
         == 0.2 * ((LoyaltyValue(e, results[i].minerId) - LoyaltyValue(e, results[j].minerId)) / most.loyalty)
  {
    hide Peaks, ResultsFor, ShareRoot, LoyaltyValue, BondRoot;
    PeaksArePositive(e, sqrt, most);
    EntryIndex(e, sqrt, results, i, most);
    EntryIndex(e, sqrt, results, j, most);
    Difference(LoyaltyValue(e, results[i].minerId), LoyaltyValue(e, results[j].minerId), most.loyalty);
  }

  /** Between two miners of equal shares and loyalty, with two tenths of the difference of the roots of their valid
      bonds. */
  lemma BondWeighsTwoTenths<Id(!new)>(e: Epoch<Id>, sqrt: Root, results: seq<Result<Id>>, i: nat, j: nat, most: Maxima)
    requires ResultsFor(e, sqrt, results) && i < |results| && j < |results| && Peaks(e, sqrt, most)
    requires results[i].minerId in e.miners && results[j].minerId in e.miners
    requires ShareRoot(e, sqrt, results[i].minerId) == ShareRoot(e, sqrt, results[j].minerId)
    requires LoyaltyValue(e, results[i].minerId) == LoyaltyValue(e, results[j].minerId)
    ensures results[i].poci - results[j].poci
         == 0.2 * ((BondRoot(e, sqrt, results[i].minerId) - BondRoot(e, sqrt, results[j].minerId)) / most.bond)
  {
    hide Peaks, ResultsFor, ShareRoot, LoyaltyValue, BondRoot;
    PeaksArePositive(e, sqrt, most);
    EntryIndex(e, sqrt, results, i, most);
    EntryIndex(e, sqrt, results, j, most);
    Difference(BondRoot(e, sqrt, results[i].minerId), BondRoot(e, sqrt, results[j].minerId), most.bond);
  }

  // ---------- where the index starts and ends ----------

  /** A miner with nothing has no index. */
  lemma NothingGivesNothing<Id(!new)>(e: Epoch<Id>, sqrt: Root, results: seq<Result<Id>>, i: nat, most: Maxima)
    requires ResultsFor(e, sqrt, results) && i < |results| && Peaks(e, sqrt, most)
    requires var id := results[i].minerId;
      id in e.miners && e.miners[id].shares == 0 && LoyaltyValue(e, id) == 0.0 && !Bonded(e, id)
    ensures results[i].poci == 0.0
  {
    hide Peaks, ResultsFor;
    PeaksArePositive(e, sqrt, most);
    EntryIndex(e, sqrt, results, i, most);
  }

  /** Leading in shares only gives 0.6, in loyalty only 0.2, with a valid bond only 0.2, and leading in all gives 1. */
  lemma LeadersIndex<Id(!new)>(e: Epoch<Id>, sqrt: Root, results: seq<Result<Id>>, i: nat, most: Maxima)
    requires ResultsFor(e, sqrt, results) && i < |results| && Peaks(e, sqrt, most) && results[i].minerId in e.miners
    requires var id := results[i].minerId;
      && ShareRoot(e, sqrt, id) in {0.0, most.shares}
      && LoyaltyValue(e, id) in {0.0, most.loyalty}
      && BondRoot(e, sqrt, id) in {0.0, most.bond}
    ensures var id := results[i].minerId;
      results[i].poci == (if ShareRoot(e, sqrt, id) == 0.0 then 0.0 else 0.6)
                         + (if LoyaltyValue(e, id) == 0.0 then 0.0 else 0.2)
                         + (if BondRoot(e, sqrt, id) == 0.0 then 0.0 else 0.2)
  {
    hide Peaks, ResultsFor, ShareRoot, LoyaltyValue, BondRoot;
    PeaksArePositive(e, sqrt, most);
    EntryIndex(e, sqrt, results, i, most);
    Unit(most.shares);
    Unit(most.loyalty);
    Unit(most.bond);
  }

  // ---------- the reward ----------

  /** The sum of the indexes of the entries. */
  ghost function TotalIndex<Id>(results: seq<Result<Id>>): real {
    if results == [] then 0.0 else TotalIndex(results[..|results| - 1]) + results[|results| - 1].poci
  }

  lemma {:induction false} TotalOfEntries<Id(!new)>(m: map<Id, real>, results: seq<Result<Id>>)
    requires forall i :: 0 <= i < |results| ==> results[i].minerId in m && results[i].poci == m[results[i].minerId]
    requires forall i, j :: 0 <= i < j < |results| ==> results[i].minerId != results[j].minerId
    requires forall id :: id in m ==> exists i :: 0 <= i < |results| && results[i].minerId == id
    ensures TotalIndex(results) == SumR(m)
    decreases |results|
  {
    hide SumR;
    if results == [] {
      EmptyTotal<Id>();
      assert m == map[];
    } else {
      var n := |results| - 1;
      var id := results[n].minerId;
      SumRAt(m, id);
      forall other | other in m - {id} ensures exists i :: 0 <= i < n && results[..n][i].minerId == other {
        var i :| 0 <= i < |results| && results[i].minerId == other;
        assert results[..n][i].minerId == other;
      }
      TotalOfEntries(m - {id}, results[..n]);
    }
  }

  lemma TotalIsSum<Id(!new)>(e: Epoch<Id>, sqrt: Root, results: seq<Result<Id>>)
    requires ResultsFor(e, sqrt, results)
    ensures TotalIndex(results) == SumR(Indexes(e, sqrt))
  {
    hide IndexOf, RewardsOf;
    forall i | 0 <= i < |results|
      ensures results[i].minerId in Indexes(e, sqrt) && results[i].poci == Indexes(e, sqrt)[results[i].minerId]
    {
      assert results[i] == ResultOf(e, sqrt, results[i].minerId);
    }
    TotalOfEntries(Indexes(e, sqrt), results);
  }

  lemma AmountOf(x: real)
    requires 0.0 <= x <= MAX_AMOUNT as real
    ensures ToAmount(x) as real <= x < ToAmount(x) as real + 1.0
  {
  }

  lemma Scaled(a: real, total: real, pool: real)
    requires total > 0.0
    ensures Part(a, total, pool) * total == a * pool
  {
    assert a / total * total == a;
    assert a / total * pool * total == a / total * total * pool;
  }

  lemma Times(a: real, b: real)
    requires a > 0.0 && b > 0.0
    ensures a * b > 0.0
  {
  }

  lemma Expand(r: real, x: real, t: real)
    ensures (r + 1.0 - x) * t == r * t + t - x * t
  {
  }

  lemma ScaledAbove(r: real, x: real, total: real, scaled: real)
    requires x < r + 1.0 && total > 0.0 && x * total == scaled
    ensures scaled < r * total + total
  {
    Times(r + 1.0 - x, total);
    Expand(r, x, total);
  }

  lemma ScaledBelow(r: real, x: real, total: real, scaled: real)
    requires r <= x && total > 0.0 && x * total == scaled
    ensures r * total <= scaled
  {
    assert (x - r) * total >= 0.0;
  }

  /** When anybody contributed, each reward is its index's share of 720,000,000, rounded down; it is nothing when
      nobody did. */
  lemma RewardIsProportional<Id(!new)>(e: Epoch<Id>, sqrt: Root, results: seq<Result<Id>>, i: nat)
    requires RootLike(sqrt) && LoyaltyNonNegative(e) && ResultsFor(e, sqrt, results) && i < |results|
    ensures var total, r := TotalIndex(results), results[i].reward as real;
      if total > 0.0 then r * total <= results[i].poci * 720_000_000.0 < r * total + total else results[i].reward == 0
  {
    hide IndexOf, Part, ToAmount, RootLike, TotalIndex, Indexes, SumR, RewardsOf, LoyaltyNonNegative;
    var id, total := results[i].minerId, TotalIndex(results);
    TotalIsSum(e, sqrt, results);
    assert results[i] == ResultOf(e, sqrt, id);
    RewardIs(e, sqrt, id);
    IndexAt(e, sqrt, id);
    if total > 0.0 {
      IndexPartInPool(e, sqrt, id);
      ProportionalTo(results[i].reward, results[i].poci, total, 720_000_000.0);
    }
  }

  lemma IndexAt<Id(!new)>(e: Epoch<Id>, sqrt: Root, id: Id)
    requires id in e.miners
    ensures id in Indexes(e, sqrt) && Indexes(e, sqrt)[id] == IndexOf(e, sqrt, id)
  {
  }

  lemma IndexPartInPool<Id(!new)>(e: Epoch<Id>, sqrt: Root, id: Id)
    requires RootLike(sqrt) && LoyaltyNonNegative(e) && id in e.miners && SumR(Indexes(e, sqrt)) > 0.0
    ensures 0.0 <= Part(IndexOf(e, sqrt, id), SumR(Indexes(e, sqrt)), 720_000_000.0) <= MAX_AMOUNT as real
  {
    hide IndexOf, Part, SumR, RootLike;
    IndexesNonNegative(e, sqrt);
    PartInPool(Indexes(e, sqrt), id, 720_000_000.0);
  }

  lemma ProportionalTo(reward: Amount, value: real, total: real, pool: real)
    requires total > 0.0 && 0.0 <= Part(value, total, pool) <= MAX_AMOUNT as real
    requires reward == ToAmount(Part(value, total, pool))
    ensures reward as real * total <= value * pool < reward as real * total + total
  {
    hide Part, ToAmount;
    var x, r := Part(value, total, pool), reward as real;
    AmountOf(x);
    Scaled(value, total, pool);
    ScaledBelow(r, x, total, value * pool);
    ScaledAbove(r, x, total, value * pool);
  }

  lemma PartInPool<Id(!new)>(m: map<Id, real>, id: Id, pool: real)
    requires (forall k :: k in m ==> m[k] >= 0.0) && id in m && SumR(m) > 0.0 && 0.0 <= pool <= MAX_AMOUNT as real
    ensures 0.0 <= Part(m[id], SumR(m), pool) <= MAX_AMOUNT as real
  {
    hide Part;
    ValueWithinSum(m, id);
    PartOfNone(SumR(m), pool);
    PartMonotone(0.0, m[id], SumR(m), pool);
    PartMonotone(m[id], SumR(m), SumR(m), pool);
  }

  /** Whatever the indexes: each of the library's rewards is the miner's part x, rounded down; nothing when x is
      negative, and the largest amount when x is more than that. */
  lemma LibraryReward<Id(!new)>(poci: map<Id, real>, fees: Amount, id: Id, x: real)
    requires id in poci && SumR(poci) != 0.0
    requires x * SumR(poci) == poci[id] * (720_000_000 + fees) as real
    ensures id in SplitWithFees(poci, fees)
    ensures var r := SplitWithFees(poci, fees)[id];
      && (x < 0.0 ==> r == 0)
      && (0.0 <= x < 18446744073709551616.0 ==> r as real <= x < r as real + 1.0)
      && (x >= 18446744073709551616.0 ==> r == 18446744073709551615)
  {
    hide SumR;
    PartIs(poci[id], SumR(poci), (720_000_000 + fees) as real, x);
    assert SplitWithFees(poci, fees)[id] == ToAmount(x);
  }

  lemma PartIs(a: real, total: real, pool: real, x: real)
    requires total != 0.0 && x * total == a * pool
    ensures Part(a, total, pool) == x
  {
    var q := a / total;
    assert q * total == a;
    SameFactor(q * pool, x, total, q, pool);
  }

  lemma SameFactor(y: real, x: real, total: real, q: real, pool: real)
    requires total != 0.0 && y == q * pool && x * total == q * total * pool
    ensures y == x
  {
    assert y * total == q * total * pool;
    assert (y - x) * total == 0.0;
  }

  /** The remaining parts of an entry are the miner's own. */
  lemma EntryRecords<Id(!new)>(e: Epoch<Id>, sqrt: Root, results: seq<Result<Id>>, i: nat)
    requires ResultsFor(e, sqrt, results) && i < |results|
    ensures var r := results[i];
      r.minerId in e.miners && r.shares == e.miners[r.minerId].shares && r.bond == e.miners[r.minerId].bond
      && r.loyalty == LoyaltyValue(e, r.minerId)
  {
    hide IndexOf, RewardsOf;
    assert results[i] == ResultOf(e, sqrt, results[i].minerId);
  }
}

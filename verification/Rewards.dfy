/** The contribution index and the distribution of the epoch reward, in reals where the source has 64-bit
    floats. The square root is any function that is not negative and keeps the order. */
module Rewards {
  import opened Sums
  import opened Protocol

  const WEIGHT_SHARES: real := 0.6
  const WEIGHT_LOYALTY: real := 0.2
  const WEIGHT_BOND: real := 0.2

  type Root = real -> real

  ghost predicate RootLike(sqrt: Root) {
    && (forall x :: x >= 0.0 ==> sqrt(x) >= 0.0)
    && (forall x, y :: 0.0 <= x <= y ==> sqrt(x) <= sqrt(y))
  }

  // ---------- splitting a pool in proportion ----------

  lemma Ratio(a: real, b: real)
    requires 0.0 <= a <= b && b > 0.0
    ensures 0.0 <= a / b <= 1.0
  {
  }

  lemma RatioMonotone(a: real, b: real, c: real)
    requires a <= b && c > 0.0
    ensures a / c <= b / c
  {
  }

  /** The part of the pool that goes with a value. */
  function Part(a: real, total: real, pool: real): real
    requires total != 0.0
  {
    a / total * pool
  }

  lemma PartAdd(a: real, b: real, total: real, pool: real)
    requires total != 0.0
    ensures Part(a + b, total, pool) == Part(a, total, pool) + Part(b, total, pool)
  {
    assert (a + b) / total == a / total + b / total;
    assert (a / total + b / total) * pool == a / total * pool + b / total * pool;
  }

  lemma PartMonotone(a: real, b: real, total: real, pool: real)
    requires a <= b && total > 0.0 && pool >= 0.0
    ensures Part(a, total, pool) <= Part(b, total, pool)
  {
    RatioMonotone(a, b, total);
    assert (b / total - a / total) * pool >= 0.0;
    assert (b / total - a / total) * pool == b / total * pool - a / total * pool;
  }

  lemma PartOfNone(total: real, pool: real)
    requires total != 0.0
    ensures Part(0.0, total, pool) == 0.0 && Part(total, total, pool) == pool
  {
    assert total / total == 1.0;
  }

  ghost function Parts<K>(m: map<K, real>, total: real, pool: real): map<K, real>
    requires total != 0.0
  {
    map k | k in m :: Part(m[k], total, pool)
  }

  lemma {:induction false} SumParts<K>(m: map<K, real>, total: real, pool: real)
    requires total != 0.0
    ensures SumR(Parts(m, total, pool)) == Part(SumR(m), total, pool)
    decreases |m|
  {
    hide Part;
    if m == map[] {
      PartOfNone(total, pool);
      assert Parts(m, total, pool) == map[];
    } else {
      var k :| k in m;
      SumRAt(m, k);
      SumRAt(Parts(m, total, pool), k);
      assert Parts(m, total, pool) - {k} == Parts(m - {k}, total, pool);
      SumParts(m - {k}, total, pool);
      PartAdd(m[k], SumR(m - {k}), total, pool);
    }
  }

  // ---------- rounding ----------

  /** An unsigned 64-bit amount. */
  type Amount = n: int | 0 <= n < 0x1_0000_0000_0000_0000

  const MAX_AMOUNT: nat := 0xFFFF_FFFF_FFFF_FFFF

  /** The conversion to an amount drops the fraction, and saturates: nothing is below zero or above the largest. */
  function ToAmount(x: real): Amount {
    if x < 0.0 then 0 else if x.Floor > MAX_AMOUNT then MAX_AMOUNT else x.Floor
  }

  function Amounts<K>(m: map<K, real>): map<K, int> { map k | k in m :: ToAmount(m[k]) }

  function Above(x: real): real { if x < 0.0 then 0.0 else x }

  /** The values with everything below zero put to zero. */
  ghost function Positive<K>(m: map<K, real>): map<K, real> { map k | k in m :: Above(m[k]) }

  /** Dropping what is below zero raises the sum, unless there is nothing below zero. */
  lemma {:induction false} PositiveSum<K>(m: map<K, real>)
    ensures SumR(m) <= SumR(Positive(m))
    ensures SumR(Positive(m)) <= SumR(m) <==> forall k :: k in m ==> m[k] >= 0.0
    decreases |m|
  {
    if m == map[] {
      assert Positive(m) == map[];
    } else {
      var k :| k in m;
      SumRAt(m, k);
      SumRAt(Positive(m), k);
      assert Positive(m) - {k} == Positive(m - {k});
      PositiveSum(m - {k});
      assert forall j :: j in m ==> j == k || j in m - {k};
    }
  }

  /** Rounded, the values sum to at most what is above zero, and fall short of it by less than one unit each, as
      long as no amount is cut. */
  lemma {:induction false} SumAmounts<K>(m: map<K, real>)
    ensures Sum(Amounts(m)) as real <= SumR(Positive(m))
    ensures m != map[] && (forall k :: k in m ==> m[k] <= MAX_AMOUNT as real) ==>
      SumR(Positive(m)) < (Sum(Amounts(m)) + |m|) as real
    decreases |m|
  {
    hide Sum, SumR, ToAmount, Above;
    if m != map[] {
      var k :| k in m;
      SumRAt(Positive(m), k);
      SumAt(Amounts(m), k);
      assert Positive(m) - {k} == Positive(m - {k}) && Amounts(m) - {k} == Amounts(m - {k});
      SumAmounts(m - {k});
      AmountIsFloor(m[k]);
      if m - {k} == map[] { NoAmounts(m - {k}); }
    } else {
      NoAmounts(m);
    }
  }

  lemma NoAmounts<K>(m: map<K, real>)
    requires m == map[]
    ensures Sum(Amounts(m)) == 0 && SumR(Positive(m)) == 0.0
  {
    assert Amounts(m) == map[] && Positive(m) == map[];
  }

  lemma AmountIsFloor(x: real)
    ensures ToAmount(x) as real <= Above(x)
    ensures x <= MAX_AMOUNT as real ==> Above(x) < ToAmount(x) as real + 1.0
  {
  }

  /** Each value's part of the pool as an amount. */
  function Split<K>(m: map<K, real>, total: real, pool: real): (r: map<K, int>)
    requires total != 0.0
    ensures r.Keys == m.Keys && forall k :: k in r ==> 0 <= r[k] <= MAX_AMOUNT
  {
    map k | k in m :: ToAmount(Part(m[k], total, pool))
  }

  /** What the parts would sum to without rounding. */
  ghost function Unrounded<K>(m: map<K, real>, pool: real): real
    requires SumR(m) != 0.0
  {
    SumR(Positive(Parts(m, SumR(m), pool)))
  }

  /** Before rounding, the parts sum to exactly the pool if no part is negative, and to more if one is, since it is
      put to zero. */
  lemma UnroundedWithinIff<K>(m: map<K, real>, pool: real)
    requires SumR(m) != 0.0
    ensures Unrounded(m, pool) >= pool
    ensures Unrounded(m, pool) <= pool <==> forall k :: k in m ==> Part(m[k], SumR(m), pool) >= 0.0
  {
    hide Part;
    var parts := Parts(m, SumR(m), pool);
    SumParts(m, SumR(m), pool);
    PartOfNone(SumR(m), pool);
    PositiveSum(parts);
    assert forall k :: k in m ==> parts[k] == Part(m[k], SumR(m), pool);
  }

  /** Rounding gives out no more than that, and less than one unit for each value less. */
  lemma SplitAgainstUnrounded<K>(m: map<K, real>, pool: real)
    requires SumR(m) != 0.0
    ensures Sum(Split(m, SumR(m), pool)) as real <= Unrounded(m, pool)
    ensures (forall k :: k in m ==> Part(m[k], SumR(m), pool) <= MAX_AMOUNT as real) ==>
      Unrounded(m, pool) < (Sum(Split(m, SumR(m), pool)) + |m|) as real
  {
    hide Part, ToAmount, Positive;
    var parts := Parts(m, SumR(m), pool);
    assert Split(m, SumR(m), pool) == Amounts(parts);
    assert m != map[] by { EmptyTotal<K>(); }
    assert parts.Keys == m.Keys;
    assert |parts| == |parts.Keys| == |m.Keys| == |m|;
    SumAmounts(parts);
  }

  /** Without negative values, rounding loses less than one unit for each value and never gives out more than the
      pool. */
  lemma SplitBounds<K>(m: map<K, real>, pool: real)
    requires SumR(m) > 0.0 && (forall k :: k in m ==> m[k] >= 0.0) && pool >= 0.0
    ensures Sum(Split(m, SumR(m), pool)) as real <= pool
    ensures pool <= MAX_AMOUNT as real ==> pool - |m| as real < Sum(Split(m, SumR(m), pool)) as real
  {
    hide Part, Unrounded;
    var total := SumR(m);
    forall k | k in m ensures 0.0 <= Part(m[k], total, pool) <= pool {
      ValueWithinSum(m, k);
      PartOfNone(total, pool);
      PartMonotone(0.0, m[k], total, pool);
      PartMonotone(m[k], total, total, pool);
    }
    UnroundedWithinIff(m, pool);
    SplitAgainstUnrounded(m, pool);
  }

  lemma ValueWithinSum<K>(m: map<K, real>, k: K)
    requires k in m && forall j :: j in m ==> m[j] >= 0.0
    ensures m[k] <= SumR(m)
  {
    SumRAt(m, k);
    SumRNonNegative(m - {k});
  }

  lemma {:induction false} SumRNonNegative<K>(m: map<K, real>)
    requires forall k :: k in m ==> m[k] >= 0.0
    ensures SumR(m) >= 0.0
    decreases |m|
  {
    if m != map[] {
      var k :| k in m;
      SumRAt(m, k);
      SumRNonNegative(m - {k});
    }
  }

  // ---------- maxima ----------

  /** The largest value, but at least 1. */
  ghost predicate IsMax<K>(m: map<K, real>, x: real) {
    && x >= 1.0
    && (forall k :: k in m ==> m[k] <= x)
    && (x == 1.0 || exists k :: k in m && m[k] == x)
  }

  lemma MaxUnique<K>(m: map<K, real>, x: real, y: real)
    requires IsMax(m, x) && IsMax(m, y)
    ensures x == y
  {
  }

  ghost function MaxOf<K>(m: map<K, real>): (x: real)
    ensures IsMax(m, x)
  {
    if m == map[] then 1.0
    else
      var k :| k in m;
      var rest := MaxOf(m - {k});
      assert forall j :: j in m ==> j == k || j in m - {k};
      if m[k] > rest then m[k] else rest
  }

  /** The fold over the values in any order, then the floor of 1. */
  method FoldMax<K(==)>(m: map<K, real>) returns (x: real)
    ensures x == MaxOf(m)
  {
    x := 0.0;
    var rest := m.Keys;
    while rest != {}
      invariant rest <= m.Keys && x >= 0.0
      invariant forall k :: k in m && k !in rest ==> m[k] <= x
      invariant x == 0.0 || exists k :: k in m && m[k] == x
      decreases |rest|
    {
      var k :| k in rest;
      rest := rest - {k};
      if m[k] > x { x := m[k]; }
    }
    if x < 1.0 { x := 1.0; }
    assert IsMax(m, x);
    MaxUnique(m, x, MaxOf(m));
  }

  // ---------- the contribution index ----------

  datatype Bond = Bond(amount: nat, createdAt: nat, lockUntil: nat)

  predicate IsActive(b: Bond, height: nat) { b.createdAt <= height < b.lockUntil }

  datatype Miner = Miner(shares: nat, bond: nat)

  datatype Result<Id> = Result(minerId: Id, poci: real, shares: nat, loyalty: real, bond: nat, reward: Amount)

  predicate ValidBond<Id>(bonds: map<Id, Bond>, id: Id, height: nat) {
    id in bonds && IsActive(bonds[id], height) && bonds[id].amount >= MINIMUM_BOND
  }

  function LoyaltyOf<Id>(loyalty: map<Id, real>, id: Id): real { if id in loyalty then loyalty[id] else 0.0 }

  function ShareRoots<Id>(miners: map<Id, Miner>, sqrt: Root): map<Id, real> {
    map id | id in miners :: sqrt(miners[id].shares as real)
  }

  function Loyalties<Id>(miners: map<Id, Miner>, loyalty: map<Id, real>): map<Id, real> {
    map id | id in miners :: LoyaltyOf(loyalty, id)
  }

  function BondRoots<Id>(miners: map<Id, Miner>, bonds: map<Id, Bond>, height: nat, sqrt: Root): map<Id, real> {
    map id | id in miners && ValidBond(bonds, id, height) :: sqrt(miners[id].bond as real)
  }

  /** One miner's index, given the three maxima of the epoch. */
  function Index(m: Miner, validBond: bool, loyalty: real, sqrt: Root,
                 maxShares: real, maxLoyalty: real, maxBond: real): real
    requires maxShares > 0.0 && maxLoyalty > 0.0
  {
    (if m.shares > 0 then WEIGHT_SHARES * (sqrt(m.shares as real) / maxShares) else 0.0)
    + WEIGHT_LOYALTY * (loyalty / maxLoyalty)
    + (if validBond && maxBond > 0.0 then WEIGHT_BOND * (sqrt(m.bond as real) / maxBond) else 0.0)
  }

  /** The inputs of one epoch end. */
  datatype Epoch<Id> = Epoch(miners: map<Id, Miner>, bonds: map<Id, Bond>, loyalty: map<Id, real>, height: nat)

  datatype Maxima = Maxima(shares: real, loyalty: real, bond: real)

  ghost function MaximaOf<Id>(e: Epoch<Id>, sqrt: Root): (most: Maxima)
    ensures most.shares > 0.0 && most.loyalty > 0.0
  {
    Maxima(MaxOf(ShareRoots(e.miners, sqrt)), MaxOf(Loyalties(e.miners, e.loyalty)),
           MaxOf(BondRoots(e.miners, e.bonds, e.height, sqrt)))
  }

  function IndexWith<Id>(e: Epoch<Id>, sqrt: Root, most: Maxima, id: Id): real
    requires id in e.miners && most.shares > 0.0 && most.loyalty > 0.0
  {
    Index(e.miners[id], ValidBond(e.bonds, id, e.height), LoyaltyOf(e.loyalty, id), sqrt,
          most.shares, most.loyalty, most.bond)
  }

  ghost function IndexOf<Id>(e: Epoch<Id>, sqrt: Root, id: Id): real
    requires id in e.miners
  {
    IndexWith(e, sqrt, MaximaOf(e, sqrt), id)
  }

  ghost function Indexes<Id>(e: Epoch<Id>, sqrt: Root): map<Id, real> {
    map id | id in e.miners :: IndexOf(e, sqrt, id)
  }

  ghost function RewardsOf<Id>(e: Epoch<Id>, sqrt: Root): (r: map<Id, int>)
    ensures r.Keys == e.miners.Keys
  {
    var total := SumR(Indexes(e, sqrt));
    if total > 0.0 then Split(Indexes(e, sqrt), total, EPOCH_REWARD as real) else map id | id in e.miners :: 0
  }

  ghost predicate LoyaltyNonNegative<Id>(e: Epoch<Id>) {
    forall id :: id in e.loyalty ==> e.loyalty[id] >= 0.0
  }

  lemma ThreeParts(a: real, b: real, c: real)
    requires 0.0 <= a <= 1.0 && 0.0 <= b <= 1.0 && 0.0 <= c <= 1.0
    ensures 0.0 <= WEIGHT_SHARES * a + WEIGHT_LOYALTY * b + WEIGHT_BOND * c <= 1.0
  {
  }

  /** Every index lies between 0 and 1. */
  lemma IndexInUnit<Id>(e: Epoch<Id>, sqrt: Root, id: Id)
    requires RootLike(sqrt) && LoyaltyNonNegative(e) && id in e.miners
    ensures 0.0 <= IndexOf(e, sqrt, id) <= 1.0
  {
    var m := e.miners[id];
    var s, l, b := ShareRoots(e.miners, sqrt), Loyalties(e.miners, e.loyalty), BondRoots(e.miners, e.bonds, e.height, sqrt);
    assert s[id] <= MaxOf(s) && l[id] <= MaxOf(l);
    Ratio(s[id], MaxOf(s));
    Ratio(l[id], MaxOf(l));
    var share := if m.shares > 0 then s[id] / MaxOf(s) else 0.0;
    var bond := 0.0;
    if ValidBond(e.bonds, id, e.height) {
      assert b[id] <= MaxOf(b);
      Ratio(b[id], MaxOf(b));
      bond := b[id] / MaxOf(b);
    }
    ThreeParts(share, l[id] / MaxOf(l), bond);
  }

  lemma IndexesNonNegative<Id>(e: Epoch<Id>, sqrt: Root)
    requires RootLike(sqrt) && LoyaltyNonNegative(e)
    ensures forall id :: id in e.miners ==> 0.0 <= Indexes(e, sqrt)[id] <= 1.0
    ensures SumR(Indexes(e, sqrt)) >= 0.0
  {
    forall id | id in e.miners ensures 0.0 <= Indexes(e, sqrt)[id] <= 1.0 {
      IndexInUnit(e, sqrt, id);
    }
    SumRNonNegative(Indexes(e, sqrt));
  }

  /** The rewards of an epoch are never negative and sum to at most the epoch reward; when anybody contributed,
      they fall short of it by less than one unit for each miner. */
  lemma RewardBounds<Id>(e: Epoch<Id>, sqrt: Root)
    requires RootLike(sqrt) && LoyaltyNonNegative(e)
    ensures NonNegative(RewardsOf(e, sqrt))
    ensures 0 <= Sum(RewardsOf(e, sqrt)) <= EPOCH_REWARD
    ensures SumR(Indexes(e, sqrt)) > 0.0 ==> EPOCH_REWARD - |e.miners| < Sum(RewardsOf(e, sqrt))
  {
    hide Part, IndexOf, SumR, RootLike, ToAmount;
    var m := Indexes(e, sqrt);
    var total, rewards := SumR(m), RewardsOf(e, sqrt);
    IndexesNonNegative(e, sqrt);
    SumNonNegative(rewards);
    if total > 0.0 {
      SplitBounds(m, EPOCH_REWARD as real);
      assert m.Keys == e.miners.Keys;
      assert |m| == |m.Keys| == |e.miners.Keys| == |e.miners|;
    } else {
      AllZero(rewards);
    }
  }

  /** A miner with at least another's shares, loyalty and valid bond gets at least the other's reward. */
  lemma RewardMonotone<Id>(e: Epoch<Id>, sqrt: Root, a: Id, b: Id)
    requires RootLike(sqrt) && LoyaltyNonNegative(e) && a in e.miners && b in e.miners
    requires e.miners[a].shares <= e.miners[b].shares
    requires LoyaltyOf(e.loyalty, a) <= LoyaltyOf(e.loyalty, b)
    requires ValidBond(e.bonds, a, e.height) ==> ValidBond(e.bonds, b, e.height) && e.miners[a].bond <= e.miners[b].bond
    ensures IndexOf(e, sqrt, a) <= IndexOf(e, sqrt, b)
    ensures RewardsOf(e, sqrt)[a] <= RewardsOf(e, sqrt)[b]
  {
    hide IndexOf, Part, ToAmount, RewardsOf, RootLike, ValidBond, LoyaltyOf, LoyaltyNonNegative;
    var total := SumR(Indexes(e, sqrt));
    IndexMonotone(e, sqrt, a, b);
    RewardIs(e, sqrt, a);
    RewardIs(e, sqrt, b);
    if total > 0.0 {
      PartMonotone(IndexOf(e, sqrt, a), IndexOf(e, sqrt, b), total, EPOCH_REWARD as real);
      AmountMonotone(Part(IndexOf(e, sqrt, a), total, EPOCH_REWARD as real), Part(IndexOf(e, sqrt, b), total, EPOCH_REWARD as real));
    }
  }

  lemma AmountMonotone(x: real, y: real)
    requires x <= y
    ensures ToAmount(x) <= ToAmount(y)
  {
  }

  lemma IndexMonotone<Id>(e: Epoch<Id>, sqrt: Root, a: Id, b: Id)
    requires RootLike(sqrt) && a in e.miners && b in e.miners
    requires e.miners[a].shares <= e.miners[b].shares
    requires LoyaltyOf(e.loyalty, a) <= LoyaltyOf(e.loyalty, b)
    requires ValidBond(e.bonds, a, e.height) ==> ValidBond(e.bonds, b, e.height) && e.miners[a].bond <= e.miners[b].bond
    ensures IndexOf(e, sqrt, a) <= IndexOf(e, sqrt, b)
  {
    hide MaximaOf, Index, ValidBond, LoyaltyOf;
    var most := MaximaOf(e, sqrt);
    IndexKeepsOrder(e.miners[a], ValidBond(e.bonds, a, e.height), LoyaltyOf(e.loyalty, a),
                    e.miners[b], ValidBond(e.bonds, b, e.height), LoyaltyOf(e.loyalty, b), sqrt, most);
  }

  lemma IndexKeepsOrder(a: Miner, aValid: bool, aLoyalty: real, b: Miner, bValid: bool, bLoyalty: real, sqrt: Root, most: Maxima)
    requires RootLike(sqrt) && most.shares > 0.0 && most.loyalty > 0.0 && aLoyalty <= bLoyalty && a.shares <= b.shares
    requires aValid ==> bValid && a.bond <= b.bond
    ensures Index(a, aValid, aLoyalty, sqrt, most.shares, most.loyalty, most.bond)
         <= Index(b, bValid, bLoyalty, sqrt, most.shares, most.loyalty, most.bond)
  {
    RatioMonotone(aLoyalty, bLoyalty, most.loyalty);
    RootRatio(a.shares as real, b.shares as real, sqrt, most.shares);
    RootRatio(0.0, b.bond as real, sqrt, most.bond);
    RootRatio(a.bond as real, if aValid then b.bond as real else a.bond as real, sqrt, most.bond);
  }

  lemma RootRatio(x: real, y: real, sqrt: Root, most: real)
    requires RootLike(sqrt) && 0.0 <= x <= y
    ensures most > 0.0 ==> 0.0 <= sqrt(x) / most <= sqrt(y) / most
  {
    if most > 0.0 {
      RatioMonotone(0.0, sqrt(x), most);
      RatioMonotone(sqrt(x), sqrt(y), most);
    }
  }

  ghost function ResultOf<Id>(e: Epoch<Id>, sqrt: Root, id: Id): Result<Id>
    requires id in e.miners
  {
    Result(id, IndexOf(e, sqrt, id), e.miners[id].shares, LoyaltyOf(e.loyalty, id), e.miners[id].bond,
           RewardsOf(e, sqrt)[id])
  }

  /** A list with one entry for each miner, every entry as the epoch's inputs determine it. */
  ghost predicate ResultsFor<Id(!new)>(e: Epoch<Id>, sqrt: Root, results: seq<Result<Id>>) {
    && (forall i :: 0 <= i < |results| ==> results[i].minerId in e.miners && results[i] == ResultOf(e, sqrt, results[i].minerId))
    && (forall i, j :: 0 <= i < j < |results| ==> results[i].minerId != results[j].minerId)
    && (forall id :: id in e.miners ==> exists i :: 0 <= i < |results| && results[i].minerId == id)
  }

  /** Every miner once. */
  ghost predicate Enumerates<Id(!new)>(order: seq<Id>, ids: set<Id>) {
    && (forall i :: 0 <= i < |order| ==> order[i] in ids)
    && (forall i, j :: 0 <= i < j < |order| ==> order[i] != order[j])
    && (forall id :: id in ids ==> exists i :: 0 <= i < |order| && order[i] == id)
  }

  lemma OneMore<Id(!new)>(order: seq<Id>, ids: set<Id>, id: Id)
    requires Enumerates(order, ids) && id !in ids
    ensures Enumerates(order + [id], ids + {id})
  {
    var next := order + [id];
    assert next[|order|] == id;
    assert forall i :: 0 <= i < |order| ==> next[i] == order[i];
  }

  method FindMaxima<Id(==)>(e: Epoch<Id>, sqrt: Root) returns (most: Maxima)
    ensures most == MaximaOf(e, sqrt)
  {
    var maxShares := FoldMax(ShareRoots(e.miners, sqrt));
    var maxLoyalty := FoldMax(Loyalties(e.miners, e.loyalty));
    var maxBond := FoldMax(BondRoots(e.miners, e.bonds, e.height, sqrt));
    return Maxima(maxShares, maxLoyalty, maxBond);
  }

  /** The miners in an arbitrary order, their indexes and the total. */
  method CollectIndexes<Id(==, !new)>(e: Epoch<Id>, sqrt: Root)
    returns (order: seq<Id>, indexes: map<Id, real>, totalPoci: real)
    ensures Enumerates(order, e.miners.Keys) && indexes == Indexes(e, sqrt) && totalPoci == SumR(indexes)
  {
    hide MaxOf, IndexWith, MaximaOf, SumR, Enumerates, Taken, Indexes;
    var most := FindMaxima(e, sqrt);
    order, indexes, totalPoci := [], map[], 0.0;
    var rest := e.miners.Keys;
    NothingYet(e, sqrt, e.miners.Keys - rest);
    while rest != {}
      invariant rest <= e.miners.Keys && Enumerates(order, e.miners.Keys - rest)
      invariant indexes == Taken(e, sqrt, e.miners.Keys - rest) && totalPoci == SumR(indexes)
      decreases |rest|
    {
      var id :| id in rest;
      var poci := IndexWith(e, sqrt, most, id);
      OneMore(order, e.miners.Keys - rest, id);
      TakeOne(e, sqrt, e.miners.Keys - rest, id);
      assert e.miners.Keys - rest + {id} == e.miners.Keys - (rest - {id});
      order, indexes, totalPoci, rest := order + [id], indexes[id := poci], totalPoci + poci, rest - {id};
    }
    assert e.miners.Keys - rest == e.miners.Keys;
    AllTaken(e, sqrt);
  }

  ghost function Taken<Id>(e: Epoch<Id>, sqrt: Root, ids: set<Id>): map<Id, real> {
    map id | id in ids && id in e.miners :: IndexOf(e, sqrt, id)
  }

  lemma TakeOne<Id(!new)>(e: Epoch<Id>, sqrt: Root, ids: set<Id>, id: Id)
    requires id in e.miners && id !in ids
    ensures Taken(e, sqrt, ids + {id}) == Taken(e, sqrt, ids)[id := IndexWith(e, sqrt, MaximaOf(e, sqrt), id)]
    ensures SumR(Taken(e, sqrt, ids + {id})) == SumR(Taken(e, sqrt, ids)) + IndexWith(e, sqrt, MaximaOf(e, sqrt), id)
  {
    hide SumR, IndexWith, MaximaOf;
    var next := Taken(e, sqrt, ids + {id});
    SumRAt(next, id);
    assert next - {id} == Taken(e, sqrt, ids);
  }

  lemma AllTaken<Id(!new)>(e: Epoch<Id>, sqrt: Root)
    ensures Taken(e, sqrt, e.miners.Keys) == Indexes(e, sqrt)
  {
    hide IndexOf;
  }

  lemma NothingYet<Id(!new)>(e: Epoch<Id>, sqrt: Root, ids: set<Id>)
    requires ids == {}
    ensures Enumerates([], ids) && Taken(e, sqrt, ids) == map[] && SumR<Id>(map[]) == 0.0
  {
  }

  /** The calculation visits the miners in an arbitrary order; every entry is determined by the inputs alone. */
  method CalculatePoci<Id(==, !new)>(e: Epoch<Id>, sqrt: Root) returns (results: seq<Result<Id>>)
    ensures ResultsFor(e, sqrt, results)
  {
    hide IndexOf, Split, SumR, Part;
    var order, indexes, totalPoci := CollectIndexes(e, sqrt);
    results := [];
    for k := 0 to |order|
      invariant |results| == k
      invariant forall i :: 0 <= i < k ==> results[i] == ResultOf(e, sqrt, order[i])
    {
      var id := order[k];
      var reward := if totalPoci > 0.0 then ToAmount(Part(indexes[id], totalPoci, EPOCH_REWARD as real)) else 0;
      RewardIs(e, sqrt, id);
      results := results + [Result(id, indexes[id], e.miners[id].shares, LoyaltyOf(e.loyalty, id), e.miners[id].bond, reward)];
    }
    forall id | id in e.miners ensures exists i :: 0 <= i < |results| && results[i].minerId == id {
      var i :| 0 <= i < |order| && order[i] == id;
      assert results[i].minerId == id;
    }
    assert forall i :: 0 <= i < |results| ==> results[i].minerId == order[i];
  }

  lemma EmptyTotal<Id>()
    ensures SumR<Id>(map[]) == 0.0
  {
  }

  lemma RewardIs<Id>(e: Epoch<Id>, sqrt: Root, id: Id)
    requires id in e.miners
    ensures RewardsOf(e, sqrt)[id] ==
      var total := SumR(Indexes(e, sqrt));
      if total > 0.0 then ToAmount(Part(Indexes(e, sqrt)[id], total, EPOCH_REWARD as real)) else 0
  {
  }

  /** Two runs of the calculation agree entry by entry, whatever order each visited the miners in. */
  lemma OrderDoesNotMatter<Id(!new)>(e: Epoch<Id>, sqrt: Root, xs: seq<Result<Id>>, ys: seq<Result<Id>>)
    requires ResultsFor(e, sqrt, xs) && ResultsFor(e, sqrt, ys)
    ensures forall r :: r in xs <==> r in ys
  {
    forall r | r in xs ensures r in ys {
      assert exists i :: 0 <= i < |ys| && ys[i].minerId == r.minerId;
    }
    forall r | r in ys ensures r in xs {
      assert exists i :: 0 <= i < |xs| && xs[i].minerId == r.minerId;
    }
  }

  // ---------- the library's calculator, with fees ----------

  /** The library divides the epoch reward plus the fees by a given index; no entries when the indexes sum to
      zero. */
  ghost function SplitWithFees<Id>(poci: map<Id, real>, fees: Amount): map<Id, int> {
    if SumR(poci) == 0.0 then map[] else Split(poci, SumR(poci), (EPOCH_REWARD + fees) as real)
  }

  method SumValues<Id(==)>(poci: map<Id, real>) returns (sum: real)
    ensures sum == SumR(poci)
  {
    hide SumR;
    var rest := poci.Keys;
    ghost var done: map<Id, real> := map[];
    EmptyTotal<Id>();
    sum := 0.0;
    while rest != {}
      invariant rest <= poci.Keys && done == poci - rest && sum == SumR(done)
      decreases |rest|
    {
      var id :| id in rest;
      SumRAt(done[id := poci[id]], id);
      assert done[id := poci[id]] - {id} == done;
      sum, done, rest := sum + poci[id], done[id := poci[id]], rest - {id};
    }
    assert done == poci;
  }

  method CalculateRewards<Id(==)>(poci: map<Id, real>, fees: Amount) returns (rewards: map<Id, int>)
    ensures rewards == SplitWithFees(poci, fees)
  {
    hide SumR, Split;
    PoolAsReal(fees);
    rewards := map[];
    var sumPoci := SumValues(poci);
    if sumPoci == 0.0 {
      return;
    }
    rewards := SplitInto(poci, sumPoci, EPOCH_REWARD as real + fees as real);
  }

  /** The loop over the indexes, in any order. */
  method SplitInto<Id(==)>(poci: map<Id, real>, sumPoci: real, totalReward: real) returns (rewards: map<Id, int>)
    requires sumPoci != 0.0
    ensures rewards == Split(poci, sumPoci, totalReward)
  {
    hide Part, ToAmount;
    rewards := map[];
    var rest := poci.Keys;
    while rest != {}
      invariant rest <= poci.Keys && rewards.Keys == poci.Keys - rest
      invariant forall id :: id in rewards ==> rewards[id] == ToAmount(Part(poci[id], sumPoci, totalReward))
      decreases |rest|
    {
      var id :| id in rest;
      rewards := rewards[id := ToAmount(Part(poci[id], sumPoci, totalReward))];
      rest := rest - {id};
    }
  }

  lemma PoolAsReal(fees: Amount)
    ensures EPOCH_REWARD as real + fees as real == (EPOCH_REWARD + fees) as real
  {
  }

  /** With fees, and no negative index: the rewards sum to at most the pool and to more than the pool less one for
      each miner, unless the pool itself is too large for an amount. */
  lemma RewardsWithFeesBounds<Id>(poci: map<Id, real>, fees: Amount)
    requires SumR(poci) > 0.0 && (forall id :: id in poci ==> poci[id] >= 0.0)
    ensures Sum(SplitWithFees(poci, fees)) <= EPOCH_REWARD + fees
    ensures EPOCH_REWARD + fees <= MAX_AMOUNT ==> EPOCH_REWARD + fees - |poci| < Sum(SplitWithFees(poci, fees))
  {
    hide Split, SumR;
    SplitBounds(poci, (EPOCH_REWARD + fees) as real);
  }

  /** Before rounding, the pool is kept to exactly if no index has the sign opposite to their sum. */
  lemma FeesWithinIff<Id>(poci: map<Id, real>, fees: Amount)
    requires SumR(poci) != 0.0
    ensures Sum(SplitWithFees(poci, fees)) as real <= Unrounded(poci, (EPOCH_REWARD + fees) as real)
    ensures Unrounded(poci, (EPOCH_REWARD + fees) as real) <= (EPOCH_REWARD + fees) as real
       <==> forall id :: id in poci ==> poci[id] == 0.0 || (poci[id] > 0.0 <==> SumR(poci) > 0.0)
  {
    var pool := (EPOCH_REWARD + fees) as real;
    UnroundedWithinIff(poci, pool);
    SplitAgainstUnrounded(poci, pool);
    hide Part, Unrounded, Split, SumR;
    forall id | id in poci ensures Part(poci[id], SumR(poci), pool) >= 0.0
                             <==> poci[id] == 0.0 || (poci[id] > 0.0 <==> SumR(poci) > 0.0)
    {
      SignOfPart(poci[id], SumR(poci), pool);
    }
  }

  lemma SignOfPart(a: real, total: real, pool: real)
    requires total != 0.0 && pool > 0.0
    ensures Part(a, total, pool) >= 0.0 <==> a == 0.0 || (a > 0.0 <==> total > 0.0)
  {
    var q := a / total;
    assert q * total == a;
    assert a == 0.0 ==> q == 0.0;
    assert (a > 0.0 && total > 0.0) || (a < 0.0 && total < 0.0) ==> q > 0.0;
    assert (a > 0.0 && total < 0.0) || (a < 0.0 && total > 0.0) ==> q < 0.0;
    assert q > 0.0 ==> q * pool > 0.0;
    assert q < 0.0 ==> q * pool < 0.0;
  }

  /** One negative index, and twice the epoch reward is given out. */
  lemma NegativeIndexPassesThePool()
    ensures SplitWithFees(map[0 := 2.0, 1 := -1.0], 0) == map[0 := 2 * EPOCH_REWARD, 1 := 0]
    ensures Sum(SplitWithFees(map[0 := 2.0, 1 := -1.0], 0)) == 2 * EPOCH_REWARD
  {
    var m: map<int, real> := map[0 := 2.0, 1 := -1.0];
    SumRAt(m, 0);
    assert m - {0} == map[1 := -1.0];
    SumRAt(m - {0}, 1);
    assert m - {0} - {1} == map[];
    EmptyTotal<int>();
    assert SumR(m) == 1.0;
    var r := SplitWithFees(m, 0);
    assert r == map[0 := 2 * EPOCH_REWARD, 1 := 0];
    SumAt(r, 0);
    assert r - {0} == map[1 := 0];
    SumAt(r - {0}, 1);
    assert r - {0} - {1} == map[];
  }

  // ---------- normalisation ----------

  /** The largest value, or zero when none is positive. */
  ghost predicate IsPeak<Id(!new)>(m: map<Id, real>, peak: real) {
    && peak >= 0.0
    && (forall id :: id in m ==> m[id] <= peak)
    && (peak == 0.0 || exists id :: id in m && m[id] == peak)
  }

  /** Every value over the largest one; nothing when there is none above zero. */
  ghost predicate Normalised<Id(!new)>(m: map<Id, real>, r: map<Id, real>) {
    exists peak :: IsPeak(m, peak)
      && if peak == 0.0 then r == map[] else r.Keys == m.Keys && forall id :: id in m ==> r[id] == m[id] / peak
  }

  method Normalise<Id(==, !new)>(m: map<Id, real>) returns (r: map<Id, real>)
    ensures Normalised(m, r)
  {
    r := map[];
    var peak := 0.0;
    var rest := m.Keys;
    while rest != {}
      invariant rest <= m.Keys && peak >= 0.0
      invariant forall id :: id in m && id !in rest ==> m[id] <= peak
      invariant peak == 0.0 || exists id :: id in m && m[id] == peak
      decreases |rest|
    {
      var id :| id in rest;
      rest := rest - {id};
      if m[id] > peak { peak := m[id]; }
    }
    assert IsPeak(m, peak);
    if peak == 0.0 { return; }
    rest := m.Keys;
    while rest != {}
      invariant rest <= m.Keys && r.Keys == m.Keys - rest
      invariant forall id :: id in r ==> r[id] == m[id] / peak
      decreases |rest|
    {
      var id :| id in rest;
      r := r[id := m[id] / peak];
      rest := rest - {id};
    }
  }

  /** Normalised values of a map without negative ones lie between 0 and 1, one of them is 1, and they are in the
      order of the values they come from; there are none exactly when no value is positive. */
  lemma NormalisedMeans<Id(!new)>(m: map<Id, real>, r: map<Id, real>)
    requires Normalised(m, r) && (forall id :: id in m ==> m[id] >= 0.0)
    ensures r == map[] <==> forall id :: id in m ==> m[id] == 0.0
    ensures forall id :: id in r ==> id in m && 0.0 <= r[id] <= 1.0
    ensures r != map[] ==> r.Keys == m.Keys && exists id :: id in r && r[id] == 1.0
    ensures forall a, b :: a in r && b in r ==> (r[a] <= r[b] <==> m[a] <= m[b])
  {
    var peak :| IsPeak(m, peak)
      && if peak == 0.0 then r == map[] else r.Keys == m.Keys && forall id :: id in m ==> r[id] == m[id] / peak;
    if peak > 0.0 {
      var top :| top in m && m[top] == peak;
      Unit(peak);
      assert top in r && r[top] == 1.0;
      forall id | id in r ensures 0.0 <= r[id] <= 1.0 { Ratio(m[id], peak); }
      forall a, b | a in r && b in r ensures r[a] <= r[b] <==> m[a] <= m[b] {
        RatioOrder(m[a], m[b], peak);
      }
    }
  }

  lemma Unit(x: real)
    requires x > 0.0
    ensures x / x == 1.0
  {
  }

  /** And they are in proportion to them. */
  lemma NormalisedInProportion<Id(!new)>(m: map<Id, real>, r: map<Id, real>, a: Id, b: Id)
    requires Normalised(m, r) && a in r && b in r
    ensures a in m && b in m && r[a] * m[b] == r[b] * m[a]
  {
    var peak :| IsPeak(m, peak)
      && if peak == 0.0 then r == map[] else r.Keys == m.Keys && forall id :: id in m ==> r[id] == m[id] / peak;
    hide IsPeak;
    SameProportion(m[a], m[b], peak, r[a], r[b]);
  }

  lemma SameProportion(a: real, b: real, c: real, x: real, y: real)
    requires c != 0.0 && x == a / c && y == b / c
    ensures x * b == y * a
  {
    assert x * c == a && y * c == b;
    assert x * b == x * (y * c) && y * a == y * (x * c);
  }

  lemma RatioOrder(a: real, b: real, c: real)
    requires c > 0.0
    ensures a / c <= b / c <==> a <= b
  {
    if a <= b { RatioMonotone(a, b, c); } else { assert (a - b) / c > 0.0; assert a / c - b / c == (a - b) / c; }
  }
}

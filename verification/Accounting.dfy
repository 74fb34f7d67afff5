/** How the total of a set of unspent outputs moves when effects are applied one after the other: each first
    writes what it creates, overwriting what may be there, and then deletes what it spends. */
module Accounting {
  import opened Sums

  datatype Effect<K> = Effect(created: map<K, int>, spent: set<K>)

  function Apply<K>(m: map<K, int>, e: Effect<K>): map<K, int> { m + e.created - e.spent }

  function ApplyAll<K>(m: map<K, int>, es: seq<Effect<K>>): map<K, int>
    decreases |es|
  {
    if es == [] then m else ApplyAll(Apply(m, es[0]), es[1..])
  }

  ghost function AllSpent<K>(es: seq<Effect<K>>): set<K> {
    if es == [] then {} else es[0].spent + AllSpent(es[1..])
  }

  ghost function AllCreated<K>(es: seq<Effect<K>>): set<K> {
    if es == [] then {} else es[0].created.Keys + AllCreated(es[1..])
  }

  ghost function TotalCreated<K>(es: seq<Effect<K>>): int {
    if es == [] then 0 else Sum(es[0].created) + TotalCreated(es[1..])
  }

  ghost predicate CreatesNonNegative<K>(es: seq<Effect<K>>) {
    forall i :: 0 <= i < |es| ==> NonNegative(es[i].created)
  }

  /** No effect writes where something is or was written by another one. */
  ghost predicate Fresh<K>(m: map<K, int>, es: seq<Effect<K>>) {
    es != [] ==> es[0].created.Keys !! m.Keys && es[0].created.Keys !! AllCreated(es[1..]) && Fresh(m, es[1..])
  }

  lemma SubMapSum<K>(m: map<K, int>, s: set<K>)
    requires NonNegative(m)
    ensures Sum(m - s) <= Sum(m) && NonNegative(m - s)
    ensures s !! m.Keys ==> m - s == m
  {
    SumWithout(m, s * m.Keys);
    assert m - s == m - (s * m.Keys);
    SumNonNegative(map k | k in s * m.Keys :: m[k]);
  }

  lemma ApplyWithout<K>(m: map<K, int>, e: Effect<K>, rest: set<K>)
    ensures Apply(m, e) - rest == (m - (e.spent + rest)) + (e.created - (e.spent + rest))
  {
  }

  /** What is left is at most what was not to be spent, plus everything created. */
  lemma {:induction false} LeftBound<K>(m: map<K, int>, es: seq<Effect<K>>)
    requires NonNegative(m) && CreatesNonNegative(es)
    ensures NonNegative(ApplyAll(m, es))
    ensures Sum(ApplyAll(m, es)) <= Sum(m - AllSpent(es)) + TotalCreated(es)
    decreases |es|
  {
    if es == [] {
      assert m - {} == m;
    } else {
      var e, rest := es[0], es[1..];
      var next, all := Apply(m, e), AllSpent(es);
      assert forall i :: 0 <= i < |rest| ==> rest[i] == es[i + 1];
      LeftBound(next, rest);
      ApplyWithout(m, e, AllSpent(rest));
      SubMapSum(e.created, all);
      SumOverlay(m - all, e.created - all);
    }
  }

  // ---------- spending what is there ----------

  /** The value an effect spends, at the prices before any of the effects. */
  ghost function SpentValue<K>(m: map<K, int>, s: set<K>): int
    requires s <= m.Keys
  {
    Sum(map k | k in s :: m[k])
  }

  lemma NothingSpent<K>(m: map<K, int>, s: set<K>)
    requires s <= m.Keys && s == {}
    ensures SpentValue(m, s) == 0
  {
    assert (map k | k in s :: m[k]) == map[];
  }

  lemma OneMoreSpent<K>(m: map<K, int>, s: set<K>, p: K)
    requires s <= m.Keys && p in m && p !in s
    ensures SpentValue(m, s + {p}) == SpentValue(m, s) + m[p]
  {
    var all := map k | k in s + {p} :: m[k];
    SumAt(all, p);
    assert all - {p} == map k | k in s :: m[k];
  }

  /** Every effect spends outputs that are there, and no two spend the same one. */
  ghost predicate SpendsApart<K>(m: map<K, int>, es: seq<Effect<K>>) {
    es != [] ==> es[0].spent <= m.Keys && es[0].spent !! AllSpent(es[1..]) && SpendsApart(m, es[1..])
  }

  ghost function TotalSpent<K>(m: map<K, int>, es: seq<Effect<K>>): int
    requires SpendsApart(m, es)
  {
    if es == [] then 0 else SpentValue(m, es[0].spent) + TotalSpent(m, es[1..])
  }

  lemma {:induction false} SpentTogether<K>(m: map<K, int>, es: seq<Effect<K>>)
    requires SpendsApart(m, es)
    ensures AllSpent(es) <= m.Keys && Sum(m - AllSpent(es)) == Sum(m) - TotalSpent(m, es)
    decreases |es|
  {
    if es == [] {
      assert m - {} == m;
    } else {
      SpentTogether(m, es[1..]);
      var rest := m - AllSpent(es[1..]);
      SumWithout(rest, es[0].spent);
      assert m - AllSpent(es) == rest - es[0].spent;
      assert (map k | k in es[0].spent :: rest[k]) == (map k | k in es[0].spent :: m[k]);
    }
  }

  /** The total after the effects is at most the total before, less what they spend, plus what they create. */
  lemma Balance<K>(m: map<K, int>, es: seq<Effect<K>>)
    requires NonNegative(m) && CreatesNonNegative(es) && SpendsApart(m, es)
    ensures NonNegative(ApplyAll(m, es))
    ensures Sum(ApplyAll(m, es)) <= Sum(m) - TotalSpent(m, es) + TotalCreated(es)
  {
    SpentTogether(m, es);
    LeftBound(m, es);
  }

  // ---------- what is overwritten ----------

  /** The value an effect writes over. */
  ghost function OverwrittenBy<K>(m: map<K, int>, e: Effect<K>): int { Sum(map k | k in e.created && k in m :: m[k]) }

  ghost function TotalOverwritten<K>(m: map<K, int>, es: seq<Effect<K>>): int
    decreases |es|
  {
    if es == [] then 0 else OverwrittenBy(m, es[0]) + TotalOverwritten(Apply(m, es[0]), es[1..])
  }

  /** The value an effect deletes, when its writes are done. */
  ghost function Deleted<K>(m: map<K, int>, e: Effect<K>): int {
    var n := m + e.created;
    Sum(map k | k in e.spent && k in n :: n[k])
  }

  /** What one effect does to the total, without any condition. */
  lemma ApplyMoves<K>(m: map<K, int>, e: Effect<K>)
    ensures Sum(Apply(m, e)) == Sum(m) - OverwrittenBy(m, e) + Sum(e.created) - Deleted(m, e)
  {
    var kept, written := e.created.Keys * m.Keys, m + e.created;
    SumWithout(m, kept);
    assert (map k | k in kept :: m[k]) == (map k | k in e.created && k in m :: m[k]);
    assert written == (m - kept) + e.created;
    SumOverlay(m - kept, e.created);
    var gone := e.spent * written.Keys;
    SumWithout(written, gone);
    assert (map k | k in gone :: written[k]) == (map k | k in e.spent && k in written :: written[k]);
    assert written - e.spent == written - gone;
  }

  /** Whatever is written where something was before all effects has the value it had. */
  ghost predicate KeepsPrices<K>(m: map<K, int>, es: seq<Effect<K>>) {
    forall i, k :: 0 <= i < |es| && k in es[i].created && k in m ==> es[i].created[k] == m[k]
  }

  ghost predicate PricesHold<K(!new)>(m: map<K, int>, n: map<K, int>, keys: set<K>) {
    forall k :: k in keys ==> k in m && k in n && n[k] == m[k]
  }

  /** The exact total, at the prices m, of a run of effects from n. */
  lemma {:induction false} ExactFrom<K(!new)>(m: map<K, int>, n: map<K, int>, es: seq<Effect<K>>)
    requires SpendsApart(m, es) && KeepsPrices(m, es) && PricesHold(m, n, AllSpent(es))
    ensures Sum(ApplyAll(n, es)) == Sum(n) + TotalCreated(es) - TotalOverwritten(n, es) - TotalSpent(m, es)
    decreases |es|
  {
    if es != [] {
      var e, rest := es[0], es[1..];
      assert forall i :: 0 <= i < |rest| ==> rest[i] == es[i + 1];
      assert forall k :: k in e.created && k in m ==> es[0].created[k] == m[k];
      var written := n + e.created;
      assert (map k | k in e.spent && k in written :: written[k]) == (map k | k in e.spent :: m[k]);
      ApplyMoves(n, e);
      assert PricesHold(m, Apply(n, e), AllSpent(rest));
      ExactFrom(m, Apply(n, e), rest);
    }
  }

  /** When no two effects spend the same output and no write changes a value, the total moves by exactly what is
      created, less what is overwritten, less what is spent. */
  lemma BalanceExact<K(!new)>(m: map<K, int>, es: seq<Effect<K>>)
    requires SpendsApart(m, es) && KeepsPrices(m, es)
    ensures Sum(ApplyAll(m, es)) == Sum(m) + TotalCreated(es) - TotalOverwritten(m, es) - TotalSpent(m, es)
  {
    SpentTogether(m, es);
    ExactFrom(m, m, es);
  }

  // ---------- writing only where nothing was ----------

  lemma FreshAfter<K>(m: map<K, int>, es: seq<Effect<K>>, next: map<K, int>, created: set<K>)
    requires Fresh(m, es) && created !! AllCreated(es) && next.Keys <= m.Keys + created
    ensures Fresh(next, es)
    decreases |es|
  {
    if es != [] { FreshAfter(m, es[1..], next, created); }
  }

  lemma {:induction false} FreshOverwritesNothing<K>(m: map<K, int>, es: seq<Effect<K>>)
    requires Fresh(m, es)
    ensures KeepsPrices(m, es) && TotalOverwritten(m, es) == 0
    decreases |es|
  {
    if es != [] {
      FreshAfter(m, es[1..], Apply(m, es[0]), es[0].created.Keys);
      FreshOverwritesNothing(m, es[1..]);
      FreshOverwritesNothing(Apply(m, es[0]), es[1..]);
      assert forall i :: 1 <= i < |es| ==> es[i] == es[1..][i - 1];
      assert (map k | k in es[0].created && k in m :: m[k]) == map[];
    }
  }
}

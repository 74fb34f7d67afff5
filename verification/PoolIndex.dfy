/** What the three share pools have in common: per-miner lists of shares beside a set of the hashes of all
    stored shares, and the effect of offering a share. */
module PoolIndex {
  import opened Merkle
  import opened Sums

  const MAX_SHARES_PER_MINER: nat := 5000

  type KeyLists<M, H> = map<M, seq<H>>

  ghost predicate At<M(!new), H(!new)>(lists: KeyLists<M, H>, m: M, i: int) { m in lists && 0 <= i < |lists[m]| }

  ghost function Lens<M(!new), H(!new)>(lists: KeyLists<M, H>): map<M, int> { map m | m in lists :: |lists[m]| }

  /** The number of stored shares. */
  ghost function Stored<M(!new), H(!new)>(lists: KeyLists<M, H>): int { Sum(Lens(lists)) }

  /** The set is exactly the hashes of the stored shares, and no hash is stored twice. */
  ghost predicate Indexed<M(!new), H(!new)>(lists: KeyLists<M, H>, hashes: set<H>) {
    && (forall m, i :: At(lists, m, i) ==> lists[m][i] in hashes)
    && (forall h :: h in hashes ==> exists m, i :: At(lists, m, i) && lists[m][i] == h)
    && (forall m, i, n, j :: At(lists, m, i) && At(lists, n, j) && lists[m][i] == lists[n][j] ==> m == n && i == j)
    && |hashes| == Stored(lists)
  }

  function ListOf<M, T>(lists: map<M, seq<T>>, m: M): seq<T> { if m in lists then lists[m] else [] }

  lemma StoredUpdate<M(!new), H(!new)>(lists: KeyLists<M, H>, m: M, l: seq<H>)
    ensures Stored(lists[m := l]) == Stored(lists) - |ListOf(lists, m)| + |l|
  {
    assert Lens(lists[m := l]) == Lens(lists)[m := |l|];
    SumUpdate(Lens(lists), m, |l|);
  }

  /** The positions after an append are the old ones and one more. */
  lemma PushPositions<M(!new), H(!new)>(lists: KeyLists<M, H>, m: M, h: H)
    ensures var l := ListOf(lists, m); var next := lists[m := l + [h]];
      && At(next, m, |l|) && next[m][|l|] == h
      && (forall n, i :: At(lists, n, i) ==> At(next, n, i) && next[n][i] == lists[n][i])
      && (forall n, i :: At(next, n, i) ==> (n == m && i == |l|) || (At(lists, n, i) && next[n][i] == lists[n][i]))
  {
  }

  lemma IndexedPush<M(!new), H(!new)>(lists: KeyLists<M, H>, hashes: set<H>, m: M, h: H)
    requires Indexed(lists, hashes) && h !in hashes
    ensures Indexed(lists[m := ListOf(lists, m) + [h]], hashes + {h})
  {
    var l := ListOf(lists, m);
    var next := lists[m := l + [h]];
    StoredUpdate(lists, m, l + [h]);
    PushPositions(lists, m, h);
    PushDiffer(lists, hashes, m, h);
    hide Stored, ListOf;
    forall x | x in hashes + {h} ensures exists n, i :: At(next, n, i) && next[n][i] == x {
      PushFinds(lists, hashes, m, h, x);
    }
  }

  lemma PushDiffer<M(!new), H(!new)>(lists: KeyLists<M, H>, hashes: set<H>, m: M, h: H)
    requires Indexed(lists, hashes) && h !in hashes
    ensures var next := lists[m := ListOf(lists, m) + [h]];
      forall n, i, k, j :: At(next, n, i) && At(next, k, j) && next[n][i] == next[k][j] ==> n == k && i == j
  {
    hide Stored;
    PushPositions(lists, m, h);
  }

  lemma PushFinds<M(!new), H(!new)>(lists: KeyLists<M, H>, hashes: set<H>, m: M, h: H, x: H)
    requires Indexed(lists, hashes) && x in hashes + {h}
    ensures var next := lists[m := ListOf(lists, m) + [h]]; exists n, i :: At(next, n, i) && next[n][i] == x
  {
    PushPositions(lists, m, h);
    var next := lists[m := ListOf(lists, m) + [h]];
    if x == h {
      assert At(next, m, |ListOf(lists, m)|);
    } else {
      var n, i :| At(lists, n, i) && lists[n][i] == x;
      assert At(next, n, i);
    }
  }

  lemma IndexedPop<M(!new), H(!new)>(lists: KeyLists<M, H>, hashes: set<H>, m: M)
    requires Indexed(lists, hashes) && m in lists && lists[m] != []
    ensures lists[m][0] in hashes
    ensures Indexed(lists[m := lists[m][1..]], hashes - {lists[m][0]})
  {
    var h := lists[m][0];
    var next := lists[m := lists[m][1..]];
    StoredUpdate(lists, m, lists[m][1..]);
    assert At(lists, m, 0);
    forall n, i | At(next, n, i)
      ensures var j := if n == m then i + 1 else i; At(lists, n, j) && next[n][i] == lists[n][j] != h
    {
      assert At(lists, n, if n == m then i + 1 else i);
    }
    forall x | x in hashes && x != h ensures exists n, i :: At(next, n, i) && next[n][i] == x {
      var n, i :| At(lists, n, i) && lists[n][i] == x;
      assert At(next, n, if n == m then i - 1 else i);
    }
  }

  lemma IndexedEmpty<M(!new), H(!new)>()
    ensures Indexed<M, H>(map[], {})
  {
    assert Lens<M, H>(map[]) == map[];
  }

  function Mapped<P, H>(l: seq<P>, key: P -> H): (k: seq<H>)
    ensures |k| == |l| && forall i :: 0 <= i < |l| ==> k[i] == key(l[i])
  {
    seq(|l|, i requires 0 <= i < |l| => key(l[i]))
  }

  /** The hashes of the shares of each miner, in order. */
  ghost function KeysBy<M, P, H>(lists: map<M, seq<P>>, key: P -> H): KeyLists<M, H> {
    map m | m in lists :: Mapped(lists[m], key)
  }

  lemma KeysUpdate<M, P, H>(lists: map<M, seq<P>>, key: P -> H, m: M, l: seq<P>)
    ensures KeysBy(lists[m := l], key) == KeysBy(lists, key)[m := Mapped(l, key)]
  {
    var a, b := KeysBy(lists[m := l], key), KeysBy(lists, key)[m := Mapped(l, key)];
    assert a.Keys == b.Keys;
    assert forall n :: n in a ==> a[n] == b[n];
  }

  /** Appending a share with a new hash keeps the index. */
  lemma PushShare<M(!new), P, H(!new)>(lists: map<M, seq<P>>, hashes: set<H>, key: P -> H, m: M, p: P)
    requires Indexed(KeysBy(lists, key), hashes) && key(p) !in hashes
    ensures Indexed(KeysBy(lists[m := ListOf(lists, m) + [p]], key), hashes + {key(p)})
  {
    var l := ListOf(lists, m);
    KeysUpdate(lists, key, m, l + [p]);
    assert Mapped(l + [p], key) == Mapped(l, key) + [key(p)];
    IndexedPush(KeysBy(lists, key), hashes, m, key(p));
  }

  /** Removing a miner's first share, with its hash, keeps the index. */
  lemma PopShare<M(!new), P, H(!new)>(lists: map<M, seq<P>>, hashes: set<H>, key: P -> H, m: M)
    requires Indexed(KeysBy(lists, key), hashes) && m in lists && lists[m] != []
    ensures key(lists[m][0]) in hashes
    ensures Indexed(KeysBy(lists[m := lists[m][1..]], key), hashes - {key(lists[m][0])})
  {
    var l := lists[m];
    KeysUpdate(lists, key, m, l[1..]);
    assert Mapped(l[1..], key) == Mapped(l, key)[1..];
    IndexedPop(KeysBy(lists, key), hashes, m);
  }

  // ---------- offering shares ----------

  datatype PoolState<M, P, H> = PoolState(lists: map<M, seq<P>>, hashes: set<H>)

  /** A share with a known hash changes nothing; a miner at the limit gets no more; otherwise it is appended. */
  function Offer<M, P, H>(key: P -> H, miner: P -> M, s: PoolState<M, P, H>, p: P): PoolState<M, P, H> {
    if key(p) in s.hashes || |ListOf(s.lists, miner(p))| >= MAX_SHARES_PER_MINER then s
    else PoolState(s.lists[miner(p) := ListOf(s.lists, miner(p)) + [p]], s.hashes + {key(p)})
  }

  function OfferAll<M, P, H>(key: P -> H, miner: P -> M, ps: seq<P>): PoolState<M, P, H> {
    if ps == [] then PoolState(map[], {})
    else Offer(key, miner, OfferAll(key, miner, ps[..|ps| - 1]), ps[|ps| - 1])
  }

  /** Every hash is indexed, and each miner's list is its own and within the limit. */
  ghost predicate Consistent<M(!new), P(!new), H(!new)>(key: P -> H, miner: P -> M, s: PoolState<M, P, H>) {
    && Indexed(KeysBy(s.lists, key), s.hashes)
    && Tidy(miner, s.lists)
  }

  ghost predicate Tidy<M(!new), P(!new)>(miner: P -> M, lists: map<M, seq<P>>) {
    forall m :: m in lists ==> OwnList(miner, m, lists[m])
  }

  ghost predicate OwnList<M(!new), P(!new)>(miner: P -> M, m: M, l: seq<P>) {
    |l| <= MAX_SHARES_PER_MINER && forall i :: 0 <= i < |l| ==> miner(l[i]) == m
  }

  /** What every offer keeps. */
  lemma OfferKeepsConsistent<M(!new), P(!new), H(!new)>(key: P -> H, miner: P -> M, s: PoolState<M, P, H>, p: P)
    requires Consistent(key, miner, s)
    ensures Consistent(key, miner, Offer(key, miner, s, p))
  {
    hide Indexed, KeysBy;
    var l := ListOf(s.lists, miner(p));
    if key(p) !in s.hashes && |l| < MAX_SHARES_PER_MINER {
      PushShare(s.lists, s.hashes, key, miner(p), p);
      assert OwnList(miner, miner(p), l);
      assert OwnList(miner, miner(p), l + [p]);
    }
  }

  ghost function SetOf<P>(ps: seq<P>): set<P> { set p | p in ps }

  ghost function OfMiner<M, P>(miner: P -> M, s: set<P>, m: M): set<P> { set p | p in s && miner(p) == m }

  ghost function KeysOf<P, H>(key: P -> H, s: set<P>): set<H> { set p | p in s :: key(p) }

  ghost predicate InjectiveOn<P(!new), H>(key: P -> H, s: set<P>) {
    forall p, q :: p in s && q in s && key(p) == key(q) ==> p == q
  }

  ghost predicate Lists<P(!new)>(l: seq<P>, s: set<P>) { Distinct(l) && SetOf(l) == s }

  /** Every miner's list holds that miner's shares of the set, each once, and the hash set matches. */
  ghost predicate Holds<M(!new), P(!new), H>(key: P -> H, miner: P -> M, s: PoolState<M, P, H>, shares: set<P>) {
    && s.hashes == KeysOf(key, shares)
    && forall m :: Lists(ListOf(s.lists, m), OfMiner(miner, shares, m))
  }

  lemma {:induction false} DistinctSize<P(!new)>(l: seq<P>)
    requires Distinct(l)
    ensures |SetOf(l)| == |l|
  {
    if l != [] {
      DistinctSize(l[1..]);
      assert l[0] !in SetOf(l[1..]);
      assert SetOf(l) == SetOf(l[1..]) + {l[0]};
    }
  }

  lemma SubsetSize<T>(s: set<T>, t: set<T>)
    requires s <= t
    ensures |s| <= |t|
  {
    assert t == s + (t - s);
  }

  lemma OneMoreOf<M, P>(miner: P -> M, have: set<P>, p: P)
    requires p !in have
    ensures |have + {p}| == |have| + 1
    ensures |OfMiner(miner, have + {p}, miner(p))| == |OfMiner(miner, have, miner(p))| + 1
  {
    assert OfMiner(miner, have + {p}, miner(p)) == OfMiner(miner, have, miner(p)) + {p};
  }

  lemma Appended<M, P(!new)>(miner: P -> M, l: seq<P>, have: set<P>, p: P)
    requires Lists(l, OfMiner(miner, have, miner(p))) && p !in have
    ensures Lists(l + [p], OfMiner(miner, have + {p}, miner(p)))
  {
    assert p !in SetOf(l);
    assert SetOf(l + [p]) == SetOf(l) + {p};
    assert OfMiner(miner, have + {p}, miner(p)) == OfMiner(miner, have, miner(p)) + {p};
  }

  lemma OfferHolds<M(!new), P(!new), H>(key: P -> H, miner: P -> M, s: PoolState<M, P, H>, have: set<P>, p: P)
    requires Holds(key, miner, s, have) && InjectiveOn(key, have + {p})
    requires |OfMiner(miner, have + {p}, miner(p))| <= MAX_SHARES_PER_MINER
    ensures Holds(key, miner, Offer(key, miner, s, p), have + {p})
  {
    if p in have {
      assert have + {p} == have;
    } else {
      var l := ListOf(s.lists, miner(p));
      assert key(p) !in s.hashes;
      Appended(miner, l, have, p);
      DistinctSize(l + [p]);
      var next := Offer(key, miner, s, p);
      assert KeysOf(key, have + {p}) == KeysOf(key, have) + {key(p)};
      forall m ensures Lists(ListOf(next.lists, m), OfMiner(miner, have + {p}, m)) {
        if m != miner(p) {
          assert OfMiner(miner, have + {p}, m) == OfMiner(miner, have, m);
          assert Lists(ListOf(s.lists, m), OfMiner(miner, have, m));
        }
      }
    }
  }

  lemma {:induction false} OfferAllHolds<M(!new), P(!new), H>(key: P -> H, miner: P -> M, ps: seq<P>)
    requires InjectiveOn(key, SetOf(ps))
    requires forall m :: |OfMiner(miner, SetOf(ps), m)| <= MAX_SHARES_PER_MINER
    ensures Holds(key, miner, OfferAll(key, miner, ps), SetOf(ps))
  {
    if ps == [] {
      assert forall m :: OfMiner(miner, {}, m) == {};
    } else {
      var prefix, p := ps[..|ps| - 1], ps[|ps| - 1];
      assert SetOf(ps) == SetOf(prefix) + {p};
      forall m ensures |OfMiner(miner, SetOf(prefix), m)| <= MAX_SHARES_PER_MINER {
        SubsetSize(OfMiner(miner, SetOf(prefix), m), OfMiner(miner, SetOf(ps), m));
      }
      OfferAllHolds(key, miner, prefix);
      OfferHolds(key, miner, OfferAll(key, miner, prefix), SetOf(prefix), p);
    }
  }

  /** Two pools offered the same set of shares, in any order and with any repetition and no miner over its limit,
      store the same shares and count the same number for each miner. */
  lemma SameSharesSamePool<M(!new), P(!new), H>(key: P -> H, miner: P -> M, ps: seq<P>, qs: seq<P>)
    requires SetOf(ps) == SetOf(qs) && InjectiveOn(key, SetOf(ps))
    requires forall m :: |OfMiner(miner, SetOf(ps), m)| <= MAX_SHARES_PER_MINER
    ensures var s, t := OfferAll(key, miner, ps), OfferAll(key, miner, qs);
      && s.hashes == t.hashes == KeysOf(key, SetOf(ps))
      && (forall m :: SetOf(ListOf(s.lists, m)) == SetOf(ListOf(t.lists, m)) == OfMiner(miner, SetOf(ps), m))
      && (forall m :: |ListOf(s.lists, m)| == |ListOf(t.lists, m)| == |OfMiner(miner, SetOf(ps), m)|)
  {
    var s, t := OfferAll(key, miner, ps), OfferAll(key, miner, qs);
    OfferAllHolds(key, miner, ps);
    OfferAllHolds(key, miner, qs);
    forall m ensures |ListOf(s.lists, m)| == |ListOf(t.lists, m)| == |OfMiner(miner, SetOf(ps), m)| {
      DistinctSize(ListOf(s.lists, m));
      DistinctSize(ListOf(t.lists, m));
    }
  }

  // ---------- eviction ----------

  ghost predicate Largest<M(!new), P>(lists: map<M, seq<P>>, m: M) {
    m in lists && lists[m] != [] && forall n :: n in lists ==> |lists[n]| <= |lists[m]|
  }

  /** The scan for the miner with the most shares, in any order; None when no list has a share. */
  method FindLargest<M(==, !new), P>(lists: map<M, seq<P>>) returns (found: bool, target: M)
    requires lists != map[]
    ensures found ==> Largest(lists, target)
    ensures !found ==> forall n :: n in lists ==> lists[n] == []
  {
    var rest := lists.Keys;
    var maxShares := 0;
    found := false;
    target :| target in lists;
    while rest != {}
      invariant rest <= lists.Keys
      invariant forall n :: n in lists && n !in rest ==> |lists[n]| <= maxShares
      invariant if found then target in lists && |lists[target]| == maxShares > 0 else maxShares == 0
      decreases |rest|
    {
      var m :| m in rest;
      rest := rest - {m};
      if |lists[m]| > maxShares {
        found, target, maxShares := true, m, |lists[m]|;
      }
    }
  }

  lemma PopKeepsConsistent<M(!new), P(!new), H(!new)>(key: P -> H, miner: P -> M, s: PoolState<M, P, H>, m: M)
    requires Consistent(key, miner, s) && m in s.lists && s.lists[m] != []
    ensures key(s.lists[m][0]) in s.hashes
    ensures Consistent(key, miner, PoolState(s.lists[m := s.lists[m][1..]], s.hashes - {key(s.lists[m][0])}))
  {
    PopShare(s.lists, s.hashes, key, m);
    assert OwnList(miner, m, s.lists[m]);
    assert OwnList(miner, m, s.lists[m][1..]);
  }

  // ---------- counters ----------

  function CountOf<M>(c: map<M, nat>, m: M): nat { if m in c then c[m] else 0 }

  function Bump<M>(c: map<M, nat>, m: M): map<M, nat> { c[m := CountOf(c, m) + 1] }

  /** Each miner's counter is the length of its list, and its stored and invalid shares are among its total. */
  ghost predicate Tallied<M(!new), P>(lists: map<M, seq<P>>, count: map<M, nat>, invalid: map<M, nat>,
                                      total: map<M, nat>) {
    forall m {:trigger CountOf(count, m)} {:trigger ListOf(lists, m)} ::
      CountOf(count, m) == |ListOf(lists, m)| && |ListOf(lists, m)| + CountOf(invalid, m) <= CountOf(total, m)
  }

  lemma TalliedPush<M(!new), P>(lists: map<M, seq<P>>, count: map<M, nat>, invalid: map<M, nat>, total: map<M,
                                nat>, m: M, p: P)
    requires Tallied(lists, count, invalid, total)
    requires |ListOf(lists, m)| + CountOf(invalid, m) < CountOf(total, m)
    ensures Tallied(lists[m := ListOf(lists, m) + [p]], Bump(count, m), invalid, total)
  {
    var l, c := lists[m := ListOf(lists, m) + [p]], Bump(count, m);
    assert CountOf(count, m) == |ListOf(lists, m)|;
    forall n ensures CountOf(c, n) == |ListOf(l, n)| && |ListOf(l, n)| + CountOf(invalid, n) <= CountOf(total, n) {
      assert CountOf(count, n) == |ListOf(lists, n)|;
    }
  }

  lemma TalliedPop<M(!new), P>(lists: map<M, seq<P>>, count: map<M, nat>, invalid: map<M, nat>, total: map<M, nat>, m: M)
    requires Tallied(lists, count, invalid, total) && m in lists && lists[m] != []
    ensures CountOf(count, m) > 0
    ensures Tallied(lists[m := lists[m][1..]], count[m := CountOf(count, m) - 1], invalid, total)
  {
    var l, c := lists[m := lists[m][1..]], count[m := |lists[m]| - 1];
    assert CountOf(count, m) == |ListOf(lists, m)|;
    forall n ensures CountOf(c, n) == |ListOf(l, n)| && |ListOf(l, n)| + CountOf(invalid, n) <= CountOf(total, n) {
      assert CountOf(count, n) == |ListOf(lists, n)|;
    }
  }

  lemma TalliedBump<M(!new), P>(lists: map<M, seq<P>>, count: map<M, nat>, invalid: map<M, nat>, total: map<M, nat>, m: M)
    requires Tallied(lists, count, invalid, total)
    ensures Tallied(lists, count, invalid, Bump(total, m))
    ensures Tallied(lists, count, Bump(invalid, m), Bump(total, m))
    ensures |ListOf(lists, m)| + CountOf(invalid, m) < CountOf(Bump(total, m), m)
  {
    assert CountOf(count, m) == |ListOf(lists, m)|;
  }

  ghost predicate Everywhere<M(!new), P>(lists: map<M, seq<P>>, good: P -> bool) {
    forall m :: m in lists ==> forall i :: 0 <= i < |lists[m]| ==> good(lists[m][i])
  }

  lemma EverywherePush<M(!new), P>(lists: map<M, seq<P>>, good: P -> bool, m: M, p: P)
    requires Everywhere(lists, good) && good(p)
    ensures Everywhere(lists[m := ListOf(lists, m) + [p]], good)
  {
  }

  lemma EverywherePop<M(!new), P>(lists: map<M, seq<P>>, good: P -> bool, m: M)
    requires Everywhere(lists, good) && m in lists && lists[m] != []
    ensures Everywhere(lists[m := lists[m][1..]], good)
  {
  }

  lemma NothingStored<M(!new), P, H(!new)>(lists: map<M, seq<P>>, hashes: set<H>, key: P -> H)
    requires Indexed(KeysBy(lists, key), hashes) && forall m :: m in lists ==> lists[m] == []
    ensures hashes == {}
  {
    assert forall m, i :: !At(KeysBy(lists, key), m, i);
    assert forall h :: h !in hashes;
  }

  // ---------- a pool with redundant indexes ----------

  datatype Pool<M, P, H> = Pool(
    shares: map<M, seq<P>>,
    hashes: set<H>,
    count: map<M, nat>,
    invalid: map<M, nat>,
    total: map<M, nat>,
    memory: nat)

  /** The indexes agree: the hash set, the counters and the memory counter; every share is of the current epoch; and
      the memory limit holds, or a single share already passes it. */
  ghost predicate Sound<M(!new), P(!new), H(!new)>(key: P -> H, miner: P -> M, current: P -> bool,
                                                   size: nat, limit: nat, p: Pool<M, P, H>) {
    && Consistent(key, miner, PoolState(p.shares, p.hashes))
    && Tallied(p.shares, p.count, p.invalid, p.total)
    && Everywhere(p.shares, current)
    && p.memory == size * |p.hashes|
    && (p.memory <= limit || |p.hashes| <= 1)
  }

  lemma SoundFacts<M(!new), P(!new), H(!new)>(key: P -> H, miner: P -> M, current: P -> bool, size: nat, limit: nat,
                                              p: Pool<M, P, H>, m: M)
    requires Sound(key, miner, current, size, limit, p)
    ensures CountOf(p.count, m) == |ListOf(p.shares, m)|
    ensures p.memory <= limit || |p.hashes| <= 1
  {
  }

  lemma SoundEmpty<M(!new), P(!new), H(!new)>(key: P -> H, miner: P -> M, current: P -> bool, size: nat, limit: nat,
                                              p: Pool<M, P, H>)
    requires Sound(key, miner, current, size, limit, p) && forall m :: m in p.shares ==> p.shares[m] == []
    ensures p.hashes == {}
  {
    NothingStored(p.shares, p.hashes, key);
  }

  lemma EmptySound<M(!new), P(!new), H(!new)>(key: P -> H, miner: P -> M, current: P -> bool, size: nat, limit: nat)
    ensures Sound(key, miner, current, size, limit, Pool(map[], {}, map[], map[], map[], 0))
  {
    IndexedEmpty<M, H>();
    assert KeysBy<M, P, H>(map[], key) == map[];
  }

  /** The pool after a share was counted, as a valid or an invalid one. */
  function Counted<M, P, H>(p: Pool<M, P, H>, m: M, valid: bool): Pool<M, P, H> {
    p.(total := Bump(p.total, m), invalid := if valid then p.invalid else Bump(p.invalid, m))
  }

  /** The pool without the oldest share of a miner. */
  function Popped<M, P, H>(key: P -> H, size: nat, p: Pool<M, P, H>, m: M): Pool<M, P, H>
    requires m in p.shares && p.shares[m] != [] && CountOf(p.count, m) > 0 && p.memory >= size
  {
    p.(shares := p.shares[m := p.shares[m][1..]], hashes := p.hashes - {key(p.shares[m][0])},
       count := p.count[m := CountOf(p.count, m) - 1], memory := p.memory - size)
  }

  /** The pool with one more share at the end of its miner's list. */
  function Pushed<M, P, H>(key: P -> H, miner: P -> M, size: nat, p: Pool<M, P, H>, share: P): Pool<M, P, H> {
    p.(shares := p.shares[miner(share) := ListOf(p.shares, miner(share)) + [share]], hashes := p.hashes + {key(share)},
       count := Bump(p.count, miner(share)), memory := p.memory + size)
  }

  ghost predicate MayPop<M(!new), P, H>(key: P -> H, size: nat, p: Pool<M, P, H>, m: M) {
    Largest(p.shares, m) && CountOf(p.count, m) > 0 && p.memory >= size
  }

  /** Eviction: some miner with the most shares loses its oldest one; nothing happens when nothing is stored. */
  ghost predicate Evicts<M(!new), P, H>(key: P -> H, size: nat, p: Pool<M, P, H>, q: Pool<M, P, H>) {
    if forall n :: n in p.shares ==> p.shares[n] == [] then q == p
    else exists m :: MayPop(key, size, p, m) && q == Popped(key, size, p, m)
  }

  lemma NothingEvicted<M(!new), P, H>(key: P -> H, size: nat, p: Pool<M, P, H>)
    ensures (forall n :: n in p.shares ==> p.shares[n] == []) ==> Evicts(key, size, p, p)
  {
  }

  lemma LargestHasShares<M(!new), P>(lists: map<M, seq<P>>, m: M)
    requires Largest(lists, m)
    ensures m in lists && lists[m] != []
  {
  }

  lemma OldestEvicted<M(!new), P, H>(key: P -> H, size: nat, p: Pool<M, P, H>, m: M)
    requires Largest(p.shares, m)
    ensures CountOf(p.count, m) > 0 && p.memory >= size ==> Evicts(key, size, p, Popped(key, size, p, m))
  {
    assert CountOf(p.count, m) > 0 && p.memory >= size ==> MayPop(key, size, p, m);
  }

  lemma CountedSound<M(!new), P(!new), H(!new)>(key: P -> H, miner: P -> M, current: P -> bool, size: nat, limit: nat,
                                                p: Pool<M, P, H>, m: M, valid: bool)
    requires Sound(key, miner, current, size, limit, p)
    ensures Sound(key, miner, current, size, limit, Counted(p, m, valid))
    ensures var q := Counted(p, m, true); |ListOf(q.shares, m)| + CountOf(q.invalid, m) < CountOf(q.total, m)
  {
    hide Consistent, Tallied, Everywhere;
    TalliedBump(p.shares, p.count, p.invalid, p.total, m);
  }

  lemma MemoryOfLess(size: nat, n: nat)
    requires n > 0
    ensures size * n >= size && size * n - size == size * (n - 1)
  {
  }

  lemma PoppedSound<M(!new), P(!new), H(!new)>(key: P -> H, miner: P -> M, current: P -> bool, size: nat, limit: nat,
                                               p: Pool<M, P, H>, m: M)
    requires Sound(key, miner, current, size, limit, p) && m in p.shares && p.shares[m] != []
    ensures CountOf(p.count, m) > 0 && p.memory >= size
    ensures Sound(key, miner, current, size, limit, Popped(key, size, p, m))
    ensures |Popped(key, size, p, m).hashes| == |p.hashes| - 1
  {
    hide Consistent, Tallied, Everywhere;
    PopKeepsConsistent(key, miner, PoolState(p.shares, p.hashes), m);
    TalliedPop(p.shares, p.count, p.invalid, p.total, m);
    EverywherePop(p.shares, current, m);
    MemoryOfLess(size, |p.hashes|);
  }

  lemma PushedSound<M(!new), P(!new), H(!new)>(key: P -> H, miner: P -> M, current: P -> bool, size: nat, limit: nat,
                                               p: Pool<M, P, H>, share: P)
    requires Sound(key, miner, current, size, limit, p) && current(share) && key(share) !in p.hashes
    requires |ListOf(p.shares, miner(share))| < MAX_SHARES_PER_MINER
    requires |ListOf(p.shares, miner(share))| + CountOf(p.invalid, miner(share)) < CountOf(p.total, miner(share))
    requires p.memory + size <= limit || p.hashes == {}
    ensures Sound(key, miner, current, size, limit, Pushed(key, miner, size, p, share))
  {
    hide Consistent, Tallied, Everywhere;
    OfferKeepsConsistent(key, miner, PoolState(p.shares, p.hashes), share);
    TalliedPush(p.shares, p.count, p.invalid, p.total, miner(share), share);
    EverywherePush(p.shares, current, miner(share), share);
    MemoryOfLess(size, |p.hashes| + 1);
  }

  lemma EvictsSound<M(!new), P(!new), H(!new)>(key: P -> H, miner: P -> M, current: P -> bool, size: nat, limit: nat,
                                               p: Pool<M, P, H>, q: Pool<M, P, H>)
    requires Sound(key, miner, current, size, limit, p) && Evicts(key, size, p, q)
    ensures Sound(key, miner, current, size, limit, q)
    ensures q.hashes <= p.hashes && q.total == p.total && q.invalid == p.invalid
    ensures p.memory <= limit || |p.hashes| <= 1 ==> q.memory + size <= limit || q.hashes == {}
    ensures forall m {:trigger ListOf(q.shares, m)} :: |ListOf(q.shares, m)| <= |ListOf(p.shares, m)|
  {
    hide Consistent, Tallied, Everywhere, Sound;
    if forall n :: n in p.shares ==> p.shares[n] == [] {
      SoundEmpty(key, miner, current, size, limit, p);
    } else {
      var m :| MayPop(key, size, p, m) && q == Popped(key, size, p, m);
      PoppedSound(key, miner, current, size, limit, p, m);
    }
  }

  // ---------- projecting shares ----------

  /** Forgetting part of each share commutes with offering one, when the key and the miner do not depend on it. */
  lemma OfferProjects<M, P, Q, H>(key: Q -> H, miner: Q -> M, f: P -> Q, keyP: P -> H, minerP: P -> M,
                                  s: PoolState<M, P, H>, p: P)
    requires keyP(p) == key(f(p)) && minerP(p) == miner(f(p))
    ensures var t := Offer(keyP, minerP, s, p);
      PoolState(KeysBy(t.lists, f), t.hashes) == Offer(key, miner, PoolState(KeysBy(s.lists, f), s.hashes), f(p))
  {
    var l := ListOf(s.lists, minerP(p));
    KeysUpdate(s.lists, f, minerP(p), l + [p]);
    assert Mapped(l + [p], f) == Mapped(l, f) + [f(p)];
  }
}

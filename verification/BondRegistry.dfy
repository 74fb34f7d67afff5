/** Time-locked bonds of miners, and the cached total the index calculation reads. */
module BondRegistry {
  import opened Protocol

  datatype BondEntry = BondEntry(amount: nat, lockedUntil: nat, createdAt: nat)

  function TotalAmount(l: seq<BondEntry>): nat {
    if l == [] then 0 else TotalAmount(l[..|l| - 1]) + l[|l| - 1].amount
  }

  /** The bonds still locked at a height, in order. */
  function Retain(l: seq<BondEntry>, height: nat): seq<BondEntry> {
    if l == [] then []
    else
      var e := l[|l| - 1];
      Retain(l[..|l| - 1], height) + if e.lockedUntil > height then [e] else []
  }

  function BondsOf<Id>(bonds: map<Id, seq<BondEntry>>, id: Id): seq<BondEntry> { if id in bonds then bonds[id] else [] }

  /** The registry's values: the lists, the cached totals and the height. */
  datatype Book<Id> = Book(bonds: map<Id, seq<BondEntry>>, totals: map<Id, nat>, height: nat)

  function CachedTotal<Id>(b: Book<Id>, id: Id): nat { if id in b.totals then b.totals[id] else 0 }

  datatype Event<Id> = SetHeight(height: nat) | Deposit(id: Id, amount: nat) | Cleanup

  function NewBond(amount: nat, height: nat): BondEntry { BondEntry(amount, height + BOND_LOCKUP, height) }

  /** Cleaning up a list: the cached total is rewritten only when the sum changed. */
  function CleanTotal<Id>(b: Book<Id>, id: Id): nat {
    var after := TotalAmount(Retain(BondsOf(b.bonds, id), b.height));
    if TotalAmount(BondsOf(b.bonds, id)) != after then after else CachedTotal(b, id)
  }

  function Step<Id>(b: Book<Id>, e: Event<Id>): Book<Id> {
    match e
    case SetHeight(h) => b.(height := h)
    case Deposit(id, amount) =>
      if amount < MINIMUM_BOND then b
      else b.(bonds := b.bonds[id := BondsOf(b.bonds, id) + [NewBond(amount, b.height)]],
              totals := b.totals[id := CachedTotal(b, id) + amount])
    case Cleanup =>
      b.(bonds := map id | id in b.bonds && Retain(b.bonds[id], b.height) != [] :: Retain(b.bonds[id], b.height),
         totals := map id | id in b.totals :: if id in b.bonds then CleanTotal(b, id) else b.totals[id])
  }

  class MinerRegistry<Id(==, !new)> {
    var bonds: map<Id, seq<BondEntry>>
    var bondTotals: map<Id, nat>
    var currentHeight: nat

    ghost function State(): Book<Id>
      reads this
    {
      Book(bonds, bondTotals, currentHeight)
    }

    constructor ()
      ensures State() == Book(map[], map[], 0)
    {
      bonds, bondTotals, currentHeight := map[], map[], 0;
    }

    method SetHeightTo(height: nat)
      modifies this
      ensures State() == Step(old(State()), SetHeight(height))
    {
      currentHeight := height;
    }

    method AddBond(id: Id, amount: nat) returns (ok: bool)
      modifies this
      ensures State() == Step(old(State()), Deposit(id, amount)) && ok == (amount >= MINIMUM_BOND)
    {
      if amount < MINIMUM_BOND {
        return false;
      }
      var lockUntil := currentHeight + BOND_LOCKUP;
      var bond := BondEntry(amount, lockUntil, currentHeight);
      bonds := bonds[id := BondsOf(bonds, id) + [bond]];
      if id !in bondTotals {
        bondTotals := bondTotals[id := 0];
      }
      bondTotals := bondTotals[id := bondTotals[id] + amount];
      return true;
    }

    /** One miner's list keeps its unexpired entries; its cached total moves only when the list's total does. */
    method RetainUnexpired(id: Id)
      requires id in bonds
      modifies this`bonds, this`bondTotals
      ensures var l := Retain(old(bonds)[id], currentHeight);
        && bonds == old(bonds)[id := l]
        && bondTotals == if TotalAmount(old(bonds)[id]) != TotalAmount(l) && id in old(bondTotals)
                         then old(bondTotals)[id := TotalAmount(l)] else old(bondTotals)
    {
      hide Retain, TotalAmount;
      var before := TotalAmount(bonds[id]);
      bonds := bonds[id := Retain(bonds[id], currentHeight)];
      var after := TotalAmount(bonds[id]);
      if before != after && id in bondTotals {
        bondTotals := bondTotals[id := after];
      }
    }

    /** The lists are visited in any order and changed in place; empty ones are dropped at the end. */
    method CleanupExpiredBonds()
      modifies this
      ensures State() == Step(old(State()), Cleanup)
    {
      hide Retain, TotalAmount, Step, CleanTotal, CleanedExcept;
      ghost var b := State();
      NothingCleaned(b);
      hide EmptyLists;
      NoneEmpty(bonds);
      var toRemove: set<Id> := {};
      var rest := bonds.Keys;
      while rest != {}
        invariant currentHeight == b.height && rest <= b.bonds.Keys
        invariant CleanedExcept(b, rest, bonds, bondTotals)
        invariant toRemove == EmptyLists(bonds, rest)
        decreases |rest|
      {
        var id :| id in rest;
        OutAndBack(rest, id);
        rest := rest - {id};
        CleanedStep(b, rest, id, bonds, bondTotals);
        OneMoreVisited(bonds, rest, id, Retain(bonds[id], currentHeight));
        RetainUnexpired(id);
        if bonds[id] == [] {
          toRemove := toRemove + {id};
        }
      }
      assert rest == {};
      CleanedAll(b, bonds, bondTotals, toRemove);
      bonds := bonds - toRemove;
    }
  }

  lemma OutAndBack<Id>(s: set<Id>, id: Id)
    requires id in s
    ensures s - {id} + {id} == s
  {
  }

  /** The empty lists among those visited. */
  ghost function EmptyLists<Id(!new)>(bonds: map<Id, seq<BondEntry>>, rest: set<Id>): set<Id> {
    set id | id in bonds && id !in rest && bonds[id] == []
  }

  lemma NoneEmpty<Id(!new)>(bonds: map<Id, seq<BondEntry>>)
    ensures EmptyLists(bonds, bonds.Keys) == {}
  {
  }

  lemma OneMoreVisited<Id(!new)>(bonds: map<Id, seq<BondEntry>>, rest: set<Id>, id: Id, l: seq<BondEntry>)
    requires id in bonds && id !in rest
    ensures EmptyLists(bonds[id := l], rest) == EmptyLists(bonds, rest + {id}) + if l == [] then {id} else {}
  {
  }

  /** All lists but those in `rest` are cleaned. */
  ghost predicate CleanedExcept<Id(!new)>(b: Book<Id>, rest: set<Id>, bonds: map<Id, seq<BondEntry>>,
                                          totals: map<Id, nat>) {
    && bonds.Keys == b.bonds.Keys && totals.Keys == b.totals.Keys
    && (forall id :: id in bonds ==> bonds[id] == if id in rest then b.bonds[id] else Retain(b.bonds[id], b.height))
    && (forall id :: id in totals ==>
          totals[id] == if id in b.bonds && id !in rest then CleanTotal(b, id) else b.totals[id])
  }

  lemma NothingCleaned<Id(!new)>(b: Book<Id>)
    ensures CleanedExcept(b, b.bonds.Keys, b.bonds, b.totals)
  {
  }

  lemma CleanedStep<Id(!new)>(b: Book<Id>, rest: set<Id>, id: Id, bonds: map<Id, seq<BondEntry>>, totals: map<Id, nat>)
    requires CleanedExcept(b, rest + {id}, bonds, totals) && id in b.bonds && id !in rest
    ensures id in bonds && bonds.Keys == b.bonds.Keys
    ensures var l := Retain(bonds[id], b.height);
      var changed := TotalAmount(bonds[id]) != TotalAmount(l) && id in totals;
      CleanedExcept(b, rest, bonds[id := l], if changed then totals[id := TotalAmount(l)] else totals)
  {
    hide Retain, TotalAmount;
  }

  lemma CleanedAll<Id(!new)>(b: Book<Id>, bonds: map<Id, seq<BondEntry>>, totals: map<Id, nat>, empty: set<Id>)
    requires CleanedExcept(b, {}, bonds, totals)
    requires empty == EmptyLists(bonds, {})
    ensures Book(bonds - empty, totals, b.height) == Step(b, Cleanup)
  {
    hide Retain, TotalAmount, CleanTotal;
    assert bonds - empty == Step(b, Cleanup).bonds;
    assert totals == Step(b, Cleanup).totals;
  }

  // ---------- runs ----------

  function Run<Id>(es: seq<Event<Id>>): Book<Id> {
    if es == [] then Book(map[], map[], 0) else Step(Run(es[..|es| - 1]), es[|es| - 1])
  }

  /** Every deposit accepted for a miner, oldest first, whether or not it has expired since. */
  ghost function Deposits<Id>(es: seq<Event<Id>>, id: Id): seq<BondEntry> {
    if es == [] then []
    else
      var prefix, e := es[..|es| - 1], es[|es| - 1];
      var now := Run(prefix).height;
      Deposits(prefix, id)
      + if e.Deposit? && e.id == id && e.amount >= 10_000_000 then [BondEntry(e.amount, now + 20_160, now)] else []
  }

  ghost function LastCleanup<Id>(es: seq<Event<Id>>): nat {
    if es == [] then 0
    else if es[|es| - 1].Cleanup? then Run(es[..|es| - 1]).height
    else LastCleanup(es[..|es| - 1])
  }

  /** The chain height is never set back. */
  ghost predicate HeightsGrow<Id(!new)>(es: seq<Event<Id>>) {
    forall i :: 0 <= i < |es| && es[i].SetHeight? ==> Run(es[..i]).height <= es[i].height
  }

  /** Every cached total is the sum of the stored entries, and every miner with a list has one. */
  ghost predicate Cached<Id(!new)>(b: Book<Id>) {
    && (forall id :: CachedTotal(b, id) == TotalAmount(BondsOf(b.bonds, id)))
    && (forall id :: id in b.bonds ==> id in b.totals)
  }

  lemma RetainAppend(l: seq<BondEntry>, e: BondEntry, height: nat)
    ensures Retain(l + [e], height) == Retain(l, height) + if e.lockedUntil > height then [e] else []
    ensures TotalAmount(l + [e]) == TotalAmount(l) + e.amount
  {
    assert (l + [e])[..|l|] == l;
  }

  lemma {:induction false} RetainTwice(l: seq<BondEntry>, low: nat, high: nat)
    requires low <= high
    ensures Retain(Retain(l, low), high) == Retain(l, high)
  {
    if l != [] {
      var prefix, e := l[..|l| - 1], l[|l| - 1];
      RetainTwice(prefix, low, high);
      RetainAppend(Retain(prefix, low), e, high);
      assert e.lockedUntil <= low ==> Retain(l, low) == Retain(prefix, low);
    }
  }

  lemma CachedStep<Id(!new)>(b: Book<Id>, e: Event<Id>)
    requires Cached(b)
    ensures Cached(Step(b, e))
  {
    var next := Step(b, e);
    forall id ensures CachedTotal(next, id) == TotalAmount(BondsOf(next.bonds, id)) {
      assert CachedTotal(b, id) == TotalAmount(BondsOf(b.bonds, id));
      if e.Deposit? && e.id == id && e.amount >= MINIMUM_BOND {
        RetainAppend(BondsOf(b.bonds, id), NewBond(e.amount, b.height), 0);
      }
    }
  }

  /** In every reachable state the cached total of a miner is the sum of its stored entries. */
  lemma {:induction false} TotalIsCached<Id(!new)>(es: seq<Event<Id>>)
    ensures Cached(Run(es))
  {
    if es != [] {
      TotalIsCached(es[..|es| - 1]);
      CachedStep(Run(es[..|es| - 1]), es[|es| - 1]);
    }
  }

  lemma {:induction false} CleanupBehind<Id(!new)>(es: seq<Event<Id>>)
    requires HeightsGrow(es)
    ensures LastCleanup(es) <= Run(es).height
  {
    if es != [] {
      PrefixGrows(es);
      CleanupBehind(es[..|es| - 1]);
    }
  }

  lemma PrefixGrows<Id(!new)>(es: seq<Event<Id>>)
    requires HeightsGrow(es) && es != []
    ensures HeightsGrow(es[..|es| - 1])
  {
    var prefix := es[..|es| - 1];
    forall i | 0 <= i < |prefix| && prefix[i].SetHeight? ensures Run(prefix[..i]).height <= prefix[i].height {
      assert prefix[..i] == es[..i];
    }
  }

  /** The stored entries are the deposits that the last cleanup left: repeated cleanups forget nothing else. */
  lemma {:induction false} StoredAreLiveDeposits<Id(!new)>(es: seq<Event<Id>>, id: Id)
    requires HeightsGrow(es)
    ensures BondsOf(Run(es).bonds, id) == Retain(Deposits(es, id), LastCleanup(es))
  {
    if es != [] {
      var prefix := es[..|es| - 1];
      PrefixGrows(es);
      StoredAreLiveDeposits(prefix, id);
      CleanupBehind(prefix);
      StoredStep(Run(prefix), es[|es| - 1], id, Deposits(prefix, id), LastCleanup(prefix));
    }
  }

  lemma StoredStep<Id>(b: Book<Id>, e: Event<Id>, id: Id, l: seq<BondEntry>, low: nat)
    requires BondsOf(b.bonds, id) == Retain(l, low) && low <= b.height
    ensures var deposited :=
        l + if e.Deposit? && e.id == id && e.amount >= MINIMUM_BOND then [NewBond(e.amount, b.height)] else [];
      BondsOf(Step(b, e).bonds, id) == Retain(deposited, if e.Cleanup? then b.height else low)
  {
    if e.Cleanup? {
      RetainTwice(l, low, b.height);
      assert l + [] == l;
    } else if e.Deposit? && e.id == id && e.amount >= MINIMUM_BOND {
      RetainAppend(l, NewBond(e.amount, b.height), low);
    } else {
      assert l + [] == l;
    }
  }

  /** For any run with heights that never go back, a cleanup at height h leaves a miner the sum of all deposits
      ever made for it at heights c with c + 20160 > h. */
  lemma TotalAfterCleanup<Id(!new)>(es: seq<Event<Id>>, id: Id)
    requires HeightsGrow(es) && es != [] && es[|es| - 1].Cleanup?
    ensures CachedTotal(Run(es), id) == TotalAmount(Retain(Deposits(es, id), Run(es).height))
  {
    StoredAreLiveDeposits(es, id);
    TotalIsCached(es);
  }

  /** Every deposit is locked for exactly the lock-up period from the height it was made at. */
  lemma {:induction false} DepositsLocked<Id>(es: seq<Event<Id>>, id: Id)
    ensures forall i :: 0 <= i < |Deposits(es, id)| ==>
      Deposits(es, id)[i].lockedUntil == Deposits(es, id)[i].createdAt + BOND_LOCKUP && Deposits(es, id)[i].amount >= MINIMUM_BOND
  {
    if es != [] { DepositsLocked(es[..|es| - 1], id); }
  }

  lemma {:induction false} RetainedIff(l: seq<BondEntry>, height: nat, e: BondEntry)
    ensures multiset(Retain(l, height))[e] == if e.lockedUntil > height then multiset(l)[e] else 0
  {
    if l != [] {
      RetainedIff(l[..|l| - 1], height, e);
      assert l == l[..|l| - 1] + [l[|l| - 1]];
    }
  }

  /** Over every run with growing heights, an entry is stored as often as it was deposited, or not at all if it was no
      longer locked at the last cleanup. */
  lemma StoredIff<Id(!new)>(es: seq<Event<Id>>, id: Id, e: BondEntry)
    requires HeightsGrow(es)
    ensures multiset(BondsOf(Run(es).bonds, id))[e]
         == if e.lockedUntil > LastCleanup(es) then multiset(Deposits(es, id))[e] else 0
  {
    StoredAreLiveDeposits(es, id);
    RetainedIff(Deposits(es, id), LastCleanup(es), e);
  }
}

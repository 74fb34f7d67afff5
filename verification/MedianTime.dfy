/** The median of the last eleven block timestamps. */
module MedianTime {
  ghost predicate Ordered(v: seq<nat>) { forall i, j :: 0 <= i <= j < |v| ==> v[i] <= v[j] }

  function InsertInOrder(v: seq<nat>, x: nat): (w: seq<nat>)
    ensures |w| == |v| + 1
  {
    if v == [] || x <= v[0] then [x] + v else [v[0]] + InsertInOrder(v[1..], x)
  }

  function Sort(s: seq<nat>): (v: seq<nat>)
    ensures |v| == |s|
  {
    if s == [] then [] else InsertInOrder(Sort(s[1..]), s[0])
  }

  ghost function CountBelow(s: seq<nat>, m: nat): nat {
    if s == [] then 0 else (if s[0] < m then 1 else 0) + CountBelow(s[1..], m)
  }

  lemma {:induction false} OneMore(v: seq<nat>, x: nat)
    ensures multiset(InsertInOrder(v, x)) == multiset(v) + multiset{x}
  {
    if v != [] {
      assert v == [v[0]] + v[1..];
      OneMore(v[1..], x);
    }
  }

  lemma {:induction false} InsertKeeps(v: seq<nat>, x: nat)
    requires Ordered(v)
    ensures Ordered(InsertInOrder(v, x)) && multiset(InsertInOrder(v, x)) == multiset(v) + multiset{x}
  {
    OneMore(v, x);
    if v != [] {
      if x > v[0] {
        var w := InsertInOrder(v[1..], x);
        InsertKeeps(v[1..], x);
        forall i | 0 <= i < |w| ensures v[0] <= w[i] {
          assert w[i] in multiset(w);
          assert w[i] == x || w[i] in v[1..];
        }
      }
    }
  }

  /** Sorting gives an ordered list of the same values. */
  lemma {:induction false} SortSorts(s: seq<nat>)
    ensures Ordered(Sort(s)) && multiset(Sort(s)) == multiset(s)
  {
    if s != [] {
      SortSorts(s[1..]);
      InsertKeeps(Sort(s[1..]), s[0]);
      assert s == [s[0]] + s[1..];
    }
  }

  lemma {:induction false} CountInserted(v: seq<nat>, x: nat, m: nat)
    ensures CountBelow(InsertInOrder(v, x), m) == CountBelow(v, m) + if x < m then 1 else 0
  {
    if v != [] && x > v[0] {
      CountInserted(v[1..], x, m);
      assert InsertInOrder(v, x)[1..] == InsertInOrder(v[1..], x);
    } else {
      assert InsertInOrder(v, x)[1..] == v;
    }
  }

  lemma {:induction false} CountSorted(s: seq<nat>, m: nat)
    ensures CountBelow(Sort(s), m) == CountBelow(s, m)
  {
    if s != [] {
      CountSorted(s[1..], m);
      CountInserted(Sort(s[1..]), s[0], m);
    }
  }

  lemma {:induction false} CountAppended(s: seq<nat>, x: nat, m: nat)
    ensures CountBelow(s + [x], m) == CountBelow(s, m) + if x < m then 1 else 0
  {
    if s != [] {
      CountAppended(s[1..], x, m);
      assert (s + [x])[1..] == s[1..] + [x];
    }
  }

  /** In an ordered list, entry k is at least m exactly when at most k entries are below m. */
  lemma {:induction false} RankInOrdered(v: seq<nat>, k: nat, m: nat)
    requires Ordered(v) && k < |v|
    ensures v[k] >= m <==> CountBelow(v, m) <= k
  {
    if v[0] >= m {
      NoneBelow(v, m);
    } else if k > 0 {
      RankInOrdered(v[1..], k - 1, m);
    }
  }

  lemma {:induction false} NoneBelow(v: seq<nat>, m: nat)
    requires Ordered(v) && (v != [] ==> v[0] >= m)
    ensures CountBelow(v, m) == 0
  {
    if v != [] { NoneBelow(v[1..], m); }
  }

  function Median(w: seq<nat>): nat
    requires |w| == 11
  {
    Sort(w)[5]
  }

  lemma MedianRank(w: seq<nat>, m: nat)
    requires |w| == 11
    ensures Median(w) >= m <==> CountBelow(w, m) <= 5
  {
    SortSorts(w);
    CountSorted(w, m);
    RankInOrdered(Sort(w), 5, m);
  }

  function Window(ts: seq<nat>): seq<nat>
    requires |ts| >= 11
  {
    ts[|ts| - 11..]
  }

  /** Sliding the window over a timestamp that is above the median never lowers the median. */
  lemma MedianNeverFalls(ts: seq<nat>, t: nat)
    requires |ts| >= 11 && t > Median(Window(ts))
    ensures Median(Window(ts + [t])) >= Median(Window(ts))
  {
    var w, m := Window(ts), Median(Window(ts));
    MedianRank(w, m);
    assert Window(ts + [t]) == w[1..] + [t];
    CountAppended(w[1..], t, m);
    MedianRank(w[1..] + [t], m);
  }
}

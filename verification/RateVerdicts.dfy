/** Which calls of a peer the rate limiter accepts, said of the calls before them and not of its counters. */
module RateVerdicts {
  import opened Bytes
  import opened RateLimiter

  /** Call k was accepted more than a minute after every call of this kind before it. */
  ghost predicate Opens(es: seq<Event>, k: nat)
    requires k < |es|
    decreases k
  {
    && VerdictAt(es, k) == Accepted
    && forall j :: 0 <= j < k && Opens(es, j) ==> es[j].t1 + 60_000_000_000 < es[k].t1
  }

  /** The number of accepted calls from call k up to call i. */
  ghost function AcceptedBetween(es: seq<Event>, k: nat, i: nat): nat
    requires k <= i <= |es|
  {
    if k == i then 0 else AcceptedBetween(es, k, i - 1) + if VerdictAt(es, i - 1) == Accepted then 1 else 0
  }

  /** A rejected call less than 300 seconds ago. */
  ghost predicate InBan(es: seq<Event>, i: nat)
    requires i < |es|
  {
    exists k :: 0 <= k < i && VerdictAt(es, k) == RateExceeded && es[i].t0 < es[k].t1 + 300_000_000_000
  }

  /** A call that opened a window at most a minute ago, with a hundred accepted calls since. */
  ghost predicate WindowFull(es: seq<Event>, i: nat)
    requires i < |es|
  {
    exists k :: 0 <= k < i && Opens(es, k) && es[i].t1 <= es[k].t1 + 60_000_000_000 && AcceptedBetween(es, k, i) >= 100
  }

  lemma OneCall(es: seq<Event>, i: nat)
    requires i < |es|
    ensures PeerAfter(es[..i + 1]) == Check(PeerAfter(es[..i]), es[i].t0, es[i].t1).0
  {
    assert es[..i + 1][..i] == es[..i];
  }

  // ---------- bans ----------

  ghost predicate BansKept(es: seq<Event>, i: nat)
    requires i <= |es|
  {
    var until := PeerAfter(es[..i]).bannedUntil;
    && (forall k :: 0 <= k < i && VerdictAt(es, k) == RateExceeded
          ==> until == Some(es[k].t1 + BAN) || es[k].t1 + BAN <= es[i - 1].t0)
    && (until.Some? ==> exists k :: 0 <= k < i && VerdictAt(es, k) == RateExceeded && until.value == es[k].t1 + BAN)
  }

  lemma {:induction false} EveryBanKept(es: seq<Event>, i: nat)
    requires Timely(es) && i <= |es|
    ensures BansKept(es, i)
  {
    hide Timely, BansKept;
    if i == 0 {
      NoBanYet(es);
    } else {
      EveryBanKept(es, i - 1);
      BanStep(es, i - 1);
    }
  }

  lemma NoBanYet(es: seq<Event>)
    ensures BansKept(es, 0)
  {
    assert PeerAfter(es[..0]) == NEW_PEER;
  }

  lemma BanStep(es: seq<Event>, n: nat)
    requires Timely(es) && n < |es| && BansKept(es, n)
    ensures BansKept(es, n + 1)
  {
    hide PeerAfter, Timely;
    OneCall(es, n);
    assert n > 0 ==> es[n - 1].t0 <= es[n].t0 by { InOrder(es, n); }
    if VerdictAt(es, n) == RateExceeded {
      assert PeerAfter(es[..n + 1]).bannedUntil == Some(es[n].t1 + BAN);
    }
  }

  lemma InOrder(es: seq<Event>, n: nat)
    requires Timely(es) && n < |es|
    ensures forall k :: 0 <= k < n ==> es[k].t0 <= es[k].t1 <= es[n].t0 <= es[n].t1
  {
  }

  lemma BannedIff(es: seq<Event>, i: nat)
    requires Timely(es) && i < |es|
    ensures VerdictAt(es, i) == Banned <==> InBan(es, i)
  {
    EveryBanKept(es, i);
    assert i > 0 ==> es[i - 1].t0 <= es[i - 1].t1 <= es[i].t0;
  }

  // ---------- windows ----------

  lemma {:induction false} NoWindowYet(es: seq<Event>, i: nat)
    requires i <= |es| && PeerAfter(es[..i]).window.None?
    ensures forall k :: 0 <= k < i ==> VerdictAt(es, k) != Accepted
  {
    if i > 0 {
      OneCall(es, i - 1);
      NoWindowYet(es, i - 1);
    }
  }

  /** The window that the peer's counter is about: the call that opened it, and the accepted calls since. */
  lemma {:induction false} LastOpener(es: seq<Event>, i: nat) returns (k: nat)
    requires Timely(es) && i <= |es| && PeerAfter(es[..i]).window.Some?
    ensures k < i && Opens(es, k) && forall j :: k < j < i ==> !Opens(es, j)
    ensures PeerAfter(es[..i]).window == Some((AcceptedBetween(es, k, i), es[k].t1))
  {
    hide PeerAfter, Timely, Opens;
    var n := i - 1;
    NotEmpty(es, i);
    OneCall(es, n);
    var p := PeerAfter(es[..n]);
    if p.window.None? {
      NoWindowYet(es, n);
      k := n;
      assert AcceptedBetween(es, n, n) == 0;
      assert Opens(es, n) by { OnlyAccepted(es, n); }
    } else {
      k := LastOpener(es, n);
      OpenersAreOrdered(es, k, n);
      if VerdictAt(es, n) == Accepted && es[n].t1 - es[k].t1 > MINUTE {
        k := n;
        assert AcceptedBetween(es, n, n) == 0;
      }
    }
  }

  lemma NotEmpty(es: seq<Event>, i: nat)
    requires i <= |es| && PeerAfter(es[..i]).window.Some?
    ensures i > 0
  {
  }

  lemma OnlyAccepted(es: seq<Event>, n: nat)
    requires n < |es| && VerdictAt(es, n) == Accepted && forall k :: 0 <= k < n ==> VerdictAt(es, k) != Accepted
    ensures Opens(es, n)
  {
  }

  lemma OpenersAreOrdered(es: seq<Event>, k: nat, n: nat)
    requires Timely(es) && k < n < |es| && Opens(es, k) && forall j :: k < j < n ==> !Opens(es, j)
    ensures Opens(es, n) <==> VerdictAt(es, n) == Accepted && es[k].t1 + MINUTE < es[n].t1
  {
    forall j | 0 <= j < k && Opens(es, j) ensures es[j].t1 <= es[k].t1 {
      assert es[j].t1 <= es[k].t0 <= es[k].t1;
    }
  }

  /** A window can only be full if it is the last one. */
  lemma FullIsLast(es: seq<Event>, i: nat, k: nat, last: nat)
    requires Timely(es) && k < i < |es| && Opens(es, k) && es[i].t1 <= es[k].t1 + MINUTE
    requires last < i && Opens(es, last) && forall j :: last < j < i ==> !Opens(es, j)
    ensures k == last
  {
    assert es[last].t1 <= es[i].t0 <= es[i].t1;
  }

  /** Every verdict, from the calls before it: banned within 300 seconds of a rejection; rejected when the window that
      was opened at most a minute ago holds a hundred accepted calls; accepted otherwise. */
  lemma VerdictIff(es: seq<Event>, i: nat)
    requires Timely(es) && i < |es|
    ensures VerdictAt(es, i) == Banned <==> InBan(es, i)
    ensures VerdictAt(es, i) == RateExceeded <==> !InBan(es, i) && WindowFull(es, i)
    ensures VerdictAt(es, i) == Accepted <==> !InBan(es, i) && !WindowFull(es, i)
  {
    hide InBan, PeerAfter;
    BannedIff(es, i);
    if PeerAfter(es[..i]).window.None? {
      NoWindowYet(es, i);
    } else {
      var last := LastOpener(es, i);
      if WindowFull(es, i) {
        var k :| 0 <= k < i && Opens(es, k) && es[i].t1 <= es[k].t1 + MINUTE && AcceptedBetween(es, k, i) >= 100;
        FullIsLast(es, i, k, last);
      }
    }
  }

  /** The first call after a ban is accepted, and opens a window. */
  lemma AcceptedAfterBan(es: seq<Event>, i: nat, j: nat)
    requires Timely(es) && i < j < |es| && VerdictAt(es, i) == RateExceeded
    requires es[i].t1 + 300_000_000_000 <= es[j].t0
    requires forall k :: i < k < j ==> es[k].t0 < es[i].t1 + 300_000_000_000
    ensures VerdictAt(es, j) == Accepted && Opens(es, j)
  {
    hide VerdictAt;
    forall k | i < k < j ensures VerdictAt(es, k) == Banned { SilenceAfterRejection(es, i, k); }
    forall k | 0 <= k < j && VerdictAt(es, k) != Banned ensures es[k].t1 <= es[i].t1 {
      assert k < i ==> es[k].t1 <= es[i].t0;
    }
    assert es[i].t0 <= es[i].t1 && es[j].t0 <= es[j].t1;
    VerdictIff(es, j);
  }
}

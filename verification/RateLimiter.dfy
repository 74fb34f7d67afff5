/** The per-peer rate limiter: 100 shares a minute, five minutes of silence when that is exceeded. */
module RateLimiter {
  import opened Bytes

  const SECOND: nat := 1_000_000_000
  const MINUTE: nat := 60 * SECOND
  const BAN: nat := 300 * SECOND
  const LIMIT: nat := 100

  datatype Verdict = Accepted | Banned | RateExceeded

  /** What is known about one peer: its counter and the start of its window, and the end of its ban. */
  datatype Peer = Peer(window: Option<(nat, nat)>, bannedUntil: Option<nat>)

  const NEW_PEER := Peer(None, None)

  /** One call: the clock is read once for the ban and once more, not earlier, for the window. */
  function Check(p: Peer, t0: nat, t1: nat): (Peer, Verdict) {
    if p.bannedUntil.Some? && t0 < p.bannedUntil.value then (p, Banned)
    else
      var (count, start) := if p.window.Some? then p.window.value else (0, t1);
      if t1 - start > MINUTE then (Peer(Some((1, t1)), None), Accepted)
      else if count >= LIMIT then (Peer(Some((count, start)), Some(t1 + BAN)), RateExceeded)
      else (Peer(Some((count + 1, start)), None), Accepted)
  }

  class PeerRateLimiter<PeerId(==, !new)> {
    var peerShares: map<PeerId, (nat, nat)>
    var bannedPeers: map<PeerId, nat>

    ghost function PeerOf(id: PeerId): Peer
      reads this
    {
      Peer(if id in peerShares then Some(peerShares[id]) else None,
           if id in bannedPeers then Some(bannedPeers[id]) else None)
    }

    constructor ()
      ensures forall id :: PeerOf(id) == NEW_PEER
    {
      peerShares, bannedPeers := map[], map[];
    }

    method CheckRate(id: PeerId, t0: nat, t1: nat) returns (v: Verdict)
      modifies this
      ensures (PeerOf(id), v) == Check(old(PeerOf(id)), t0, t1)
      ensures forall other :: other != id ==> PeerOf(other) == old(PeerOf(other))
    {
      if id in bannedPeers {
        if t0 < bannedPeers[id] {
          return Banned;
        }
        bannedPeers := bannedPeers - {id};
      }
      if id !in peerShares {
        peerShares := peerShares[id := (0, t1)];
      }
      var (count, start) := peerShares[id];
      if t1 - start > MINUTE {
        peerShares := peerShares[id := (1, t1)];
        return Accepted;
      }
      if count >= LIMIT {
        bannedPeers := bannedPeers[id := t1 + BAN];
        return RateExceeded;
      }
      peerShares := peerShares[id := (count + 1, start)];
      return Accepted;
    }
  }

  // ---------- runs ----------

  /** A call at t0, with the second reading of the clock at t1. */
  datatype Event = Event(t0: nat, t1: nat)

  /** The clock never goes back, within a call or between calls. */
  ghost predicate Timely(es: seq<Event>) {
    && (forall i :: 0 <= i < |es| ==> es[i].t0 <= es[i].t1)
    && (forall i, j :: 0 <= i < j < |es| ==> es[i].t1 <= es[j].t0)
  }

  function PeerAfter(es: seq<Event>): Peer {
    if es == [] then NEW_PEER
    else Check(PeerAfter(es[..|es| - 1]), es[|es| - 1].t0, es[|es| - 1].t1).0
  }

  function VerdictAt(es: seq<Event>, i: nat): Verdict
    requires i < |es|
  {
    Check(PeerAfter(es[..i]), es[i].t0, es[i].t1).1
  }

  ghost function AddToWindows(ws: seq<seq<nat>>, p: Peer, e: Event): seq<seq<nat>> {
    if Check(p, e.t0, e.t1).1 != Accepted then ws
    else if ws == [] || p.window.None? || e.t1 - p.window.value.1 > MINUTE then ws + [[e.t1]]
    else ws[..|ws| - 1] + [ws[|ws| - 1] + [e.t1]]
  }

  /** The times of the accepted calls, grouped by window. */
  ghost function Windows(es: seq<Event>): seq<seq<nat>> {
    if es == [] then []
    else AddToWindows(Windows(es[..|es| - 1]), PeerAfter(es[..|es| - 1]), es[|es| - 1])
  }

  /** A window starts with its first accepted call, lasts a minute, and has at most 100 accepted calls. */
  ghost predicate IsWindow(w: seq<nat>) {
    && 1 <= |w| <= LIMIT
    && forall i :: 0 <= i < |w| ==> w[0] <= w[i] <= w[0] + MINUTE
  }

  ghost predicate Separated(ws: seq<seq<nat>>) {
    && (forall k :: 0 <= k < |ws| ==> IsWindow(ws[k]))
    && (forall k :: 0 < k < |ws| ==> ws[k - 1][0] + MINUTE < ws[k][0])
  }

  /** The peer's counter and window start are those of the last window, which started no later than t. */
  ghost predicate Tracks(p: Peer, ws: seq<seq<nat>>, t: nat) {
    if ws == [] then p.window.None?
    else ws[|ws| - 1] != [] && p.window == Some((|ws[|ws| - 1]|, ws[|ws| - 1][0])) && ws[|ws| - 1][0] <= t
  }

  lemma AddKeepsTrack(ws: seq<seq<nat>>, p: Peer, e: Event)
    requires Separated(ws) && Tracks(p, ws, e.t1)
    ensures Separated(AddToWindows(ws, p, e)) && Tracks(Check(p, e.t0, e.t1).0, AddToWindows(ws, p, e), e.t1)
  {
    if ws != [] {
      var n := |ws| - 1;
      assert IsWindow(ws[n]);
      assert p.window.value.1 == ws[n][0];
    }
  }

  lemma {:induction false} WindowsTrack(es: seq<Event>)
    requires Timely(es)
    ensures Separated(Windows(es))
    ensures Tracks(PeerAfter(es), Windows(es), if es == [] then 0 else es[|es| - 1].t1)
  {
    if es != [] {
      var n := |es| - 1;
      var prefix := es[..n];
      WindowsTrack(prefix);
      assert n > 0 ==> prefix[n - 1].t1 <= es[n].t0 <= es[n].t1;
      AddKeepsTrack(Windows(prefix), PeerAfter(prefix), es[n]);
    }
  }

  // ---------- counting in an interval ----------

  ghost function CountIn(w: seq<nat>, a: nat): nat {
    if w == [] then 0 else CountIn(w[..|w| - 1], a) + if a <= w[|w| - 1] <= a + MINUTE then 1 else 0
  }

  ghost function CountAll(ws: seq<seq<nat>>, a: nat): nat {
    if ws == [] then 0 else CountAll(ws[..|ws| - 1], a) + CountIn(ws[|ws| - 1], a)
  }

  lemma {:induction false} CountBound(w: seq<nat>, a: nat)
    ensures CountIn(w, a) <= |w|
    ensures (forall i :: 0 <= i < |w| ==> !(a <= w[i] <= a + MINUTE)) ==> CountIn(w, a) == 0
    ensures w != [] && !(a <= w[0] <= a + MINUTE) ==> CountIn(w, a) < |w|
  {
    if w != [] {
      CountBound(w[..|w| - 1], a);
    }
  }

  /** Windows that end before the interval contribute nothing. */
  lemma {:induction false} EarlierWindows(ws: seq<seq<nat>>, a: nat)
    requires Separated(ws) && (ws != [] ==> ws[|ws| - 1][0] + MINUTE < a)
    ensures CountAll(ws, a) == 0
  {
    if ws != [] {
      var prefix := ws[..|ws| - 1];
      CountBound(ws[|ws| - 1], a);
      if prefix != [] {
        assert prefix[|prefix| - 1][0] + MINUTE < ws[|ws| - 1][0];
      }
      EarlierWindows(prefix, a);
    }
  }

  /** The last two windows, when the last one has a call in the minute: the one before starts too early for its
      first call to be in it. */
  lemma LastTwoWindows(w: seq<nat>, last: seq<nat>, a: nat)
    requires IsWindow(w) && IsWindow(last) && w[0] + MINUTE < last[0] && CountIn(last, a) > 0
    ensures w[0] < a && CountIn(w, a) + CountIn(last, a) <= 199
  {
    CountBound(last, a);
    assert exists i :: 0 <= i < |last| && a <= last[i] <= a + MINUTE;
    assert last[0] <= a + MINUTE;
    hide CountIn;
    CountBound(w, a);
  }

  lemma SeparatedPrefix(ws: seq<seq<nat>>, n: nat)
    requires Separated(ws) && n <= |ws|
    ensures Separated(ws[..n])
  {
    hide IsWindow;
    assert forall k :: 0 <= k < n ==> ws[..n][k] == ws[k];
  }

  /** Any closed minute meets at most two windows, and not the first call of the earlier one. */
  lemma {:induction false} AtMost199(ws: seq<seq<nat>>, a: nat)
    requires Separated(ws)
    ensures CountAll(ws, a) <= 199
  {
    if ws != [] {
      var n := |ws| - 1;
      var last, prefix := ws[n], ws[..n];
      SeparatedPrefix(ws, n);
      assert IsWindow(last);
      assert CountAll(ws, a) == CountAll(prefix, a) + CountIn(last, a);
      if CountIn(last, a) == 0 {
        AtMost199(prefix, a);
      } else if n > 0 {
        TwoWindows(ws, n, a);
      } else {
        CountBound(last, a);
      }
    }
  }

  lemma TwoWindows(ws: seq<seq<nat>>, n: nat, a: nat)
    requires Separated(ws) && n == |ws| - 1 && n > 0 && CountIn(ws[n], a) > 0
    ensures CountAll(ws[..n], a) + CountIn(ws[n], a) <= 199
  {
    var w, earlier := ws[n - 1], ws[..n - 1];
    assert IsWindow(w) && IsWindow(ws[n]);
    LastTwoWindows(w, ws[n], a);
    assert earlier != [] ==> earlier[n - 2][0] + MINUTE < w[0];
    SeparatedPrefix(ws, n - 1);
    hide IsWindow, Separated, CountIn;
    EarlierWindows(earlier, a);
    assert ws[..n][..n - 1] == earlier;
  }

  /** The accepted calls whose time lies in the closed minute from a. */
  ghost function AcceptedIn(es: seq<Event>, a: nat): nat {
    if es == [] then 0
    else
      AcceptedIn(es[..|es| - 1], a)
      + if VerdictAt(es, |es| - 1) == Accepted && a <= es[|es| - 1].t1 <= a + MINUTE then 1 else 0
  }

  lemma {:induction false} WindowsCountAccepted(es: seq<Event>, a: nat)
    requires Timely(es)
    ensures AcceptedIn(es, a) == CountAll(Windows(es), a)
  {
    if es != [] {
      var n := |es| - 1;
      WindowsCountAccepted(es[..n], a);
      WindowsTrack(es[..n]);
      hide CountAll, Tracks, Separated, Timely;
      CountAdded(Windows(es[..n]), PeerAfter(es[..n]), es[n], a);
    }
  }

  /** One more accepted call is counted once, in a new window or in the last one. */
  lemma CountAdded(ws: seq<seq<nat>>, p: Peer, e: Event, a: nat)
    ensures CountAll(AddToWindows(ws, p, e), a)
         == CountAll(ws, a) + if Check(p, e.t0, e.t1).1 == Accepted && a <= e.t1 <= a + MINUTE then 1 else 0
  {
    hide Check;
    var next := AddToWindows(ws, p, e);
    if Check(p, e.t0, e.t1).1 == Accepted {
      if |next| > |ws| {
        assert next[..|next| - 1] == ws;
        assert [e.t1][..0] == [];
        assert CountIn([e.t1], a) == CountIn([], a) + if a <= e.t1 <= a + MINUTE then 1 else 0;
      } else {
        var w := ws[|ws| - 1];
        assert next[..|next| - 1] == ws[..|ws| - 1] && next[|next| - 1] == w + [e.t1];
        assert (w + [e.t1])[..|w|] == w;
      }
    }
  }

  /** Over every run, a peer has at most 199 shares accepted in any closed 60-second interval. */
  lemma RateBound(es: seq<Event>, a: nat)
    requires Timely(es)
    ensures AcceptedIn(es, a) <= 199
  {
    WindowsTrack(es);
    WindowsCountAccepted(es, a);
    AtMost199(Windows(es), a);
  }

  /** A ban lasts: while the clock is short of its end, the peer's state does not move. */
  lemma {:induction false} BanHolds(es: seq<Event>, i: nat, j: nat)
    requires Timely(es) && i < j <= |es| && VerdictAt(es, i) == RateExceeded
    requires j > i + 1 ==> es[j - 1].t0 < es[i].t1 + BAN
    ensures PeerAfter(es[..j]).bannedUntil == Some(es[i].t1 + BAN)
  {
    assert es[..j][..j - 1] == es[..j - 1];
    if j > i + 1 {
      assert es[j - 2].t0 <= es[j - 2].t1 <= es[j - 1].t0;
      BanHolds(es, i, j - 1);
    }
  }

  /** After a rate-exceeded rejection, every call within the next 300 seconds is refused as banned. */
  lemma SilenceAfterRejection(es: seq<Event>, i: nat, j: nat)
    requires Timely(es) && i < j < |es| && VerdictAt(es, i) == RateExceeded
    requires es[j].t0 < es[i].t1 + BAN
    ensures VerdictAt(es, j) == Banned
  {
    if j > i + 1 {
      assert es[j - 1].t0 <= es[j - 1].t1 <= es[j].t0;
    }
    BanHolds(es, i, j);
  }

  // ---------- the bound is reached ----------

  /** n calls at one time. */
  function Burst(time: nat, n: nat): seq<Event> {
    seq(n, _ => Event(time, time))
  }

  function Worst(): seq<Event> {
    Burst(0, 1) + Burst(MINUTE, 99) + Burst(MINUTE + 1, 100)
  }

  lemma AcceptedStep(es: seq<Event>, e: Event, a: nat)
    ensures PeerAfter(es + [e]) == Check(PeerAfter(es), e.t0, e.t1).0
    ensures AcceptedIn(es + [e], a) == AcceptedIn(es, a)
      + if Check(PeerAfter(es), e.t0, e.t1).1 == Accepted && a <= e.t1 <= a + MINUTE then 1 else 0
  {
    assert (es + [e])[..|es|] == es;
  }

  lemma {:induction false} BurstAccepted(es: seq<Event>, start: nat, time: nat, n: nat, a: nat)
    requires PeerAfter(es).bannedUntil == None && PeerAfter(es).window.Some?
    requires var (count, s) := PeerAfter(es).window.value; s == start && count + n <= LIMIT
    requires start <= time <= start + MINUTE && a <= time <= a + MINUTE
    ensures PeerAfter(es + Burst(time, n)) == Peer(Some((PeerAfter(es).window.value.0 + n, start)), None)
    ensures AcceptedIn(es + Burst(time, n), a) == AcceptedIn(es, a) + n
  {
    hide AcceptedIn, PeerAfter;
    if n == 0 {
      assert es + Burst(time, 0) == es;
      assert PeerAfter(es) == Peer(Some((PeerAfter(es).window.value.0, start)), None);
    } else {
      var before := es + Burst(time, n - 1);
      BurstAccepted(es, start, time, n - 1, a);
      AcceptedStep(before, Event(time, time), a);
      assert es + Burst(time, n) == before + [Event(time, time)];
    }
  }

  /** One call opens a window, 99 more come at its very end and 100 at the start of the next: all are accepted,
      the last 199 of them within one minute. */
  lemma RateBoundIsReached()
    ensures Timely(Worst()) && AcceptedIn(Worst(), 1) == 199
  {
    hide AcceptedIn, PeerAfter;
    var first := Burst(0, 1);
    var two := first + Burst(MINUTE, 99);
    var third := two + Burst(MINUTE + 1, 1);
    NoCalls(1);
    AcceptedStep([], Event(0, 0), 1);
    assert first == [] + [Event(0, 0)];
    BurstAccepted(first, 0, MINUTE, 99, 1);
    AcceptedStep(two, Event(MINUTE + 1, MINUTE + 1), 1);
    assert third == two + [Event(MINUTE + 1, MINUTE + 1)];
    BurstAccepted(third, MINUTE + 1, MINUTE + 1, 99, 1);
    assert third + Burst(MINUTE + 1, 99) == Worst();
  }

  lemma NoCalls(a: nat)
    ensures PeerAfter([]) == NEW_PEER && AcceptedIn([], a) == 0
  {
  }
}

/** Loyalty of a miner over its epochs, in reals where the source has 64-bit floats. */
module Loyalty {
  const DECAY: real := 0.7
  const GRACE_DECAY: real := 0.5
  const GRACE_PERIOD: nat := 3

  datatype Score = Score(value: real, lastEpoch: nat, missed: nat, consecutive: nat, grace: nat)

  const NEW_SCORE := Score(0.0, 0, 0, 0, 0)

  function Max(a: real, b: real): real { if a >= b then a else b }

  function Decayed(v: real, useGrace: bool): real {
    if useGrace then v * GRACE_DECAY else Max(v * DECAY, Max(v.Floor as real / 2.0, 0.0))
  }

  /** n decays, only the first of which may use the grace factor. */
  function DecayedBy(v: real, n: nat, grace: bool): real {
    if n == 0 then v else Decayed(DecayedBy(v, n - 1, grace), n == 1 && grace)
  }

  /** The update at the end of an epoch, or at the first share in it. */
  function Update(s: Score, epoch: nat, participated: bool): Score {
    if epoch <= s.lastEpoch then s
    else
      var passed := epoch - s.lastEpoch;
      if participated then
        Score(DecayedBy(s.value, passed - 1, s.grace > 0) + 1.0, epoch, 0, s.consecutive + 1,
              if s.grace < GRACE_PERIOD then GRACE_PERIOD else s.grace)
      else
        Score(DecayedBy(s.value, passed, s.grace > 0), epoch, s.missed + passed, 0,
              if s.grace > 0 then s.grace - 1 else 0)
  }

  class LoyaltyData {
    var value: real
    var lastEpoch: nat
    var missedEpochs: nat
    var consecutiveEpochs: nat
    var graceRemaining: nat

    ghost function State(): Score
      reads this
    {
      Score(value, lastEpoch, missedEpochs, consecutiveEpochs, graceRemaining)
    }

    constructor ()
      ensures State() == NEW_SCORE
    {
      value, lastEpoch, missedEpochs, consecutiveEpochs, graceRemaining := 0.0, 0, 0, 0, 0;
    }

    method ApplyDecay(useGrace: bool)
      modifies this`value
      ensures value == Decayed(old(value), useGrace)
    {
      if useGrace {
        value := value * GRACE_DECAY;
      } else {
        var half := Max(value.Floor as real / 2.0, 0.0);
        value := Max(value * DECAY, half);
      }
    }

    method UpdateAt(currentEpoch: nat, participated: bool)
      modifies this
      ensures State() == Update(old(State()), currentEpoch, participated)
    {
      if currentEpoch <= lastEpoch {
        return;
      }
      var epochsPassed := currentEpoch - lastEpoch;
      var rounds := if participated then epochsPassed - 1 else epochsPassed;
      for i := 0 to rounds
        invariant State() == old(State()).(value := DecayedBy(old(value), i, graceRemaining > 0))
      {
        ApplyDecay(i == 0 && graceRemaining > 0);
      }
      if participated {
        value := value + 1.0;
        consecutiveEpochs := consecutiveEpochs + 1;
        missedEpochs := 0;
        if graceRemaining < GRACE_PERIOD {
          graceRemaining := GRACE_PERIOD;
        }
      } else {
        missedEpochs := missedEpochs + epochsPassed;
        consecutiveEpochs := 0;
        if graceRemaining > 0 {
          graceRemaining := graceRemaining - 1;
        }
      }
      lastEpoch := currentEpoch;
    }
  }

  // ---------- what decay does ----------

  /** For a value that is not negative, half of the whole part is never the larger, so an ordinary decay is
      multiplication by 0.7. */
  lemma DecayIsLinear(v: real)
    requires v >= 0.0
    ensures Decayed(v, false) == v * DECAY && Decayed(v, true) == v * GRACE_DECAY
  {
    assert v.Floor as real <= v;
  }

  lemma {:induction false} DecayBounds(v: real, n: nat, grace: bool)
    requires v >= 0.0
    ensures 0.0 <= DecayedBy(v, n, grace) <= v
    ensures n > 0 ==> DecayedBy(v, n, grace) <= v * (if grace then GRACE_DECAY else DECAY)
  {
    if n > 0 {
      DecayBounds(v, n - 1, grace);
      DecayIsLinear(DecayedBy(v, n - 1, grace));
    }
  }

  // ---------- runs ----------

  datatype Event = Event(epoch: nat, participated: bool)

  function Run(es: seq<Event>): Score {
    if es == [] then NEW_SCORE else Update(Run(es[..|es| - 1]), es[|es| - 1].epoch, es[|es| - 1].participated)
  }

  ghost predicate Bounded(s: Score) { 0.0 <= s.value <= s.lastEpoch as real }

  lemma UpdateKeepsBounds(s: Score, epoch: nat, participated: bool)
    requires Bounded(s)
    ensures Bounded(Update(s, epoch, participated))
  {
    if epoch > s.lastEpoch {
      DecayBounds(s.value, epoch - s.lastEpoch - 1, s.grace > 0);
      DecayBounds(s.value, epoch - s.lastEpoch, s.grace > 0);
    }
  }

  /** Over every run the loyalty value stays between zero and the last epoch. */
  lemma {:induction false} ValueWithinEpochs(es: seq<Event>)
    ensures Bounded(Run(es))
    ensures Run(es).grace <= GRACE_PERIOD
  {
    if es != [] {
      var s, e := Run(es[..|es| - 1]), es[|es| - 1];
      ValueWithinEpochs(es[..|es| - 1]);
      UpdateKeepsBounds(s, e.epoch, e.participated);
    }
  }

  /** A second update in an epoch changes nothing, whatever it reports: the first share of an epoch decides. */
  lemma RepeatedUpdate(s: Score, epoch: nat, first: bool, again: bool)
    ensures Update(Update(s, epoch, first), epoch, again) == Update(s, epoch, first)
  {
  }

  /** An update that takes effect. */
  ghost predicate Effective(es: seq<Event>, i: nat)
    requires i < |es|
  {
    es[i].epoch > Run(es[..i]).lastEpoch
  }

  /** The miner never takes part in two epochs in a row. */
  ghost predicate NeverTwiceRunning(es: seq<Event>) {
    forall i, j :: 0 <= i < j < |es| && Effective(es, i) && Effective(es, j) && es[i].participated && es[j].participated
      ==> es[i].epoch + 1 < es[j].epoch
  }

  /** Whether the last effective update reported participation. */
  ghost predicate JustTookPart(es: seq<Event>) {
    exists i :: 0 <= i < |es| && Effective(es, i) && es[i].participated && es[i].epoch == Run(es).lastEpoch
  }

  lemma PrefixEffective(es: seq<Event>, n: nat, i: nat)
    requires i < n <= |es|
    ensures Effective(es[..n], i) == Effective(es, i)
  {
    assert es[..n][..i] == es[..i];
  }

  lemma PrefixNeverTwice(es: seq<Event>, n: nat)
    requires NeverTwiceRunning(es) && n <= |es|
    ensures NeverTwiceRunning(es[..n])
  {
    forall i, j | 0 <= i < j < n && Effective(es[..n], i) && Effective(es[..n], j)
                  && es[i].participated && es[j].participated
      ensures es[i].epoch + 1 < es[j].epoch
    {
      PrefixEffective(es, n, i);
      PrefixEffective(es, n, j);
    }
  }

  lemma MissBetween(s: Score, epoch: nat, participated: bool)
    requires 0.0 <= s.value <= 2.0 && epoch > s.lastEpoch
    requires s.value > 1.0 ==> s.grace > 0 && (participated ==> epoch > s.lastEpoch + 1)
    ensures var next := Update(s, epoch, participated);
      0.0 <= next.value <= (if participated then 2.0 else 1.0) && (participated ==> next.grace > 0)
  {
    DecayBounds(s.value, epoch - s.lastEpoch - 1, s.grace > 0);
    DecayBounds(s.value, epoch - s.lastEpoch, s.grace > 0);
  }

  /** A miner whose last effective update reported participation did not take part in the next epoch. */
  lemma NotAgain(es: seq<Event>, n: nat)
    requires n == |es| - 1 && NeverTwiceRunning(es) && JustTookPart(es[..n])
    requires Effective(es, n) && es[n].participated
    ensures Run(es[..n]).lastEpoch + 1 < es[n].epoch
  {
    var i :| 0 <= i < n && Effective(es[..n], i) && es[..n][i].participated
             && es[..n][i].epoch == Run(es[..n]).lastEpoch;
    PrefixEffective(es, n, i);
  }

  lemma StillTookPart(es: seq<Event>, n: nat)
    requires n == |es| - 1 && JustTookPart(es[..n]) && !Effective(es, n)
    ensures JustTookPart(es)
  {
    var i :| 0 <= i < n && Effective(es[..n], i) && es[..n][i].participated
             && es[..n][i].epoch == Run(es[..n]).lastEpoch;
    PrefixEffective(es, n, i);
    assert es[i].epoch == Run(es).lastEpoch;
  }

  /** A miner that never takes part in two epochs in a row never passes 2: the epoch it misses halves its value. */
  lemma {:induction false} AlternatingNeverPasses2(es: seq<Event>)
    requires NeverTwiceRunning(es)
    ensures 0.0 <= Run(es).value <= 2.0
    ensures Run(es).value <= 1.0 || (Run(es).grace > 0 && JustTookPart(es))
  {
    if es != [] {
      var n := |es| - 1;
      var s, e := Run(es[..n]), es[n];
      PrefixNeverTwice(es, n);
      AlternatingNeverPasses2(es[..n]);
      hide NeverTwiceRunning, JustTookPart, Decayed, DecayedBy;
      if !Effective(es, n) {
        if s.value > 1.0 { StillTookPart(es, n); }
      } else {
        if e.participated && s.value > 1.0 { NotAgain(es, n); }
        MissBetween(s, e.epoch, e.participated);
        if e.participated { TookPart(es, n); }
      }
    }
  }

  lemma TookPart(es: seq<Event>, n: nat)
    requires n == |es| - 1 && Effective(es, n) && es[n].participated
    ensures JustTookPart(es)
  {
    assert es[n].epoch == Run(es).lastEpoch;
  }

  // ---------- catching up ----------

  /** k missed epochs reported one by one. */
  function MissOneByOne(s: Score, k: nat): Score {
    if k == 0 then s else Update(MissOneByOne(s, k - 1), s.lastEpoch + k, false)
  }

  lemma DecayMonotone(u: real, v: real)
    requires 0.0 <= u <= v
    ensures u * GRACE_DECAY <= u * DECAY <= v * DECAY
  {
  }

  /** Reporting k missed epochs in one call never gives less than reporting them one by one: the grace factor is
      used at most once in the one call, and as long as grace remains in the single calls. */
  lemma {:induction false} CatchingUpIsNoWorse(s: Score, k: nat)
    requires s.value >= 0.0
    ensures MissOneByOne(s, k).lastEpoch == s.lastEpoch + k
    ensures MissOneByOne(s, k).grace == if s.grace >= k then s.grace - k else 0
    ensures 0.0 <= MissOneByOne(s, k).value <= Update(s, s.lastEpoch + k, false).value
  {
    if k > 0 {
      CatchingUpIsNoWorse(s, k - 1);
      var single, once := MissOneByOne(s, k - 1), Update(s, s.lastEpoch + k - 1, false);
      DecayBounds(s.value, k - 1, s.grace > 0);
      DecayIsLinear(single.value);
      DecayIsLinear(once.value);
      DecayMonotone(single.value, once.value);
      assert DecayedBy(single.value, 1, single.grace > 0)
          == Decayed(DecayedBy(single.value, 0, single.grace > 0), single.grace > 0);
    }
  }

  // ---------- what an epoch is worth ----------

  lemma RunOfOneMore(es: seq<Event>, e: Event)
    ensures Run(es + [e]) == Update(Run(es), e.epoch, e.participated)
  {
    assert (es + [e])[..|es|] == es;
  }

  /** Two epochs in a row: taking part adds one, and missing an epoch takes half under grace and else three tenths.
      Either way the counters of epochs taken part in and missed start or go on, and taking part restores the grace. */
  lemma NextEpoch(es: seq<Event>, participated: bool)
    ensures var s := Run(es);
      var next := Run(es + [Event(s.lastEpoch + 1, participated)]);
      && next.lastEpoch == s.lastEpoch + 1
      && (participated ==> next.value == s.value + 1.0 && next.consecutive == s.consecutive + 1
                           && next.missed == 0 && next.grace == 3)
      && (!participated ==> next.value == s.value * (if s.grace > 0 then 0.5 else 0.7) && next.consecutive == 0
                            && next.missed == s.missed + 1 && next.grace == if s.grace > 0 then s.grace - 1 else 0)
  {
    var s := Run(es);
    ValueWithinEpochs(es);
    hide Run;
    RunOfOneMore(es, Event(s.lastEpoch + 1, participated));
    assert DecayedBy(s.value, 0, s.grace > 0) == s.value;
    assert DecayedBy(s.value, 1, s.grace > 0) == Decayed(s.value, s.grace > 0);
    DecayIsLinear(s.value);
  }

  /** The reports that a miner took part in an epoch and missed the k epochs after it. */
  function ThenMisses(epoch: nat, k: nat): seq<Event> {
    [Event(epoch, true)] + seq(k, i requires 0 <= i < k => Event(epoch + 1 + i, false))
  }

  /** After an epoch taken part in, each of the first three missed ones halves the value and every later one takes
      three tenths of it. */
  lemma {:induction false} ThreeHalvings(es: seq<Event>, epoch: nat, k: nat)
    requires epoch > Run(es).lastEpoch
    ensures var s := Run(es + ThenMisses(epoch, k));
      && s.lastEpoch == epoch + k && s.missed == k && s.grace == (if k < 3 then 3 - k else 0)
      && Run(es + ThenMisses(epoch, k + 1)).value == s.value * (if k < 3 then 0.5 else 0.7)
  {
    hide Run, ThenMisses;
    if k == 0 {
      TakingPartRestores(es, epoch);
    } else {
      ThreeHalvings(es, epoch, k - 1);
      OneMoreMiss(es, epoch, k - 1);
      NextEpoch(es + ThenMisses(epoch, k - 1), false);
    }
    OneMoreMiss(es, epoch, k);
    NextEpoch(es + ThenMisses(epoch, k), false);
  }

  lemma TakingPartRestores(es: seq<Event>, epoch: nat)
    requires epoch > Run(es).lastEpoch
    ensures var s := Run(es + ThenMisses(epoch, 0)); s.lastEpoch == epoch && s.missed == 0 && s.grace == 3
  {
    ValueWithinEpochs(es);
    hide Run;
    assert es + ThenMisses(epoch, 0) == es + [Event(epoch, true)];
    RunOfOneMore(es, Event(epoch, true));
  }

  lemma OneMoreMiss(es: seq<Event>, epoch: nat, k: nat)
    ensures es + ThenMisses(epoch, k + 1) == es + ThenMisses(epoch, k) + [Event(epoch + k + 1, false)]
  {
  }

  /** x to the power n. */
  function Power(x: real, n: nat): real {
    if n == 0 then 1.0 else Power(x, n - 1) * x
  }

  lemma Associates(a: real, b: real, c: real)
    ensures a * b * c == a * (b * c)
  {
  }

  lemma {:induction false} DecayedIsPower(v: real, n: nat, grace: bool)
    requires v >= 0.0 && n > 0
    ensures DecayedBy(v, n, grace) == v * (if grace then 0.5 else 0.7) * Power(0.7, n - 1)
  {
    hide Decayed;
    var first := v * (if grace then 0.5 else 0.7);
    DecayBounds(v, n - 1, grace);
    DecayIsLinear(DecayedBy(v, n - 1, grace));
    if n == 1 {
      assert DecayedBy(v, 0, grace) == v;
      assert Power(0.7, 0) == 1.0;
    } else {
      DecayedIsPower(v, n - 1, grace);
      Associates(first, Power(0.7, n - 2), 0.7);
    }
  }

  /** A report after a gap: the first epoch of the gap is taken at the grace factor, if grace remains, and all others
      at seven tenths; an epoch taken part in is not in the gap and adds one. */
  lemma ReportAfterGap(es: seq<Event>, gap: nat, participated: bool)
    requires gap > 0
    ensures var s := Run(es);
      var next := Run(es + [Event(s.lastEpoch + gap + (if participated then 1 else 0), participated)]);
      next.value == s.value * (if s.grace > 0 then 0.5 else 0.7) * Power(0.7, gap - 1) + (if participated then 1.0 else 0.0)
  {
    var s := Run(es);
    ValueWithinEpochs(es);
    hide Run, DecayedBy, Power;
    RunOfOneMore(es, Event(s.lastEpoch + gap + (if participated then 1 else 0), participated));
    DecayedIsPower(s.value, gap, s.grace > 0);
  }
}

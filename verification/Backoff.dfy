/** `BackoffEntry` and its serializer (base/backoff_entry.cc,
    base/backoff_entry_serializer.cc). Times are microseconds; delays are real numbers,
    and the random number of a delay is a parameter in [0, 1). */
module Backoff {
  import opened Basics

  const MAX64: int := 0x7fff_ffff_ffff_ffff
  const MIN64: int := -0x8000_0000_0000_0000

  datatype Policy = Policy(
    numErrorsToIgnore: int,
    initialDelayMs: int,
    multiplyFactor: real,
    jitterFactor: real,
    maximumBackoffMs: int,
    entryLifetimeMs: int,
    alwaysUseInitialDelay: bool)

  datatype Entry = Entry(failureCount: nat, release: int)

  predicate Fits(x: int) { MIN64 <= x <= MAX64 }

  /** `CheckedNumeric<int64_t>::ValueOrDefault(max)`. */
  function Checked(x: int): int { if Fits(x) then x else MAX64 }

  /** Conversion of a floating-point number to an integer: towards zero. */
  function Truncate(x: real): int { if x >= 0.0 then x.Floor else -((-x).Floor) }

  function PowReal(x: real, n: nat): real { if n == 0 then 1.0 else x * PowReal(x, n - 1) }

  // ----- Delays -------------------------------------------------------------------------------------

  function EffectiveFailureCount(p: Policy, failures: int): int {
    Max(0, failures - p.numErrorsToIgnore) + if p.alwaysUseInitialDelay then 1 else 0
  }

  /** The nominal delay after n failures that count: initial * factor^(n - 1). */
  function NominalMs(p: Policy, n: nat): real
    requires n > 0
  {
    p.initialDelayMs as real * PowReal(p.multiplyFactor, n - 1)
  }

  function Jittered(delay: real, jitter: real, random: real): real { delay - random * jitter * delay }

  function DelayMs(p: Policy, n: nat, random: real): real
    requires n > 0
  {
    Jittered(NominalMs(p, n), p.jitterFactor, random)
  }

  function DelayUs(delayMs: real): int {
    var rounded := Truncate(delayMs + 0.5);
    if Fits(rounded) then Checked(rounded * 1000) else MAX64
  }

  /** The latest release time the policy allows at the moment. */
  function Ceiling(p: Policy, now: int): int {
    if p.maximumBackoffMs >= 0 && Fits(p.maximumBackoffMs * 1000) then Checked(p.maximumBackoffMs * 1000 + now) else MAX64
  }

  function BackoffDurationToReleaseTime(p: Policy, durationUs: int, now: int): int {
    Min(Checked(durationUs + now), Ceiling(p, now))
  }

  function CalculateReleaseTime(p: Policy, e: Entry, now: int, random: real): int {
    var n := EffectiveFailureCount(p, e.failureCount);
    if n == 0 then Max(now, e.release)
    else Max(BackoffDurationToReleaseTime(p, DelayUs(DelayMs(p, n, random)), now), e.release)
  }

  function InformedOf(p: Policy, e: Entry, succeeded: bool, now: int, random: real): Entry {
    if !succeeded then
      var e1 := e.(failureCount := e.failureCount + 1);
      e1.(release := CalculateReleaseTime(p, e1, now, random))
    else
      var delay := if p.alwaysUseInitialDelay then p.initialDelayMs * 1000 else 0;
      Entry(if e.failureCount > 0 then e.failureCount - 1 else 0, Max(now + delay, e.release))
  }

  const FRESH: Entry := Entry(0, 0)

  /** Jitter takes away at most its share of the delay and adds nothing. */
  lemma JitterBounds(p: Policy, n: nat, random: real)
    requires n > 0 && 0.0 <= random < 1.0 && Sensible(p)
    ensures 0.0 <= (1.0 - p.jitterFactor) * NominalMs(p, n) <= DelayMs(p, n, random) <= NominalMs(p, n)
  {
    PowNonNegative(p.multiplyFactor, n - 1);
    ScaleReal(0.0, p.initialDelayMs as real, PowReal(p.multiplyFactor, n - 1));
    assert NominalMs(p, n) >= 0.0;
    hide NominalMs, PowReal, Jittered;
    Jitter(NominalMs(p, n), p.jitterFactor, random);
  }

  lemma Jitter(d: real, j: real, x: real)
    requires 0.0 <= d && 0.0 <= j <= 1.0 && 0.0 <= x < 1.0
    ensures 0.0 <= (1.0 - j) * d <= Jittered(d, j, x) <= d
  {
    ScaleReal(x, 1.0, j);
    ScaleReal(x * j, j, d);
    ScaleReal(0.0, 1.0 - j, d);
    assert (1.0 - j) * d == d - j * d;
  }

  /** Rounding to whole milliseconds moves a delay by at most half of one; a delay that does
      not fit becomes the largest there is. */
  lemma DelayRounds(delayMs: real)
    requires delayMs >= 0.0
    ensures 0 <= DelayUs(delayMs) <= MAX64
    ensures DelayUs(delayMs) as real <= 1000.0 * delayMs + 500.0
    ensures DelayUs(delayMs) == MAX64 || DelayUs(delayMs) as real >= 1000.0 * delayMs - 500.0
  {
    var rounded := (delayMs + 0.5).Floor;
    assert rounded as real <= delayMs + 0.5 < rounded as real + 1.0;
    assert (rounded * 1000) as real == rounded as real * 1000.0;
  }

  /** Non-negative delay and factor, and a jitter that is a share. */
  predicate Sensible(p: Policy) { 0.0 <= p.jitterFactor <= 1.0 && p.initialDelayMs >= 0 && p.multiplyFactor >= 0.0 }

  /** What a failure does to an entry e: as long as the errors are ignored the release time is
      only brought up to now. After that requests are held back for the nominal delay, which
      grows by the factor with each failure, less the random part of the jitter's share and to
      the nearest millisecond, unless the maximum cuts it short or an earlier horizon lies
      further out. */
  predicate HeldBack(p: Policy, e: Entry, now: int, random: real, release: int) {
    var n := EffectiveFailureCount(p, e.failureCount + 1);
    if n == 0 then release == Max(now, e.release)
    else
      var delayUs := 1000.0 * ((1.0 - random * p.jitterFactor) * NominalMs(p, n));
      && (release >= Ceiling(p, now) || (release - now) as real >= delayUs - 500.0)
      && (release == e.release || (release - now) as real <= delayUs + 500.0)
  }

  lemma FailureHoldsBack(p: Policy, e: Entry, now: int, random: real)
    requires 0.0 <= random < 1.0 && Sensible(p) && 0 <= now <= MAX64
    ensures HeldBack(p, e, now, random, InformedOf(p, e, false, now, random).release)
  {
    var n := EffectiveFailureCount(p, e.failureCount + 1);
    if n > 0 {
      JitterBounds(p, n, random);
      JitterScales(NominalMs(p, n), p.jitterFactor, random);
      HeldBackBy(p, e, now, random, n, DelayMs(p, n, random));
    }
  }

  lemma JitterScales(d: real, j: real, x: real)
    ensures Jittered(d, j, x) == (1.0 - x * j) * d
  {
  }

  lemma HeldBackBy(p: Policy, e: Entry, now: int, random: real, n: nat, delay: real)
    requires n == EffectiveFailureCount(p, e.failureCount + 1) > 0 && 0 <= now <= MAX64
    requires 0.0 <= delay == (1.0 - random * p.jitterFactor) * NominalMs(p, n)
    ensures HeldBack(p, e, now, random, Max(BackoffDurationToReleaseTime(p, DelayUs(delay), now), e.release))
  {
    hide DelayUs, NominalMs, EffectiveFailureCount;
    DelayRounds(delay);
  }

  /** The nominal delay after that many failures; none as long as they are ignored. */
  function ScheduledMs(p: Policy, failures: nat): real {
    var n := EffectiveFailureCount(p, failures);
    if n == 0 then 0.0 else NominalMs(p, n)
  }

  /** The schedule of delays: none (or the initial delay, if that is always used) up to the last
      error that is ignored, the initial delay (or the factor times it) for the first failure
      that counts, and for each further one the factor times the delay before. */
  lemma Schedule(p: Policy, failures: nat)
    ensures failures <= p.numErrorsToIgnore ==>
              ScheduledMs(p, failures) == if p.alwaysUseInitialDelay then p.initialDelayMs as real else 0.0
    ensures failures == p.numErrorsToIgnore + 1 ==>
              ScheduledMs(p, failures) == p.initialDelayMs as real * if p.alwaysUseInitialDelay then p.multiplyFactor else 1.0
    ensures failures > p.numErrorsToIgnore ==>
              ScheduledMs(p, failures + 1) == p.multiplyFactor * ScheduledMs(p, failures)
  {
    assert PowReal(p.multiplyFactor, 0) == 1.0 && PowReal(p.multiplyFactor, 1) == p.multiplyFactor;
    if failures > p.numErrorsToIgnore {
      var n := EffectiveFailureCount(p, failures);
      assert EffectiveFailureCount(p, failures + 1) == n + 1;
      NominalGrows(p, n);
    }
  }

  lemma NominalGrows(p: Policy, n: nat)
    requires n > 0
    ensures NominalMs(p, n + 1) == p.multiplyFactor * NominalMs(p, n)
  {
    assert PowReal(p.multiplyFactor, n) == p.multiplyFactor * PowReal(p.multiplyFactor, n - 1);
    Commute(p.initialDelayMs as real, p.multiplyFactor, PowReal(p.multiplyFactor, n - 1));
  }

  lemma Commute(a: real, b: real, c: real)
    ensures a * (b * c) == b * (a * c)
  {
  }

  lemma ScaleReal(a: real, b: real, d: real)
    requires 0.0 <= a <= b && 0.0 <= d
    ensures 0.0 <= a * d <= b * d
  {
    assert (b - a) * d >= 0.0;
  }

  lemma {:induction false} PowNonNegative(x: real, n: nat)
    requires x >= 0.0
    ensures PowReal(x, n) >= 0.0
  {
    if n > 0 { PowNonNegative(x, n - 1); }
  }

  // ----- Runs -----------------------------------------------------------------------------------------

  datatype Event = Inform(succeeded: bool, now: int, random: real)

  /** The clock never runs backwards. */
  ghost predicate Monotone(evs: seq<Event>, start: int) {
    (evs != [] ==> start <= evs[0].now) && forall i, j :: 0 <= i < j < |evs| ==> evs[i].now <= evs[j].now
  }

  function Exec(p: Policy, e: Entry, evs: seq<Event>): Entry
    decreases |evs|
  {
    if evs == [] then e
    else Exec(p, InformedOf(p, e, evs[0].succeeded, evs[0].now, evs[0].random), evs[1..])
  }

  /** The release time never moves earlier. */
  lemma {:induction false} ReleaseNeverEarlier(p: Policy, e: Entry, evs: seq<Event>)
    ensures Exec(p, e, evs).release >= e.release
    decreases |evs|
  {
    if evs != [] {
      ReleaseNeverEarlier(p, InformedOf(p, e, evs[0].succeeded, evs[0].now, evs[0].random), evs[1..]);
    }
  }

  /** Failures less successes. */
  function Net(evs: seq<Event>): int {
    if evs == [] then 0 else (if evs[0].succeeded then -1 else 1) + Net(evs[1..])
  }

  /** Each failure counts one up and each success one down, but never below zero: so what is left
      is the largest balance of any last part of the run, or the balance of all of it added to
      the count at the start. */
  lemma {:induction false} CountOfARun(p: Policy, e: Entry, evs: seq<Event>)
    ensures var n := Exec(p, e, evs).failureCount;
            && e.failureCount + Net(evs) <= n && (forall k :: 0 <= k <= |evs| ==> Net(evs[k..]) <= n)
            && (n == e.failureCount + Net(evs) || exists k :: 0 <= k <= |evs| && n == Net(evs[k..]))
    decreases |evs|
  {
    assert evs[0..] == evs && evs[|evs|..] == [];
    if evs != [] {
      var e1, rest := InformedOf(p, e, evs[0].succeeded, evs[0].now, evs[0].random), evs[1..];
      CountStep(p, e, evs[0]);
      CountOfARun(p, e1, rest);
      hide InformedOf;
      var n := Exec(p, e1, rest).failureCount;
      forall k | 0 <= k <= |evs|
        ensures Net(evs[k..]) <= n
      {
        if k > 0 { assert evs[k..] == rest[k - 1..]; }
      }
      assert rest[0..] == rest;
      if n != e.failureCount + Net(evs) {
        var k :| 0 <= k <= |rest| && n == Net(rest[k..]);
        assert rest[k..] == evs[k + 1..];
      }
    }
  }

  lemma CountStep(p: Policy, e: Entry, ev: Event)
    ensures InformedOf(p, e, ev.succeeded, ev.now, ev.random).failureCount
            == if ev.succeeded then Max(0, e.failureCount - 1) else e.failureCount + 1
  {
    hide CalculateReleaseTime;
  }

  /** As many successes as there were failures before them clear the count. */
  lemma SuccessesClear(p: Policy, failures: seq<Event>, successes: seq<Event>)
    requires |failures| == |successes|
    requires forall i :: 0 <= i < |failures| ==> !failures[i].succeeded
    requires forall i :: 0 <= i < |successes| ==> successes[i].succeeded
    ensures Exec(p, FRESH, failures).failureCount == |failures|
    ensures Exec(p, FRESH, failures + successes).failureCount == 0
  {
    AllAlike(p, FRESH, failures, false);
    AllAlike(p, Exec(p, FRESH, failures), successes, true);
    ExecConcat(p, FRESH, failures, successes);
  }

  lemma {:induction false} AllAlike(p: Policy, e: Entry, evs: seq<Event>, succeeded: bool)
    requires forall i :: 0 <= i < |evs| ==> evs[i].succeeded == succeeded
    ensures Exec(p, e, evs).failureCount
            == if succeeded then Max(0, e.failureCount - |evs|) else e.failureCount + |evs|
    decreases |evs|
  {
    if evs != [] {
      CountStep(p, e, evs[0]);
      hide InformedOf;
      AllAlike(p, InformedOf(p, e, evs[0].succeeded, evs[0].now, evs[0].random), evs[1..], succeeded);
    }
  }

  lemma {:induction false} ExecConcat(p: Policy, e: Entry, a: seq<Event>, b: seq<Event>)
    ensures Exec(p, e, a + b) == Exec(p, Exec(p, e, a), b)
    decreases |a|
  {
    hide InformedOf;
    if a == [] {
      assert a + b == b;
    } else {
      assert (a + b)[0] == a[0] && (a + b)[1..] == a[1..] + b;
      ExecConcat(p, InformedOf(p, e, a[0].succeeded, a[0].now, a[0].random), a[1..], b);
    }
  }

  /** How far ahead of the clock a release time may lie. */
  function Horizon(p: Policy): int {
    Max(p.maximumBackoffMs * 1000, if p.alwaysUseInitialDelay then p.initialDelayMs * 1000 else 0)
  }

  lemma StepWithinHorizon(p: Policy, e: Entry, ev: Event, start: int)
    requires p.maximumBackoffMs >= 0 && 0 <= start <= ev.now <= MAX64
    requires e.release <= start + Horizon(p)
    ensures InformedOf(p, e, ev.succeeded, ev.now, ev.random).release <= ev.now + Horizon(p)
  {
    CeilingWithin(p, ev.now);
    hide DelayUs, DelayMs, Ceiling;
  }

  /** Even when it overflows, the ceiling is not above now plus the maximum. */
  lemma CeilingWithin(p: Policy, now: int)
    requires p.maximumBackoffMs >= 0 && 0 <= now <= MAX64
    ensures Ceiling(p, now) <= now + p.maximumBackoffMs * 1000
  {
  }

  /** With a maximum set and a clock that never runs backwards, the release time always stays
      within the horizon of the last request. */
  lemma {:induction false} ReleaseWithinHorizon(p: Policy, e: Entry, evs: seq<Event>, start: int)
    requires p.maximumBackoffMs >= 0 && 0 <= start && Monotone(evs, start)
    requires forall i :: 0 <= i < |evs| ==> evs[i].now <= MAX64
    requires e.release <= start + Horizon(p)
    ensures Exec(p, e, evs).release <= (if evs == [] then start else evs[|evs| - 1].now) + Horizon(p)
    decreases |evs|
  {
    if evs != [] {
      var e1 := InformedOf(p, e, evs[0].succeeded, evs[0].now, evs[0].random);
      StepWithinHorizon(p, e, evs[0], start);
      hide InformedOf, Horizon;
      ReleaseWithinHorizon(p, e1, evs[1..], evs[0].now);
    }
  }

  lemma FreshWithinHorizon(p: Policy, evs: seq<Event>, start: int)
    requires p.maximumBackoffMs >= 0 && 0 <= start && Monotone(evs, start) && evs != []
    requires forall i :: 0 <= i < |evs| ==> evs[i].now <= MAX64
    ensures Exec(p, FRESH, evs).release <= evs[|evs| - 1].now + Horizon(p)
  {
    ReleaseWithinHorizon(p, FRESH, evs, start);
  }

  lemma StepLaws(p: Policy, e: Entry, succeeded: bool, now: int, random: real)
    ensures var t := InformedOf(p, e, succeeded, now, random).release;
            && t >= e.release
            && (p.maximumBackoffMs >= 0 && 0 <= now <= MAX64 && e.release <= now + Horizon(p) ==> t <= now + Horizon(p))
            && (!succeeded && 0.0 <= random < 1.0 && Sensible(p) && 0 <= now <= MAX64 ==> HeldBack(p, e, now, random, t))
  {
    hide HeldBack, Sensible, Horizon;
    if p.maximumBackoffMs >= 0 && 0 <= now <= MAX64 && e.release <= now + Horizon(p) {
      StepWithinHorizon(p, e, Inform(succeeded, now, random), now);
    }
    if !succeeded && 0.0 <= random < 1.0 && Sensible(p) && 0 <= now <= MAX64 {
      FailureHoldsBack(p, e, now, random);
    }
    hide DelayUs, DelayMs, Ceiling;
  }

  // ----- The object ---------------------------------------------------------------------------------------

  class BackoffEntry {
    const policy: Policy
    var failureCount: nat
    var exponentialBackoffReleaseTime: int

    function View(): Entry
      reads this
    {
      Entry(failureCount, exponentialBackoffReleaseTime)
    }

    constructor (policy: Policy)
      ensures this.policy == policy && View() == FRESH
    {
      this.policy := policy;
      failureCount, exponentialBackoffReleaseTime := 0, 0;
    }

    /** A failure counts one up, a success one down but not below zero. The release time moves no
        earlier and stays within the horizon; a failure holds requests back as the policy says, a
        success only for the initial delay, if that is always used. */
    method InformOfRequest(succeeded: bool, now: int, random: real)
      modifies this
      ensures View() == InformedOf(policy, old(View()), succeeded, now, random)
      ensures failureCount == if succeeded then Max(0, old(failureCount) - 1) else old(failureCount) + 1
      ensures View().release >= old(View().release)
      ensures succeeded ==>
                View().release == Max(now + (if policy.alwaysUseInitialDelay then policy.initialDelayMs * 1000 else 0),
                                      old(View().release))
      ensures policy.maximumBackoffMs >= 0 && 0 <= now <= MAX64 && old(View().release) <= now + Horizon(policy) ==>
                View().release <= now + Horizon(policy)
      ensures !succeeded && 0.0 <= random < 1.0 && Sensible(policy) && 0 <= now <= MAX64 ==>
                HeldBack(policy, old(View()), now, random, View().release)
    {
      StepLaws(policy, View(), succeeded, now, random);
      if !succeeded {
        failureCount := failureCount + 1;
        exponentialBackoffReleaseTime := CalculateReleaseTime(policy, View(), now, random);
      } else {
        if failureCount > 0 {
          failureCount := failureCount - 1;
        }
        var delay := 0;
        if policy.alwaysUseInitialDelay {
          delay := policy.initialDelayMs * 1000;
        }
        exponentialBackoffReleaseTime := Max(now + delay, exponentialBackoffReleaseTime);
      }
    }

    method SetCustomReleaseTime(t: int)
      modifies this`exponentialBackoffReleaseTime
      ensures View() == old(View()).(release := t)
    {
      exponentialBackoffReleaseTime := t;
    }

    method Reset()
      modifies this
      ensures View() == FRESH
    {
      failureCount := 0;
      exponentialBackoffReleaseTime := 0;
    }
  }

  /** An entry told of any history of requests is in the state Exec gives, so with a maximum and
      a clock that never runs backwards its release time is within the horizon. */
  method Drive(p: Policy, evs: seq<Event>) returns (b: BackoffEntry)
    ensures fresh(b) && b.policy == p && b.View() == Exec(p, FRESH, evs)
    ensures p.maximumBackoffMs >= 0 && evs != [] && Monotone(evs, 0)
            && (forall i :: 0 <= i < |evs| ==> evs[i].now <= MAX64) ==>
              b.View().release <= evs[|evs| - 1].now + Horizon(p)
  {
    hide InformedOf, HeldBack, Horizon, Sensible;
    b := new BackoffEntry(p);
    var i := 0;
    assert evs[0..] == evs;
    while i < |evs|
      invariant 0 <= i <= |evs| && fresh(b) && b.policy == p
      invariant Exec(p, b.View(), evs[i..]) == Exec(p, FRESH, evs)
    {
      assert evs[i..][0] == evs[i] && evs[i..][1..] == evs[i + 1..];
      b.InformOfRequest(evs[i].succeeded, evs[i].now, evs[i].random);
      i := i + 1;
    }
    if p.maximumBackoffMs >= 0 && evs != [] && Monotone(evs, 0) && forall j :: 0 <= j < |evs| ==> evs[j].now <= MAX64 {
      FreshWithinHorizon(p, evs, 0);
    }
  }

  // ----- Rejecting and discarding -----------------------------------------------------------------------------

  predicate ShouldRejectRequest(e: Entry, now: int) { e.release > now }

  /** `TimeDelta::InMilliseconds`: division of integers in C++, towards zero. */
  function InMilliseconds(us: int): int { if us >= 0 then us / 1000 else -((-us) / 1000) }

  predicate CanDiscard(p: Policy, e: Entry, now: int) {
    && p.entryLifetimeMs != -1
    && var unused := InMilliseconds(now - e.release);
       && unused >= 0
       && if e.failureCount > 0 then unused >= Max(p.maximumBackoffMs, p.entryLifetimeMs)
          else unused >= p.entryLifetimeMs
  }

  /** In microseconds: an entry may be discarded unless its lifetime is unlimited, or its release
      lies a millisecond or more ahead, or it has not yet been unused for its lifetime, which
      with failures is at least the maximum delay. */
  lemma DiscardedExactly(p: Policy, e: Entry, now: int)
    ensures var keepMs := if e.failureCount == 0 then p.entryLifetimeMs else Max(p.maximumBackoffMs, p.entryLifetimeMs);
            CanDiscard(p, e, now)
            <==> && p.entryLifetimeMs != -1 && e.release < now + 1000
                 && (keepMs > 0 ==> e.release + 1000 * keepMs <= now)
  {
  }

  /** When an entry that may be discarded still holds requests back: its release time is less
      than a millisecond ahead, which rounds to none, and nothing asks to keep it longer. */
  lemma DiscardedWhileRejecting(p: Policy, e: Entry, now: int)
    ensures CanDiscard(p, e, now) && ShouldRejectRequest(e, now)
            <==> && p.entryLifetimeMs != -1 && p.entryLifetimeMs <= 0 && 0 < e.release - now < 1000
                 && (e.failureCount > 0 ==> p.maximumBackoffMs <= 0)
  {
  }

  /** An entry that can be discarded is not holding requests back: so the interface says. It is
      so for exactly the policies that never discard or keep entries for a positive time. */
  lemma DiscardableIsIdle(p: Policy)
    ensures (forall e: Entry, now :: CanDiscard(p, e, now) ==> !ShouldRejectRequest(e, now))
            <==> p.entryLifetimeMs == -1 || p.entryLifetimeMs > 0
  {
    forall e: Entry, now
      ensures CanDiscard(p, e, now) && ShouldRejectRequest(e, now) ==> p.entryLifetimeMs != -1 && p.entryLifetimeMs <= 0
    {
      DiscardedWhileRejecting(p, e, now);
    }
    DiscardedWhileRejecting(p, Entry(0, 1), 0);
  }

  // ----- Serialization ------------------------------------------------------------------------------------------

  const VERSION: int := 1

  /** The list of four values; the last is a string, None when it is not a number. */
  datatype Serialized = Serialized(version: int, failureCount: int, durationUs: int, absoluteUs: Option<int>)

  function Serialize(e: Entry, now: int, wall: int): Serialized {
    var duration := e.release - now;
    Serialized(VERSION, e.failureCount, duration, Some(duration + wall))
  }

  function RemainingUs(s: Serialized, wall: int): int
    requires s.absoluteUs.Some?
  {
    Min(s.absoluteUs.value - wall, s.durationUs)
  }

  /** `DeserializeFromValue`: replays the failures on a fresh entry, then overrides its release
      time. randoms supplies the random numbers of the replay. */
  method Deserialize(s: Serialized, p: Policy, now: int, wall: int, randoms: nat -> real) returns (r: Option<Entry>)
    ensures r.Some? <==> s.version == 1 && s.failureCount >= 0 && s.absoluteUs.Some? && s.absoluteUs.value >= 0
    ensures r.Some? ==> r.value == Entry(s.failureCount, BackoffDurationToReleaseTime(p, RemainingUs(s, wall), now))
  {
    if s.version != VERSION || s.failureCount < 0 {
      return None;
    }
    if s.absoluteUs.None? || s.absoluteUs.value < 0 {
      return None;
    }
    var entry := new BackoffEntry(p);
    var n := 0;
    while n < s.failureCount
      invariant 0 <= n <= s.failureCount
      invariant entry.failureCount == n && entry.policy == p
    {
      entry.InformOfRequest(false, now, randoms(n));
      n := n + 1;
    }
    var duration := s.absoluteUs.value - wall;
    if duration > s.durationUs {
      duration := s.durationUs;
    }
    entry.SetCustomReleaseTime(BackoffDurationToReleaseTime(p, duration, now));
    r := Some(entry.View());
  }

  /** The time left after a round trip: no more than was left, than the wall clock leaves, and
      than the maximum. */
  function TimeLeft(p: Policy, e: Entry, now: int, wall: int, wall': int): int {
    var left := e.release - now;
    var least := Min(left, left + wall - wall');
    if p.maximumBackoffMs >= 0 then Min(least, p.maximumBackoffMs * 1000) else least
  }

  /** Saving an entry at (now, wall) and restoring it at (now', wall'). It comes back if and only
      if its release is not before the epoch of the wall clock; then with its failure count, and
      with the least of the three times left, counted from now' and cut off at the largest time.
      The one exception is a remaining time so negative that adding it to now' underflows. */
  method SerializationRoundTrip(e: Entry, p: Policy, now: int, wall: int, now': int, wall': int, randoms: nat -> real)
    returns (r: Option<Entry>)
    ensures r.Some? <==> e.release - now + wall >= 0
    ensures r.Some? ==> r.value.failureCount == e.failureCount
    ensures r.Some? && 0 <= now' <= MAX64 && now' + Min(e.release - now, e.release - now + wall - wall') >= MIN64 ==>
              r.value.release == Min(MAX64, now' + TimeLeft(p, e, now, wall, wall'))
  {
    r := Deserialize(Serialize(e, now, wall), p, now', wall', randoms);
  }
}

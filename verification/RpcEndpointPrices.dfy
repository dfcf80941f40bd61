/** What the formulas of an RPC endpoint amount to, in plain numbers: the price of load,
    failures, latency and recent use in a score, and what time, a success and a failure do to
    the counters and the cooldown. */
module EndpointPrices {
  import opened Wrappers
  import opened RpcEndpointSpec

  // ---- the window ----------------------------------------------------------------------

  /** The positions of the reservations of the last 1.2 seconds. */
  ghost function InLast(items: seq<Reservation>, now: int): set<nat> {
    set i: nat | i < |items| && now - items[i].at <= 1_200_000_000
  }

  /** Pruning keeps every reservation of the last 1.2 seconds as often as it occurs, and no
      other. */
  lemma {:induction false} PrunedIsExact(items: seq<Reservation>, now: int, x: Reservation)
    ensures multiset(Pruned(items, now))[x] == if now - x.at <= 1_200_000_000 then multiset(items)[x] else 0
  {
    if items != [] {
      var init, last := items[..|items| - 1], items[|items| - 1];
      PrunedIsExact(init, now, x);
      assert items == init + [last];
      assert Pruned(items, now) == Pruned(init, now) + if now - last.at <= 1_200_000_000 then [last] else [];
      hide Pruned;
    }
  }

  lemma LastInLast(items: seq<Reservation>, now: int)
    requires items != []
    ensures var m := |items| - 1;
            |InLast(items, now)| == |InLast(items[..m], now)| + if now - items[m].at <= 1_200_000_000 then 1 else 0
  {
    var m := |items| - 1;
    var init := InLast(items[..m], now);
    assert m !in init;
    assert InLast(items, now) == if now - items[m].at <= 1_200_000_000 then init + {m} else init;
  }

  lemma {:induction false} PrunedCounts(items: seq<Reservation>, now: int)
    ensures |Pruned(items, now)| == |InLast(items, now)|
  {
    if items != [] {
      var m := |items| - 1;
      PrunedCounts(items[..m], now);
      LastInLast(items, now);
      hide InLast;
    }
  }

  /** Sends weigh seven units each, as long as the uint32 sum does not wrap. */
  lemma {:induction false} LoadOfSends(items: seq<Reservation>, now: int)
    requires forall i :: 0 <= i < |items| ==> items[i].units == 7
    requires 7 * |items| < 0x1_0000_0000
    ensures BurstLoad(items, now) == 7 * |InLast(items, now)|
    ensures |InLast(items, now)| <= |items|
  {
    if items != [] {
      var m := |items| - 1;
      LoadOfSends(items[..m], now);
      LastInLast(items, now);
      hide InLast;
    }
  }

  // ---- the prices in a score -------------------------------------------------------------

  lemma PositiveProduct(x: real, y: real)
    requires x > 0.0 && y > 0.0
    ensures x * y > 0.0
  {
  }

  lemma SquareGrows(x: real, y: real)
    requires 0.0 <= x < y
    ensures x * x < y * y
  {
    var d := y - x;
    PositiveProduct(d, y);
    assert d * y + d * x == y * y - x * x;
  }

  /** No load costs nothing, less than 18 units less than 2200, 18 units or more at least
      25000. */
  lemma BurstPenaltyRange(load: uint32)
    ensures load == 0 ==> BurstPenalty(load) == 0.0
    ensures 0 < load < 18 ==> 0.0 < BurstPenalty(load) < 2200.0
    ensures load >= 18 ==> BurstPenalty(load) >= 25000.0
  {
    var ratio := load as real / 18.0;
    if 0 < load < 18 {
      SquareGrows(0.0, ratio);
      SquareGrows(ratio, 1.0);
    }
  }

  /** More load always costs more. */
  lemma BurstPenaltyGrows(load: uint32, more: uint32)
    requires load < more
    ensures BurstPenalty(load) < BurstPenalty(more)
  {
    BurstPenaltyRange(load);
    BurstPenaltyRange(more);
    var x, y := load as real / 18.0, more as real / 18.0;
    assert x < y;
    if more < 18 {
      SquareGrows(x, y);
    }
  }

  /** Recent use costs up to 432, less with time, and nothing from 180 ms on. */
  lemma RecencyFades(at: int, now: int, later: int)
    requires at <= now <= later
    ensures RecencyPenalty(None, now) == 0.0 && RecencyPenalty(Some(at), at) == 432.0
    ensures RecencyPenalty(Some(at), later) <= RecencyPenalty(Some(at), now)
    ensures now - at >= 180_000_000 ==> RecencyPenalty(Some(at), now) == 0.0
    ensures now - at <= 179_000_000 ==> RecencyPenalty(Some(at), now) > 0.0
  {
  }

  /** The latency a score counts, in milliseconds: 120 until one is known. */
  function CountedLatency(s: EndpointState): nat {
    if s.avgLatency == 0 then 120 else s.avgLatency / 1_000_000
  }

  /** Nothing about s is worse than about t. */
  predicate NoWorse(s: EndpointState, t: EndpointState, now: int) {
    CountedLatency(s) <= CountedLatency(t) && s.failures <= t.failures && s.rateLimitFailures <= t.rateLimitFailures
    && BurstLoad(s.recentReservations, now) <= BurstLoad(t.recentReservations, now)
    && (s.lastSelectedAt.None? || (t.lastSelectedAt.Some? && s.lastSelectedAt.value <= t.lastSelectedAt.value))
  }

  /** It is slower, more loaded, or failed or was rate limited more often. */
  predicate StrictlyWorse(s: EndpointState, t: EndpointState, now: int) {
    CountedLatency(s) < CountedLatency(t) || s.failures < t.failures || s.rateLimitFailures < t.rateLimitFailures
    || BurstLoad(s.recentReservations, now) < BurstLoad(t.recentReservations, now)
  }

  /** Main result: the score orders endpoints as they compare, strictly where one is strictly
      worse. */
  lemma ScoreOrders(s: EndpointState, t: EndpointState, now: int)
    requires NoWorse(s, t, now)
    ensures ScoreOf(s, now) <= ScoreOf(t, now)
    ensures StrictlyWorse(s, t, now) ==> ScoreOf(s, now) < ScoreOf(t, now)
  {
    var a, b := BurstLoad(s.recentReservations, now), BurstLoad(t.recentReservations, now);
    if a < b {
      BurstPenaltyGrows(a, b);
    }
    ScoreParts(s, now);
    ScoreParts(t, now);
    LaterUseCostsMore(s.lastSelectedAt, t.lastSelectedAt, now);
    hide ScoreOf, BurstPenalty, BurstLoad, RecencyPenalty, CountedLatency;
  }

  lemma ScoreParts(s: EndpointState, now: int)
    ensures ScoreOf(s, now)
         == CountedLatency(s) as real + 180.0 * s.failures as real + 900.0 * s.rateLimitFailures as real
            + BurstPenalty(BurstLoad(s.recentReservations, now)) + RecencyPenalty(s.lastSelectedAt, now)
  {
    hide BurstPenalty, BurstLoad, RecencyPenalty;
  }

  lemma LaterUseCostsMore(a: Option<int>, b: Option<int>, now: int)
    requires a.None? || (b.Some? && a.value <= b.value)
    ensures RecencyPenalty(a, now) <= RecencyPenalty(b, now)
  {
  }

  /** What the parts of a score cost: 180 a failure, 900 a rate limit, one a millisecond. */
  lemma ScorePrices(s: EndpointState, now: int)
    ensures ScoreOf(InitialEndpoint(now), now) == 120.0
    ensures s.failures < 0xFFFF_FFFF ==>
              ScoreOf(s.(failures := s.failures + 1), now) == ScoreOf(s, now) + 180.0
    ensures s.rateLimitFailures < 0xFFFF_FFFF ==>
              ScoreOf(s.(rateLimitFailures := s.rateLimitFailures + 1), now) == ScoreOf(s, now) + 900.0
    ensures s.avgLatency > 0 ==>
              ScoreOf(s.(avgLatency := s.avgLatency + 1_000_000), now) == ScoreOf(s, now) + 1.0
    ensures ScoreOf(s, now)
         == ScoreOf(s.(recentReservations := []), now) + BurstPenalty(BurstLoad(s.recentReservations, now))
    ensures ScoreOf(s, now) == ScoreOf(s.(lastSelectedAt := None), now) + RecencyPenalty(s.lastSelectedAt, now)
  {
    BurstPenaltyRange(0);
    assert (s.avgLatency + 1_000_000) / MILLISECOND == s.avgLatency / MILLISECOND + 1;
    hide BurstPenalty;
  }

  // ---- time --------------------------------------------------------------------------------

  /** Every full 20 seconds take two off the failures and the timeouts and four off the rate
      limits, down to zero; the rest of the time is kept for the next decay. */
  lemma DecayTakesOff(s: EndpointState, last: int, now: int, periods: nat)
    requires s.lastFailureDecay == Some(last)
    requires last + periods * 20_000_000_000 <= now < last + (periods + 1) * 20_000_000_000
    requires now - last <= 0x7FFF_FFFF_FFFF_FFFF
    ensures Decayed(s, now)
         == s.(failures := if s.failures > 2 * periods then s.failures - 2 * periods else 0,
               timeoutFailures := if s.timeoutFailures > 2 * periods then s.timeoutFailures - 2 * periods else 0,
               rateLimitFailures := if s.rateLimitFailures > 4 * periods then s.rateLimitFailures - 4 * periods else 0,
               lastFailureDecay := Some(last + periods * 20_000_000_000))
  {
    assert (now - last) / FAILURE_DECAY == periods;
    assert 4 * periods < UINT32_LIMIT;
    assert DecaySteps(last, now) == periods;
    assert periods * 2 % UINT32_LIMIT == 2 * periods && periods * 4 % UINT32_LIMIT == 4 * periods;
    assert s.lastFailureDecay == Some(last + 0 * 20_000_000_000);
  }

  /** Under a clock that is whole periods behind the last decay the step count wraps: counters
      of ordinary size are cleared, and the next decay is moved more than 2500 years ahead. */
  lemma DecayBackwards(s: EndpointState, last: int, now: int, periods: nat)
    requires s.lastFailureDecay == Some(last) && 1 <= periods < 0x1000_0000
    requires last - (periods + 1) * 20_000_000_000 < now <= last - periods * 20_000_000_000
    requires s.failures <= 0xC000_0000 && s.timeoutFailures <= 0xC000_0000 && s.rateLimitFailures <= 0xC000_0000
    ensures Decayed(s, now)
         == s.(failures := 0, timeoutFailures := 0, rateLimitFailures := 0,
               lastFailureDecay := Some(last + (0x1_0000_0000 - periods) * 20_000_000_000))
  {
    assert TimeSub(now, last) == now - last;
    assert (last - now) / FAILURE_DECAY == periods;
    assert DecaySteps(last, now) == 0x1_0000_0000 - periods;
    var steps := 0x1_0000_0000 - periods;
    assert (steps * 2) % UINT32_LIMIT == 0x1_0000_0000 - 2 * periods;
    assert (steps * 4) % UINT32_LIMIT == 0x1_0000_0000 - 4 * periods;
  }

  /** The first decay only starts the clock. */
  lemma DecayStarts(s: EndpointState, now: int)
    requires s.lastFailureDecay.None?
    ensures Decayed(s, now) == s.(lastFailureDecay := Some(now))
  {
  }

  // ---- successes and failures ----------------------------------------------------------------

  /** A success takes one off each counter that is not zero, moves a known latency 28% of the
      way to the new one, rounded down, and gives up a cooldown that has run out, and no
      other; it neither disables nor enables. */
  lemma SuccessEases(t: EndpointState, latency: nat, now: int)
    ensures var r := AfterSuccess(t, latency, now);
            && (t.failures > 0 ==> r.failures == t.failures - 1)
            && (t.timeoutFailures > 0 ==> r.timeoutFailures == t.timeoutFailures - 1)
            && (t.rateLimitFailures > 0 ==> r.rateLimitFailures == t.rateLimitFailures - 1)
            && (t.failures == 0 ==> r.failures == 0)
            && (t.timeoutFailures == 0 ==> r.timeoutFailures == 0)
            && (t.rateLimitFailures == 0 ==> r.rateLimitFailures == 0)
            && (t.avgLatency == 0 ==> r.avgLatency == latency)
            && (t.avgLatency > 0 ==>
                  100 * r.avgLatency <= 72 * t.avgLatency + 28 * latency < 100 * r.avgLatency + 100)
            && (t.cooldownUntil.Some? && t.cooldownUntil.value < now ==> r.cooldownUntil.None?)
            && (t.cooldownUntil.None? || t.cooldownUntil.value >= now ==> r.cooldownUntil == t.cooldownUntil)
            && r.disabled == t.disabled && r.lastSelectedAt == t.lastSelectedAt
            && r.recentReservations == t.recentReservations && r.lastFailureDecay == t.lastFailureDecay
  {
    if t.avgLatency > 0 {
      SmoothedIsFloor(t.avgLatency, latency);
    }
    assert SmoothedLatency(0, latency) == latency;
    hide SmoothedLatency;
  }

  lemma SmoothedIsFloor(average: nat, latency: nat)
    requires average > 0
    ensures 100 * SmoothedLatency(average, latency) <= 72 * average + 28 * latency
    ensures 72 * average + 28 * latency < 100 * SmoothedLatency(average, latency) + 100
  {
    var x := average as real * 0.72 + latency as real * 0.28;
    assert 100.0 * x == (72 * average + 28 * latency) as real;
    var n := x.Floor;
    assert n as real <= x < n as real + 1.0;
    assert (100 * n) as real <= 100.0 * x < (100 * n + 100) as real;
  }

  /** The cooldowns, in nanoseconds: half a second for a remote error, 0.7 s for a broken
      transport, and 45 s, the most there is, for an exhausted provider; */
  lemma FixedCooldowns(timeouts: uint32, rateLimits: uint32)
    ensures FailureCooldown(Remote, timeouts, rateLimits) == 500_000_000
    ensures FailureCooldown(Transport, timeouts, rateLimits) == 700_000_000
    ensures FailureCooldown(CapacityExhausted, timeouts, rateLimits) == 45_000_000_000
  {
  }

  /** 0.8 s for a first timeout, doubling with each to 12.8 s; */
  lemma TimeoutCooldowns(timeouts: uint32, rateLimits: uint32)
    ensures timeouts == 1 ==> FailureCooldown(Timeout, timeouts, rateLimits) == 800_000_000
    ensures timeouts < 5 ==>
              FailureCooldown(Timeout, timeouts + 1, rateLimits) == 2 * FailureCooldown(Timeout, timeouts, rateLimits)
    ensures timeouts >= 5 ==> FailureCooldown(Timeout, timeouts, rateLimits) == 12_800_000_000
  {
    PowersOfTwo();
    hide Pow2;
    assert timeouts < 5 ==> timeouts in {0, 1, 2, 3, 4};
  }

  /** 4 s for a first rate limit, doubling with each to 32 s. */
  lemma RateLimitCooldowns(timeouts: uint32, rateLimits: uint32)
    ensures rateLimits == 1 ==> FailureCooldown(RateLimited, timeouts, rateLimits) == 4_000_000_000
    ensures rateLimits < 4 ==>
              FailureCooldown(RateLimited, timeouts, rateLimits + 1)
              == 2 * FailureCooldown(RateLimited, timeouts, rateLimits)
    ensures rateLimits >= 4 ==> FailureCooldown(RateLimited, timeouts, rateLimits) == 32_000_000_000
  {
    PowersOfTwo();
    hide Pow2;
    assert rateLimits < 4 ==> rateLimits in {0, 1, 2, 3};
  }

  lemma PowersOfTwo()
    ensures Pow2(0) == 1 && Pow2(1) == 2 && Pow2(2) == 4 && Pow2(3) == 8 && Pow2(4) == 16 && Pow2(5) == 32
  {
  }

  /** The counter a failure of this kind raises, and by how much. */
  function Raised(kind: FailureKind): (nat, nat) {
    match kind
    case Timeout => (1, 0)
    case RateLimited => (0, 1)
    case CapacityExhausted => (0, 10)
    case _ => (0, 0)
  }

  /** A failure adds one to the failures and to the counter of its kind, ten rate limits and
      the end of its use for an exhausted provider; the cooldown lasts at least until its own
      is over and is never cut short. */
  lemma FailureRaises(t: EndpointState, kind: FailureKind, now: int)
    requires t.failures < 0xFFFF_FFFF && t.timeoutFailures < 0xFFFF_FFFF && t.rateLimitFailures < 0xFFFF_FFF5
    ensures var r := AfterFailure(t, kind, now);
            && r.failures == t.failures + 1
            && r.timeoutFailures == t.timeoutFailures + Raised(kind).0
            && r.rateLimitFailures == t.rateLimitFailures + Raised(kind).1
            && (r.disabled <==> t.disabled || kind == CapacityExhausted)
            && r.cooldownUntil.Some?
            && now + FailureCooldown(kind, r.timeoutFailures, r.rateLimitFailures) <= r.cooldownUntil.value
            && now + 500_000_000 <= r.cooldownUntil.value
            && (t.cooldownUntil.Some? ==> t.cooldownUntil.value <= r.cooldownUntil.value)
            && (t.cooldownUntil == r.cooldownUntil || r.cooldownUntil.value <= now + 45_000_000_000)
            && r.avgLatency == t.avgLatency && r.recentReservations == t.recentReservations
            && r.lastSelectedAt == t.lastSelectedAt && r.lastFailureDecay == t.lastFailureDecay
  {
    CooldownRange(kind, if kind.Timeout? then t.timeoutFailures + 1 else t.timeoutFailures,
                  t.rateLimitFailures + Raised(kind).1);
    hide FailureCooldown;
  }

  lemma CooldownRange(kind: FailureKind, timeouts: uint32, rateLimits: uint32)
    requires kind.Timeout? ==> timeouts >= 1
    ensures 500_000_000 <= FailureCooldown(kind, timeouts, rateLimits) <= 45_000_000_000
  {
    PowersOfTwo();
    hide Pow2;
    assert kind.Timeout? && timeouts < 5 ==> timeouts in {1, 2, 3, 4};
  }

  /** A success and a failure first let time take its part: what they ease or raise is what the
      full periods since the last decay left, and the window is pruned. */
  lemma RecordsSettle(s: EndpointState, last: int, now: int, periods: nat, latency: nat, kind: FailureKind)
    requires s.lastFailureDecay == Some(last)
    requires last + periods * 20_000_000_000 <= now < last + (periods + 1) * 20_000_000_000
    requires now - last <= 0x7FFF_FFFF_FFFF_FFFF && s.failures < 0xFFFF_FFFF
    ensures var t, r := Succeeded(s, latency, now), Failed(s, kind, now);
            && t.failures == (if s.failures > 2 * periods + 1 then s.failures - 2 * periods - 1 else 0)
            && r.failures == (if s.failures > 2 * periods then s.failures - 2 * periods + 1 else 1)
            && t.rateLimitFailures
               == (if s.rateLimitFailures > 4 * periods + 1 then s.rateLimitFailures - 4 * periods - 1 else 0)
            && t.lastFailureDecay == r.lastFailureDecay == Some(last + periods * 20_000_000_000)
            && t.recentReservations == r.recentReservations == Pruned(s.recentReservations, now)
  {
    DecayTakesOff(s.(recentReservations := Pruned(s.recentReservations, now)), last, now, periods);
    hide Pruned, Decayed, FailureCooldown, SmoothedLatency;
  }

  /** A reservation weighs seven units, marks the endpoint as just used, and starts a cooldown
      of 0.9 s exactly when the window then holds 36 units or more. */
  lemma ReserveMarks(s: EndpointState, now: int)
    ensures var r := Reserved(s, now);
            && |r.recentReservations| == |InLast(s.recentReservations, now)| + 1
            && r.recentReservations[|r.recentReservations| - 1] == Reservation(now, 7)
            && r.recentReservations[..|r.recentReservations| - 1] == Pruned(s.recentReservations, now)
            && r.lastSelectedAt == Some(now)
            && (BurstLoad(r.recentReservations, now) >= 36 ==> r.cooldownUntil == Some(now + 900_000_000))
            && (BurstLoad(r.recentReservations, now) < 36 ==> r.cooldownUntil == s.cooldownUntil)
            && r.disabled == s.disabled && r.failures == s.failures && r.avgLatency == s.avgLatency
            && r.timeoutFailures == s.timeoutFailures && r.rateLimitFailures == s.rateLimitFailures
            && r.lastFailureDecay == s.lastFailureDecay
  {
    PrunedCounts(s.recentReservations, now);
    hide Pruned, BurstLoad, InLast;
  }
}

/** What the prices make of a send. */
module SendPrices {
  import opened EndpointPrices
  import opened RpcEndpointSpec
  import opened RpcFleetSpec

  /** Main result: of two usable endpoints of which one is strictly worse, the worse is never
      offered without the better, but for the single offer of an odd turn; an even turn puts
      the better one first. */
  lemma WorseComesLater(s: FleetState, limit: int, now: int, ranking: seq<Scored>, ids: seq<nat>, s': FleetState,
                        a: nat, b: nat)
    requires SendStep(s, limit, now, ranking, ids, s')
    requires a < |s.endpoints| && b < |s.endpoints|
    requires var scored := AfterScoring(s.endpoints, now);
             Eligible(scored[a], now) && Eligible(scored[b], now)
             && NoWorse(scored[a], scored[b], now) && StrictlyWorse(scored[a], scored[b], now)
    ensures s.rotation % 2 == 0 && b in ids ==> ids == [a, b]
    ensures s.rotation % 2 == 1 && b in ids ==> ids == if limit == 1 then [b] else [b, a]
  {
    var scored := AfterScoring(s.endpoints, now);
    ScoreOrders(scored[a], scored[b], now);
    TwoUsable(scored, now, a, b);
    hide *;
    SendPicksBest(s, limit, now, ranking, ids, s');
    var offer :| OffersBest(offer, scored, now, s.rotation) && ids == if limit == 1 then offer[..1] else offer;
    OfferInOrder(offer, scored, now, s.rotation, a, b);
  }

  lemma OfferInOrder(offer: seq<nat>, states: seq<EndpointState>, now: int, rotation: nat, a: nat, b: nat)
    requires OffersBest(offer, states, now, rotation)
    requires a in EligibleSet(states, now) && b in EligibleSet(states, now)
    requires ScoreOf(states[a], now) < ScoreOf(states[b], now)
    ensures |offer| == 2
    ensures b in offer ==> offer == if rotation % 2 == 0 then [a, b] else [b, a]
  {
    hide ScoreOf, Eligible;
  }

  lemma TwoUsable(states: seq<EndpointState>, now: int, a: nat, b: nat)
    requires a < |states| && b < |states| && a != b && Eligible(states[a], now) && Eligible(states[b], now)
    ensures a in EligibleSet(states, now) && b in EligibleSet(states, now) && |EligibleSet(states, now)| >= 2
  {
    var pair := {a, b};
    assert pair <= EligibleSet(states, now);
    assert |EligibleSet(states, now) - pair| + |pair| == |EligibleSet(states, now)|;
  }
}

/** One RPC endpoint of the fleet (rpc_fleet.go): the state the source keeps per
    endpoint, as a value, and what each endpoint method does to it. Times and
    durations are nanoseconds; the zero time.Time is None; uint32 arithmetic
    wraps; float64 scores are exact reals. */
module RpcEndpointSpec {
  import opened Wrappers

  const MILLISECOND := 1_000_000
  const SECOND := 1_000_000_000
  const BURST_WINDOW := 1200 * MILLISECOND
  const FAILURE_DECAY := 20 * SECOND
  const BURST_CAPACITY := 18
  const SEND_BURST_COST := 7
  const BURST_COOLDOWN := 900 * MILLISECOND
  const UINT32_LIMIT := 0x1_0000_0000
  const MAX_DURATION := 0x7FFF_FFFF_FFFF_FFFF

  type uint32 = x: int | 0 <= x < 0x1_0000_0000

  datatype Reservation = Reservation(at: int, units: uint32)

  datatype FailureKind = Remote | Timeout | RateLimited | CapacityExhausted | Transport

  datatype EndpointState = EndpointState(
    failures: uint32,
    timeoutFailures: uint32,
    rateLimitFailures: uint32,
    disabled: bool,
    cooldownUntil: Option<int>,
    avgLatency: nat,
    lastFailureDecay: Option<int>,
    recentReservations: seq<Reservation>,
    lastSelectedAt: Option<int>)

  function InitialEndpoint(now: int): EndpointState {
    EndpointState(0, 0, 0, false, None, 0, Some(now), [], None)
  }

  /** Addition on uint32. */
  function AddUint32(a: int, b: int): (r: uint32) {
    (a + b) % UINT32_LIMIT
  }

  function SubtractUint32(value: uint32, amount: uint32): (r: uint32) {
    if amount > value then 0 else value - amount
  }

  /** Time.Sub: the difference, held inside the Duration range. */
  function TimeSub(a: int, b: int): int {
    if a - b > MAX_DURATION then MAX_DURATION
    else if a - b < -MAX_DURATION - 1 then -MAX_DURATION - 1
    else a - b
  }

  /** Go's integer division, which truncates toward zero. */
  function TruncatedDiv(a: int, b: int): int
    requires b > 0
  {
    if a >= 0 then a / b else -((-a) / b)
  }

  // ---- prune and burstLoad -------------------------------------------------

  predicate InWindow(item: Reservation, now: int) {
    now - item.at <= BURST_WINDOW
  }

  /** The reservations still inside the burst window, in order. */
  function Pruned(items: seq<Reservation>, now: int): (kept: seq<Reservation>) {
    if items == [] then []
    else
      var last := items[|items| - 1];
      Pruned(items[..|items| - 1], now) + if InWindow(last, now) then [last] else []
  }

  /** Units reserved inside the burst window. */
  function BurstLoad(items: seq<Reservation>, now: int): (total: uint32) {
    if items == [] then 0
    else
      var last := items[|items| - 1];
      var rest := BurstLoad(items[..|items| - 1], now);
      if InWindow(last, now) then AddUint32(rest, last.units) else rest
  }

  // ---- decay ---------------------------------------------------------------

  /** Whole decay periods between the last decay and now, as a uint32. */
  function DecaySteps(last: int, now: int): (steps: uint32) {
    TruncatedDiv(TimeSub(now, last), FAILURE_DECAY) % UINT32_LIMIT
  }

  function Decayed(s: EndpointState, now: int): EndpointState {
    match s.lastFailureDecay
    case None => s.(lastFailureDecay := Some(now))
    case Some(last) =>
      var steps := DecaySteps(last, now);
      if steps == 0 then s
      else s.(lastFailureDecay := Some(last + steps * FAILURE_DECAY),
              failures := SubtractUint32(s.failures, (steps * 2) % UINT32_LIMIT),
              timeoutFailures := SubtractUint32(s.timeoutFailures, (steps * 2) % UINT32_LIMIT),
              rateLimitFailures := SubtractUint32(s.rateLimitFailures, (steps * 4) % UINT32_LIMIT))
  }

  /** What prune followed by decay leaves behind. */
  function Settled(s: EndpointState, now: int): EndpointState {
    Decayed(s.(recentReservations := Pruned(s.recentReservations, now)), now)
  }

  /** Settling touches only the reservations and the decaying counters. */
  lemma SettledFrame(s: EndpointState, u: int)
    ensures Settled(s, u).recentReservations == Pruned(s.recentReservations, u)
    ensures Settled(s, u).cooldownUntil == s.cooldownUntil
    ensures Settled(s, u).disabled == s.disabled
    ensures Settled(s, u).lastSelectedAt == s.lastSelectedAt
    ensures Settled(s, u).avgLatency == s.avgLatency
  {
  }

  // ---- score ---------------------------------------------------------------

  predicate Cooling(s: EndpointState, now: int) {
    s.cooldownUntil.Some? && s.cooldownUntil.value > now
  }

  predicate Eligible(s: EndpointState, now: int) {
    !s.disabled && !Cooling(s, now)
  }

  function BurstPenalty(burst: uint32): real {
    var ratio := burst as real / BURST_CAPACITY as real;
    if ratio >= 1.0 then 25000.0 + (ratio - 1.0) * 8000.0 else ratio * ratio * 2200.0
  }

  function RecencyPenalty(lastSelectedAt: Option<int>, now: int): real {
    if lastSelectedAt.Some? && now - lastSelectedAt.value < 180 * MILLISECOND
    then ((180 * MILLISECOND - (now - lastSelectedAt.value)) / MILLISECOND) as real * 2.4
    else 0.0
  }

  function ScoreOf(s: EndpointState, now: int): real {
    (if s.avgLatency > 0 then (s.avgLatency / MILLISECOND) as real else 120.0)
    + s.failures as real * 180.0
    + s.rateLimitFailures as real * 900.0
    + BurstPenalty(BurstLoad(s.recentReservations, now))
    + RecencyPenalty(s.lastSelectedAt, now)
  }

  // ---- reserve, recordSuccess, recordFailure ---------------------------------

  function Reserved(s: EndpointState, now: int): EndpointState {
    var items := Pruned(s.recentReservations, now) + [Reservation(now, SEND_BURST_COST)];
    s.(recentReservations := items,
       lastSelectedAt := Some(now),
       cooldownUntil := if BurstLoad(items, now) >= 2 * BURST_CAPACITY
                        then Some(now + BURST_COOLDOWN) else s.cooldownUntil)
  }

  function Decremented(value: uint32): uint32 {
    if value > 0 then value - 1 else value
  }

  /** The latency average moves 28% of the way to the new sample. */
  function SmoothedLatency(average: nat, latency: nat): nat {
    if average > 0 then (average as real * 0.72 + latency as real * 0.28).Floor else latency
  }

  function Succeeded(s: EndpointState, latency: nat, now: int): EndpointState {
    AfterSuccess(Settled(s, now), latency, now)
  }

  function AfterSuccess(t: EndpointState, latency: nat, now: int): EndpointState {
    t.(avgLatency := SmoothedLatency(t.avgLatency, latency),
       failures := Decremented(t.failures),
       timeoutFailures := Decremented(t.timeoutFailures),
       rateLimitFailures := Decremented(t.rateLimitFailures),
       cooldownUntil := if t.cooldownUntil.Some? && t.cooldownUntil.value < now
                        then None else t.cooldownUntil)
  }

  function ShiftLeftOne(count: uint32, max: nat): nat {
    Pow2(if count > max then max else count)
  }

  function Pow2(n: nat): (p: nat)
    ensures p >= 1
  {
    if n == 0 then 1 else 2 * Pow2(n - 1)
  }

  /** The cooldown a failure asks for, once its own counter has been raised. */
  function FailureCooldown(kind: FailureKind, timeouts: uint32, rateLimits: uint32): nat {
    var wanted := match kind
      case Remote => 500 * MILLISECOND
      case Timeout => 400 * ShiftLeftOne(timeouts, 5) * MILLISECOND
      case RateLimited => 2 * ShiftLeftOne(rateLimits, 4) * SECOND
      case CapacityExhausted => 24 * 3600 * SECOND
      case Transport => 700 * MILLISECOND;
    if wanted > 45 * SECOND then 45 * SECOND else wanted
  }

  function Failed(s: EndpointState, kind: FailureKind, now: int): EndpointState {
    AfterFailure(Settled(s, now), kind, now)
  }

  function AfterFailure(t: EndpointState, kind: FailureKind, now: int): EndpointState {
    var timeouts := if kind.Timeout? then AddUint32(t.timeoutFailures, 1) else t.timeoutFailures;
    var rateLimits := match kind
      case RateLimited => AddUint32(t.rateLimitFailures, 1)
      case CapacityExhausted => AddUint32(t.rateLimitFailures, 10)
      case _ => t.rateLimitFailures;
    var until := now + FailureCooldown(kind, timeouts, rateLimits);
    t.(failures := AddUint32(t.failures, 1),
       timeoutFailures := timeouts,
       rateLimitFailures := rateLimits,
       disabled := t.disabled || kind.CapacityExhausted?,
       cooldownUntil := if t.cooldownUntil.None? || t.cooldownUntil.value < until
                        then Some(until) else t.cooldownUntil)
  }
}

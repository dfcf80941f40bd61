/** Scoring an endpoint prunes and decays it, yet no caller can tell whether
    anybody scored it in between: extra score calls change no later result. */
module ScorePurity {
  import opened Wrappers
  import opened RpcEndpointSpec

  /** The clock has not moved beyond what a time.Duration can hold since the last
      decay; 2^63 nanoseconds are about 292 years. */
  predicate WithinDuration(s: EndpointState, now: int) {
    s.lastFailureDecay.Some? && 0 <= now - s.lastFailureDecay.value <= MAX_DURATION
  }

  // ---- pruning ---------------------------------------------------------------

  lemma {:induction false} PrunedTwice(items: seq<Reservation>, t1: int, t2: int)
    requires t1 <= t2
    ensures Pruned(Pruned(items, t1), t2) == Pruned(items, t2)
  {
    if items != [] {
      var init, last := items[..|items| - 1], items[|items| - 1];
      PrunedTwice(init, t1, t2);
      var kept := Pruned(init, t1);
      if InWindow(last, t1) {
        assert (kept + [last])[..|kept + [last]| - 1] == kept;
      } else {
        assert kept + [] == kept;
      }
    }
  }

  // ---- decaying --------------------------------------------------------------

  /** Within the Duration range the uint32 arithmetic of decay does not wrap. */
  lemma DecayStepsExact(last: int, now: int)
    requires 0 <= now - last <= MAX_DURATION
    ensures DecaySteps(last, now) == (now - last) / FAILURE_DECAY
    ensures DecaySteps(last, now) * 2 % UINT32_LIMIT == DecaySteps(last, now) * 2
    ensures DecaySteps(last, now) * 4 % UINT32_LIMIT == DecaySteps(last, now) * 4
    ensures last + DecaySteps(last, now) * FAILURE_DECAY <= now
  {
    assert (now - last) / FAILURE_DECAY <= 461_168_601;
  }

  /** `later` is `s` after k further decay periods and nothing else. */
  predicate AheadBy(s: EndpointState, later: EndpointState, k: nat) {
    s.lastFailureDecay.Some?
    && later == s.(recentReservations := later.recentReservations,
                   lastFailureDecay := Some(s.lastFailureDecay.value + k * FAILURE_DECAY),
                   failures := if 2 * k > s.failures then 0 else s.failures - 2 * k,
                   timeoutFailures := if 2 * k > s.timeoutFailures then 0 else s.timeoutFailures - 2 * k,
                   rateLimitFailures := if 4 * k > s.rateLimitFailures then 0 else s.rateLimitFailures - 4 * k)
  }

  /** The two states differ only by decay already due at `now` and by reservations
      that are out of the window at `now`. */
  ghost predicate Indistinguishable(s: EndpointState, later: EndpointState, now: int) {
    WithinDuration(s, now) && WithinDuration(later, now)
    && Pruned(s.recentReservations, now) == Pruned(later.recentReservations, now)
    && exists k: nat :: AheadBy(s, later, k)
  }

  lemma DecayedIsAhead(s: EndpointState, now: int)
    requires WithinDuration(s, now)
    ensures AheadBy(s, Decayed(s, now), (now - s.lastFailureDecay.value) / FAILURE_DECAY)
    ensures Decayed(s, now).recentReservations == s.recentReservations
  {
    DecayStepsExact(s.lastFailureDecay.value, now);
  }

  lemma DecayPeriodsAdd(last: int, k: int, now: int)
    ensures (now - (last + k * FAILURE_DECAY)) / FAILURE_DECAY == (now - last) / FAILURE_DECAY - k
  {
  }

  /** Indistinguishable states settle to the same state. */
  lemma SettleAlike(s: EndpointState, later: EndpointState, now: int, u: int)
    requires Indistinguishable(s, later, now) && now <= u && WithinDuration(s, u)
    ensures Settled(s, u) == Settled(later, u)
    ensures WithinDuration(later, u)
  {
    var k: nat :| AheadBy(s, later, k);
    PrunedTwice(s.recentReservations, now, u);
    PrunedTwice(later.recentReservations, now, u);
    var items := Pruned(s.recentReservations, u);
    DecayAlike(s.(recentReservations := items), later.(recentReservations := items), k, u);
  }

  lemma AheadCompose(a: EndpointState, b: EndpointState, c: EndpointState, j: nat, k: nat)
    requires AheadBy(a, b, j) && AheadBy(b, c, k)
    ensures AheadBy(a, c, j + k)
  {
    assert j * FAILURE_DECAY + k * FAILURE_DECAY == (j + k) * FAILURE_DECAY;
  }

  lemma DecayAlike(s: EndpointState, later: EndpointState, k: nat, u: int)
    requires AheadBy(s, later, k) && s.recentReservations == later.recentReservations
    requires WithinDuration(s, u) && WithinDuration(later, u)
    ensures Decayed(s, u) == Decayed(later, u)
  {
    hide Decayed;
    var n := (u - s.lastFailureDecay.value) / FAILURE_DECAY;
    DecayPeriodsAdd(s.lastFailureDecay.value, k, u);
    DecayedIsAhead(s, u);
    DecayedIsAhead(later, u);
    AheadCompose(s, later, Decayed(later, u), k, n - k);
  }

  /** Settling at t1 and again at t2 is settling once at t2. */
  lemma SettledTwice(s: EndpointState, t1: int, t2: int)
    requires t1 <= t2 && WithinDuration(s, t1) && WithinDuration(s, t2)
    ensures Settled(Settled(s, t1), t2) == Settled(s, t2)
  {
    SettledIsIndistinguishable(s, t1);
    SettleAlike(s, Settled(s, t1), t1, t2);
  }

  lemma SettledIsIndistinguishable(s: EndpointState, now: int)
    requires WithinDuration(s, now)
    ensures Indistinguishable(s, Settled(s, now), now)
  {
    var s' := s.(recentReservations := Pruned(s.recentReservations, now));
    hide Decayed, Pruned, DecaySteps;
    DecayedIsAhead(s', now);
    DecayStepsExact(s.lastFailureDecay.value, now);
    PrunedTwice(s.recentReservations, now, now);
    assert AheadBy(s, Settled(s, now), (now - s.lastFailureDecay.value) / FAILURE_DECAY);
  }

  lemma ReserveAlike(s: EndpointState, later: EndpointState, now: int, u: int)
    requires Indistinguishable(s, later, now) && now <= u && WithinDuration(s, u)
    ensures Indistinguishable(Reserved(s, u), Reserved(later, u), u)
  {
    var k: nat :| AheadBy(s, later, k);
    PrunedTwice(s.recentReservations, now, u);
    PrunedTwice(later.recentReservations, now, u);
    SettleAlike(s, later, now, u);
    assert AheadBy(Reserved(s, u), Reserved(later, u), k);
  }

  // ---- runs --------------------------------------------------------------------

  /** What the fleet does to one endpoint: score it, reserve it, report an outcome,
      or clear its cooldown when every endpoint is cooling. */
  datatype Call =
    | ScoreCall
    | ReserveCall
    | SuccessCall(latency: nat)
    | FailureCall(kind: FailureKind)
    | ClearCooldownCall

  /** A call at a time; `extra` marks a call inserted into the run. */
  datatype Event = Event(at: int, call: Call, extra: bool)

  datatype Verdict = NoScore | Refused | Scored(score: real)

  function Apply(s: EndpointState, e: Event): EndpointState {
    match e.call
    case ScoreCall => Settled(s, e.at)
    case ReserveCall => Reserved(s, e.at)
    case SuccessCall(latency) => Succeeded(s, latency, e.at)
    case FailureCall(kind) => Failed(s, kind, e.at)
    case ClearCooldownCall => s.(cooldownUntil := None)
  }

  function Answer(s: EndpointState, e: Event): Verdict {
    if !e.call.ScoreCall? then NoScore
    else
      var t := Settled(s, e.at);
      if Eligible(t, e.at) then Scored(ScoreOf(t, e.at)) else Refused
  }

  /** The state after a run of events. */
  function Final(s: EndpointState, events: seq<Event>): EndpointState
    decreases events
  {
    if events == [] then s else Final(Apply(s, events[0]), events[1..])
  }

  /** What the calls that are not extra answered, in order. */
  function Answers(s: EndpointState, events: seq<Event>): seq<Verdict>
    decreases events
  {
    if events == [] then []
    else
      (if events[0].extra then [] else [Answer(s, events[0])])
      + Answers(Apply(s, events[0]), events[1..])
  }

  /** The run without its extra calls. */
  function WithoutExtras(events: seq<Event>): seq<Event> {
    if events == [] then []
    else (if events[0].extra then [] else [events[0]]) + WithoutExtras(events[1..])
  }

  predicate Chronological(start: int, events: seq<Event>, end: int)
    decreases events
  {
    if events == [] then start <= end
    else start <= events[0].at && Chronological(events[0].at, events[1..], end)
  }

  lemma {:induction false} ChronologicalEnd(start: int, events: seq<Event>, end: int)
    requires Chronological(start, events, end)
    ensures start <= end
    decreases events
  {
    if events != [] {
      ChronologicalEnd(events[0].at, events[1..], end);
    }
  }

  lemma ApplyKeepsClock(s: EndpointState, e: Event, end: int)
    requires WithinDuration(s, e.at) && e.at <= end && WithinDuration(s, end)
    ensures WithinDuration(Apply(s, e), e.at) && WithinDuration(Apply(s, e), end)
  {
    DecayStepsExact(s.lastFailureDecay.value, e.at);
    hide Pruned, BurstLoad, SubtractUint32, FailureCooldown, SmoothedLatency, DecaySteps;
  }

  /** Main result: however many score calls are inserted, wherever they are inserted,
      every other call of the run answers as before, and the two final states settle
      to the same counters, cooldown and reservations. */
  lemma {:induction false} ExtraScoresAreInvisible(s: EndpointState, later: EndpointState, start: int,
                                                   events: seq<Event>, end: int)
    requires Indistinguishable(s, later, start)
    requires Chronological(start, events, end) && WithinDuration(s, end)
    requires forall i :: 0 <= i < |events| && events[i].extra ==> events[i].call.ScoreCall?
    ensures Answers(later, events) == Answers(s, WithoutExtras(events))
    ensures Settled(Final(later, events), end) == Settled(Final(s, WithoutExtras(events)), end)
    decreases events
  {
    if events == [] {
      SettleAlike(s, later, start, end);
    } else {
      var e, rest := events[0], events[1..];
      ChronologicalEnd(e.at, rest, end);
      SettleAlike(s, later, start, e.at);
      SettleAlike(s, later, start, end);
      if e.extra {
        ExtraAlike(s, later, start, e.at);
        assert WithoutExtras(events) == WithoutExtras(rest);
        ExtraScoresAreInvisible(s, Apply(later, e), e.at, rest, end);
      } else {
        StepAlike(s, later, start, e);
        ApplyKeepsClock(s, e, end);
        var others := WithoutExtras(rest);
        assert WithoutExtras(events) == [e] + others;
        assert ([e] + others)[1..] == others;
        ExtraScoresAreInvisible(Apply(s, e), Apply(later, e), e.at, rest, end);
      }
    }
  }

  /** The special case the fleet meets: both runs start from the same endpoint. */
  lemma ScoreIsObservationallyPure(s: EndpointState, start: int, events: seq<Event>, end: int)
    requires WithinDuration(s, start) && Chronological(start, events, end) && WithinDuration(s, end)
    requires forall i :: 0 <= i < |events| && events[i].extra ==> events[i].call.ScoreCall?
    ensures Answers(s, events) == Answers(s, WithoutExtras(events))
    ensures Settled(Final(s, events), end) == Settled(Final(s, WithoutExtras(events)), end)
  {
    SelfIndistinguishable(s, start);
    ExtraScoresAreInvisible(s, s, start, events, end);
  }

  lemma SelfIndistinguishable(s: EndpointState, now: int)
    requires WithinDuration(s, now)
    ensures Indistinguishable(s, s, now)
  {
    assert AheadBy(s, s, 0);
  }

  lemma ClearAlike(s: EndpointState, later: EndpointState, now: int, u: int)
    requires Indistinguishable(s, later, now) && now <= u && WithinDuration(s, u)
    ensures Indistinguishable(s.(cooldownUntil := None), later.(cooldownUntil := None), u)
  {
    var k: nat :| AheadBy(s, later, k);
    PrunedTwice(s.recentReservations, now, u);
    PrunedTwice(later.recentReservations, now, u);
    SettleAlike(s, later, now, u);
    assert AheadBy(s.(cooldownUntil := None), later.(cooldownUntil := None), k);
  }

  /** One event keeps indistinguishable states indistinguishable when both runs take it. */
  lemma StepAlike(s: EndpointState, later: EndpointState, now: int, e: Event)
    requires Indistinguishable(s, later, now)
    requires now <= e.at && WithinDuration(s, e.at)
    ensures Indistinguishable(Apply(s, e), Apply(later, e), e.at)
  {
    match e.call {
      case ReserveCall => ReserveAlike(s, later, now, e.at);
      case ClearCooldownCall => ClearAlike(s, later, now, e.at);
      case _ =>
        SettleAlike(s, later, now, e.at);
        ApplyKeepsClock(s, e, e.at);
        SettlingCallAlike(s, later, e);
    }
  }

  /** The other calls settle first, so they cannot tell the two states apart. */
  lemma SettlingCallAlike(s: EndpointState, later: EndpointState, e: Event)
    requires Settled(s, e.at) == Settled(later, e.at) && WithinDuration(Apply(s, e), e.at)
    requires !e.call.ReserveCall? && !e.call.ClearCooldownCall?
    ensures Indistinguishable(Apply(s, e), Apply(later, e), e.at)
  {
    assert Apply(s, e) == Apply(later, e);
    SelfIndistinguishable(Apply(s, e), e.at);
  }

  /** An extra score call leaves the right run where the left one, which skips it, is. */
  lemma ExtraAlike(s: EndpointState, later: EndpointState, now: int, u: int)
    requires Indistinguishable(s, later, now)
    requires now <= u && WithinDuration(s, u)
    ensures Indistinguishable(s, Settled(later, u), u)
  {
    SettleAlike(s, later, now, u);
    SettledIsIndistinguishable(s, u);
  }
}

/** How many reservations one endpoint can hold inside its burst window. */
module BurstBound {
  import opened Wrappers
  import opened RpcEndpointSpec

  const MAX_HELD := 7

  predicate Ordered(items: seq<Reservation>, now: int) {
    (forall i :: 0 <= i < |items| ==> items[i].at <= now && items[i].units == SEND_BURST_COST)
    && forall i, j :: 0 <= i < j < |items| ==> items[i].at <= items[j].at
  }

  /** Either still cooling for the reservation made at `at`, or that cooldown has run out. */
  predicate CooledSince(cooldownUntil: Option<int>, at: int, now: int) {
    now >= at + BURST_COOLDOWN
    || (cooldownUntil.Some? && cooldownUntil.value >= at + BURST_COOLDOWN)
  }

  /** The invariant behind the bound. Six held reservations (42 units, limit 36) start a
      cooldown from the last of them, so a seventh comes at least 900 ms later; an
      eighth would then find only the seventh still in the 1.2 s window. */
  predicate Spaced(items: seq<Reservation>, cooldownUntil: Option<int>, now: int) {
    |items| <= MAX_HELD
    && (|items| >= 6 ==> CooledSince(cooldownUntil, items[|items| - 1].at, now))
    && (|items| == 7 ==> items[6].at - items[5].at >= BURST_COOLDOWN)
  }

  predicate BurstInvariant(s: EndpointState, now: int) {
    Ordered(s.recentReservations, now) && Spaced(s.recentReservations, s.cooldownUntil, now)
  }

  predicate InOrder(items: seq<Reservation>) {
    forall i, j :: 0 <= i < j < |items| ==> items[i].at <= items[j].at
  }

  lemma InitInOrder(items: seq<Reservation>)
    requires items != [] && InOrder(items)
    ensures InOrder(items[..|items| - 1])
  {
  }

  /** When the last one is out of the window, so are all before it. */
  lemma OlderIsOut(items: seq<Reservation>, k: nat, now: int)
    requires InOrder(items) && k < |items| && !InWindow(items[|items| - 1], now)
    ensures !InWindow(items[k], now)
  {
  }

  lemma DropThenAppend(items: seq<Reservation>, k: nat)
    requires items != [] && k < |items|
    ensures items[..|items| - 1][k..] + [items[|items| - 1]] == items[k..]
  {
  }

  /** Of reservations in time order, pruning drops a prefix. */
  lemma {:induction false} PrunedIsSuffix(items: seq<Reservation>, now: int) returns (k: nat)
    requires InOrder(items)
    ensures k <= |items| && Pruned(items, now) == items[k..]
    ensures k > 0 ==> !InWindow(items[k - 1], now)
    ensures k < |items| ==> InWindow(items[k], now)
  {
    hide InWindow, InOrder;
    if items == [] {
      k := 0;
    } else {
      var m := |items| - 1;
      InitInOrder(items);
      k := PrunedIsSuffix(items[..m], now);
      if InWindow(items[m], now) {
        DropThenAppend(items, k);
      } else {
        if k < m {
          OlderIsOut(items, k, now);
        }
        assert items[..m][m..] == [] && items[m + 1..] == [];
        k := m + 1;
      }
    }
  }

  /** With at most seven equal reservations in the window the load does not wrap. */
  lemma {:induction false} LoadOfWindow(items: seq<Reservation>, now: int)
    requires |items| <= MAX_HELD
    requires forall i :: 0 <= i < |items| ==> InWindow(items[i], now) && items[i].units == SEND_BURST_COST
    ensures BurstLoad(items, now) == SEND_BURST_COST * |items|
  {
    if items != [] {
      LoadOfWindow(items[..|items| - 1], now);
    }
  }

  lemma SuffixOrdered(items: seq<Reservation>, k: nat, now: int, u: int)
    requires Ordered(items, now) && now <= u && k <= |items|
    ensures Ordered(items[k..], u)
  {
  }

  /** Dropping a prefix and letting time pass keeps the spacing, provided a cooldown
      is given up only when it has run out. */
  lemma SuffixSpaced(items: seq<Reservation>, k: nat, before: Option<int>, after: Option<int>, now: int, u: int)
    requires Spaced(items, before, now) && now <= u && k <= |items|
    requires before.Some? && before.value >= u ==> after.Some? && after.value >= before.value
    ensures Spaced(items[k..], after, u)
  {
    if |items[k..]| >= 6 {
      assert items[k..][|items| - k - 1] == items[|items| - 1];
    }
  }

  /** One more reservation on an endpoint that is not cooling keeps the spacing. */
  lemma OneMoreSpaced(items: seq<Reservation>, k: nat, cooldownUntil: Option<int>, now: int, u: int)
    requires Spaced(items, cooldownUntil, now) && now <= u && k <= |items|
    requires cooldownUntil.Some? ==> cooldownUntil.value <= u
    requires k < |items| ==> InWindow(items[k], u)
    requires |items| == 7 && k <= 5 ==> InWindow(items[5], u)
    ensures |items[k..]| <= 6
    ensures Spaced(items[k..] + [Reservation(u, SEND_BURST_COST)],
                   if |items[k..]| >= 5 then Some(u + BURST_COOLDOWN) else cooldownUntil, u)
  {
    var rest := items[k..];
    if |rest| >= 6 {
      assert rest[|rest| - 1] == items[|items| - 1];
    }
  }

  /** Settling, and then giving up at most a cooldown that has run out or extending it. */
  lemma PruneKeepsBurst(s: EndpointState, t: EndpointState, now: int, u: int)
    requires BurstInvariant(s, now) && now <= u
    requires t.recentReservations == Pruned(s.recentReservations, u)
    requires var c := s.cooldownUntil;
             c.Some? && c.value >= u ==> t.cooldownUntil.Some? && t.cooldownUntil.value >= c.value
    ensures BurstInvariant(t, u)
  {
    var k := PrunedIsSuffix(s.recentReservations, u);
    SuffixOrdered(s.recentReservations, k, now, u);
    SuffixSpaced(s.recentReservations, k, s.cooldownUntil, t.cooldownUntil, now, u);
  }

  lemma SettleKeepsBurst(s: EndpointState, now: int, u: int)
    requires BurstInvariant(s, now) && now <= u
    ensures BurstInvariant(Settled(s, u), u)
  {
    SettledFrame(s, u);
    PruneKeepsBurst(s, Settled(s, u), now, u);
  }

  lemma SuccessKeepsBurst(s: EndpointState, latency: nat, now: int, u: int)
    requires BurstInvariant(s, now) && now <= u
    ensures BurstInvariant(Succeeded(s, latency, u), u)
  {
    SettledFrame(s, u);
    PruneKeepsBurst(s, Succeeded(s, latency, u), now, u);
  }

  lemma FailureKeepsBurst(s: EndpointState, kind: FailureKind, now: int, u: int)
    requires BurstInvariant(s, now) && now <= u
    ensures BurstInvariant(Failed(s, kind, u), u)
  {
    SettledFrame(s, u);
    PruneKeepsBurst(s, Failed(s, kind, u), now, u);
  }

  lemma OneMoreOrdered(items: seq<Reservation>, u: int)
    requires Ordered(items, u)
    ensures Ordered(items + [Reservation(u, SEND_BURST_COST)], u)
  {
  }

  /** The load seen by a reservation that found k reservations out of the window. */
  lemma LoadAfterOneMore(items: seq<Reservation>, k: nat, u: int)
    requires k <= |items| && (k < |items| ==> InWindow(items[k], u))
    requires Ordered(items, u) && |items[k..]| <= 6
    ensures BurstLoad(items[k..] + [Reservation(u, SEND_BURST_COST)], u) == SEND_BURST_COST * (|items[k..]| + 1)
  {
    var rest := items[k..];
    forall i | 0 <= i < |rest|
      ensures InWindow(rest[i], u) && rest[i].units == SEND_BURST_COST
    {
      assert rest[i] == items[k + i];
    }
    LoadOfWindow(rest + [Reservation(u, SEND_BURST_COST)], u);
  }

  lemma ReserveKeepsBurst(s: EndpointState, now: int, u: int)
    requires BurstInvariant(s, now) && now <= u && Eligible(s, u)
    ensures BurstInvariant(Reserved(s, u), u)
  {
    var items := s.recentReservations;
    var k := PrunedIsSuffix(items, u);
    assert |items| == 7 && k <= 5 ==> InWindow(items[5], u);
    OneMoreSpaced(items, k, s.cooldownUntil, now, u);
    SuffixOrdered(items, 0, now, u);
    SuffixOrdered(items, k, now, u);
    OneMoreOrdered(items[k..], u);
    LoadAfterOneMore(items, k, u);
  }
}

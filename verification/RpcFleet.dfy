/** The fleet as a value: which endpoints sendCandidates may pick, in which order,
    and what every fleet operation does to the endpoints. */
module RpcFleetSpec {
  import opened Wrappers
  import opened RpcEndpointSpec

  const UINT64_LIMIT := 0x1_0000_0000_0000_0000
  /** Beyond this the rotation counter turns negative when converted to int. */
  const ROTATION_LIMIT := 0x8000_0000_0000_0000

  datatype Scored = Scored(ep: nat, score: real)

  datatype FleetState = FleetState(endpoints: seq<EndpointState>, rotation: nat)

  function InitialFleet(count: nat, now: int): FleetState {
    FleetState(seq(count, i => InitialEndpoint(now)), 0)
  }

  function SettleAll(states: seq<EndpointState>, now: int): (settled: seq<EndpointState>)
    ensures |settled| == |states|
  {
    seq(|states|, i requires 0 <= i < |states| => Settled(states[i], now))
  }

  /** The endpoints that score, in fleet order. */
  function Candidates(states: seq<EndpointState>, now: int): (found: seq<Scored>) {
    if states == [] then []
    else
      var n := |states| - 1;
      Candidates(states[..n], now)
      + if Eligible(states[n], now) then [Scored(n, ScoreOf(states[n], now))] else []
  }

  function UncoolAll(states: seq<EndpointState>, now: int): (settled: seq<EndpointState>)
    ensures |settled| == |states|
  {
    seq(|states|, i requires 0 <= i < |states| => Settled(states[i].(cooldownUntil := None), now))
  }

  predicate AllRefused(states: seq<EndpointState>, now: int) {
    Candidates(SettleAll(states, now), now) == []
  }

  /** The endpoints after scoring: when all of them refuse, every cooldown is
      dropped and they are scored again. */
  function AfterScoring(states: seq<EndpointState>, now: int): (scored: seq<EndpointState>)
    ensures |scored| == |states|
  {
    var settled := SettleAll(states, now);
    if AllRefused(states, now) then UncoolAll(settled, now) else settled
  }

  predicate SortedByScore(ranking: seq<Scored>) {
    forall i, j :: 0 <= i < j < |ranking| ==> ranking[i].score <= ranking[j].score
  }

  /** `ranking` lists exactly the scoring endpoints, lowest score first. */
  predicate RanksCandidates(ranking: seq<Scored>, states: seq<EndpointState>, now: int) {
    multiset(ranking) == multiset(Candidates(states, now)) && SortedByScore(ranking)
  }

  function Cut(items: seq<Scored>, limit: int): seq<Scored> {
    if limit <= 0 || limit > |items| then items else items[..limit]
  }

  /** The two best, swapped on odd turns, cut to a positive limit. */
  function Chosen(ranking: seq<Scored>, rotation: nat, limit: int): seq<Scored> {
    Cut(if |ranking| <= 1 then ranking
        else if rotation % 2 == 0 then [ranking[0], ranking[1]]
        else [ranking[1], ranking[0]], limit)
  }

  function EndpointIds(items: seq<Scored>): (ids: seq<nat>)
    ensures |ids| == |items|
    ensures forall i :: 0 <= i < |items| ==> ids[i] == items[i].ep
  {
    seq(|items|, i requires 0 <= i < |items| => items[i].ep)
  }

  function ReserveAll(states: seq<EndpointState>, ids: seq<nat>, now: int): (reserved: seq<EndpointState>)
    ensures |reserved| == |states|
  {
    seq(|states|, i requires 0 <= i < |states| => if i in ids then Reserved(states[i], now) else states[i])
  }

  /** One sendCandidates call at `now` that ranked the endpoints as `ranking`. */
  predicate SendStep(s: FleetState, limit: int, now: int, ranking: seq<Scored>, ids: seq<nat>, s': FleetState) {
    var scored := AfterScoring(s.endpoints, now);
    RanksCandidates(ranking, scored, now)
    && ids == EndpointIds(Chosen(ranking, s.rotation, limit))
    && s' == FleetState(ReserveAll(scored, ids, now),
                        if |ranking| >= 2 then (s.rotation + 1) % UINT64_LIMIT else s.rotation)
  }

  // ---- what a call returns -----------------------------------------------------

  lemma {:induction false} CandidatesAreEligible(states: seq<EndpointState>, now: int)
    ensures forall x :: x in Candidates(states, now) <==>
              x.ep < |states| && Eligible(states[x.ep], now) && x.score == ScoreOf(states[x.ep], now)
    ensures forall x :: multiset(Candidates(states, now))[x] <= 1
  {
    if states != [] {
      var n := |states| - 1;
      CandidatesAreEligible(states[..n], now);
    }
  }

  /** Equal elements at two places would have multiplicity two. */
  lemma OccursTwice<T>(items: seq<T>, i: nat, j: nat)
    requires i < j < |items| && items[i] == items[j]
    ensures multiset(items)[items[i]] >= 2
  {
    var front, back := items[..j], items[j..];
    assert items == front + back;
    assert front[i] == items[i] && back[0] == items[j];
    assert items[i] in multiset(front) && items[i] in multiset(back);
  }

  function EligibleSet(states: seq<EndpointState>, now: int): set<nat> {
    set e: nat | e < |states| && Eligible(states[e], now)
  }

  /** Every eligible endpoint once, with its score, lowest score first. */
  ghost predicate IsRanking(ranking: seq<Scored>, states: seq<EndpointState>, now: int) {
    && SortedByScore(ranking)
    && |ranking| == |EligibleSet(states, now)|
    && (forall i :: 0 <= i < |ranking| ==>
          ranking[i].ep in EligibleSet(states, now) && ranking[i].score == ScoreOf(states[ranking[i].ep], now))
    && (forall i, j :: 0 <= i < j < |ranking| ==> ranking[i].ep != ranking[j].ep)
    && (forall e :: e in EligibleSet(states, now) ==> exists i :: 0 <= i < |ranking| && ranking[i].ep == e)
  }

  lemma PermutationIsRanking(ranking: seq<Scored>, states: seq<EndpointState>, now: int)
    requires RanksCandidates(ranking, states, now)
    ensures IsRanking(ranking, states, now)
  {
    CandidatesAreEligible(states, now);
    CandidateCount(states, now);
    var found := Candidates(states, now);
    hide Candidates, Eligible, ScoreOf;
    SameMembers(ranking, found);
    forall i, j | 0 <= i < j < |ranking|
      ensures ranking[i].ep != ranking[j].ep
    {
      if ranking[i].ep == ranking[j].ep {
        assert ranking[i] in found && ranking[j] in found;
        OccursTwice(ranking, i, j);
      }
    }
    forall e | e in EligibleSet(states, now)
      ensures exists i :: 0 <= i < |ranking| && ranking[i].ep == e
    {
      assert Scored(e, ScoreOf(states[e], now)) in ranking;
    }
    assert forall i :: 0 <= i < |ranking| ==> ranking[i] in ranking;
  }

  lemma SameMembers<T>(a: seq<T>, b: seq<T>)
    requires multiset(a) == multiset(b)
    ensures |a| == |b| && forall x :: x in a <==> x in b
  {
    assert |multiset(a)| == |multiset(b)|;
    assert forall x :: x in a <==> x in multiset(a);
    assert forall x :: x in b <==> x in multiset(b);
  }

  lemma {:induction false} CandidateCount(states: seq<EndpointState>, now: int)
    ensures |Candidates(states, now)| == |EligibleSet(states, now)|
  {
    if states != [] {
      var n := |states| - 1;
      CandidateCount(states[..n], now);
      assert EligibleSet(states, now)
          == EligibleSet(states[..n], now) + if Eligible(states[n], now) then {n} else {};
    }
  }

  predicate Distinct(ids: seq<nat>) {
    forall i, j :: 0 <= i < j < |ids| ==> ids[i] != ids[j]
  }

  lemma ChosenAreEligible(ranking: seq<Scored>, states: seq<EndpointState>, now: int, rotation: nat, limit: int)
    requires IsRanking(ranking, states, now)
    ensures var ids := EndpointIds(Chosen(ranking, rotation, limit));
            var usable := |EligibleSet(states, now)|;
            var top := if usable < 2 then usable else 2;
            && |ids| == (if 0 < limit < top then limit else top)
            && (forall i :: 0 <= i < |ids| ==> ids[i] in EligibleSet(states, now))
            && Distinct(ids)
  {
    assert |ranking| >= 2 ==> ranking[0].ep != ranking[1].ep;
  }

  /** A call picks distinct endpoints that may be used, exactly two of them when two
      or more may (fewer only for a smaller positive limit). */
  lemma SendPicksEligible(s: FleetState, limit: int, now: int, ranking: seq<Scored>, ids: seq<nat>, s': FleetState)
    requires SendStep(s, limit, now, ranking, ids, s')
    ensures var usable := EligibleSet(AfterScoring(s.endpoints, now), now);
            var top := if |usable| < 2 then |usable| else 2;
            && |ids| == (if 0 < limit < top then limit else top)
            && (forall i :: 0 <= i < |ids| ==> ids[i] in usable)
            && Distinct(ids)
  {
    var scored := AfterScoring(s.endpoints, now);
    PermutationIsRanking(ranking, scored, now);
    ChosenAreEligible(ranking, scored, now, s.rotation, limit);
  }

  /** The two offered endpoints beat every other eligible one, the better of them
      first on even turns and second on odd turns. */
  ghost predicate OffersBest(offer: seq<nat>, states: seq<EndpointState>, now: int, rotation: nat) {
    |offer| == 2
    && offer[0] in EligibleSet(states, now) && offer[1] in EligibleSet(states, now)
    && var first, second := if rotation % 2 == 0 then offer[0] else offer[1],
                            if rotation % 2 == 0 then offer[1] else offer[0];
    && ScoreOf(states[first], now) <= ScoreOf(states[second], now)
    && forall e :: e in EligibleSet(states, now) && e !in offer ==>
         ScoreOf(states[second], now) <= ScoreOf(states[e], now)
  }

  lemma ChosenAreBest(ranking: seq<Scored>, states: seq<EndpointState>, now: int, rotation: nat)
    requires IsRanking(ranking, states, now) && |ranking| >= 2
    ensures OffersBest(EndpointIds(Chosen(ranking, rotation, 0)), states, now, rotation)
  {
    var offer := EndpointIds(Chosen(ranking, rotation, 0));
    assert offer == if rotation % 2 == 0 then [ranking[0].ep, ranking[1].ep] else [ranking[1].ep, ranking[0].ep];
    forall e | e in EligibleSet(states, now) && e !in offer
      ensures ScoreOf(states[ranking[1].ep], now) <= ScoreOf(states[e], now)
    {
      var k :| 0 <= k < |ranking| && ranking[k].ep == e;
      assert k >= 2;
    }
  }

  /** With two or more usable endpoints a call offers the two with the lowest scores,
      in the order of the turn, and a smaller limit keeps the front of that offer. */
  lemma SendPicksBest(s: FleetState, limit: int, now: int, ranking: seq<Scored>, ids: seq<nat>, s': FleetState)
    requires SendStep(s, limit, now, ranking, ids, s')
    requires |EligibleSet(AfterScoring(s.endpoints, now), now)| >= 2
    ensures exists offer :: OffersBest(offer, AfterScoring(s.endpoints, now), now, s.rotation)
              && ids == (if limit == 1 then offer[..1] else offer)
    ensures s'.rotation == (s.rotation + 1) % UINT64_LIMIT
  {
    var scored := AfterScoring(s.endpoints, now);
    PermutationIsRanking(ranking, scored, now);
    ChosenAreBest(ranking, scored, now, s.rotation);
    var offer := EndpointIds(Chosen(ranking, s.rotation, 0));
    assert ids == if limit == 1 then offer[..1] else offer;
  }

  /** The call comes back empty-handed exactly when every endpoint is disabled. */
  lemma SendFindsEnabled(s: FleetState, limit: int, now: int, ranking: seq<Scored>, ids: seq<nat>, s': FleetState)
    requires SendStep(s, limit, now, ranking, ids, s')
    ensures ids != [] <==> exists e :: 0 <= e < |s.endpoints| && !s.endpoints[e].disabled
  {
    SendPicksEligible(s, limit, now, ranking, ids, s');
    EligibleIffEnabled(s.endpoints, now);
  }

  lemma EligibleIffEnabled(states: seq<EndpointState>, now: int)
    ensures EligibleSet(AfterScoring(states, now), now) != {}
       <==> exists e :: 0 <= e < |states| && !states[e].disabled
  {
    var scored := AfterScoring(states, now);
    CandidateCount(SettleAll(states, now), now);
    DisabledUnchanged(states, now);
    if e :| 0 <= e < |states| && !states[e].disabled && AllRefused(states, now) {
      SettledFrame(SettleAll(states, now)[e].(cooldownUntil := None), now);
      assert e in EligibleSet(scored, now);
    }
    if EligibleSet(scored, now) != {} {
      var e :| e in EligibleSet(scored, now);
      assert !states[e].disabled;
    }
  }

  lemma DisabledUnchanged(states: seq<EndpointState>, now: int)
    ensures forall e :: 0 <= e < |states| ==> AfterScoring(states, now)[e].disabled == states[e].disabled
  {
    var settled := SettleAll(states, now);
    forall e | 0 <= e < |states|
      ensures AfterScoring(states, now)[e].disabled == states[e].disabled
    {
      SettledFrame(states[e], now);
      SettledFrame(settled[e].(cooldownUntil := None), now);
    }
  }
}

/** Which URLs newRPCFleet keeps. */
module RpcFleetUrls {
  import opened Text

  const DEFAULT_URL := "https://bsc-dataseed.binance.org/"

  /** The trimmed, non-empty URLs, each where it first occurs. */
  function UniqueUrls(urls: seq<string>): seq<string> {
    if urls == [] then []
    else
      var kept := UniqueUrls(urls[..|urls| - 1]);
      var url := TrimSpace(urls[|urls| - 1]);
      if url == "" || url in kept then kept else kept + [url]
  }

  function FleetUrls(urls: seq<string>): seq<string> {
    if UniqueUrls(urls) == [] then [DEFAULT_URL] else UniqueUrls(urls)
  }

  /** Exactly the non-empty trimmed URLs are kept, none of them twice. */
  lemma {:induction false} UniqueUrlsKeepAll(urls: seq<string>)
    ensures forall u :: u in UniqueUrls(urls) <==>
              u != "" && exists i :: 0 <= i < |urls| && TrimSpace(urls[i]) == u
    ensures forall i, j :: 0 <= i < j < |UniqueUrls(urls)| ==> UniqueUrls(urls)[i] != UniqueUrls(urls)[j]
  {
    if urls != [] {
      var n := |urls| - 1;
      UniqueUrlsKeepAll(urls[..n]);
      assert forall i :: 0 <= i < n ==> urls[..n][i] == urls[i];
      assert TrimSpace(urls[n]) != "" ==> TrimSpace(urls[n]) in UniqueUrls(urls);
    }
  }

  /** Later URLs never move or drop an earlier one. */
  lemma {:induction false} UniqueUrlsGrow(urls: seq<string>, more: seq<string>)
    ensures UniqueUrls(urls) <= UniqueUrls(urls + more)
  {
    if more == [] {
      assert urls + more == urls;
    } else {
      UniqueUrlsGrow(urls, more[..|more| - 1]);
      assert (urls + more)[..|urls + more| - 1] == urls + more[..|more| - 1];
    }
  }
}

/** Runs of a fleet under a clock that never goes back. */
module RpcFleetRuns {
  import opened Wrappers
  import opened RpcEndpointSpec
  import opened RpcFleetSpec
  import opened BurstBound

  datatype Operation =
    | Send(limit: int, ranking: seq<Scored>, ids: seq<nat>)
    | RecordSuccess(id: int, latency: nat)
    | RecordFailure(id: int, kind: FailureKind)

  /** One operation at a time, and the state it led to. */
  datatype Move = Move(at: int, op: Operation, next: FleetState)

  function UpdateEndpoint(s: FleetState, id: int, t: EndpointState): FleetState
    requires 0 <= id < |s.endpoints|
  {
    s.(endpoints := s.endpoints[id := t])
  }

  predicate Step(s: FleetState, m: Move) {
    match m.op
    case Send(limit, ranking, ids) => SendStep(s, limit, m.at, ranking, ids, m.next)
    case RecordSuccess(id, latency) =>
      m.next == (if 0 <= id < |s.endpoints|
                 then UpdateEndpoint(s, id, Succeeded(s.endpoints[id], latency, m.at)) else s)
    case RecordFailure(id, kind) =>
      m.next == (if 0 <= id < |s.endpoints|
                 then UpdateEndpoint(s, id, Failed(s.endpoints[id], kind, m.at)) else s)
  }

  /** The send finds an endpoint that accepts, or none that is enabled: it drops no
      enabled endpoint's cooldown. */
  predicate NoFallback(s: FleetState, m: Move) {
    m.op.Send? && AllRefused(s.endpoints, m.at) ==>
      forall e :: 0 <= e < |s.endpoints| ==> s.endpoints[e].disabled
  }

  function LastState(s: FleetState, moves: seq<Move>): FleetState {
    if moves == [] then s else moves[|moves| - 1].next
  }

  function LastTime(start: int, moves: seq<Move>): int {
    if moves == [] then start else moves[|moves| - 1].at
  }

  /** Every operation applies to the state the previous one left, no earlier than it. */
  predicate Run(s: FleetState, start: int, moves: seq<Move>) {
    moves == []
    || var before, m := moves[..|moves| - 1], moves[|moves| - 1];
       Run(s, start, before) && LastTime(start, before) <= m.at && Step(LastState(s, before), m)
  }

  predicate RunsWithoutFallback(s: FleetState, moves: seq<Move>) {
    moves == []
    || var before, m := moves[..|moves| - 1], moves[|moves| - 1];
       RunsWithoutFallback(s, before) && NoFallback(LastState(s, before), m)
  }

  /** At most seven reservations, whatever the cooldown. */
  predicate Held(items: seq<Reservation>) {
    |items| <= MAX_HELD && forall j :: 0 <= j < |items| ==> items[j].units == SEND_BURST_COST
  }

  /** A disabled endpoint is never picked again, so its cooldown no longer matters. */
  predicate EndpointInvariant(s: EndpointState, now: int) {
    Held(s.recentReservations) && (!s.disabled ==> BurstInvariant(s, now))
  }

  predicate FleetInvariant(s: FleetState, now: int) {
    forall i :: 0 <= i < |s.endpoints| ==> EndpointInvariant(s.endpoints[i], now)
  }

  lemma {:induction false} PrunedHeld(items: seq<Reservation>, now: int)
    requires Held(items)
    ensures Held(Pruned(items, now)) && |Pruned(items, now)| <= |items|
  {
    if items != [] {
      PrunedHeld(items[..|items| - 1], now);
    }
  }

  lemma ScoringKeepsEndpoint(s: EndpointState, now: int, u: int)
    requires EndpointInvariant(s, now) && now <= u
    ensures EndpointInvariant(Settled(s, u), u)
    ensures s.disabled ==> EndpointInvariant(Settled(Settled(s, u).(cooldownUntil := None), u), u)
  {
    hide BurstInvariant, Settled, Held;
    SettledFrame(s, u);
    SettledFrame(Settled(s, u).(cooldownUntil := None), u);
    PrunedHeld(s.recentReservations, u);
    PrunedHeld(Settled(s, u).recentReservations, u);
    if !s.disabled {
      SettleKeepsBurst(s, now, u);
    }
  }

  lemma SendKeepsInvariant(s: FleetState, now: int, m: Move)
    requires FleetInvariant(s, now) && now <= m.at && m.op.Send? && Step(s, m) && NoFallback(s, m)
    ensures FleetInvariant(m.next, m.at)
  {
    hide BurstInvariant, Settled, Held, EligibleSet, Reserved, AllRefused;
    var scored := AfterScoring(s.endpoints, m.at);
    SendPicksEligible(s, m.op.limit, m.at, m.op.ranking, m.op.ids, m.next);
    DisabledUnchanged(s.endpoints, m.at);
    forall i | 0 <= i < |s.endpoints|
      ensures EndpointInvariant(m.next.endpoints[i], m.at)
    {
      ScoringKeepsEndpoint(s.endpoints[i], now, m.at);
      assert EndpointInvariant(scored[i], m.at);
      if i in m.op.ids {
        PickedKeeps(scored, i, m.at);
      }
    }
  }

  lemma PickedKeeps(scored: seq<EndpointState>, i: nat, at: int)
    requires i in EligibleSet(scored, at) && EndpointInvariant(scored[i], at)
    ensures EndpointInvariant(Reserved(scored[i], at), at)
  {
    hide Reserved;
    ReserveKeepsBurst(scored[i], at, at);
    ReservedDisabled(scored[i], at);
  }

  lemma ReservedDisabled(s: EndpointState, at: int)
    ensures Reserved(s, at).disabled == s.disabled
  {
  }

  lemma StepKeepsInvariant(s: FleetState, now: int, m: Move)
    requires FleetInvariant(s, now) && now <= m.at && Step(s, m) && NoFallback(s, m)
    ensures FleetInvariant(m.next, m.at)
  {
    if m.op.Send? {
      SendKeepsInvariant(s, now, m);
    } else {
      hide Succeeded, Failed, EndpointInvariant;
      forall i | 0 <= i < |s.endpoints|
        ensures EndpointInvariant(m.next.endpoints[i], m.at)
      {
        TimeKeepsEndpoint(s.endpoints[i], now, m.at);
        if i == m.op.id {
          match m.op {
            case RecordSuccess(_, latency) => SuccessKeepsEndpoint(s.endpoints[i], latency, now, m.at);
            case RecordFailure(_, kind) => FailureKeepsEndpoint(s.endpoints[i], kind, now, m.at);
          }
        }
      }
    }
  }

  lemma TimeKeepsEndpoint(s: EndpointState, now: int, u: int)
    requires EndpointInvariant(s, now) && now <= u
    ensures EndpointInvariant(s, u)
  {
  }

  lemma SuccessKeepsEndpoint(s: EndpointState, latency: nat, now: int, u: int)
    requires EndpointInvariant(s, now) && now <= u
    ensures EndpointInvariant(Succeeded(s, latency, u), u)
  {
    hide BurstInvariant, Settled;
    SettledFrame(s, u);
    PrunedHeld(s.recentReservations, u);
    if !s.disabled {
      SuccessKeepsBurst(s, latency, now, u);
    }
  }

  lemma FailureKeepsEndpoint(s: EndpointState, kind: FailureKind, now: int, u: int)
    requires EndpointInvariant(s, now) && now <= u
    ensures EndpointInvariant(Failed(s, kind, u), u)
  {
    hide BurstInvariant, Settled, FailureCooldown, AddUint32;
    SettledFrame(s, u);
    PrunedHeld(s.recentReservations, u);
    if !s.disabled {
      FailureKeepsBurst(s, kind, now, u);
    }
  }

  lemma {:induction false} RunKeepsInvariant(s: FleetState, start: int, moves: seq<Move>)
    requires FleetInvariant(s, start) && Run(s, start, moves) && RunsWithoutFallback(s, moves)
    ensures FleetInvariant(LastState(s, moves), LastTime(start, moves))
  {
    if moves != [] {
      var before := moves[..|moves| - 1];
      RunKeepsInvariant(s, start, before);
      StepKeepsInvariant(LastState(s, before), LastTime(start, before), moves[|moves| - 1]);
    }
  }

  /** Main result: in a run in which no send drops an enabled endpoint's cooldown, no endpoint ever
      holds more than seven reservations, 49 units, in its burst window, at any later
      time before the next operation either. */
  lemma NeverMoreThanSeven(count: nat, start: int, moves: seq<Move>, i: nat, now: int)
    requires Run(InitialFleet(count, start), start, moves)
    requires RunsWithoutFallback(InitialFleet(count, start), moves)
    requires i < |LastState(InitialFleet(count, start), moves).endpoints|
    ensures var items := LastState(InitialFleet(count, start), moves).endpoints[i].recentReservations;
            |items| <= MAX_HELD && BurstLoad(items, now) <= MAX_HELD * SEND_BURST_COST
  {
    var s := InitialFleet(count, start);
    RunKeepsInvariant(s, start, moves);
    LoadAtMost(LastState(s, moves).endpoints[i].recentReservations, now);
  }

  lemma {:induction false} LoadAtMost(items: seq<Reservation>, now: int)
    requires |items| <= MAX_HELD
    requires forall j :: 0 <= j < |items| ==> items[j].units == SEND_BURST_COST
    ensures BurstLoad(items, now) <= SEND_BURST_COST * |items|
  {
    if items != [] {
      LoadAtMost(items[..|items| - 1], now);
    }
  }

  // ---- the bound is tight, and needs its condition ---------------------------------

  /** k reservations made at one time. */
  function Repeated(k: nat, at: int): (items: seq<Reservation>)
    ensures |items| == k && forall i :: 0 <= i < k ==> items[i] == Reservation(at, SEND_BURST_COST)
  {
    seq(k, i => Reservation(at, SEND_BURST_COST))
  }

  lemma {:induction false} NothingToPrune(items: seq<Reservation>, now: int)
    requires forall i :: 0 <= i < |items| ==> InWindow(items[i], now)
    ensures Pruned(items, now) == items
  {
    if items != [] {
      var n := |items| - 1;
      NothingToPrune(items[..n], now);
      assert items == items[..n] + [items[n]];
    }
  }

  /** A fleet of one enabled endpoint always sends through it. */
  lemma SoloSend(s: FleetState, at: int) returns (m: Move)
    requires |s.endpoints| == 1 && !s.endpoints[0].disabled
    ensures m.at == at && m.op.Send? && Step(s, m)
    ensures m.next.endpoints == [Reserved(AfterScoring(s.endpoints, at)[0], at)]
    ensures NoFallback(s, m) <==> !Cooling(s.endpoints[0], at)
  {
    var scored := AfterScoring(s.endpoints, at);
    DisabledUnchanged(s.endpoints, at);
    CandidateCount(SettleAll(s.endpoints, at), at);
    CandidateCount(scored, at);
    CandidatesAreEligible(scored, at);
    SettledFrame(s.endpoints[0], at);
    SettledFrame(SettleAll(s.endpoints, at)[0].(cooldownUntil := None), at);
    assert 0 in EligibleSet(scored, at);
    assert EligibleSet(scored, at) == {0};
    var ranking := Candidates(scored, at);
    var ids := EndpointIds(Chosen(ranking, s.rotation, 0));
    assert ranking[0] in ranking;
    assert ids == [0];
    m := Move(at, Send(0, ranking, ids),
              FleetState(ReserveAll(scored, ids, at), s.rotation));
    assert !Cooling(s.endpoints[0], at) ==> 0 in EligibleSet(SettleAll(s.endpoints, at), at);
  }

  lemma RunExtends(s: FleetState, start: int, moves: seq<Move>, m: Move)
    requires Run(s, start, moves) && LastTime(start, moves) <= m.at && Step(LastState(s, moves), m)
    ensures Run(s, start, moves + [m])
    ensures RunsWithoutFallback(s, moves) && NoFallback(LastState(s, moves), m)
        ==> RunsWithoutFallback(s, moves + [m])
  {
    assert (moves + [m])[..|moves|] == moves;
  }

  /** The single endpoint after k reservations at time 0. */
  predicate HoldsAtZero(s: FleetState, k: nat) {
    |s.endpoints| == 1 && !s.endpoints[0].disabled
    && s.endpoints[0].recentReservations == Repeated(k, 0)
  }

  lemma ScoringKeepsHeld(s: FleetState, k: nat)
    requires HoldsAtZero(s, k)
    ensures AfterScoring(s.endpoints, 0)[0].recentReservations == Repeated(k, 0)
    ensures s.endpoints[0].cooldownUntil.None? ==> AfterScoring(s.endpoints, 0)[0].cooldownUntil.None?
  {
    var settled := SettleAll(s.endpoints, 0)[0];
    SettledFrame(s.endpoints[0], 0);
    SettledFrame(settled.(cooldownUntil := None), 0);
    NothingToPrune(Repeated(k, 0), 0);
  }

  lemma ReserveAtZero(s: EndpointState, k: nat)
    requires s.recentReservations == Repeated(k, 0)
    ensures Reserved(s, 0).recentReservations == Repeated(k + 1, 0)
    ensures k <= 4 ==> Reserved(s, 0).cooldownUntil == s.cooldownUntil
    ensures k == 5 ==> Reserved(s, 0).cooldownUntil == Some(BURST_COOLDOWN)
  {
    hide Pruned, BurstLoad, Repeated;
    NothingToPrune(Repeated(k, 0), 0);
    RepeatedOneMore(k);
    if k <= 5 {
      LoadOfWindow(Repeated(k + 1, 0), 0);
    }
  }

  lemma RepeatedOneMore(k: nat)
    ensures Repeated(k, 0) + [Reservation(0, SEND_BURST_COST)] == Repeated(k + 1, 0)
  {
  }

  lemma SoloSendAtZero(s: FleetState, k: nat) returns (m: Move)
    requires HoldsAtZero(s, k)
    ensures m.at == 0 && Step(s, m) && HoldsAtZero(m.next, k + 1)
    ensures s.endpoints[0].cooldownUntil.None? ==>
              NoFallback(s, m)
              && (k <= 4 ==> m.next.endpoints[0].cooldownUntil.None?)
              && (k == 5 ==> m.next.endpoints[0].cooldownUntil == Some(BURST_COOLDOWN))
  {
    m := SoloSend(s, 0);
    ScoringKeepsHeld(s, k);
    ReserveAtZero(AfterScoring(s.endpoints, 0)[0], k);
    DisabledUnchanged(s.endpoints, 0);
  }

  /** Six reservations at once never need the fallback, and start a cooldown. */
  lemma {:induction false} SixAtOnce(k: nat) returns (moves: seq<Move>)
    requires k <= 6
    ensures Run(InitialFleet(1, 0), 0, moves) && RunsWithoutFallback(InitialFleet(1, 0), moves)
    ensures moves != [] ==> moves[|moves| - 1].at == 0
    ensures var s := LastState(InitialFleet(1, 0), moves);
            HoldsAtZero(s, k)
            && s.endpoints[0].cooldownUntil == if k == 6 then Some(BURST_COOLDOWN) else None
  {
    var s0 := InitialFleet(1, 0);
    if k == 0 {
      moves := [];
    } else {
      var before := SixAtOnce(k - 1);
      var m := SoloSendAtZero(LastState(s0, before), k - 1);
      RunExtends(s0, 0, before, m);
      moves := before + [m];
    }
  }

  /** A seventh reservation, the moment the cooldown ends. */
  lemma SeventhSend(s: FleetState) returns (m: Move)
    requires HoldsAtZero(s, 6) && s.endpoints[0].cooldownUntil == Some(BURST_COOLDOWN)
    ensures m.at == BURST_COOLDOWN && Step(s, m) && NoFallback(s, m)
    ensures |m.next.endpoints| == 1 && |m.next.endpoints[0].recentReservations| == MAX_HELD
    ensures BurstLoad(m.next.endpoints[0].recentReservations, BURST_COOLDOWN) == 49
  {
    m := SoloSend(s, BURST_COOLDOWN);
    hide Step, NoFallback;
    SettledFrame(s.endpoints[0], BURST_COOLDOWN);
    SettledFrame(SettleAll(s.endpoints, BURST_COOLDOWN)[0].(cooldownUntil := None), BURST_COOLDOWN);
    NothingToPrune(Repeated(6, 0), BURST_COOLDOWN);
    LoadOfWindow(m.next.endpoints[0].recentReservations, BURST_COOLDOWN);
  }

  /** Seven is reached: the seventh reservation comes the moment the cooldown ends,
      with the first six still in the window. */
  lemma SevenIsReached() returns (moves: seq<Move>)
    ensures Run(InitialFleet(1, 0), 0, moves) && RunsWithoutFallback(InitialFleet(1, 0), moves)
    ensures var s := LastState(InitialFleet(1, 0), moves);
            |s.endpoints| == 1 && |s.endpoints[0].recentReservations| == MAX_HELD
            && BurstLoad(s.endpoints[0].recentReservations, moves[|moves| - 1].at) == 49
  {
    var s0 := InitialFleet(1, 0);
    var six := SixAtOnce(6);
    hide Step, NoFallback, HoldsAtZero, BurstLoad, Run;
    var m := SeventhSend(LastState(s0, six));
    RunExtends(s0, 0, six, m);
    moves := six + [m];
  }

  /** Without the condition there is no bound at all: the fallback drops the cooldown
      of a fleet whose every endpoint is cooling, any number of times. */
  lemma {:induction false} FallbackHasNoBound(k: nat) returns (moves: seq<Move>)
    ensures Run(InitialFleet(1, 0), 0, moves) && (moves != [] ==> moves[|moves| - 1].at == 0)
    ensures HoldsAtZero(LastState(InitialFleet(1, 0), moves), k)
  {
    var s0 := InitialFleet(1, 0);
    if k == 0 {
      moves := [];
    } else {
      var before := FallbackHasNoBound(k - 1);
      var m := SoloSendAtZero(LastState(s0, before), k - 1);
      RunExtends(s0, 0, before, m);
      moves := before + [m];
    }
  }
}

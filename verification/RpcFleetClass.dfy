/** The fleet as the source has it: endpoint objects whose fields the methods update
    in place. Every method is proved against RpcEndpointSpec or RpcFleetSpec. The
    mutexes are left out: one call runs at a time. */
module RpcFleetClass {
  import opened Wrappers
  import opened RpcEndpointSpec
  import opened RpcFleetSpec
  import opened RpcFleetUrls
  import opened Text
  import Runs = RpcFleetRuns

  class RpcEndpoint {
    const id: nat
    const url: string
    var failures: uint32
    var timeoutFailures: uint32
    var rateLimitFailures: uint32
    var disabled: bool
    var cooldownUntil: Option<int>
    var avgLatency: nat
    var lastFailureDecay: Option<int>
    var recentReservations: seq<Reservation>
    var lastSelectedAt: Option<int>

    constructor (id: nat, url: string, now: int)
      ensures this.id == id && this.url == url && State() == InitialEndpoint(now)
    {
      this.id, this.url := id, url;
      failures, timeoutFailures, rateLimitFailures := 0, 0, 0;
      disabled, cooldownUntil, avgLatency := false, None, 0;
      lastFailureDecay, recentReservations, lastSelectedAt := Some(now), [], None;
    }

    function State(): EndpointState
      reads this
    {
      EndpointState(failures, timeoutFailures, rateLimitFailures, disabled, cooldownUntil,
                    avgLatency, lastFailureDecay, recentReservations, lastSelectedAt)
    }

    method Prune(now: int)
      modifies this`recentReservations
      ensures recentReservations == Pruned(old(recentReservations), now)
    {
      var keep: seq<Reservation> := [];
      for i := 0 to |recentReservations|
        invariant keep == Pruned(recentReservations[..i], now)
      {
        var item := recentReservations[i];
        assert recentReservations[..i + 1][..i] == recentReservations[..i];
        if now - item.at <= BURST_WINDOW {
          keep := keep + [item];
        }
      }
      assert recentReservations[..|recentReservations|] == recentReservations;
      recentReservations := keep;
    }

    method Decay(now: int)
      modifies this`lastFailureDecay, this`failures, this`timeoutFailures, this`rateLimitFailures
      ensures State() == Decayed(old(State()), now)
    {
      if lastFailureDecay.None? {
        lastFailureDecay := Some(now);
        return;
      }
      var steps := TruncatedDiv(TimeSub(now, lastFailureDecay.value), FAILURE_DECAY) % UINT32_LIMIT;
      if steps == 0 {
        return;
      }
      lastFailureDecay := Some(lastFailureDecay.value + steps * FAILURE_DECAY);
      failures := SubtractUint32(failures, steps * 2 % UINT32_LIMIT);
      timeoutFailures := SubtractUint32(timeoutFailures, steps * 2 % UINT32_LIMIT);
      rateLimitFailures := SubtractUint32(rateLimitFailures, steps * 4 % UINT32_LIMIT);
    }

    /** The two steps score, recordSuccess and recordFailure start with. */
    method Settle(now: int)
      modifies this
      ensures State() == Settled(old(State()), now)
    {
      Prune(now);
      Decay(now);
    }

    method Load(now: int) returns (total: uint32)
      ensures total == BurstLoad(recentReservations, now)
    {
      total := 0;
      for i := 0 to |recentReservations|
        invariant total == BurstLoad(recentReservations[..i], now)
      {
        assert recentReservations[..i + 1][..i] == recentReservations[..i];
        if now - recentReservations[i].at <= BURST_WINDOW {
          total := AddUint32(total, recentReservations[i].units);
        }
      }
      assert recentReservations[..|recentReservations|] == recentReservations;
    }

    method Score(now: int) returns (score: real, ok: bool)
      modifies this
      ensures State() == Settled(old(State()), now)
      ensures ok <==> Eligible(State(), now)
      ensures ok <==> !old(disabled) && (old(cooldownUntil).None? || old(cooldownUntil).value <= now)
      ensures ok ==> score == ScoreOf(State(), now)
    {
      SettledFrame(State(), now);
      hide Settled, ScoreOf;
      Settle(now);
      if disabled || (cooldownUntil.Some? && cooldownUntil.value > now) {
        return 0.0, false;
      }
      score := Weigh(now);
      ok := true;
    }

    /** The arithmetic of score. */
    method Weigh(now: int) returns (score: real)
      ensures score == ScoreOf(State(), now)
    {
      var burst := Load(now);
      var burstPenalty := BurstWeight(burst);
      var latencyMs := 120.0;
      if avgLatency > 0 {
        latencyMs := (avgLatency / MILLISECOND) as real;
      }
      var recencyPenalty := 0.0;
      if lastSelectedAt.Some? {
        var elapsed := now - lastSelectedAt.value;
        if elapsed < 180 * MILLISECOND {
          recencyPenalty := ((180 * MILLISECOND - elapsed) / MILLISECOND) as real * 2.4;
        }
      }
      score := latencyMs + failures as real * 180.0 + rateLimitFailures as real * 900.0
               + burstPenalty + recencyPenalty;
    }

    static method BurstWeight(burst: uint32) returns (penalty: real)
      ensures penalty == BurstPenalty(burst)
    {
      var burstRatio := burst as real / BURST_CAPACITY as real;
      penalty := burstRatio * burstRatio * 2200.0;
      if burstRatio >= 1.0 {
        penalty := 25000.0 + (burstRatio - 1.0) * 8000.0;
      }
    }

    method Reserve(now: int)
      modifies this
      ensures State() == Reserved(old(State()), now)
    {
      hide Pruned, BurstLoad;
      Prune(now);
      recentReservations := recentReservations + [Reservation(now, SEND_BURST_COST)];
      lastSelectedAt := Some(now);
      var load := Load(now);
      if load >= BURST_CAPACITY * 2 {
        cooldownUntil := Some(now + 900 * MILLISECOND);
      }
    }

    method RecordSuccess(latency: nat, now: int)
      modifies this
      ensures State() == Succeeded(old(State()), latency, now)
    {
      hide Settled;
      Settle(now);
      if avgLatency > 0 {
        avgLatency := (avgLatency as real * 0.72 + latency as real * 0.28).Floor;
      } else {
        avgLatency := latency;
      }
      if failures > 0 {
        failures := failures - 1;
      }
      if timeoutFailures > 0 {
        timeoutFailures := timeoutFailures - 1;
      }
      if rateLimitFailures > 0 {
        rateLimitFailures := rateLimitFailures - 1;
      }
      if cooldownUntil.Some? && cooldownUntil.value < now {
        cooldownUntil := None;
      }
    }

    method RecordFailure(kind: FailureKind, now: int)
      modifies this
      ensures State() == Failed(old(State()), kind, now)
    {
      hide Settled, ShiftLeftOne, AddUint32;
      Settle(now);
      failures := AddUint32(failures, 1);
      var cooldown: nat := 500 * MILLISECOND;
      match kind {
        case RateLimited =>
          rateLimitFailures := AddUint32(rateLimitFailures, 1);
          cooldown := 2 * ShiftLeftOne(rateLimitFailures, 4) * SECOND;
        case CapacityExhausted =>
          rateLimitFailures := AddUint32(rateLimitFailures, 10);
          disabled := true;
          cooldown := 24 * 3600 * SECOND;
        case Timeout =>
          timeoutFailures := AddUint32(timeoutFailures, 1);
          cooldown := 400 * ShiftLeftOne(timeoutFailures, 5) * MILLISECOND;
        case Transport =>
          cooldown := 700 * MILLISECOND;
        case Remote =>
      }
      if cooldown > 45 * SECOND {
        cooldown := 45 * SECOND;
      }
      var until := now + cooldown;
      if cooldownUntil.None? || cooldownUntil.value < until {
        cooldownUntil := Some(until);
      }
    }
  }

  datatype Handle = Handle(id: nat, url: string)

  // ---- the two array algorithms of sendCandidates -------------------------------

  predicate SameContents(s: seq<Scored>, t: seq<Scored>) {
    multiset(s) == multiset(t)
  }

  /** The first i slots hold, in order, scores no slot after them beats. */
  predicate LeadsBy(s: seq<Scored>, i: nat) {
    forall p, q :: 0 <= p < i && p < q < |s| ==> s[p].score <= s[q].score
  }

  /** No slot from i to j beats slot i. */
  predicate LeastUpTo(s: seq<Scored>, i: nat, j: nat)
    requires i < |s| && j <= |s|
  {
    forall q :: i < q < j ==> s[i].score <= s[q].score
  }

  lemma SwapInOrder(s: seq<Scored>, i: nat, j: nat)
    requires i < j < |s| && LeadsBy(s, i) && LeastUpTo(s, i, j) && s[j].score < s[i].score
    ensures var t := s[i := s[j]][j := s[i]];
            SameContents(s, t) && LeadsBy(t, i) && LeastUpTo(t, i, j + 1)
  {
  }

  lemma NoSwap(s: seq<Scored>, i: nat, j: nat)
    requires i < j < |s| && LeastUpTo(s, i, j) && s[j].score >= s[i].score
    ensures LeastUpTo(s, i, j + 1)
  {
  }

  lemma LeadsByOneMore(s: seq<Scored>, i: nat)
    requires i < |s| && LeadsBy(s, i)
    requires LeastUpTo(s, i, |s|)
    ensures LeadsBy(s, i + 1)
  {
  }

  lemma SameAsItself(s: seq<Scored>)
    ensures SameContents(s, s)
  {
  }

  lemma SameContentsChain(s: seq<Scored>, t: seq<Scored>, u: seq<Scored>)
    requires SameContents(t, s) && SameContents(t, u)
    ensures SameContents(u, s)
  {
  }

  method SwapSlots(a: array<Scored>, n: nat, i: nat, j: nat)
    requires i < j < n <= a.Length
    modifies a
    ensures a[..n] == old(a[..n])[i := old(a[j])][j := old(a[i])]
  {
    a[i], a[j] := a[j], a[i];
  }

  /** The inner loop: slot i ends with the lowest score from i on. */
  method ExchangeInto(a: array<Scored>, n: nat, i: nat)
    requires i < n <= a.Length && LeadsBy(a[..n], i)
    modifies a
    ensures SameContents(a[..n], old(a[..n])) && LeadsBy(a[..n], i + 1)
  {
    ghost var start := a[..n];
    SameAsItself(start);
    assert LeastUpTo(start, i, i + 1);
    hide *;
    for j := i + 1 to n
      invariant SameContents(a[..n], start) && LeadsBy(a[..n], i) && LeastUpTo(a[..n], i, j)
    {
      ghost var s := a[..n];
      if a[j].score < a[i].score {
        SwapInOrder(s, i, j);
        SwapSlots(a, n, i, j);
        SameContentsChain(start, s, a[..n]);
      } else {
        NoSwap(s, i, j);
      }
    }
    LeadsByOneMore(a[..n], i);
  }

  /** The exchange sort over the first n slots. */
  method ExchangeSort(a: array<Scored>, n: nat)
    requires n <= a.Length
    modifies a
    ensures multiset(a[..n]) == multiset(old(a[..n]))
    ensures SortedByScore(a[..n])
  {
    for i := 0 to n
      invariant SameContents(a[..n], old(a[..n])) && LeadsBy(a[..n], i)
    {
      ExchangeInto(a, n, i);
    }
  }

  /** append(a[shift:top], a[:shift]...) inside a's own backing array: the front is
      copied to the slots after top, which leaves the front itself in place. */
  method AppendInPlace(a: array<Scored>, top: nat, shift: nat)
    requires shift < top && top + shift <= a.Length
    modifies a
    ensures a[..top] == old(a[..top])
    ensures a[top..top + shift] == old(a[..shift])
  {
    ghost var before := a[..];
    for k := 0 to shift
      invariant forall m :: 0 <= m < top ==> a[m] == before[m]
      invariant forall m :: top <= m < top + k ==> a[m] == before[m - top]
    {
      a[top + k] := a[k];
    }
  }

  /** The same append when the capacity is used up: Go copies both parts. */
  method AppendFresh(a: array<Scored>, top: nat, shift: nat) returns (view: array<Scored>)
    requires shift < top <= a.Length
    ensures fresh(view) && view.Length == top
    ensures view[..] == a[shift..top] + a[..shift]
  {
    view := new Scored[top];
    ghost var wanted := a[shift..top] + a[..shift];
    for k := 0 to top
      invariant forall m :: 0 <= m < k ==> view[m] == wanted[m]
      invariant a[shift..top] + a[..shift] == wanted
    {
      view[k] := if k < top - shift then a[shift + k] else a[k - (top - shift)];
    }
  }

  /** append(a[shift:top], a[:shift]...) as Go runs it: in place when the spare
      capacity allows, in a fresh array otherwise. */
  method RotateByAppend(a: array<Scored>, top: nat, shift: nat) returns (view: array<Scored>, from: nat)
    requires shift < top <= a.Length
    modifies a
    ensures from + top <= view.Length
    ensures view[from..from + top] == old(a[shift..top]) + old(a[..shift])
  {
    if top <= a.Length - shift {
      ghost var front := a[..top];
      AppendInPlace(a, top, shift);
      view, from := a, shift;
      assert a[shift..top] == front[shift..];
      assert a[shift..shift + top] == a[shift..top] + a[top..top + shift];
    } else {
      view := AppendFresh(a, top, shift);
      from := 0;
      assert view[0..0 + top] == view[..];
    }
  }

  /** The endpoints are in these states. */
  ghost predicate Matches(endpoints: seq<RpcEndpoint>, states: seq<EndpointState>)
    reads endpoints
  {
    |endpoints| == |states| && forall i :: 0 <= i < |endpoints| ==> endpoints[i].State() == states[i]
  }

  /** The states of a row of endpoints. */
  function StatesOf(endpoints: seq<RpcEndpoint>): (states: seq<EndpointState>)
    reads endpoints
    ensures |states| == |endpoints|
    ensures forall i :: 0 <= i < |endpoints| ==> states[i] == endpoints[i].State()
  {
    if endpoints == [] then []
    else StatesOf(endpoints[..|endpoints| - 1]) + [endpoints[|endpoints| - 1].State()]
  }

  /** The ids handed out, in order. */
  function HandleIds(handles: seq<Handle>): (ids: seq<nat>)
    ensures |ids| == |handles| && forall i :: 0 <= i < |handles| ==> ids[i] == handles[i].id
  {
    seq(|handles|, i requires 0 <= i < |handles| => handles[i].id)
  }

  /** A loop over the fleet that has dealt with the first i endpoints. */
  function Progress(done: seq<EndpointState>, todo: seq<EndpointState>, i: nat): (states: seq<EndpointState>)
    requires |done| == |todo|
    ensures |states| == |done|
  {
    seq(|done|, k requires 0 <= k < |done| => if k < i then done[k] else todo[k])
  }

  lemma ProgressStep(done: seq<EndpointState>, todo: seq<EndpointState>, i: nat)
    requires |done| == |todo| && i < |done|
    ensures Progress(done, todo, i + 1) == Progress(done, todo, i)[i := done[i]]
    ensures Progress(done, todo, i)[i] == todo[i]
  {
  }

  lemma ProgressEnds(done: seq<EndpointState>, todo: seq<EndpointState>)
    requires |done| == |todo|
    ensures Progress(done, todo, 0) == todo && Progress(done, todo, |done|) == done
  {
  }

  lemma ChosenIdsUsable(ranking: seq<Scored>, states: seq<EndpointState>, now: int, rotation: nat, limit: int)
    requires RanksCandidates(ranking, states, now)
    ensures var ids := EndpointIds(Chosen(ranking, rotation, limit));
            Distinct(ids) && forall i :: 0 <= i < |ids| ==> ids[i] < |states|
  {
    PermutationIsRanking(ranking, states, now);
    ChosenAreEligible(ranking, states, now, rotation, limit);
  }

  lemma CandidatesStep(states: seq<EndpointState>, i: nat, now: int)
    requires i < |states|
    ensures Candidates(states[..i + 1], now)
         == Candidates(states[..i], now)
            + if Eligible(states[i], now) then [Scored(i, ScoreOf(states[i], now))] else []
  {
    assert states[..i + 1][..i] == states[..i];
  }

  /** Untouched endpoints for these URLs, numbered by position. */
  predicate Listed(endpoints: seq<RpcEndpoint>, urls: seq<string>, now: int)
    reads endpoints
  {
    |endpoints| == |urls| && forall i :: 0 <= i < |endpoints| ==>
      endpoints[i].id == i && endpoints[i].url == urls[i] && endpoints[i].State() == InitialEndpoint(now)
  }

  class RpcFleet {
    var endpoints: seq<RpcEndpoint>
    var rotation: nat

    /** Endpoint ids are positions, so the endpoints are different objects. */
    predicate Valid()
      reads this
    {
      rotation < UINT64_LIMIT && forall i :: 0 <= i < |endpoints| ==> endpoints[i].id == i
    }

    function Snapshot(): FleetState
      reads this, endpoints
    {
      FleetState(StatesOf(endpoints), rotation)
    }

    /** The loop of newRPCFleet. */
    static method ListEndpoints(urls: seq<string>, now: int) returns (listed: seq<RpcEndpoint>)
      ensures fresh(listed) && Listed(listed, UniqueUrls(urls), now)
    {
      hide TrimSpace;
      listed := [];
      var seen: set<string> := {};
      for k := 0 to |urls|
        invariant fresh(listed) && Listed(listed, UniqueUrls(urls[..k]), now)
        invariant forall u :: u in seen <==> u in UniqueUrls(urls[..k])
      {
        assert urls[..k + 1][..k] == urls[..k];
        var url := TrimSpace(urls[k]);
        if url != "" && url !in seen {
          seen := seen + {url};
          var ep := new RpcEndpoint(|listed|, url, now);
          listed := listed + [ep];
        }
      }
      assert urls[..|urls|] == urls;
    }

    /** newRPCFleet. */
    constructor (urls: seq<string>, now: int)
      ensures Valid() && fresh(endpoints)
      ensures |endpoints| == |FleetUrls(urls)|
      ensures forall i :: 0 <= i < |endpoints| ==> endpoints[i].url == FleetUrls(urls)[i]
      ensures Snapshot() == InitialFleet(|FleetUrls(urls)|, now)
    {
      var listed := ListEndpoints(urls, now);
      if |listed| == 0 {
        var ep := new RpcEndpoint(0, DEFAULT_URL, now);
        listed := [ep];
      }
      assert Listed(listed, FleetUrls(urls), now);
      hide UniqueUrls, FleetUrls;
      endpoints, rotation := listed, 0;
    }

    /** Scoring one endpoint of the fleet leaves the others alone. */
    method ScoreAt(i: nat, now: int, ghost before: seq<EndpointState>) returns (score: real, ok: bool)
      requires Valid() && Matches(endpoints, before) && i < |endpoints|
      modifies endpoints[i]
      ensures Matches(endpoints, before[i := Settled(before[i], now)])
      ensures ok <==> Eligible(Settled(before[i], now), now)
      ensures ok ==> score == ScoreOf(Settled(before[i], now), now)
    {
      assert forall k :: 0 <= k < |endpoints| && k != i ==> endpoints[k] != endpoints[i];
      score, ok := endpoints[i].Score(now);
    }

    /** The first loop of sendCandidates. */
    method ScoreAll(now: int, ghost before: seq<EndpointState>) returns (candidates: seq<Scored>)
      requires Valid() && Matches(endpoints, before)
      modifies endpoints
      ensures Matches(endpoints, SettleAll(before, now))
      ensures candidates == Candidates(SettleAll(before, now), now)
    {
      ghost var settled := SettleAll(before, now);
      hide Settled, Eligible, ScoreOf, Progress;
      ProgressEnds(settled, before);
      candidates := [];
      for i := 0 to |endpoints|
        invariant Matches(endpoints, Progress(settled, before, i))
        invariant candidates == Candidates(settled[..i], now)
      {
        ProgressStep(settled, before, i);
        CandidatesStep(settled, i, now);
        var score, ok := ScoreAt(i, now, Progress(settled, before, i));
        if ok {
          candidates := candidates + [Scored(i, score)];
        }
      }
      assert settled[..|settled|] == settled;
    }

    /** The fallback loop: drop every cooldown and score again. */
    method UncoolAndScoreAll(now: int, ghost before: seq<EndpointState>) returns (candidates: seq<Scored>)
      requires Valid() && Matches(endpoints, before)
      modifies endpoints
      ensures Matches(endpoints, UncoolAll(before, now))
      ensures candidates == Candidates(UncoolAll(before, now), now)
    {
      ghost var settled := UncoolAll(before, now);
      hide Settled, Eligible, ScoreOf, Progress;
      ProgressEnds(settled, before);
      candidates := [];
      for i := 0 to |endpoints|
        invariant Matches(endpoints, Progress(settled, before, i))
        invariant candidates == Candidates(settled[..i], now)
      {
        ProgressStep(settled, before, i);
        CandidatesStep(settled, i, now);
        var score, ok := UncoolAndScoreAt(i, now, Progress(settled, before, i));
        if ok {
          candidates := candidates + [Scored(i, score)];
        }
      }
      assert settled[..|settled|] == settled;
    }

    method UncoolAndScoreAt(i: nat, now: int, ghost before: seq<EndpointState>) returns (score: real, ok: bool)
      requires Valid() && Matches(endpoints, before) && i < |endpoints|
      modifies endpoints[i]
      ensures Matches(endpoints, before[i := Settled(before[i].(cooldownUntil := None), now)])
      ensures ok <==> Eligible(Settled(before[i].(cooldownUntil := None), now), now)
      ensures ok ==> score == ScoreOf(Settled(before[i].(cooldownUntil := None), now), now)
    {
      assert forall k :: 0 <= k < |endpoints| && k != i ==> endpoints[k] != endpoints[i];
      endpoints[i].cooldownUntil := None;
      score, ok := endpoints[i].Score(now);
    }

    /** Sorting, rotating and cutting the candidates. `slack` is the spare capacity
        Go's append left behind them. */
    method Offer(candidates: seq<Scored>, limit: int, slack: nat)
        returns (picked: seq<Scored>, ghost ranking: seq<Scored>)
      requires rotation < ROTATION_LIMIT
      modifies this`rotation
      ensures multiset(ranking) == multiset(candidates) && SortedByScore(ranking)
      ensures |ranking| == |candidates| && picked == Chosen(ranking, old(rotation), limit)
      ensures rotation == if |ranking| >= 2 then (old(rotation) + 1) % UINT64_LIMIT else old(rotation)
    {
      var n := |candidates|;
      var a := new Scored[n + slack];
      for k := 0 to n
        invariant a[..k] == candidates[..k] && rotation == old(rotation)
      {
        a[k] := candidates[k];
      }
      assert a[..n] == candidates;
      ExchangeSort(a, n);
      ranking := a[..n];
      var offer := a[..n];
      if n > 1 {
        offer := TurnFirstTwo(a, rotation % 2);
        rotation := (rotation + 1) % UINT64_LIMIT;
      }
      picked := if limit <= 0 || limit > |offer| then offer else offer[..limit];
    }

    static method TurnFirstTwo(a: array<Scored>, shift: nat) returns (offer: seq<Scored>)
      requires 2 <= a.Length && shift < 2
      modifies a
      ensures offer == if shift == 0 then [old(a[0]), old(a[1])] else [old(a[1]), old(a[0])]
    {
      var view, from := RotateByAppend(a, 2, shift);
      offer := view[from..from + 2];
    }

    /** sendCandidates. The counter turns negative as an int from ROTATION_LIMIT on. */
    method SendCandidates(limit: int, now: int, slack: nat) returns (handles: seq<Handle>, ghost ranking: seq<Scored>)
      requires Valid() && rotation < ROTATION_LIMIT
      modifies this`rotation, endpoints
      ensures Valid()
      ensures SendStep(old(Snapshot()), limit, now, ranking, HandleIds(handles), Snapshot())
      ensures forall i :: 0 <= i < |handles| ==>
                handles[i].id < |endpoints| && handles[i].url == endpoints[handles[i].id].url
    {
      hide SendStep, AfterScoring, Candidates, RanksCandidates, Chosen, EndpointIds, ReserveAll, HandleIds, StatesOf;
      ghost var before := Snapshot();
      var candidates, scored := ScoreOrUncool(now, before.endpoints);
      handles, ranking := PickAndReserve(candidates, limit, now, slack, scored);
      ghost var after := Snapshot();
      assert after.endpoints == ReserveAll(scored, HandleIds(handles), now);
      SendStepHolds(before, limit, now, ranking, HandleIds(handles), after);
    }

    method PickAndReserve(candidates: seq<Scored>, limit: int, now: int, slack: nat, ghost scored: seq<EndpointState>)
        returns (handles: seq<Handle>, ghost ranking: seq<Scored>)
      requires Valid() && rotation < ROTATION_LIMIT
      requires Matches(endpoints, scored) && candidates == Candidates(scored, now)
      modifies this`rotation, endpoints
      ensures Valid() && RanksCandidates(ranking, scored, now)
      ensures HandleIds(handles) == EndpointIds(Chosen(ranking, old(rotation), limit))
      ensures Matches(endpoints, ReserveAll(scored, HandleIds(handles), now))
      ensures rotation == if |ranking| >= 2 then (old(rotation) + 1) % UINT64_LIMIT else old(rotation)
      ensures forall i :: 0 <= i < |handles| ==>
                handles[i].id < |endpoints| && handles[i].url == endpoints[handles[i].id].url
    {
      hide Candidates, ReserveAll, EndpointIds, Chosen;
      var picked;
      picked, ranking := Offer(candidates, limit, slack);
      ghost var ids := EndpointIds(picked);
      ChosenIdsUsable(ranking, scored, now, old(rotation), limit);
      handles := ReservePicked(picked, now, scored, ids);
      assert HandleIds(handles) == ids;
    }

    /** The lookup by id. */
    method Endpoint(id: int) returns (ep: RpcEndpoint?)
      requires Valid()
      ensures 0 <= id < |endpoints| ==> ep == endpoints[id]
      ensures !(0 <= id < |endpoints|) ==> ep == null
    {
      for i := 0 to |endpoints|
        invariant !(0 <= id < i)
      {
        if endpoints[i].id == id {
          return endpoints[i];
        }
      }
      ep := null;
    }

    method RecordSuccess(id: int, latency: nat, now: int)
      requires Valid()
      modifies endpoints
      ensures Runs.Step(old(Snapshot()), Runs.Move(now, Runs.RecordSuccess(id, latency), Snapshot()))
    {
      hide Succeeded;
      ghost var before := StatesOf(endpoints);
      var ep := Endpoint(id);
      if ep == null {
        return;
      }
      ep.RecordSuccess(latency, now);
      StatesAre(endpoints, before[id := Succeeded(before[id], latency, now)]);
    }

    method RecordFailure(id: int, kind: FailureKind, now: int)
      requires Valid()
      modifies endpoints
      ensures Runs.Step(old(Snapshot()), Runs.Move(now, Runs.RecordFailure(id, kind), Snapshot()))
    {
      hide Failed;
      ghost var before := StatesOf(endpoints);
      var ep := Endpoint(id);
      if ep == null {
        return;
      }
      ep.RecordFailure(kind, now);
      StatesAre(endpoints, before[id := Failed(before[id], kind, now)]);
    }

    method ScoreOrUncool(now: int, ghost before: seq<EndpointState>)
        returns (candidates: seq<Scored>, ghost scored: seq<EndpointState>)
      requires Valid() && Matches(endpoints, before)
      modifies endpoints
      ensures scored == AfterScoring(before, now) && Matches(endpoints, scored)
      ensures candidates == Candidates(scored, now)
    {
      candidates := ScoreAll(now, before);
      scored := SettleAll(before, now);
      if |candidates| == 0 {
        candidates := UncoolAndScoreAll(now, scored);
        scored := UncoolAll(scored, now);
      }
    }

    method ReserveAt(i: nat, now: int, ghost before: seq<EndpointState>) returns (handle: Handle)
      requires Valid() && Matches(endpoints, before) && i < |endpoints|
      modifies endpoints[i]
      ensures Matches(endpoints, before[i := Reserved(before[i], now)])
      ensures handle == Handle(i, endpoints[i].url)
    {
      assert forall k :: 0 <= k < |endpoints| && k != i ==> endpoints[k] != endpoints[i];
      endpoints[i].Reserve(now);
      handle := Handle(endpoints[i].id, endpoints[i].url);
    }

    /** The last loop of sendCandidates. */
    method ReservePicked(picked: seq<Scored>, now: int, ghost before: seq<EndpointState>, ghost ids: seq<nat>)
        returns (handles: seq<Handle>)
      requires Valid() && Matches(endpoints, before)
      requires ids == EndpointIds(picked) && Distinct(ids)
      requires forall i :: 0 <= i < |ids| ==> ids[i] < |endpoints|
      modifies endpoints
      ensures Matches(endpoints, ReserveAll(before, ids, now))
      ensures |handles| == |ids|
      ensures forall i :: 0 <= i < |handles| ==> handles[i] == Handle(ids[i], endpoints[ids[i]].url)
    {
      hide Reserved, ReserveAll, EndpointIds;
      ReserveNone(before, now);
      handles := [];
      for j := 0 to |picked|
        invariant |handles| == j
        invariant forall i :: 0 <= i < j ==> handles[i] == Handle(ids[i], endpoints[ids[i]].url)
        invariant Matches(endpoints, ReserveAll(before, ids[..j], now))
      {
        ReserveStep(before, ids, j, now);
        var handle := ReserveAt(picked[j].ep, now, ReserveAll(before, ids[..j], now));
        handles := handles + [handle];
      }
      assert ids[..|picked|] == ids;
    }
  }

  lemma StatesAre(endpoints: seq<RpcEndpoint>, states: seq<EndpointState>)
    requires Matches(endpoints, states)
    ensures StatesOf(endpoints) == states
  {
  }

  lemma SendStepHolds(s: FleetState, limit: int, now: int, ranking: seq<Scored>, ids: seq<nat>, s': FleetState)
    requires RanksCandidates(ranking, AfterScoring(s.endpoints, now), now)
    requires ids == EndpointIds(Chosen(ranking, s.rotation, limit))
    requires s'.endpoints == ReserveAll(AfterScoring(s.endpoints, now), ids, now)
    requires s'.rotation == if |ranking| >= 2 then (s.rotation + 1) % UINT64_LIMIT else s.rotation
    ensures SendStep(s, limit, now, ranking, ids, s')
  {
  }

  lemma ReserveNone(before: seq<EndpointState>, now: int)
    ensures ReserveAll(before, [], now) == before
  {
  }

  lemma ReserveStep(before: seq<EndpointState>, ids: seq<nat>, j: nat, now: int)
    requires j < |ids| && ids[j] < |before| && Distinct(ids)
    ensures var states := ReserveAll(before, ids[..j], now);
            ReserveAll(before, ids[..j + 1], now) == states[ids[j] := Reserved(states[ids[j]], now)]
  {
    assert ids[..j + 1] == ids[..j] + [ids[j]];
    assert ids[j] !in ids[..j];
  }
}

/** The request limiters of internal/security/ratelimit.go. Times are seconds, as exact
    reals; the clock never goes back. Each limiter keeps a ghost history per key,
    and every decision is proved against that history alone. */
module TokenBucketSpec {

  /** One request: when, under which limit, and whether it was admitted. */
  datatype Request = Request(at: real, limit: int, admitted: bool)

  /** How many of the requests were admitted. */
  function Admitted(history: seq<Request>): (count: nat)
    ensures count <= |history|
  {
    if history == [] then 0
    else Admitted(history[1..]) + if history[0].admitted then 1 else 0
  }

  /** Tokens that drip in from one time to another. */
  function Drip(rate: real, since: real, now: real): real {
    rate * (now - since)
  }

  lemma DripAdds(rate: real, a: real, b: real, c: real)
    ensures Drip(rate, a, c) == Drip(rate, a, b) + Drip(rate, b, c)
    ensures Drip(rate, a, a) == 0.0
    ensures rate >= 0.0 && b <= c ==> Drip(rate, a, b) <= Drip(rate, a, c)
  {
  }

  /** The bucket's specification: a request is admitted if and only if, counted from
      every request of the history (and from itself), the admissions so far leave room
      for one more under that request's limit plus what has dripped in since. */
  ghost predicate Conforms(history: seq<Request>, limit: int, now: real, rate: real) {
    limit >= 1
    && forall i :: 0 <= i < |history| ==>
         Admitted(history[i..]) as real + 1.0 <= history[i].limit as real + Drip(rate, history[i].at, now)
  }

  /** `tokens` is the least of what every request of the history leaves at `now`. */
  ghost predicate IsLevel(history: seq<Request>, now: real, rate: real, tokens: real) {
    (forall i :: 0 <= i < |history| ==> tokens <= Room(history, i, now, rate))
    && exists i :: 0 <= i < |history| && tokens == Room(history, i, now, rate)
  }

  /** What the requests from i on leave of the limit of request i. */
  ghost function Room(history: seq<Request>, i: nat, now: real, rate: real): real
    requires i < |history|
  {
    history[i].limit as real + Drip(rate, history[i].at, now) - Admitted(history[i..]) as real
  }

  lemma {:induction false} AdmittedAppend(history: seq<Request>, r: Request)
    ensures Admitted(history + [r]) == Admitted(history) + if r.admitted then 1 else 0
  {
    if history == [] {
      assert history + [r] == [r];
    } else {
      AdmittedAppend(history[1..], r);
      assert (history + [r])[1..] == history[1..] + [r];
    }
  }

  lemma RoomAfter(history: seq<Request>, r: Request, i: nat, now: real, rate: real)
    requires i < |history|
    ensures Room(history + [r], i, now, rate) == Room(history, i, now, rate) - if r.admitted then 1.0 else 0.0
  {
    assert (history + [r])[i..] == history[i..] + [r];
    AdmittedAppend(history[i..], r);
  }

  lemma RoomDrips(history: seq<Request>, i: nat, before: real, now: real, rate: real)
    requires i < |history|
    ensures Room(history, i, now, rate) == Room(history, i, before, rate) + Drip(rate, before, now)
  {
    DripAdds(rate, history[i].at, before, now);
  }

  function Min(a: real, b: real): real {
    if a < b then a else b
  }

  /** Time alone raises the level by what drips in. */
  lemma LevelDrips(history: seq<Request>, before: real, tokens: real, now: real, rate: real)
    requires IsLevel(history, before, rate, tokens)
    ensures IsLevel(history, now, rate, tokens + Drip(rate, before, now)) && history != []
  {
    hide Room, Drip;
    forall i | 0 <= i < |history|
      ensures Room(history, i, now, rate) == Room(history, i, before, rate) + Drip(rate, before, now)
    {
      RoomDrips(history, i, before, now, rate);
    }
  }

  /** A bucket that holds its level, capped at the limit, admits exactly when the
      specification says so. */
  lemma LevelDecides(history: seq<Request>, now: real, level: real, limit: int, rate: real)
    requires history == [] || IsLevel(history, now, rate, level)
    ensures (if history == [] then limit as real else Min(limit as real, level)) >= 1.0
       <==> Conforms(history, limit, now, rate)
  {
    hide Drip;
    if history != [] && level < 1.0 {
      var i :| 0 <= i < |history| && level == Room(history, i, now, rate);
    }
    forall i | 0 <= i < |history| && level >= 1.0
      ensures Admitted(history[i..]) as real + 1.0 <= history[i].limit as real + Drip(rate, history[i].at, now)
    {
      assert Room(history, i, now, rate) >= 1.0;
    }
  }

  /** The request just decided joins the history; the bucket stays at its level. */
  lemma LevelRecords(history: seq<Request>, now: real, level: real, limit: int, rate: real, ok: bool)
    requires history == [] || IsLevel(history, now, rate, level)
    ensures var refilled := if history == [] then limit as real else Min(limit as real, level);
            IsLevel(history + [Request(now, limit, ok)], now, rate, refilled - if ok then 1.0 else 0.0)
  {
    hide Drip, Room;
    var n, r := |history|, Request(now, limit, ok);
    RoomsAfter(history, r, rate);
    if history != [] {
      var i :| 0 <= i < n && level == Room(history, i, now, rate);
      assert Room(history + [r], i, now, rate) == level - if ok then 1.0 else 0.0;
    }
  }

  lemma RoomsAfter(history: seq<Request>, r: Request, rate: real)
    ensures var taken := if r.admitted then 1.0 else 0.0;
            && (forall i :: 0 <= i < |history| ==>
                  Room(history + [r], i, r.at, rate) == Room(history, i, r.at, rate) - taken)
            && Room(history + [r], |history|, r.at, rate) == r.limit as real - taken
  {
    hide Drip;
    assert (history + [r])[|history|..] == [r] && [r][1..] == [];
    DripAdds(rate, r.at, r.at, r.at);
    hide Room;
    forall i | 0 <= i < |history|
      ensures Room(history + [r], i, r.at, rate) == Room(history, i, r.at, rate) - if r.admitted then 1.0 else 0.0
    {
      RoomAfter(history, r, i, r.at, rate);
    }
  }

  // ---- what a run of conforming decisions guarantees ------------------------------

  /** Every decision of the history was the specified one, under one limit. */
  ghost predicate Faithful(history: seq<Request>, limit: int, rate: real) {
    (forall i, j :: 0 <= i < j < |history| ==> history[i].at <= history[j].at)
    && forall i :: 0 <= i < |history| ==>
         history[i].limit == limit
         && (history[i].admitted <==> Conforms(history[..i], limit, history[i].at, rate))
  }

  /** An admitted request found room under every earlier request. */
  lemma AdmittedFoundRoom(history: seq<Request>, limit: int, rate: real, i: nat, j: nat)
    requires Faithful(history, limit, rate) && i <= j < |history| && history[j].admitted
    ensures Admitted(history[i..j]) as real + 1.0 <= limit as real + Drip(rate, history[i].at, history[j].at)
  {
    hide Drip, Admitted;
    assert Conforms(history[..j], limit, history[j].at, rate);
    if i == j {
      assert history[i..j] == [];
      NoneAdmitted();
      DripAdds(rate, history[i].at, history[i].at, history[i].at);
    } else {
      assert history[..j][i] == history[i] && history[..j][i..] == history[i..j];
    }
  }

  lemma NoneAdmitted()
    ensures Admitted([]) == 0
  {
  }

  /** The burst bound: between any two requests, both included, at most the limit plus
      what drips in between them is admitted. */
  lemma {:induction false} AtMostBurstPlusDrip(history: seq<Request>, limit: int, rate: real, i: nat, j: nat)
    requires Faithful(history, limit, rate) && limit >= 0 && rate >= 0.0
    requires i <= j < |history|
    ensures Admitted(history[i..j + 1]) as real <= limit as real + Drip(rate, history[i].at, history[j].at)
    decreases j - i
  {
    assert history[i..j + 1] == history[i..j] + [history[j]];
    AdmittedAppend(history[i..j], history[j]);
    hide Drip, Admitted, Conforms;
    if history[j].admitted {
      AdmittedFoundRoom(history, limit, rate, i, j);
    } else if i == j {
      assert history[i..j] == [];
      NoneAdmitted();
      DripAdds(rate, history[i].at, history[i].at, history[i].at);
    } else {
      AtMostBurstPlusDrip(history, limit, rate, i, j - 1);
      assert history[i..j - 1 + 1] == history[i..j];
      DripAdds(rate, history[i].at, history[j - 1].at, history[j].at);
    }
  }

  /** The requests of the history that were admitted, by position. */
  ghost function AdmittedAt(history: seq<Request>): set<nat> {
    set i: nat | i < |history| && history[i].admitted
  }

  lemma {:induction false} AdmittedCounts(history: seq<Request>)
    ensures Admitted(history) == |AdmittedAt(history)|
  {
    if history != [] {
      var m := |history| - 1;
      AdmittedCounts(history[..m]);
      hide Admitted, AdmittedAt;
      AdmittedAppend(history[..m], history[m]);
      assert history == history[..m] + [history[m]];
      LastAdmitted(history);
    }
  }

  lemma LastAdmitted(history: seq<Request>)
    requires history != []
    ensures var m := |history| - 1;
            |AdmittedAt(history)| == |AdmittedAt(history[..m])| + if history[m].admitted then 1 else 0
  {
    var m := |history| - 1;
    var init := AdmittedAt(history[..m]);
    assert m !in init;
    assert AdmittedAt(history) == if history[m].admitted then init + {m} else init;
  }

  /** Of requests that all come at one moment to a new bucket the first `limit` are admitted
      and all others refused. */
  lemma {:induction false} BurstAdmitsLimit(history: seq<Request>, limit: int, rate: real, j: nat)
    requires Faithful(history, limit, rate) && j < |history|
    requires forall i :: 0 <= i < |history| ==> history[i].at == history[0].at
    ensures history[j].admitted <==> j < limit
  {
    var before, now := history[..j], history[j].at;
    forall i | 0 <= i < j
      ensures history[i].admitted <==> i < limit
    {
      BurstAdmitsLimit(history, limit, rate, i);
    }
    hide Admitted, Drip;
    DripAdds(rate, now, now, now);
    forall i | 0 <= i < j
      ensures Drip(rate, before[i].at, now) == 0.0
      ensures i < limit ==> Admitted(before[i..]) == if j <= limit then j - i else limit - i
    {
      if i < limit {
        AdmittedFrom(before, limit, i);
      }
    }
    assert Conforms(before, limit, now, rate) <==> j < limit by {
      assert limit >= 1 && j >= limit ==> Admitted(before[0..]) == limit && before[0].limit == limit;
      if j >= limit >= 1 {
        assert !Conforms(before, limit, now, rate);
      }
    }
  }

  lemma {:induction false} AdmittedFrom(history: seq<Request>, limit: nat, i: nat)
    requires forall k :: 0 <= k < |history| ==> (history[k].admitted <==> k < limit)
    requires i < limit && i <= |history|
    ensures Admitted(history[i..]) == if |history| <= limit then |history| - i else limit - i
    decreases |history|
  {
    if i == |history| {
    } else {
      var m := |history| - 1;
      AdmittedFrom(history[..m], limit, i);
      assert history[i..] == history[..m][i..] + [history[m]];
      AdmittedAppend(history[..m][i..], history[m]);
    }
  }

  /** Every gap between neighbours lets at least one token drip in. */
  predicate SpacedApart(history: seq<Request>, rate: real) {
    forall i :: 0 < i < |history| ==> rate * (history[i].at - history[i - 1].at) >= 1.0
  }

  /** Requests at least one drip apart are never refused. */
  lemma {:induction false} SpacedNeverRefused(history: seq<Request>, limit: int, rate: real, j: nat)
    requires Faithful(history, limit, rate) && limit >= 1 && SpacedApart(history, rate)
    requires j < |history|
    ensures history[j].admitted
  {
    hide Drip, Admitted, SpacedApart;
    var before := history[..j];
    forall i | 0 <= i < |before|
      ensures Admitted(before[i..]) as real + 1.0 <= before[i].limit as real + Drip(rate, before[i].at, history[j].at)
    {
      SpacingAdds(history, rate, i, j);
      assert |before[i..]| == j - i && before[i] == history[i];
    }
    assert Conforms(before, limit, history[j].at, rate);
  }

  lemma {:induction false} SpacingAdds(history: seq<Request>, rate: real, i: nat, j: nat)
    requires i <= j < |history| && SpacedApart(history, rate)
    ensures Drip(rate, history[i].at, history[j].at) >= (j - i) as real
    decreases j - i
  {
    if i < j {
      SpacingAdds(history, rate, i, j - 1);
      DripAdds(rate, history[i].at, history[j - 1].at, history[j].at);
    } else {
      DripAdds(rate, history[i].at, history[i].at, history[i].at);
    }
  }

  lemma FaithfulExtends(history: seq<Request>, limit: int, rate: real, r: Request)
    requires Faithful(history, limit, rate)
    requires history != [] ==> history[|history| - 1].at <= r.at
    requires r.limit == limit && (r.admitted <==> Conforms(history, limit, r.at, rate))
    ensures Faithful(history + [r], limit, rate)
  {
    hide Conforms;
    var longer := history + [r];
    assert longer[..|history|] == history;
    assert forall i :: 0 <= i < |history| ==> longer[..i] == history[..i];
  }
}

/** The token bucket limiter. */
module TokenBucketClass {
  import opened TokenBucketSpec

  datatype Bucket = Bucket(tokens: real, lastRefill: real)

  /** Every bucket holds the level its history leaves. */
  ghost predicate AllLevels(buckets: map<string, Bucket>, history: map<string, seq<Request>>, rate: real) {
    history.Keys == buckets.Keys
    && forall k :: k in buckets ==> IsLevel(history[k], buckets[k].lastRefill, rate, buckets[k].tokens)
  }

  lemma LevelsUpdate(buckets: map<string, Bucket>, history: map<string, seq<Request>>, rate: real, key: string,
                     bucket: Bucket, requests: seq<Request>)
    requires AllLevels(buckets, history, rate) && IsLevel(requests, bucket.lastRefill, rate, bucket.tokens)
    ensures AllLevels(buckets[key := bucket], history[key := requests], rate)
  {
    hide IsLevel;
  }

  lemma LevelOf(buckets: map<string, Bucket>, history: map<string, seq<Request>>, rate: real, key: string)
    requires AllLevels(buckets, history, rate)
    ensures key in buckets <==> key in history
    ensures key in buckets ==> IsLevel(history[key], buckets[key].lastRefill, rate, buckets[key].tokens)
  {
    hide IsLevel;
  }

  class TokenBucket {
    var buckets: map<string, Bucket>
    const rate: real
    const burst: int
    /** Every request of a key since its bucket was made. */
    ghost var history: map<string, seq<Request>>

    constructor (rate: real, burst: int)
      requires rate >= 0.0
      ensures Valid() && this.rate == rate && this.burst == burst && buckets == map[]
    {
      this.rate, this.burst, buckets, history := rate, burst, map[], map[];
    }

    ghost predicate Valid()
      reads this
    {
      rate >= 0.0 && AllLevels(buckets, history, rate)
    }

    ghost function HistoryOf(key: string): seq<Request>
      reads this
    {
      if key in history then history[key] else []
    }

    /** AllowWithLimit. `created` is the clock reading a new bucket starts from, `now`
        the reading of the refill. The window argument plays no part. */
    method AllowWithLimit(key: string, limit: int, window: real, created: real, now: real) returns (ok: bool)
      requires Valid() && created <= now
      modifies this
      ensures Valid()
      ensures ok <==> Conforms(old(HistoryOf(key)), limit, now, rate)
      ensures history == old(history)[key := old(HistoryOf(key)) + [Request(now, limit, ok)]]
      ensures buckets.Keys == old(buckets.Keys) + {key}
      ensures forall k :: k in old(buckets) && k != key ==> buckets[k] == old(buckets[k])
    {
      hide IsLevel, Conforms, Drip, AllLevels;
      ghost var requests := HistoryOf(key);
      LevelOf(buckets, history, rate, key);
      var bucket := if key in buckets then buckets[key] else Bucket(limit as real, created);
      NewBucketStaysFull(limit as real, rate, created, now);
      var elapsed := now - bucket.lastRefill;
      ghost var level := bucket.tokens + Drip(rate, bucket.lastRefill, now);
      if key in buckets {
        LevelDrips(requests, bucket.lastRefill, bucket.tokens, now, rate);
      }
      LevelDecides(requests, now, level, limit, rate);
      DripIs(rate, bucket.lastRefill, now);
      assert bucket.tokens + elapsed * rate == level;
      bucket := Bucket(Min(limit as real, bucket.tokens + elapsed * rate), now);
      if bucket.tokens >= 1.0 {
        bucket := bucket.(tokens := bucket.tokens - 1.0);
        ok := true;
      } else {
        ok := false;
      }
      LevelRecords(requests, now, level, limit, rate, ok);
      LevelsUpdate(buckets, history, rate, key, bucket, requests + [Request(now, limit, ok)]);
      buckets := buckets[key := bucket];
      history := history[key := requests + [Request(now, limit, ok)]];
    }

    /** Allow uses the limiter's own limit; its history stays the one of a limiter that
        always decided as specified. */
    method Allow(key: string, created: real, now: real) returns (ok: bool)
      requires Valid() && created <= now
      modifies this
      ensures Valid()
      ensures ok <==> Conforms(old(HistoryOf(key)), burst, now, rate)
      ensures history == old(history)[key := old(HistoryOf(key)) + [Request(now, burst, ok)]]
      ensures var requests := old(HistoryOf(key));
              Faithful(requests, burst, rate) && (requests != [] ==> requests[|requests| - 1].at <= now)
              ==> Faithful(HistoryOf(key), burst, rate)
    {
      hide Faithful, Conforms, IsLevel, AllLevels;
      ghost var requests := HistoryOf(key);
      ok := AllowWithLimit(key, burst, 1.0, created, now);
      if Faithful(requests, burst, rate) && (requests != [] ==> requests[|requests| - 1].at <= now) {
        FaithfulExtends(requests, burst, rate, Request(now, burst, ok));
      }
    }

    method Reset(key: string)
      requires Valid()
      modifies this
      ensures Valid() && HistoryOf(key) == [] && key !in buckets
      ensures buckets == old(buckets) - {key} && history == old(history) - {key}
    {
      buckets := buckets - {key};
      history := history - {key};
    }
  }

  lemma DripIs(rate: real, since: real, now: real)
    ensures Drip(rate, since, now) == (now - since) * rate
  {
  }

  lemma NewBucketStaysFull(limit: real, rate: real, created: real, now: real)
    requires rate >= 0.0 && created <= now
    ensures Min(limit, limit + Drip(rate, created, now)) == limit
  {
    assert (now - created) * rate >= 0.0;
  }
}

/** What a sliding window admits, told by the log of admissions alone. */
module SlidingWindowSpec {
  import opened Wrappers

  /** The log entries after a cutoff. */
  function After(log: seq<real>, cutoff: real): (late: seq<real>) {
    if log == [] then []
    else
      var last := log[|log| - 1];
      After(log[..|log| - 1], cutoff) + if last > cutoff then [last] else []
  }

  /** The log entries in (from, to]. */
  function Within(log: seq<real>, from: real, to: real): (inside: seq<real>) {
    if log == [] then []
    else
      var last := log[|log| - 1];
      Within(log[..|log| - 1], from, to) + if from < last <= to then [last] else []
  }

  /** The positions of the entries later than `from` and, if there is one, than `floor`. */
  ghost function Recent(log: seq<real>, from: real, floor: Option<real>): set<nat> {
    set i: nat | i < |log| && log[i] > from && (floor.Some? ==> log[i] > floor.value)
  }

  /** The positions of the entries in (from, to]. */
  ghost function Between(log: seq<real>, from: real, to: real): set<nat> {
    set i: nat | i < |log| && from < log[i] <= to
  }

  /** After keeps every entry above the cutoff as often as it occurs, and no other; as many
      as there are such positions. */
  lemma {:induction false} AfterIsExact(log: seq<real>, cutoff: real)
    ensures forall x :: multiset(After(log, cutoff))[x] == if x > cutoff then multiset(log)[x] else 0
    ensures |After(log, cutoff)| == |Recent(log, cutoff, None)|
  {
    if log != [] {
      var init, last := log[..|log| - 1], log[|log| - 1];
      AfterIsExact(init, cutoff);
      assert log == init + [last];
      LastRecent(log, cutoff);
      hide Recent;
    }
  }

  lemma LastRecent(log: seq<real>, cutoff: real)
    requires log != []
    ensures var m := |log| - 1;
            |Recent(log, cutoff, None)| == |Recent(log[..m], cutoff, None)| + if log[m] > cutoff then 1 else 0
  {
    var m := |log| - 1;
    var init := Recent(log[..m], cutoff, None);
    assert m !in init;
    assert Recent(log, cutoff, None) == if log[m] > cutoff then init + {m} else init;
  }

  predicate InOrder(log: seq<real>) {
    forall i, j :: 0 <= i < j < |log| ==> log[i] <= log[j]
  }

  /** Of a log in time order it keeps the end, as it is. */
  lemma {:induction false} AfterIsEnd(log: seq<real>, cutoff: real) returns (n: nat)
    requires InOrder(log)
    ensures n <= |log| && After(log, cutoff) == log[n..]
    ensures forall i :: 0 <= i < n ==> log[i] <= cutoff
    ensures forall i :: n <= i < |log| ==> log[i] > cutoff
  {
    n := 0;
    if log != [] {
      var init, last := log[..|log| - 1], log[|log| - 1];
      n := AfterIsEnd(init, cutoff);
      LastIsLate(log, n, cutoff);
      n := if last > cutoff then n else |log|;
    }
  }

  lemma LastIsLate(log: seq<real>, n: nat, cutoff: real)
    requires InOrder(log) && log != [] && n < |log|
    requires forall i :: n <= i < |log| - 1 ==> log[i] > cutoff
    ensures var m := |log| - 1;
            if log[m] > cutoff then log[n..] == log[..m][n..] + [log[m]] else n == m && log[..m][n..] == []
  {
    assert n < |log| - 1 ==> log[n] <= log[|log| - 1];
  }

  lemma NoneRecent(log: seq<real>, cutoff: real)
    requires forall t :: t in log ==> t <= cutoff
    ensures Recent(log, cutoff, None) == {}
  {
    assert forall i :: 0 <= i < |log| ==> log[i] in log;
  }

  lemma {:induction false} WithinCounts(log: seq<real>, from: real, to: real)
    ensures |Within(log, from, to)| == |Between(log, from, to)|
  {
    if log != [] {
      var init, last := log[..|log| - 1], log[|log| - 1];
      WithinCounts(init, from, to);
      LastBetween(log, from, to);
      hide Between;
    }
  }

  lemma LastBetween(log: seq<real>, from: real, to: real)
    requires log != []
    ensures var m := |log| - 1;
            |Between(log, from, to)| == |Between(log[..m], from, to)| + if from < log[m] <= to then 1 else 0
  {
    var m := |log| - 1;
    var init := Between(log[..m], from, to);
    assert m !in init;
    assert Between(log, from, to) == if from < log[m] <= to then init + {m} else init;
  }

  /** An admission log the limiter can produce: in time order, and every admission but
      the first found fewer than `limit` admissions in the window before it. */
  ghost predicate Throttled(log: seq<real>, limit: int, window: real) {
    (forall i, j :: 0 <= i < j < |log| ==> log[i] <= log[j])
    && forall i :: 0 < i < |log| ==> |After(log[..i], log[i] - window)| < limit
  }

  lemma {:induction false} AfterTwice(log: seq<real>, c1: real, c2: real)
    ensures After(After(log, c1), c2) == After(log, if c1 < c2 then c2 else c1)
  {
    if log != [] {
      var init, last := log[..|log| - 1], log[|log| - 1];
      AfterTwice(init, c1, c2);
      if last > c1 {
        var kept := After(init, c1);
        assert (kept + [last])[..|kept + [last]| - 1] == kept;
      } else {
        assert After(init, c1) + [] == After(init, c1);
      }
    }
  }

  lemma {:induction false} WithinIsLate(log: seq<real>, from: real, to: real, cutoff: real)
    requires cutoff <= from
    ensures |Within(log, from, to)| <= |After(log, cutoff)|
  {
    if log != [] {
      WithinIsLate(log[..|log| - 1], from, to, cutoff);
    }
  }

  lemma {:induction false} NoneWithin(log: seq<real>, from: real, to: real)
    requires forall i :: 0 <= i < |log| ==> log[i] <= from
    ensures Within(log, from, to) == []
  {
    if log != [] {
      NoneWithin(log[..|log| - 1], from, to);
    }
  }

  /** Main result: no window-long interval (from, from + window], wherever it starts,
      holds more than `limit` admissions. */
  lemma {:induction false} AtMostLimitInAnyWindow(log: seq<real>, limit: int, window: real, from: real)
    requires Throttled(log, limit, window) && limit >= 1
    ensures |Within(log, from, from + window)| <= limit
    ensures |Between(log, from, from + window)| <= limit
  {
    WithinCounts(log, from, from + window);
    hide Throttled, After, Between;
    if log != [] {
      var init, last := log[..|log| - 1], log[|log| - 1];
      ThrottledPrefix(log, limit, window);
      if last <= from {
        NoneWithin(log, from, from + window);
      } else if last > from + window {
        AtMostLimitInAnyWindow(init, limit, window, from);
      } else if init != [] {
        WithinIsLate(init, from, from + window, last - window);
      }
    }
  }

  lemma ThrottledPrefix(log: seq<real>, limit: int, window: real)
    requires Throttled(log, limit, window) && log != []
    ensures Throttled(log[..|log| - 1], limit, window)
    ensures forall i :: 0 <= i < |log| ==> log[i] <= log[|log| - 1]
    ensures |log| > 1 ==> |After(log[..|log| - 1], log[|log| - 1] - window)| < limit
  {
    hide After;
    var init := log[..|log| - 1];
    assert forall i :: 0 <= i < |init| ==> init[..i] == log[..i] && init[i] == log[i];
  }

  lemma ThrottledExtends(log: seq<real>, limit: int, window: real, now: real)
    requires Throttled(log, limit, window)
    requires log == [] || (log[|log| - 1] <= now && |After(log, now - window)| < limit)
    ensures Throttled(log + [now], limit, window)
  {
    hide After;
    var longer := log + [now];
    forall i | 0 < i < |longer|
      ensures |After(longer[..i], longer[i] - window)| < limit
    {
      assert longer[..i] == log[..i];
      assert log[..|log|] == log;
    }
  }

  lemma ThrottledStarts(limit: int, window: real, now: real)
    ensures Throttled([], limit, window) && Throttled([now], limit, window)
  {
  }
}

/** The sliding window limiter. */
module SlidingWindowClass {
  import opened Wrappers
  import opened SlidingWindowSpec

  class SlidingWindow {
    var windows: map<string, seq<real>>
    const limit: int
    const window: real
    /** Every admission of a key since its entry was made. */
    ghost var log: map<string, seq<real>>
    /** The latest cutoff a key was pruned at. */
    ghost var pruned: map<string, Option<real>>

    constructor (limit: int, window: real)
      ensures Valid() && this.limit == limit && this.window == window && windows == map[]
    {
      this.limit, this.window := limit, window;
      windows, log, pruned := map[], map[], map[];
    }

    /** The list of a key is its whole admission log, cut at the latest cutoff. */
    ghost predicate Valid()
      reads this
    {
      AllCut(windows, log, pruned)
    }

    static ghost predicate AllCut(windows: map<string, seq<real>>, log: map<string, seq<real>>,
                                  pruned: map<string, Option<real>>)
    {
      && log.Keys == windows.Keys == pruned.Keys
      && forall k :: k in windows ==> windows[k] == Cut(log[k], pruned[k])
    }

    static lemma CutUpdate(windows: map<string, seq<real>>, log: map<string, seq<real>>,
                           pruned: map<string, Option<real>>, key: string, list: seq<real>, admitted: seq<real>,
                           cutoff: Option<real>)
      requires AllCut(windows, log, pruned) && list == Cut(admitted, cutoff)
      ensures AllCut(windows[key := list], log[key := admitted], pruned[key := cutoff])
    {
      hide Cut;
    }

    static ghost function Cut(log: seq<real>, cutoff: Option<real>): seq<real> {
      if cutoff.None? then log else After(log, cutoff.value)
    }

    static ghost function Latest(before: Option<real>, cutoff: real): real {
      if before.Some? && cutoff < before.value then before.value else cutoff
    }

    /** AllowWithLimit, under a clock that has passed every earlier cutoff of the key. */
    method AllowWithLimit(key: string, limit: int, window: real, now: real) returns (ok: bool)
      requires Valid() && window > 0.0
      requires key in pruned && pruned[key].Some? ==> pruned[key].value < now
      modifies this
      ensures Valid()
      ensures key !in old(windows) ==>
                ok && log == old(log)[key := [now]] && pruned == old(pruned)[key := None]
      ensures key in old(windows) ==>
                var cutoff := Latest(old(pruned[key]), now - window);
                && (ok <==> |After(old(log[key]), cutoff)| < limit)
                && log == (if ok then old(log)[key := old(log[key]) + [now]] else old(log))
                && pruned == old(pruned)[key := Some(cutoff)]
      ensures key in old(windows) ==> (ok <==> |Recent(old(log[key]), now - window, old(pruned[key]))| < limit)
      ensures forall k :: k in old(windows) && k != key ==> k in windows && windows[k] == old(windows[k])
    {
      hide After, Cut, Latest, Recent, AllCut;
      var cutoff := now - window;
      OfKey(windows, log, pruned, key);
      if key !in windows {
        CutAgain([], None, cutoff, now);
        CutUpdate(windows, log, pruned, key, [now], [now], None);
        windows, log, pruned := windows[key := [now]], log[key := [now]], pruned[key := None];
        return true;
      }
      var valid := Filter(windows[key], cutoff);
      LatestCounts(log[key], pruned[key], cutoff);
      ghost var latest := Some(Latest(pruned[key], cutoff));
      CutAgain(log[key], pruned[key], cutoff, now);
      if |valid| >= limit {
        CutUpdate(windows, log, pruned, key, valid, log[key], latest);
        assert log[key := log[key]] == log;
        windows, pruned := windows[key := valid], pruned[key := latest];
        return false;
      }
      CutUpdate(windows, log, pruned, key, valid + [now], log[key] + [now], latest);
      windows, log, pruned := windows[key := valid + [now]], log[key := log[key] + [now]], pruned[key := latest];
      return true;
    }

    static lemma OfKey(windows: map<string, seq<real>>, log: map<string, seq<real>>,
                       pruned: map<string, Option<real>>, key: string)
      requires AllCut(windows, log, pruned)
      ensures key in windows <==> key in log
      ensures key in windows <==> key in pruned
      ensures key in windows ==> windows[key] == Cut(log[key], pruned[key])
    {
    }

    static method Filter(requests: seq<real>, cutoff: real) returns (valid: seq<real>)
      ensures valid == After(requests, cutoff)
      ensures forall x :: multiset(valid)[x] == if x > cutoff then multiset(requests)[x] else 0
    {
      AfterIsExact(requests, cutoff);
      valid := [];
      for i := 0 to |requests|
        invariant valid == After(requests[..i], cutoff)
      {
        assert requests[..i + 1][..i] == requests[..i];
        if requests[i] > cutoff {
          valid := valid + [requests[i]];
        }
      }
      assert requests[..|requests|] == requests;
    }

    static lemma LatestCounts(requests: seq<real>, before: Option<real>, cutoff: real)
      ensures |After(requests, Latest(before, cutoff))| == |Recent(requests, cutoff, before)|
    {
      AfterIsExact(requests, Latest(before, cutoff));
      assert Recent(requests, Latest(before, cutoff), None) == Recent(requests, cutoff, before);
    }

    static lemma CutAgain(requests: seq<real>, before: Option<real>, cutoff: real, now: real)
      requires cutoff < now && (before.Some? ==> before.value < now)
      ensures var latest := Latest(before, cutoff);
              && After(Cut(requests, before), cutoff) == After(requests, latest)
              && Cut(requests, Some(latest)) == After(requests, latest)
              && Cut(requests + [now], Some(latest)) == After(requests, latest) + [now]
      ensures Cut([now], None) == [now]
    {
      assert (requests + [now])[..|requests|] == requests;
      if before.Some? {
        AfterTwice(requests, before.value, cutoff);
      }
    }

    /** Allow keeps one window, so every earlier cutoff of the key is at most this one:
        the list is exactly the admission log restricted to the current window, and a
        log that was throttled stays throttled. */
    method Allow(key: string, now: real) returns (ok: bool)
      requires Valid() && window > 0.0
      requires key in pruned && pruned[key].Some? ==> pruned[key].value <= now - window
      modifies this
      ensures Valid()
      ensures key !in old(windows) ==>
                ok && log == old(log)[key := [now]] && pruned == old(pruned)[key := None]
      ensures key in old(windows) ==>
                && (ok <==> |After(old(log[key]), now - window)| < limit)
                && log == (if ok then old(log)[key := old(log[key]) + [now]] else old(log))
                && windows[key] == After(log[key], now - window)
                && pruned == old(pruned)[key := Some(now - window)]
      ensures key in old(windows) ==> (ok <==> |Recent(old(log[key]), now - window, None)| < limit)
      ensures limit >= 1 && (key in old(windows) ==> forall t :: t in old(log[key]) ==> t <= now - window) ==> ok
      ensures var before := if key in old(log) then old(log[key]) else [];
              Throttled(before, limit, window) && (before != [] ==> before[|before| - 1] <= now)
              ==> Throttled(log[key], limit, window)
    {
      hide Throttled, After, Recent, Cut, Latest, AllCut;
      ghost var before, cutoffs := if key in log then log[key] else [], pruned;
      OfKey(windows, log, pruned, key);
      ok := AllowWithLimit(key, limit, window, now);
      OfKey(windows, log, pruned, key);
      if key in cutoffs {
        LatestCutoff(before, cutoffs[key], now - window);
        CutAt(log[key], now - window);
      }
      if forall t :: t in before ==> t <= now - window {
        NoneRecent(before, now - window);
      }
      if ok && Throttled(before, limit, window) && (before != [] ==> before[|before| - 1] <= now) {
        ThrottledExtends(before, limit, window, now);
      }
      ThrottledStarts(limit, window, now);
    }

    /** Under a clock that does not go back every earlier cutoff is covered by the new one. */
    static lemma LatestCutoff(requests: seq<real>, before: Option<real>, cutoff: real)
      requires before.Some? ==> before.value <= cutoff
      ensures Latest(before, cutoff) == cutoff
      ensures Recent(requests, cutoff, before) == Recent(requests, cutoff, None)
    {
    }

    static lemma CutAt(requests: seq<real>, cutoff: real)
      ensures Cut(requests, Some(cutoff)) == After(requests, cutoff)
    {
    }

    method Reset(key: string)
      requires Valid()
      modifies this
      ensures Valid() && key !in windows
      ensures windows == old(windows) - {key} && log == old(log) - {key} && pruned == old(pruned) - {key}
    {
      windows := windows - {key};
      log := log - {key};
      pruned := pruned - {key};
    }
  }
}
